/** The command line: `int.TryParse` of option values and `ParseArguments`,
    which turns the tokens after the file path into an option map. */
module Arguments {
  import opened Wrappers

  const Int32Min: int := -0x8000_0000
  const Int32Max: int := 0x7FFF_FFFF

  predicate IsInt32(n: int) {
    Int32Min <= n <= Int32Max
  }

  predicate IsDecimal(s: string) {
    forall k | 0 <= k < |s| :: '0' <= s[k] <= '9'
  }

  /** The number a string of decimal digits denotes. */
  function DecimalValue(s: string): nat
    requires IsDecimal(s)
  {
    if |s| == 0 then 0 else DecimalValue(s[..|s| - 1]) * 10 + (s[|s| - 1] as int - '0' as int)
  }

  /** The text of a number after its optional sign. */
  function Unsigned(s: string): string {
    if |s| > 0 && (s[0] == '-' || s[0] == '+') then s[1..] else s
  }

  /** `int.TryParse`: an optional sign followed by one or more decimal digits,
      accepted only when the value fits in 32 bits. */
  function ParseInt(s: string): (r: Option<int>)
    ensures r.Some? ==> IsInt32(r.value)
    ensures r.Some? ==> |Unsigned(s)| > 0 && IsDecimal(Unsigned(s))
    ensures r.Some? ==> r.value == if s[0] == '-' then -(DecimalValue(Unsigned(s)) as int) else DecimalValue(Unsigned(s))
    ensures r.None? ==> |Unsigned(s)| == 0 || !IsDecimal(Unsigned(s))
                        || !IsInt32(if s[0] == '-' then -(DecimalValue(Unsigned(s)) as int) else DecimalValue(Unsigned(s)))
  {
    var digits := Unsigned(s);
    if |digits| == 0 || !IsDecimal(digits) then None
    else
      var v: int := if s[0] == '-' then -(DecimalValue(digits) as int) else DecimalValue(digits);
      if IsInt32(v) then Some(v) else None
  }

  /** Leading zeros do not change the value of decimal digits. */
  lemma {:induction false} LeadingZero(t: string)
    requires IsDecimal(t)
    ensures IsDecimal("0" + t) && DecimalValue("0" + t) == DecimalValue(t)
  {
    if |t| > 0 {
      var init := t[..|t| - 1];
      LeadingZero(init);
      assert ("0" + t)[..|t|] == "0" + init;
    }
  }

  /** A zero in front of the digits, after the sign if any, is accepted and
      changes nothing: `010` is 10 and `-007` is -7. */
  lemma ParseIntLeadingZero(sign: string, t: string)
    requires sign == "" || sign == "-" || sign == "+"
    requires |t| > 0 && IsDecimal(t)
    ensures ParseInt(sign + "0" + t) == ParseInt(sign + t)
  {
    LeadingZero(t);
    assert Unsigned(sign + "0" + t) == "0" + t;
    assert Unsigned(sign + t) == t;
  }

  /** A plus sign is accepted and changes nothing. */
  lemma ParseIntPlus(t: string)
    requires |t| > 0 && IsDecimal(t)
    ensures ParseInt("+" + t) == ParseInt(t)
  {
    assert Unsigned("+" + t) == t;
  }

  /** The decimal digits of `n`, without leading zeros. */
  function DecimalDigits(n: nat): (r: string)
    ensures |r| >= 1 && IsDecimal(r) && DecimalValue(r) == n
  {
    var d := [(('0' as int) + n % 10) as char];
    if n < 10 then d
    else
      var r := DecimalDigits(n / 10) + d;
      assert r[..|r| - 1] == DecimalDigits(n / 10);
      r
  }

  /** `n.ToString()` in the invariant culture. */
  function IntToString(n: int): string {
    if n < 0 then "-" + DecimalDigits(-n) else DecimalDigits(n)
  }

  /** Every 32-bit value printed in decimal parses back to itself. */
  lemma ParseIntToString(n: int)
    requires IsInt32(n)
    ensures ParseInt(IntToString(n)) == Some(n)
  {
    if n < 0 {
      assert IntToString(n)[1..] == DecimalDigits(-n);
    }
  }

  const OptOctetsPerLine: string := "-c"
  const OptLittleEndian: string := "-e"
  const OptGroupSize: string := "-g"
  const OptLen: string := "-l"
  const OptRevert: string := "-r"
  const OptSeekOffset: string := "-s"

  /** The option names the tool knows. */
  const Options: set<string> := {OptOctetsPerLine, OptLittleEndian, OptGroupSize, OptLen, OptRevert, OptSeekOffset}

  /** The options that take no value; they are stored with value 0. */
  predicate IsSwitch(option: string) {
    option == OptLittleEndian || option == OptRevert
  }

  /** The two `ArgumentException`s `ParseArguments` throws. */
  datatype ArgError = InvalidOption(option: string) | MissingOrInvalidValue(option: string)

  /** `ParseArguments`: the first token (the file path) is skipped and the
      remaining ones are read as options. */
  function ParseArguments(args: seq<string>): (r: Result<map<string, int>, ArgError>)
    ensures r.Success? ==> forall o | o in r.value :: ValidValue(o, r.value[o])
    ensures |args| <= 1 ==> r == Success(map[])
  {
    if |args| <= 1 then Success(map[]) else ParseOptions(args[1..], map[])
  }

  /** Reads options from `tokens` into `acc`: a switch stores 0, any other
      option stores the value of the integer token after it, and a later
      occurrence overwrites an earlier one. */
  function ParseOptions(tokens: seq<string>, acc: map<string, int>): (r: Result<map<string, int>, ArgError>)
    ensures r.Success? ==> acc.Keys <= r.value.Keys <= acc.Keys + Options
    ensures r.Success? ==> forall o | o in r.value ::
              (o in acc && r.value[o] == acc[o]) || ValidValue(o, r.value[o])
    ensures r.Success? && |tokens| > 0 ==> tokens[0] in r.value
    ensures |tokens| > 0 && tokens[0] !in Options ==> r == Failure(InvalidOption(tokens[0]))
    decreases |tokens|
  {
    if |tokens| == 0 then Success(acc)
    else
      var option := tokens[0];
      if option !in Options then Failure(InvalidOption(option))
      else if IsSwitch(option) then ParseOptions(tokens[1..], acc[option := 0])
      else if |tokens| > 1 && ParseInt(tokens[1]).Some? then
        ParseOptions(tokens[2..], acc[option := ParseInt(tokens[1]).value])
      else Failure(MissingOrInvalidValue(option))
  }

  /** A value an option can be stored with: 0 for a switch and any 32-bit
      value for the others. */
  predicate ValidValue(option: string, value: int) {
    option in Options && (if IsSwitch(option) then value == 0 else IsInt32(value))
  }

  /** One option as it appears on a command line: for an option that takes a
      value, `text` is the token that spells the value. */
  datatype Setting = Setting(option: string, value: int, text: string)

  /** A setting a command line can express: a known option, value 0 for a
      switch, and otherwise a value token that `int.TryParse` reads as the value. */
  predicate ValidSetting(s: Setting) {
    s.option in Options && (if IsSwitch(s.option) then s.value == 0 else ParseInt(s.text) == Some(s.value))
  }

  /** The tokens that express `ss` in order. */
  function Render(ss: seq<Setting>): seq<string> {
    if |ss| == 0 then []
    else if IsSwitch(ss[0].option) then [ss[0].option] + Render(ss[1..])
    else [ss[0].option, ss[0].text] + Render(ss[1..])
  }

  /** The map of each option in `ss` to the value it is given last. */
  function Collect(ss: seq<Setting>): map<string, int> {
    if |ss| == 0 then map[]
    else Collect(ss[..|ss| - 1])[ss[|ss| - 1].option := ss[|ss| - 1].value]
  }

  /** The options `ss` names. */
  function OptionsOf(ss: seq<Setting>): set<string> {
    set j | 0 <= j < |ss| :: ss[j].option
  }

  /** No later setting in `ss` names the option of `ss[j]`. */
  predicate IsLastOccurrence(ss: seq<Setting>, j: int)
    requires 0 <= j < |ss|
  {
    forall j' | j < j' < |ss| :: ss[j'].option != ss[j].option
  }

  /** The options of a sequence are those of all but its last setting and
      the last one's. */
  lemma OptionsOfSnoc(ss: seq<Setting>)
    requires |ss| > 0
    ensures OptionsOf(ss) == OptionsOf(ss[..|ss| - 1]) + {ss[|ss| - 1].option}
  {
    var init := ss[..|ss| - 1];
    forall o | o in OptionsOf(ss)
      ensures o in OptionsOf(init) + {ss[|ss| - 1].option}
    {
      var j :| 0 <= j < |ss| && ss[j].option == o;
      if j < |init| {
        assert init[j].option == o;
      }
    }
    forall o | o in OptionsOf(init)
      ensures o in OptionsOf(ss)
    {
      var j :| 0 <= j < |init| && init[j].option == o;
      assert ss[j].option == o;
    }
  }

  /** The collected map holds exactly the options that occur. */
  lemma {:induction false} CollectKeys(ss: seq<Setting>)
    ensures Collect(ss).Keys == OptionsOf(ss)
  {
    if |ss| > 0 {
      CollectKeys(ss[..|ss| - 1]);
      OptionsOfSnoc(ss);
    }
  }

  /** The collected map holds exactly the options that occur, each with the
      value of its last occurrence. */
  lemma {:induction false} CollectLastWins(ss: seq<Setting>)
    ensures Collect(ss).Keys == OptionsOf(ss)
    ensures forall j | 0 <= j < |ss| && IsLastOccurrence(ss, j) :: Collect(ss)[ss[j].option] == ss[j].value
  {
    CollectKeys(ss);
    if |ss| > 0 {
      var init := ss[..|ss| - 1];
      CollectLastWins(init);
      var last := ss[|ss| - 1];
      var m := Collect(init);
      assert Collect(ss) == m[last.option := last.value];
      forall j | 0 <= j < |ss| && IsLastOccurrence(ss, j)
        ensures Collect(ss)[ss[j].option] == ss[j].value
      {
        if j < |init| {
          assert ss[j] == init[j];
          assert IsLastOccurrence(init, j);
          assert last.option != ss[j].option;
          assert m[ss[j].option] == ss[j].value;
        }
      }
    }
  }

  /** Collecting a setting before others is updating with it and then letting
      the others overwrite. */
  lemma {:induction false} CollectCons(s: Setting, ss: seq<Setting>)
    ensures Collect([s] + ss) == map[s.option := s.value] + Collect(ss)
    decreases |ss|
  {
    if |ss| > 0 {
      var init := ss[..|ss| - 1];
      assert ([s] + ss)[..|ss|] == [s] + init;
      CollectCons(s, init);
    } else {
      assert [s] + ss == [s];
    }
  }

  /** A command line made of valid settings after the file path parses into
      the map of their last occurrences. */
  lemma ParseArgumentsRendered(path: string, ss: seq<Setting>)
    requires forall j | 0 <= j < |ss| :: ValidSetting(ss[j])
    ensures ParseArguments([path] + Render(ss)) == Success(Collect(ss))
  {
    ParseArgumentsOf(path, Render(ss));
    ParsePrefixThen(ss, [], map[]);
    assert Render(ss) + [] == Render(ss);
    assert map[] + Collect(ss) == Collect(ss);
  }

  /** A value option at the very end, with nothing after it, is an error. */
  lemma ValueOptionWithoutValue(path: string, ss: seq<Setting>, option: string)
    requires forall j | 0 <= j < |ss| :: ValidSetting(ss[j])
    requires option in Options && !IsSwitch(option)
    ensures ParseArguments([path] + (Render(ss) + [option])) == Failure(MissingOrInvalidValue(option))
  {
    ParseArgumentsOf(path, Render(ss) + [option]);
    ParsePrefixThen(ss, [option], map[]);
    ParseLoneValueOption(option, map[] + Collect(ss));
  }

  /** A token that is not an option, after any valid settings, is an error. */
  lemma InvalidOptionAfterSettings(path: string, ss: seq<Setting>, token: string, rest: seq<string>)
    requires forall j | 0 <= j < |ss| :: ValidSetting(ss[j])
    requires token !in Options
    ensures ParseArguments([path] + (Render(ss) + ([token] + rest))) == Failure(InvalidOption(token))
  {
    ParseArgumentsOf(path, Render(ss) + ([token] + rest));
    ParsePrefixThen(ss, [token] + rest, map[]);
  }

  /** A value option followed by a token that is not a 32-bit integer, after
      any valid settings, is an error. */
  lemma ValueOptionWithBadValue(path: string, ss: seq<Setting>, option: string, value: string, rest: seq<string>)
    requires forall j | 0 <= j < |ss| :: ValidSetting(ss[j])
    requires option in Options && !IsSwitch(option) && ParseInt(value).None?
    ensures ParseArguments([path] + (Render(ss) + ([option, value] + rest))) == Failure(MissingOrInvalidValue(option))
  {
    ParseArgumentsOf(path, Render(ss) + ([option, value] + rest));
    ParsePrefixThen(ss, [option, value] + rest, map[]);
  }

  /** Everything after the file path is read as options, starting from no options. */
  lemma ParseArgumentsOf(path: string, rest: seq<string>)
    ensures ParseArguments([path] + rest) == ParseOptions(rest, map[])
  {
    assert ([path] + rest)[1..] == rest;
  }

  lemma ParseLoneValueOption(option: string, acc: map<string, int>)
    requires option in Options && !IsSwitch(option)
    ensures ParseOptions([option], acc) == Failure(MissingOrInvalidValue(option))
  {
  }

  /** After a rendered prefix the parser goes on with the rest of the tokens. */
  lemma {:induction false} ParsePrefixThen(ss: seq<Setting>, tail: seq<string>, acc: map<string, int>)
    requires forall j | 0 <= j < |ss| :: ValidSetting(ss[j])
    ensures ParseOptions(Render(ss) + tail, acc) == ParseOptions(tail, acc + Collect(ss))
  {
    if |ss| == 0 {
      assert Render(ss) + tail == tail;
      assert acc + map[] == acc;
    } else {
      var s, rest := ss[0], ss[1..];
      assert ss == [s] + rest;
      var acc' := acc[s.option := s.value];
      ParsePrefixThen(rest, tail, acc');
      ParseFirstSetting(s, rest, tail, acc);
      CollectCons(s, rest);
      UpdateThenUnion(acc, s.option, s.value, Collect(rest));
    }
  }

  /** The parser consumes the tokens of the first setting and stores it. */
  lemma ParseFirstSetting(s: Setting, rest: seq<Setting>, tail: seq<string>, acc: map<string, int>)
    requires ValidSetting(s)
    ensures ParseOptions(Render([s] + rest) + tail, acc) == ParseOptions(Render(rest) + tail, acc[s.option := s.value])
  {
    var ss := [s] + rest;
    assert ss[1..] == rest;
    if IsSwitch(s.option) {
      assert Render(ss) + tail == [s.option] + (Render(rest) + tail);
      ParseSwitch(s.option, Render(rest) + tail, acc);
    } else {
      assert Render(ss) + tail == [s.option, s.text] + (Render(rest) + tail);
      ParseValued(s.option, s.text, Render(rest) + tail, acc);
    }
  }

  lemma ParseSwitch(option: string, more: seq<string>, acc: map<string, int>)
    requires option in Options && IsSwitch(option)
    ensures ParseOptions([option] + more, acc) == ParseOptions(more, acc[option := 0])
  {
    assert ([option] + more)[1..] == more;
  }

  lemma ParseValued(option: string, value: string, more: seq<string>, acc: map<string, int>)
    requires option in Options && !IsSwitch(option) && ParseInt(value).Some?
    ensures ParseOptions([option, value] + more, acc) == ParseOptions(more, acc[option := ParseInt(value).value])
  {
    assert ([option, value] + more)[2..] == more;
  }

  lemma UpdateThenUnion(acc: map<string, int>, k: string, v: int, m: map<string, int>)
    ensures acc[k := v] + m == acc + (map[k := v] + m)
  {
  }
}
