/** The reverse direction of `RevertFile`: the text of a `.hex` dump read
    back into bytes. Lines are separated by carriage return plus line feed;
    only lines of at least 57 characters count, and of those only the
    characters at indexes 10 to 56, where a full 16-byte line with group
    size 1 keeps its digit pairs. */
module Reverter {
  import opened Wrappers
  import opened Text
  import opened Hex

  const HexSuffix: string := ".hex"
  const LineBreak: string := "\r\n"
  const TokenSeparator: string := " "
  /** The shortest line that is read; shorter ones are skipped. */
  const MinLineLength: int := 57
  /** `line[10..57]`: the characters that hold the digit pairs. */
  const WindowStart: int := 10
  const WindowEnd: int := 57

  /** The exceptions `RevertFile` throws: an `ArgumentException` for a path
      without the `.hex` suffix, and the exception of `Convert.ToByte` for a
      token that is not a byte in hexadecimal. */
  datatype RevertError = NotHexFile | BadToken(token: string, reason: ByteError)

  /** A token that is skipped (blank) or read as a byte. */
  predicate TokenOk(token: string) {
    AllWhiteSpace(token) || ToByte(token).Success?
  }

  /** The tokens that are not blank, in order. */
  function NonBlank(tokens: seq<string>): (r: seq<string>)
    ensures |r| <= |tokens|
    ensures forall k | 0 <= k < |r| :: !AllWhiteSpace(r[k])
  {
    if |tokens| == 0 then []
    else if AllWhiteSpace(tokens[0]) then NonBlank(tokens[1..])
    else [tokens[0]] + NonBlank(tokens[1..])
  }

  /** A single token is kept exactly when it is not blank. */
  lemma NonBlankSingle(t: string)
    ensures NonBlank([t]) == if AllWhiteSpace(t) then [] else [t]
  {
    assert [t][1..] == [];
  }

  /** Filtering a concatenation filters each part: together with
      `NonBlankSingle` this fixes `NonBlank` as the order-keeping filter. */
  lemma {:induction false} NonBlankAppend(a: seq<string>, b: seq<string>)
    ensures NonBlank(a + b) == NonBlank(a) + NonBlank(b)
  {
    if |a| > 0 {
      assert (a + b)[0] == a[0];
      assert (a + b)[1..] == a[1..] + b;
      NonBlankAppend(a[1..], b);
    } else {
      assert a + b == b;
    }
  }

  /** The bytes of the tokens: blank tokens are skipped and every other one is
      read with `Convert.ToByte(token, 16)`; the first token that cannot be
      read is the error. */
  function ParseTokens(tokens: seq<string>): Result<seq<byte>, RevertError> {
    if |tokens| == 0 then Success([])
    else if AllWhiteSpace(tokens[0]) then ParseTokens(tokens[1..])
    else match ToByte(tokens[0])
      case Failure(e) => Failure(BadToken(tokens[0], e))
      case Success(b) => AppendResults(Success([b]), ParseTokens(tokens[1..]))
  }

  /** Each token of `ts` reads as the byte at the same place of `bs`. */
  predicate ReadsAs(ts: seq<string>, bs: seq<byte>) {
    |ts| == |bs| && forall k | 0 <= k < |bs| :: ToByte(ts[k]) == Success(bs[k])
  }

  lemma ReadsCons(t: string, ts: seq<string>, b: byte, bs: seq<byte>)
    requires ToByte(t) == Success(b) && ReadsAs(ts, bs)
    ensures ReadsAs([t] + ts, [b] + bs)
  {
    forall k | 0 < k <= |bs|
      ensures ([t] + ts)[k] == ts[k - 1] && ([b] + bs)[k] == bs[k - 1]
    {
    }
  }

  /** Token `j` is the first that is neither blank nor a byte. */
  predicate FirstBadAt(tokens: seq<string>, j: int) {
    0 <= j < |tokens| && !TokenOk(tokens[j]) && forall i | 0 <= i < j :: TokenOk(tokens[i])
  }

  /** The tokens read successfully exactly when each is blank or a byte;
      then the bytes are those of the non-blank tokens, in order. Otherwise
      the error names the first token of the line that is neither, with the
      reason `Convert.ToByte` gives. */
  lemma ParseTokensSpec(tokens: seq<string>)
    ensures var r := ParseTokens(tokens);
      && (r.Success? <==> forall k | 0 <= k < |tokens| :: TokenOk(tokens[k]))
      && (r.Success? ==> |r.value| == |NonBlank(tokens)|)
      && (r.Success? ==> forall k | 0 <= k < |r.value| :: ToByte(NonBlank(tokens)[k]) == Success(r.value[k]))
      && (r.Failure? ==> r.error.BadToken? && r.error.token in tokens && !TokenOk(r.error.token)
                         && ToByte(r.error.token) == Failure(r.error.reason))
      && (r.Failure? ==> exists j :: FirstBadAt(tokens, j) && tokens[j] == r.error.token)
  {
    ParseTokensOk(tokens);
    ParseTokensBytes(tokens);
    ParseTokensError(tokens);
  }

  lemma {:induction false} ParseTokensOk(tokens: seq<string>)
    ensures ParseTokens(tokens).Success? <==> forall k | 0 <= k < |tokens| :: TokenOk(tokens[k])
  {
    if |tokens| > 0 {
      ParseTokensOk(tokens[1..]);
      assert forall k | 1 <= k < |tokens| :: tokens[k] == tokens[1..][k - 1];
    }
  }

  lemma {:induction false} ParseTokensBytes(tokens: seq<string>)
    ensures var r := ParseTokens(tokens); r.Success? ==> ReadsAs(NonBlank(tokens), r.value)
  {
    if |tokens| > 0 {
      var rest := tokens[1..];
      ParseTokensBytes(rest);
      if !AllWhiteSpace(tokens[0]) && ToByte(tokens[0]).Success? {
        var r := ParseTokens(rest);
        if r.Success? {
          assert NonBlank(tokens) == [tokens[0]] + NonBlank(rest);
          ReadsCons(tokens[0], NonBlank(rest), ToByte(tokens[0]).value, r.value);
        }
      }
    }
  }

  lemma {:induction false} ParseTokensError(tokens: seq<string>)
    ensures var r := ParseTokens(tokens);
      r.Failure? ==> r.error.BadToken? && r.error.token in tokens && !TokenOk(r.error.token)
                     && ToByte(r.error.token) == Failure(r.error.reason)
    ensures var r := ParseTokens(tokens);
      r.Failure? ==> exists j :: FirstBadAt(tokens, j) && tokens[j] == r.error.token
  {
    if |tokens| > 0 {
      var rest := tokens[1..];
      ParseTokensError(rest);
      var r := ParseTokens(rest);
      if !TokenOk(tokens[0]) {
        assert FirstBadAt(tokens, 0);
      } else if r.Failure? {
        assert r.error.token in rest;
        var j :| FirstBadAt(rest, j) && rest[j] == r.error.token;
        assert FirstBadAt(tokens, j + 1) by {
          forall i | 0 <= i < j + 1
            ensures TokenOk(tokens[i])
          {
            if i > 0 {
              assert tokens[i] == rest[i - 1];
            }
          }
        }
      }
    }
  }

  /** The characters `line[10..57]` of a line long enough to be read. */
  function Window(line: string): (r: string)
    requires |line| >= MinLineLength
    ensures |r| == WindowEnd - WindowStart
  {
    line[WindowStart..WindowEnd]
  }

  /** The bytes of one line: nothing for a line shorter than 57 characters,
      otherwise the bytes of the tokens of the trimmed window. Characters
      before index 10 and from index 57 on never matter. */
  function ParseLine(line: string): (r: Result<seq<byte>, RevertError>)
    ensures |line| < MinLineLength ==> r == Success([])
  {
    if |line| < MinLineLength then Success([])
    else ParseTokens(SplitOn(Trim(Window(line)), TokenSeparator))
  }

  /** The bytes of one part of the text followed by those of the next; the
      first error is the error of both. */
  function AppendResults(x: Result<seq<byte>, RevertError>, y: Result<seq<byte>, RevertError>): Result<seq<byte>, RevertError>
  {
    if x.Failure? then x
    else if y.Failure? then y
    else Success(x.value + y.value)
  }

  /** The bytes of all lines, in order; the first line that fails is the error. */
  function ParseLines(lines: seq<string>): Result<seq<byte>, RevertError> {
    if |lines| == 0 then Success([])
    else AppendResults(ParseLine(lines[0]), ParseLines(lines[1..]))
  }

  /** Every one of the lines reads. */
  predicate AllLinesRead(lines: seq<string>) {
    forall k | 0 <= k < |lines| :: ParseLine(lines[k]).Success?
  }

  /** The lines read successfully exactly when every one of them does. */
  lemma {:induction false} ParseLinesSuccess(lines: seq<string>)
    ensures ParseLines(lines).Success? <==> AllLinesRead(lines)
  {
    if |lines| > 0 {
      ParseLinesSuccess(lines[1..]);
      assert forall k | 1 <= k < |lines| :: lines[k] == lines[1..][k - 1];
    }
  }

  /** `RevertFile` on the text of the file at `path`. */
  function Revert(path: string, text: string): (r: Result<seq<byte>, RevertError>)
    ensures !EndsWith(path, HexSuffix) ==> r == Failure(NotHexFile)
  {
    if !EndsWith(path, HexSuffix) then Failure(NotHexFile)
    else ParseLines(SplitOn(text, LineBreak))
  }

  /** A `.hex` file reverts exactly when every one of its lines reads. */
  lemma RevertSuccess(path: string, text: string)
    ensures Revert(path, text).Success? <==> EndsWith(path, HexSuffix) && AllLinesRead(SplitOn(text, LineBreak))
  {
    ParseLinesSuccess(SplitOn(text, LineBreak));
  }

  /** Reading lines one after another appends their bytes, and an error in
      the first lines is the error of the whole. */
  lemma {:induction false} ParseLinesAppend(a: seq<string>, b: seq<string>)
    ensures ParseLines(a + b) == AppendResults(ParseLines(a), ParseLines(b))
  {
    if |a| == 0 {
      SameLines(a + b, b);
      AppendNothing(ParseLines(b));
    } else {
      var q := a[1..];
      ParseLinesAppend(q, b);
      ParseLinesAppendStep(a[0], q, b);
      assert a == [a[0]] + q;
    }
  }

  lemma ParseLinesAppendStep(x: string, q: seq<string>, b: seq<string>)
    requires ParseLines(q + b) == AppendResults(ParseLines(q), ParseLines(b))
    ensures ParseLines(([x] + q) + b) == AppendResults(ParseLines([x] + q), ParseLines(b))
  {
    SameLines(([x] + q) + b, [x] + (q + b));
    ParseLinesCons(x, q + b);
    ParseLinesCons(x, q);
    AppendResultsAssoc(ParseLine(x), ParseLines(q), ParseLines(b));
  }

  /** The first line, then the others. */
  lemma ParseLinesCons(line: string, rest: seq<string>)
    ensures ParseLines([line] + rest) == AppendResults(ParseLine(line), ParseLines(rest))
  {
    assert ([line] + rest)[1..] == rest;
  }

  lemma SameLines(a: seq<string>, b: seq<string>)
    requires a == b
    ensures ParseLines(a) == ParseLines(b)
  {
  }

  lemma AppendNothing(y: Result<seq<byte>, RevertError>)
    ensures AppendResults(Success([]), y) == y
  {
    if y.Success? {
      assert [] + y.value == y.value;
    }
  }

  lemma AppendResultsAssoc(x: Result<seq<byte>, RevertError>, y: Result<seq<byte>, RevertError>, z: Result<seq<byte>, RevertError>)
    ensures AppendResults(x, AppendResults(y, z)) == AppendResults(AppendResults(x, y), z)
  {
    if x.Success? && y.Success? && z.Success? {
      assert x.value + (y.value + z.value) == (x.value + y.value) + z.value;
    }
  }

  /** Of a line of at least 57 characters only the characters from index 10
      to index 56 are read: two lines that agree there read the same. */
  lemma ParseLineReadsWindowOnly(line: string, other: string)
    requires |line| >= MinLineLength && |other| >= MinLineLength
    requires line[WindowStart..WindowEnd] == other[WindowStart..WindowEnd]
    ensures ParseLine(line) == ParseLine(other)
  {
    assert Window(line) == Window(other);
  }

  /** A line of at least 57 characters reads the same whatever follows it. */
  lemma ParseLineOfPrefix(line: string, tail: string)
    requires |line| >= MinLineLength
    ensures ParseLine(line + tail) == ParseLine(line)
  {
    assert (line + tail)[WindowStart..WindowEnd] == line[WindowStart..WindowEnd];
    ParseLineReadsWindowOnly(line + tail, line);
  }
}
