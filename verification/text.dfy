/** String operations of the .NET runtime that the hex dump tool relies on:
    whitespace, trimming, splitting on a separator, and the inverse joins. */
module Text {

  /** The code points `char.IsWhiteSpace` accepts, as ranges from first to
      last: U+0009..U+000D, U+0085, and the Unicode space, line and paragraph
      separators. */
  const WhiteSpaceRanges: seq<(int, int)> := [
    (0x09, 0x0D), (0x20, 0x20), (0x85, 0x85), (0xA0, 0xA0), (0x1680, 0x1680),
    (0x2000, 0x200A), (0x2028, 0x2029), (0x202F, 0x202F), (0x205F, 0x205F), (0x3000, 0x3000)]

  /** `x` lies in one of the ranges. */
  predicate InRanges(x: int, ranges: seq<(int, int)>) {
    |ranges| > 0 && (ranges[0].0 <= x <= ranges[0].1 || InRanges(x, ranges[1..]))
  }

  /** A value outside each range is in none of them. */
  lemma {:induction false} NotInRanges(x: int, ranges: seq<(int, int)>)
    requires forall k | 0 <= k < |ranges| :: x < ranges[k].0 || ranges[k].1 < x
    ensures !InRanges(x, ranges)
  {
    if |ranges| > 0 {
      NotInRanges(x, ranges[1..]);
    }
  }

  /** `char.IsWhiteSpace`. */
  predicate IsWhiteSpace(c: char) {
    InRanges(c as int, WhiteSpaceRanges)
  }

  /** `string.IsNullOrWhiteSpace` (a string value is never null here). */
  predicate AllWhiteSpace(s: string) {
    forall k | 0 <= k < |s| :: IsWhiteSpace(s[k])
  }

  /** The number of whitespace characters `s` starts with. */
  function LeadingWhiteSpace(s: string): (n: nat)
    ensures n <= |s|
  {
    if |s| > 0 && IsWhiteSpace(s[0]) then 1 + LeadingWhiteSpace(s[1..]) else 0
  }

  /** The number of whitespace characters `s` ends with. */
  function TrailingWhiteSpace(s: string): (n: nat)
    ensures n <= |s|
  {
    if |s| > 0 && IsWhiteSpace(s[|s| - 1]) then 1 + TrailingWhiteSpace(s[..|s| - 1]) else 0
  }

  /** The leading whitespace, ending at `lo`, is the longest whitespace prefix. */
  lemma {:induction false} LeadingWhiteSpaceSpec(s: string, lo: nat)
    requires lo == LeadingWhiteSpace(s)
    ensures forall k | 0 <= k < lo :: IsWhiteSpace(s[k])
    ensures lo < |s| ==> !IsWhiteSpace(s[lo])
  {
    if |s| > 0 && IsWhiteSpace(s[0]) {
      var t := s[1..];
      LeadingWhiteSpaceSpec(t, lo - 1);
      assert forall k | 1 <= k < |s| :: s[k] == t[k - 1];
    }
  }

  /** The trailing whitespace, starting at `hi`, is the longest whitespace suffix. */
  lemma {:induction false} TrailingWhiteSpaceSpec(s: string, hi: int)
    requires hi == |s| - TrailingWhiteSpace(s)
    ensures 0 <= hi
    ensures forall k | hi <= k < |s| :: IsWhiteSpace(s[k])
    ensures 0 < hi ==> !IsWhiteSpace(s[hi - 1])
  {
    if |s| > 0 && IsWhiteSpace(s[|s| - 1]) {
      var t := s[..|s| - 1];
      TrailingWhiteSpaceSpec(t, hi);
      assert forall k | 0 <= k < |t| :: s[k] == t[k];
    }
  }

  /** `string.Trim()`: what is left of `s` once its leading and its trailing
      whitespace are dropped. */
  function Trim(s: string): string {
    var lo := LeadingWhiteSpace(s);
    var hi := |s| - TrailingWhiteSpace(s);
    if hi <= lo then [] else s[lo..hi]
  }

  /** The trimmed string is a slice of `s` that starts at `lo`, everything
      of `s` outside it is whitespace, and it neither starts nor ends with
      whitespace. */
  lemma TrimSpec(s: string)
    ensures var r := Trim(s);
      var lo := LeadingWhiteSpace(s);
      && lo + |r| <= |s| && r == s[lo..lo + |r|]
      && (forall k | 0 <= k < lo :: IsWhiteSpace(s[k]))
      && (forall k | lo + |r| <= k < |s| :: IsWhiteSpace(s[k]))
      && (|r| > 0 ==> !IsWhiteSpace(r[0]) && !IsWhiteSpace(r[|r| - 1]))
  {
    var lo := LeadingWhiteSpace(s);
    var hi := |s| - TrailingWhiteSpace(s);
    LeadingWhiteSpaceSpec(s, lo);
    TrailingWhiteSpaceSpec(s, hi);
    if hi <= lo {
      if lo < |s| {
        assert false;
      }
      assert Trim(s) == s[lo..lo];
    } else {
      TrimmedSlice(s, lo, hi, Trim(s));
    }
  }

  /** The slice from `lo` to `hi` of a string that is whitespace outside it
      and not whitespace at either end of it. */
  lemma TrimmedSlice(s: string, lo: nat, hi: nat, r: string)
    requires lo < hi <= |s| && r == s[lo..hi]
    requires forall k | 0 <= k < lo :: IsWhiteSpace(s[k])
    requires forall k | hi <= k < |s| :: IsWhiteSpace(s[k])
    requires !IsWhiteSpace(s[lo]) && !IsWhiteSpace(s[hi - 1])
    ensures lo + |r| <= |s| && r == s[lo..lo + |r|]
    ensures forall k | lo + |r| <= k < |s| :: IsWhiteSpace(s[k])
    ensures |r| > 0 ==> !IsWhiteSpace(r[0]) && !IsWhiteSpace(r[|r| - 1])
  {
    assert lo + |r| == hi;
    assert r[0] == s[lo];
    assert r[hi - lo - 1] == s[hi - 1];
  }

  /** The parts with `sep` written between neighbours (`string.Join`). */
  function Join(parts: seq<string>, sep: string): string {
    if |parts| == 0 then []
    else if |parts| == 1 then parts[0]
    else parts[0] + sep + Join(parts[1..], sep)
  }

  /** `string.Split(sep)`: the pieces between the leftmost non-overlapping
      occurrences of `sep`, empty pieces included. Joining the pieces with
      `sep` gives `s` back. */
  function SplitOn(s: string, sep: string): (r: seq<string>)
    requires |sep| > 0
    ensures |r| >= 1
    ensures Join(r, sep) == s
    decreases |s|
  {
    if |s| < |sep| then [s]
    else if s[..|sep|] == sep then
      var rest := SplitOn(s[|sep|..], sep);
      assert s == sep + s[|sep|..];
      assert ([[]] + rest)[1..] == rest;
      [[]] + rest
    else
      var rest := SplitOn(s[1..], sep);
      var head := [s[0]] + rest[0];
      assert s == [s[0]] + s[1..];
      assert ([head] + rest[1..])[1..] == rest[1..];
      assert |rest| > 1 ==> Join(rest, sep) == rest[0] + sep + Join(rest[1..], sep);
      [head] + rest[1..]
  }

  /** `sep` occurs in `p` starting at index `j`. */
  predicate OccursAt(p: string, sep: string, j: int) {
    0 <= j && j + |sep| <= |p| && p[j..j + |sep|] == sep
  }

  /** No piece of a split contains the separator. */
  lemma {:induction false} SplitPiecesAvoidSep(s: string, sep: string)
    requires |sep| > 0
    ensures forall k, j | 0 <= k < |SplitOn(s, sep)| :: !OccursAt(SplitOn(s, sep)[k], sep, j)
    decreases |s|
  {
    var r := SplitOn(s, sep);
    if |s| < |sep| {
    } else if s[..|sep|] == sep {
      var rest := SplitOn(s[|sep|..], sep);
      SplitPiecesAvoidSep(s[|sep|..], sep);
      assert r == [[]] + rest;
      forall k, j | 0 <= k < |r|
        ensures !OccursAt(r[k], sep, j)
      {
        if k > 0 {
          assert r[k] == rest[k - 1];
          assert !OccursAt(rest[k - 1], sep, j);
        }
      }
    } else {
      var rest := SplitOn(s[1..], sep);
      SplitPiecesAvoidSep(s[1..], sep);
      JoinStartsWithHead(rest, sep);
      assert r[1..] == rest[1..];
      assert s == [s[0]] + Join(rest, sep);
      assert r[0] == [s[0]] + rest[0];
      forall k, j | 0 <= k < |r|
        ensures !OccursAt(r[k], sep, j)
      {
        if k == 0 {
          if j == 0 {
            if |r[0]| >= |sep| {
              assert r[0][..|sep|] == s[..|sep|];
            }
          } else if 0 < j && j + |sep| <= |r[0]| {
            assert r[0][j..j + |sep|] == rest[0][j - 1..j - 1 + |sep|];
            assert !OccursAt(rest[0], sep, j - 1);
          }
        } else {
          assert r[k] == rest[k];
          assert !OccursAt(rest[k], sep, j);
        }
      }
    }
  }

  /** The first part is a prefix of the joined string. */
  lemma JoinStartsWithHead(parts: seq<string>, sep: string)
    requires |parts| >= 1
    ensures |parts[0]| <= |Join(parts, sep)|
    ensures Join(parts, sep)[..|parts[0]|] == parts[0]
  {
  }

  /** All parts one after the other. */
  function Concat<T>(parts: seq<seq<T>>): seq<T> {
    if |parts| == 0 then [] else parts[0] + Concat(parts[1..])
  }

  /** `n` space characters (`new string(' ', n)`). */
  function Spaces(n: nat): (r: string)
    ensures |r| == n && forall k | 0 <= k < n :: r[k] == ' '
  {
    seq(n, _ => ' ')
  }

  /** `EndsWith` by ordinal comparison: the last characters are exactly
      `suffix`. The culture-sensitive comparison of `String.EndsWith(string)`,
      which skips characters the culture ignores, is not modelled. */
  predicate EndsWith(s: string, suffix: string) {
    |suffix| <= |s| && s[|s| - |suffix|..] == suffix
  }

  /** The text with every line feed written as carriage return plus line feed,
      as the dump reads once it is stored with Windows line endings. */
  function ToCrlf(s: string): string {
    if |s| == 0 then []
    else (if s[0] == '\n' then "\r\n" else [s[0]]) + ToCrlf(s[1..])
  }

  lemma {:induction false} ConcatAppend<T>(a: seq<seq<T>>, b: seq<seq<T>>)
    ensures Concat(a + b) == Concat(a) + Concat(b)
  {
    if |a| > 0 {
      assert (a + b)[1..] == a[1..] + b;
      ConcatAppend(a[1..], b);
    } else {
      assert a + b == b;
    }
  }

  /** Appending one more part appends its text. */
  lemma ConcatSnoc<T>(parts: seq<seq<T>>, p: seq<T>)
    ensures Concat(parts + [p]) == Concat(parts) + p
  {
    ConcatAppend(parts, [p]);
    assert [p][1..] == [];
    assert p + [] == p;
  }

  /** One more element of a prefix. */
  lemma TakeSnoc<T>(s: seq<T>, n: nat)
    requires n < |s|
    ensures s[..n + 1] == s[..n] + [s[n]]
  {
  }

  lemma SeqAssoc<T>(a: seq<T>, b: seq<T>, c: seq<T>)
    ensures a + (b + c) == (a + b) + c
  {
  }

  /** A slice is its two halves. */
  lemma SliceSplit<T>(s: seq<T>, a: nat, b: nat, c: nat)
    requires a <= b <= c <= |s|
    ensures s[a..c] == s[a..b] + s[b..c]
  {
  }

  /** Dropping one more element of a suffix. */
  lemma DropOne<T>(s: seq<T>, n: nat)
    requires n < |s|
    ensures s[n + 1..] == s[n..][1..]
  {
  }

  lemma {:induction false} ToCrlfAppend(a: string, b: string)
    ensures ToCrlf(a + b) == ToCrlf(a) + ToCrlf(b)
  {
    if |a| > 0 {
      assert (a + b)[1..] == a[1..] + b;
      ToCrlfAppend(a[1..], b);
    } else {
      assert a + b == b;
    }
  }

  /** Text without line feeds is left unchanged. */
  lemma {:induction false} ToCrlfWithoutLf(s: string)
    requires forall k | 0 <= k < |s| :: s[k] != '\n'
    ensures ToCrlf(s) == s
  {
    if |s| > 0 {
      ToCrlfWithoutLf(s[1..]);
    }
  }

  /** Splitting text that starts with a part free of the separator's first
      character extends the first piece by that part. */
  lemma {:induction false} SplitAfterPlainPrefix(p: string, t: string, sep: string)
    requires |sep| > 0
    requires forall k | 0 <= k < |p| :: p[k] != sep[0]
    ensures SplitOn(p + t, sep) == [p + SplitOn(t, sep)[0]] + SplitOn(t, sep)[1..]
    decreases |p|
  {
    var tt := SplitOn(t, sep);
    if |p| > 0 {
      var q := p[1..];
      SplitAfterPlainPrefix(q, t, sep);
      SplitOnCons(p[0], q + t, sep);
      var rr := SplitOn(q + t, sep);
      SameSplit(p + t, [p[0]] + (q + t), sep);
      assert [p[0]] + rr[0] == p + tt[0];
    } else {
      assert p + t == t;
      assert p + tt[0] == tt[0];
      assert tt == [tt[0]] + tt[1..];
    }
  }

  /** A character other than the separator's first joins the first piece. */
  lemma SplitOnCons(c: char, rest: string, sep: string)
    requires |sep| > 0 && c != sep[0]
    ensures SplitOn([c] + rest, sep) == [[c] + SplitOn(rest, sep)[0]] + SplitOn(rest, sep)[1..]
  {
    var s := [c] + rest;
    assert s[1..] == rest;
    if |s| >= |sep| {
      assert s[..|sep|][0] == c;
    }
  }

  lemma SameSplit(a: string, b: string, sep: string)
    requires |sep| > 0 && a == b
    ensures SplitOn(a, sep) == SplitOn(b, sep)
  {
  }

  /** A line free of the separator's first character, then the separator:
      the split yields the line and goes on after the separator. */
  lemma SplitLine(p: string, t: string, sep: string)
    requires |sep| > 0
    requires forall k | 0 <= k < |p| :: p[k] != sep[0]
    ensures SplitOn(p + sep + t, sep) == [p] + SplitOn(t, sep)
  {
    assert p + sep + t == p + (sep + t);
    SplitAfterPlainPrefix(p, sep + t, sep);
    assert (sep + t)[..|sep|] == sep;
    assert (sep + t)[|sep|..] == t;
    assert SplitOn(sep + t, sep) == [[]] + SplitOn(t, sep);
    assert p + [] == p;
  }

  /** Text without the separator's first character is one piece. */
  lemma SplitWithoutSep(s: string, sep: string)
    requires |sep| > 0
    requires forall k | 0 <= k < |s| :: s[k] != sep[0]
    ensures SplitOn(s, sep) == [s]
  {
    SplitAfterPlainPrefix(s, [], sep);
    assert s + [] == s;
  }

  /** Text that neither starts nor ends with whitespace is its own trim. */
  lemma TrimUnchanged(s: string)
    requires |s| > 0 && !IsWhiteSpace(s[0]) && !IsWhiteSpace(s[|s| - 1])
    ensures Trim(s) == s
  {
    assert s[0..|s|] == s;
  }

  /** Splitting a join of parts that never contain the separator's first
      character gives the parts back. */
  lemma {:induction false} SplitJoin(parts: seq<string>, sep: string)
    requires |sep| > 0 && |parts| >= 1
    requires forall i, k | 0 <= i < |parts| && 0 <= k < |parts[i]| :: parts[i][k] != sep[0]
    ensures SplitOn(Join(parts, sep), sep) == parts
  {
    if |parts| == 1 {
      SplitAfterPlainPrefix(parts[0], [], sep);
      assert parts[0] + [] == parts[0];
    } else {
      var rest := Join(parts[1..], sep);
      assert Join(parts, sep) == parts[0] + (sep + rest);
      SplitAfterPlainPrefix(parts[0], sep + rest, sep);
      assert (sep + rest)[..|sep|] == sep;
      assert (sep + rest)[|sep|..] == rest;
      assert SplitOn(sep + rest, sep) == [[]] + SplitOn(rest, sep);
      SplitJoin(parts[1..], sep);
      assert SplitOn(sep + rest, sep) == [[]] + parts[1..];
      assert parts[0] + [] == parts[0];
      calc {
        SplitOn(Join(parts, sep), sep);
        SplitOn(parts[0] + (sep + rest), sep);
        [parts[0] + []] + parts[1..];
        parts;
      }
    }
  }
}
