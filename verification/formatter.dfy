/** The forward direction: a byte range rendered as hex dump lines, each
    `offset: hex-field padding ascii-column`. */
module Formatter {
  import opened Text
  import opened Hex

  /** `char.IsControl((char)b)`: the C0 controls 0x00..0x1F, DEL 0x7F and the
      C1 controls 0x80..0x9F. */
  predicate IsControl(b: byte) {
    b <= 0x1F || 0x7F <= b <= 0x9F
  }

  /** The character the text column shows for `b`: a dot for a control
      character, otherwise the character with code `b`. */
  function Glyph(b: byte): (c: char)
    ensures IsControl(b) ==> c == '.'
    ensures !IsControl(b) ==> c as int == b
    ensures c != '\n' && c != '\r'
  {
    if IsControl(b) then '.' else b as char
  }

  /** The text column: one glyph per byte. */
  function AsciiColumn(chunk: seq<byte>): (r: string)
    ensures |r| == |chunk|
    ensures forall k | 0 <= k < |r| :: r[k] == Glyph(chunk[k])
  {
    seq(|chunk|, k requires 0 <= k < |chunk| => Glyph(chunk[k]))
  }

  /** `Math.Ceiling(padLeft * 2.5)` spaces when `padLeft` is positive, none
      otherwise: the least width whose double reaches five times `padLeft`. */
  function PaddingWidth(padLeft: int): (w: nat)
    ensures padLeft <= 0 ==> w == 0
    ensures padLeft > 0 ==> 2 * w >= 5 * padLeft && 2 * (w - 1) < 5 * padLeft
  {
    if padLeft > 0 then (5 * padLeft + 1) / 2 else 0
  }

  /** `PrintDataAsText`: padding, one space, the text column and a line feed;
      the line feed is the only line break in it. */
  function TextField(chunk: seq<byte>, padLeft: int): (r: string)
    ensures |r| == PaddingWidth(padLeft) + |chunk| + 2
    ensures r[|r| - 1] == '\n'
    ensures forall k | 0 <= k < |r| - 1 :: r[k] != '\n' && r[k] != '\r'
  {
    Spaces(PaddingWidth(padLeft)) + " " + AsciiColumn(chunk) + "\n"
  }

  /** The text after the digits of the byte at index `i` of a chunk: one space
      when the byte closes a group, nothing otherwise. For `i >= 0` Dafny's
      `%` agrees with the C# remainder, also for a negative group size, where
      no byte ever closes a group. */
  function GroupSeparator(i: nat, groupSize: int): (r: string)
    requires groupSize != 0
    ensures |r| <= 1 && (|r| == 1 ==> r[0] == ' ')
    ensures groupSize < 0 ==> r == []
  {
    if i % groupSize == groupSize - 1 then " " else []
  }

  /** The hex field of the bytes of a chunk that start at index `i`: digits
      and spaces only, and it starts with a digit. */
  function HexFrom(chunk: seq<byte>, groupSize: int, i: nat): (r: string)
    requires groupSize != 0
    ensures forall k | 0 <= k < |r| :: IsLowerHexDigit(r[k]) || r[k] == ' '
    ensures |r| > 0 <==> |chunk| > 0
    ensures |r| > 0 ==> IsLowerHexDigit(r[0])
    decreases |chunk|
  {
    if |chunk| == 0 then []
    else Hex2(chunk[0]) + GroupSeparator(i, groupSize) + HexFrom(chunk[1..], groupSize, i + 1)
  }

  /** `PrintDataAsHex`: every byte as two lowercase digits, followed by a
      space when its index closes a group of `groupSize` bytes. A group size
      of zero divides by zero unless the chunk is empty. */
  function HexField(chunk: seq<byte>, groupSize: int): (r: string)
    requires groupSize != 0 || |chunk| == 0
    ensures forall k | 0 <= k < |r| :: IsLowerHexDigit(r[k]) || r[k] == ' '
    ensures |r| > 0 <==> |chunk| > 0
  {
    if |chunk| == 0 then [] else HexFrom(chunk, groupSize, 0)
  }

  /** The bytes from index `i` on add two digits each and one space per
      index that closes a group. */
  lemma {:induction false} HexFromLength(chunk: seq<byte>, groupSize: int, i: nat)
    requires groupSize != 0
    ensures groupSize > 0 ==> |HexFrom(chunk, groupSize, i)| == 2 * |chunk| + (i + |chunk|) / groupSize - i / groupSize
    ensures groupSize < 0 ==> |HexFrom(chunk, groupSize, i)| == 2 * |chunk|
    decreases |chunk|
  {
    if |chunk| > 0 {
      HexFromLength(chunk[1..], groupSize, i + 1);
      DivStep(i, groupSize);
    }
  }

  /** The hex field is `2n + n / groupSize` long for a positive group size
      and `2n` long, without any space, for a negative one. */
  lemma HexFieldLength(chunk: seq<byte>, groupSize: int)
    requires groupSize != 0
    ensures groupSize > 0 ==> |HexField(chunk, groupSize)| == 2 * |chunk| + |chunk| / groupSize
    ensures groupSize < 0 ==> |HexField(chunk, groupSize)| == 2 * |chunk|
  {
    HexFromLength(chunk, groupSize, 0);
  }

  /** Where the two digits of byte `k` of a chunk start, counted from index `i`. */
  function DigitsPosition(i: nat, k: nat, groupSize: int): int
    requires groupSize > 0
  {
    2 * k + (i + k) / groupSize - i / groupSize
  }

  /** Each byte is printed, in order, as its two digits, and a space follows
      them exactly when its index closes a group. */
  lemma {:induction false} HexFromAt(chunk: seq<byte>, groupSize: int, i: nat, k: nat)
    requires groupSize > 0 && k < |chunk|
    ensures DigitsAt(HexFrom(chunk, groupSize, i), DigitsPosition(i, k, groupSize), chunk[k], (i + k) % groupSize == groupSize - 1)
    decreases k
  {
    if k == 0 {
      HexFromFirst(chunk, groupSize, i);
    } else {
      HexFromAt(chunk[1..], groupSize, i + 1, k - 1);
      assert chunk[1..][k - 1] == chunk[k];
      HexFromShift(chunk, groupSize, i, k);
    }
  }

  /** `r` holds the two digits of `b` at position `p`, followed by a space
      exactly when `closes` holds. */
  predicate DigitsAt(r: string, p: int, b: byte, closes: bool) {
    && 0 <= p && p + 2 <= |r|
    && r[p..p + 2] == Hex2(b)
    && ((p + 2 < |r| && r[p + 2] == ' ') <==> closes)
  }

  lemma HexFromFirst(chunk: seq<byte>, groupSize: int, i: nat)
    requires groupSize > 0 && 0 < |chunk|
    ensures DigitsAt(HexFrom(chunk, groupSize, i), DigitsPosition(i, 0, groupSize), chunk[0], i % groupSize == groupSize - 1)
  {
    var r := HexFrom(chunk, groupSize, i);
    var sep := GroupSeparator(i, groupSize);
    var rest := HexFrom(chunk[1..], groupSize, i + 1);
    assert r == Hex2(chunk[0]) + sep + rest;
    assert DigitsPosition(i, 0, groupSize) == 0;
    assert r[0..2] == Hex2(chunk[0]);
    if |sep| == 0 && 2 < |r| {
      assert r[2] == rest[0];
    }
  }

  /** The digits of byte `k` sit after those of byte 0 and its separator. */
  lemma HexFromShift(chunk: seq<byte>, groupSize: int, i: nat, k: nat)
    requires groupSize > 0 && 0 < k < |chunk|
    requires DigitsAt(HexFrom(chunk[1..], groupSize, i + 1), DigitsPosition(i + 1, k - 1, groupSize), chunk[k], (i + k) % groupSize == groupSize - 1)
    ensures DigitsAt(HexFrom(chunk, groupSize, i), DigitsPosition(i, k, groupSize), chunk[k], (i + k) % groupSize == groupSize - 1)
  {
    var r := HexFrom(chunk, groupSize, i);
    var sep := GroupSeparator(i, groupSize);
    var rest := HexFrom(chunk[1..], groupSize, i + 1);
    assert r == Hex2(chunk[0]) + sep + rest;
    DivStep(i, groupSize);
    var p' := DigitsPosition(i + 1, k - 1, groupSize);
    var p := 2 + |sep| + p';
    assert DigitsPosition(i, k, groupSize) == p;
    assert r[p..p + 2] == rest[p'..p' + 2];
    if p + 2 < |r| {
      assert r[p + 2] == rest[p' + 2];
    }
  }

  /** The hex field holds exactly the digits of the bytes and the group
      separators. */
  lemma HexFieldAt(chunk: seq<byte>, groupSize: int, k: nat)
    requires groupSize > 0 && k < |chunk|
    ensures DigitsAt(HexField(chunk, groupSize), 2 * k + k / groupSize, chunk[k], k % groupSize == groupSize - 1)
  {
    HexFromAt(chunk, groupSize, 0, k);
  }

  /** With a negative group size the hex field is the digits alone. */
  lemma {:induction false} HexFromWithoutGroups(chunk: seq<byte>, groupSize: int, i: nat)
    requires groupSize < 0
    ensures HexFrom(chunk, groupSize, i) == Concat(HexTokens(chunk))
    decreases |chunk|
  {
    if |chunk| > 0 {
      HexFromWithoutGroups(chunk[1..], groupSize, i + 1);
      assert HexTokens(chunk)[1..] == HexTokens(chunk[1..]);
    }
  }

  /** The digit pairs of the bytes, in order. */
  function HexTokens(chunk: seq<byte>): (r: seq<string>)
    ensures |r| == |chunk| && forall k | 0 <= k < |r| :: r[k] == Hex2(chunk[k])
  {
    seq(|chunk|, k requires 0 <= k < |chunk| => Hex2(chunk[k]))
  }

  /** With group size 1 every byte is followed by a space: the field is the
      digit pairs joined by spaces, plus a final space. */
  lemma {:induction false} HexFromSingleGroups(chunk: seq<byte>, i: nat)
    requires |chunk| > 0
    ensures HexFrom(chunk, 1, i) == Join(HexTokens(chunk), " ") + " "
    decreases |chunk|
  {
    assert HexTokens(chunk)[1..] == HexTokens(chunk[1..]);
    if |chunk| > 1 {
      HexFromSingleGroups(chunk[1..], i + 1);
    }
  }

  /** `(i + 1) / g` steps up from `i / g` exactly when `i` closes a group. */
  lemma DivStep(i: nat, g: int)
    ensures g > 0 ==> (i + 1) / g == i / g + (if i % g == g - 1 then 1 else 0)
  {
    if g <= 0 { return; }
    var q, r := i / g, i % g;
    assert i == g * q + r;
    if r == g - 1 {
      DivUnique(i + 1, g, q + 1, 0);
    } else {
      DivUnique(i + 1, g, q, r + 1);
    }
  }

  /** Euclidean division has one quotient and one remainder. */
  lemma DivUnique(a: int, d: int, q: int, r: int)
    requires d > 0 && a == d * q + r && 0 <= r < d
    ensures a / d == q && a % d == r
  {
    var q', r' := a / d, a % d;
    assert a == d * q' + r' && 0 <= r' < d;
    MulGap(d, q', q);
    MulGap(d, q, q');
  }

  /** Multiples of `d` that differ are at least `d` apart. */
  lemma {:induction false} MulGap(d: int, x: int, y: int)
    requires d > 0
    ensures x < y ==> d * x + d <= d * y
    decreases if x < y then y - x else 0
  {
    if x < y {
      assert d * y == d * (y - 1) + d;
      if x < y - 1 {
        MulGap(d, x, y - 1);
      }
    }
  }

  function Min(a: int, b: int): int {
    if a < b then a else b
  }
  /** `buffer[i..Math.Min(i + octetsPerLine, end)]`: the bytes of the line that starts at `i`. */
  function Chunk(buffer: seq<byte>, i: nat, end: nat, octetsPerLine: int): (r: seq<byte>)
    requires i < end <= |buffer| && octetsPerLine > 0
    ensures 0 < |r| <= octetsPerLine
    ensures |r| == if i + octetsPerLine <= end then octetsPerLine else end - i
    ensures i + |r| <= end && r == buffer[i..i + |r|]
  {
    buffer[i..Min(i + octetsPerLine, end)]
  }

  /** What one pass of the loop works from: the index the line starts at,
      the bytes it shows, and `i + octetsPerLine - end`, from which the
      padding of the text field follows. */
  datatype Line = Line(start: nat, chunk: seq<byte>, padLeft: int)

  /** The line of the pass that starts at `i`. */
  function LineAt(buffer: seq<byte>, i: nat, end: nat, octetsPerLine: int): (l: Line)
    requires i < end <= |buffer| && octetsPerLine > 0
    ensures 0 < |l.chunk| <= octetsPerLine
  {
    Line(i, Chunk(buffer, i, end, octetsPerLine), i + octetsPerLine - end)
  }

  /** The text one pass writes: the start index as `x8`, a colon and a
      space, the hex field and the text field. */
  function Render(line: Line, groupSize: int): string
    requires groupSize != 0
  {
    HexLabel(line.start) + ": " + HexField(line.chunk, groupSize) + TextField(line.chunk, line.padLeft)
  }

  /** The text of the pass that starts at `i`. */
  function FormatLine(buffer: seq<byte>, i: nat, end: nat, octetsPerLine: int, groupSize: int): string
    requires i < end <= |buffer| && octetsPerLine > 0 && groupSize != 0
  {
    Render(LineAt(buffer, i, end, octetsPerLine), groupSize)
  }

  /** The number of passes of `for (i = seekOffset; i < end; i += octetsPerLine)`. */
  function LineCount(seekOffset: nat, end: nat, octetsPerLine: int): nat
    requires octetsPerLine > 0
    decreases end - seekOffset
  {
    if seekOffset >= end then 0 else 1 + LineCount(seekOffset + octetsPerLine, end, octetsPerLine)
  }

  /** The loop runs `ceil((end - seekOffset) / octetsPerLine)` times: the
      last line starts before `end` and a further one would not. */
  lemma {:induction false} LineCountIsCeiling(seekOffset: nat, end: nat, octetsPerLine: int)
    requires octetsPerLine > 0
    ensures var n := LineCount(seekOffset, end, octetsPerLine);
      && (end <= seekOffset ==> n == 0)
      && (seekOffset < end ==> (n - 1) * octetsPerLine < end - seekOffset <= n * octetsPerLine)
    decreases end - seekOffset
  {
    if seekOffset < end {
      var next := seekOffset + octetsPerLine;
      var m := LineCount(next, end, octetsPerLine);
      LineCountIsCeiling(next, end, octetsPerLine);
      assert (m + 1) * octetsPerLine == m * octetsPerLine + octetsPerLine;
      if next < end {
        assert (m - 1) * octetsPerLine + octetsPerLine == m * octetsPerLine;
      }
    }
  }

  /** The same count as the quotient the ceiling formula computes. */
  lemma LineCountFormula(seekOffset: nat, end: nat, octetsPerLine: int)
    requires seekOffset < end && octetsPerLine > 0
    ensures LineCount(seekOffset, end, octetsPerLine) == (end - seekOffset + octetsPerLine - 1) / octetsPerLine
  {
    var n := LineCount(seekOffset, end, octetsPerLine);
    LineCountIsCeiling(seekOffset, end, octetsPerLine);
    var x := end - seekOffset + octetsPerLine - 1;
    assert n * octetsPerLine == (n - 1) * octetsPerLine + octetsPerLine;
    DivUnique(x, octetsPerLine, n, x - octetsPerLine * n);
  }

  /** Where line `k` starts. */
  function LineStart(seekOffset: nat, k: nat, octetsPerLine: int): int {
    seekOffset + k * octetsPerLine
  }

  /** Line `k + 1` from `seekOffset` is line `k` from the next start. */
  lemma LineStartStep(seekOffset: nat, k: nat, octetsPerLine: int)
    requires octetsPerLine > 0
    ensures LineStart(seekOffset, k + 1, octetsPerLine) == LineStart(seekOffset + octetsPerLine, k, octetsPerLine)
  {
    assert (k + 1) * octetsPerLine == k * octetsPerLine + octetsPerLine;
  }

  /** The passes of the loop, in order. The loop runs only if the range is
      not empty, and then needs a positive line width (zero loops forever,
      a negative one throws). */
  function Layout(buffer: seq<byte>, seekOffset: nat, end: nat, octetsPerLine: int): (r: seq<Line>)
    requires end <= |buffer|
    requires seekOffset < end ==> octetsPerLine > 0
    ensures seekOffset < end ==> |r| == LineCount(seekOffset, end, octetsPerLine)
    ensures end <= seekOffset ==> r == []
    decreases end - seekOffset
  {
    if seekOffset >= end then []
    else [LineAt(buffer, seekOffset, end, octetsPerLine)] + Layout(buffer, seekOffset + octetsPerLine, end, octetsPerLine)
  }

  /** Pass `k` is the line that starts at `seekOffset + k * octetsPerLine`. */
  lemma {:induction false} LayoutAt(buffer: seq<byte>, seekOffset: nat, end: nat, octetsPerLine: int, k: nat)
    requires end <= |buffer| && octetsPerLine > 0
    requires k < |Layout(buffer, seekOffset, end, octetsPerLine)|
    ensures 0 <= LineStart(seekOffset, k, octetsPerLine) < end
    ensures Layout(buffer, seekOffset, end, octetsPerLine)[k] == LineAt(buffer, LineStart(seekOffset, k, octetsPerLine), end, octetsPerLine)
    decreases k
  {
    if k > 0 {
      var next := seekOffset + octetsPerLine;
      assert Layout(buffer, seekOffset, end, octetsPerLine)[k] == Layout(buffer, next, end, octetsPerLine)[k - 1];
      LayoutAt(buffer, next, end, octetsPerLine, k - 1);
      LineStartStep(seekOffset, k - 1, octetsPerLine);
    }
  }

  /** The text of each line, in order. */
  function RenderAll(lines: seq<Line>, groupSize: int): (r: seq<string>)
    requires groupSize != 0 || |lines| == 0
    ensures |r| == |lines|
  {
    if |lines| == 0 then [] else [Render(lines[0], groupSize)] + RenderAll(lines[1..], groupSize)
  }

  lemma {:induction false} RenderAllAt(lines: seq<Line>, groupSize: int, k: nat)
    requires groupSize != 0 && k < |lines|
    ensures RenderAll(lines, groupSize)[k] == Render(lines[k], groupSize)
    decreases k
  {
    if k > 0 {
      RenderAllAt(lines[1..], groupSize, k - 1);
    }
  }

  /** The lines of the dump loop, one per pass; with an empty range the
      loop writes nothing whatever the widths. */
  function DumpLines(buffer: seq<byte>, seekOffset: nat, end: nat, octetsPerLine: int, groupSize: int): (r: seq<string>)
    requires end <= |buffer|
    requires seekOffset < end ==> octetsPerLine > 0 && groupSize != 0
    ensures seekOffset < end ==> |r| == LineCount(seekOffset, end, octetsPerLine)
    ensures end <= seekOffset ==> r == []
  {
    RenderAll(Layout(buffer, seekOffset, end, octetsPerLine), groupSize)
  }

  /** Line `k` of the dump is the line that starts at `seekOffset + k * octetsPerLine`. */
  lemma DumpLineAt(buffer: seq<byte>, seekOffset: nat, end: nat, octetsPerLine: int, groupSize: int, k: nat)
    requires end <= |buffer| && octetsPerLine > 0 && groupSize != 0
    requires k < |DumpLines(buffer, seekOffset, end, octetsPerLine, groupSize)|
    ensures 0 <= LineStart(seekOffset, k, octetsPerLine) < end
    ensures DumpLines(buffer, seekOffset, end, octetsPerLine, groupSize)[k]
         == FormatLine(buffer, LineStart(seekOffset, k, octetsPerLine), end, octetsPerLine, groupSize)
  {
    var lines := Layout(buffer, seekOffset, end, octetsPerLine);
    LayoutAt(buffer, seekOffset, end, octetsPerLine, k);
    RenderAllAt(lines, groupSize, k);
  }

  /** After its first line, the dump is the dump from the next start. */
  lemma DumpLinesStep(buffer: seq<byte>, i: nat, next: nat, end: nat, octetsPerLine: int, groupSize: int)
    requires i < end <= |buffer| && octetsPerLine > 0 && groupSize != 0 && next == i + octetsPerLine
    ensures DumpLines(buffer, i, end, octetsPerLine, groupSize)
         == [FormatLine(buffer, i, end, octetsPerLine, groupSize)] + DumpLines(buffer, next, end, octetsPerLine, groupSize)
  {
    var lines := Layout(buffer, i, end, octetsPerLine);
    LayoutStep(buffer, i, next, end, octetsPerLine);
    RenderAllCons(lines[0], lines[1..], groupSize);
  }

  lemma LayoutStep(buffer: seq<byte>, i: nat, next: nat, end: nat, octetsPerLine: int)
    requires i < end <= |buffer| && octetsPerLine > 0 && next == i + octetsPerLine
    ensures Layout(buffer, i, end, octetsPerLine) == [LineAt(buffer, i, end, octetsPerLine)] + Layout(buffer, next, end, octetsPerLine)
  {
  }

  lemma RenderAllCons(line: Line, rest: seq<Line>, groupSize: int)
    requires groupSize != 0
    ensures RenderAll([line] + rest, groupSize) == [Render(line, groupSize)] + RenderAll(rest, groupSize)
  {
    assert ([line] + rest)[1..] == rest;
  }

  /** The whole output of the dump loop. */
  function Dump(buffer: seq<byte>, seekOffset: nat, end: nat, octetsPerLine: int, groupSize: int): string
    requires end <= |buffer|
    requires seekOffset < end ==> octetsPerLine > 0 && groupSize != 0
  {
    Concat(DumpLines(buffer, seekOffset, end, octetsPerLine, groupSize))
  }

  /** The dump of a range starts with the line of its first chunk. */
  lemma DumpStep(buffer: seq<byte>, i: nat, end: nat, octetsPerLine: int, groupSize: int)
    requires i < end <= |buffer| && octetsPerLine > 0 && groupSize != 0
    ensures Dump(buffer, i, end, octetsPerLine, groupSize)
         == FormatLine(buffer, i, end, octetsPerLine, groupSize) + Dump(buffer, i + octetsPerLine, end, octetsPerLine, groupSize)
  {
    DumpLinesStep(buffer, i, i + octetsPerLine, end, octetsPerLine, groupSize);
    var lines := DumpLines(buffer, i, end, octetsPerLine, groupSize);
    assert lines[1..] == DumpLines(buffer, i + octetsPerLine, end, octetsPerLine, groupSize);
  }

  /** A line is the label, the hex field, padding for the bytes it lacks
      of a full line (none for every line but the last), one space, the text
      column and a line feed. */
  lemma LineLayout(buffer: seq<byte>, i: nat, end: nat, octetsPerLine: int, groupSize: int)
    requires i < end <= |buffer| && octetsPerLine > 0 && groupSize != 0
    ensures var chunk := Chunk(buffer, i, end, octetsPerLine);
      && (i + octetsPerLine < end ==> PaddingWidth(octetsPerLine - |chunk|) == 0)
      && FormatLine(buffer, i, end, octetsPerLine, groupSize)
         == HexLabel(i) + ": " + HexField(chunk, groupSize) + Spaces(PaddingWidth(octetsPerLine - |chunk|))
            + " " + AsciiColumn(chunk) + "\n"
  {
    var chunk := Chunk(buffer, i, end, octetsPerLine);
    assert PaddingWidth(octetsPerLine - |chunk|) == PaddingWidth(i + octetsPerLine - end);
    var a, b, c := HexLabel(i) + ": ", HexField(chunk, groupSize), Spaces(PaddingWidth(octetsPerLine - |chunk|));
    SeqAssoc(a + b, c + " " + AsciiColumn(chunk), "\n");
  }

  /** With group size 2 and an even line width, the hex field and the
      padding of a line together are as wide as the hex field of a full
      line, so the text column starts at the same place on every line. */
  lemma TextColumnAligned(chunk: seq<byte>, octetsPerLine: int)
    requires 0 < |chunk| <= octetsPerLine && octetsPerLine % 2 == 0
    ensures |HexField(chunk, 2)| + PaddingWidth(octetsPerLine - |chunk|) == 2 * octetsPerLine + octetsPerLine / 2
  {
    HexFieldLength(chunk, 2);
  }

  predicate NoCr(s: string) {
    forall k | 0 <= k < |s| :: s[k] != '\r'
  }

  /** No line holds a carriage return, and a line feed only at its end. */
  lemma RenderBreaks(line: Line, groupSize: int)
    requires groupSize != 0
    ensures var s := Render(line, groupSize);
      && |s| > 0 && s[|s| - 1] == '\n'
      && forall k | 0 <= k < |s| :: s[k] != '\r' && (s[k] == '\n' ==> k == |s| - 1)
  {
    var head := HexLabel(line.start) + ": " + HexField(line.chunk, groupSize);
    var text := TextField(line.chunk, line.padLeft);
    var s := Render(line, groupSize);
    assert s == head + text;
    forall k | 0 <= k < |s|
      ensures s[k] != '\r' && (s[k] == '\n' ==> k == |s| - 1)
    {
      if k < |head| {
        assert s[k] == head[k];
        if k >= |HexLabel(line.start)| + 2 {
          assert head[k] == HexField(line.chunk, groupSize)[k - |HexLabel(line.start)| - 2];
        } else if k < |HexLabel(line.start)| {
          assert head[k] == HexLabel(line.start)[k];
        }
      } else {
        assert s[k] == text[k - |head|];
      }
    }
  }

  /** The whole dump holds no carriage return. */
  lemma DumpHasNoCr(buffer: seq<byte>, seekOffset: nat, end: nat, octetsPerLine: int, groupSize: int)
    requires end <= |buffer|
    requires seekOffset < end ==> octetsPerLine > 0 && groupSize != 0
    ensures forall k | 0 <= k < |Dump(buffer, seekOffset, end, octetsPerLine, groupSize)| ::
              Dump(buffer, seekOffset, end, octetsPerLine, groupSize)[k] != '\r'
  {
    var lines := Layout(buffer, seekOffset, end, octetsPerLine);
    var texts := DumpLines(buffer, seekOffset, end, octetsPerLine, groupSize);
    forall j | 0 <= j < |texts|
      ensures NoCr(texts[j])
    {
      RenderAllAt(lines, groupSize, j);
      RenderBreaks(lines[j], groupSize);
    }
    ConcatNoCr(texts);
  }

  lemma {:induction false} ConcatNoCr(parts: seq<string>)
    requires forall j | 0 <= j < |parts| :: NoCr(parts[j])
    ensures NoCr(Concat(parts))
  {
    if |parts| > 0 {
      ConcatNoCr(parts[1..]);
      assert NoCr(parts[0]);
    }
  }

  /** The loop of `ProcessFile`: the lines it writes, in order. */
  method DumpLoop(buffer: seq<byte>, seekOffset: nat, end: nat, octetsPerLine: int, groupSize: int) returns (written: seq<string>)
    requires end <= |buffer|
    requires seekOffset < end ==> octetsPerLine > 0 && groupSize != 0
    ensures written == DumpLines(buffer, seekOffset, end, octetsPerLine, groupSize)
  {
    written := [];
    var i := seekOffset;
    while i < end
      invariant seekOffset <= i
      invariant WrittenBefore(buffer, seekOffset, end, octetsPerLine, groupSize, written, i)
      decreases end - i
    {
      ghost var before, at := written, i;
      written := written + [FormatLine(buffer, i, end, octetsPerLine, groupSize)];
      i := i + octetsPerLine;
      WriteStep(buffer, seekOffset, end, octetsPerLine, groupSize, before, at, written, i);
    }
    assert written + [] == written;
  }

  /** `written` followed by the lines from `i` on is the whole dump. */
  predicate WrittenBefore(buffer: seq<byte>, seekOffset: nat, end: nat, octetsPerLine: int, groupSize: int, written: seq<string>, i: nat)
    requires end <= |buffer| && seekOffset <= i
    requires seekOffset < end ==> octetsPerLine > 0 && groupSize != 0
  {
    written + DumpLines(buffer, i, end, octetsPerLine, groupSize) == DumpLines(buffer, seekOffset, end, octetsPerLine, groupSize)
  }

  /** Writing the line at `i` moves it from the lines still to come to the
      lines written. */
  lemma WriteStep(buffer: seq<byte>, seekOffset: nat, end: nat, octetsPerLine: int, groupSize: int,
                  written: seq<string>, i: nat, written': seq<string>, i': nat)
    requires seekOffset <= i < end <= |buffer| && octetsPerLine > 0 && groupSize != 0
    requires WrittenBefore(buffer, seekOffset, end, octetsPerLine, groupSize, written, i)
    requires written' == written + [FormatLine(buffer, i, end, octetsPerLine, groupSize)] && i' == i + octetsPerLine
    ensures WrittenBefore(buffer, seekOffset, end, octetsPerLine, groupSize, written', i')
  {
    DumpLinesStep(buffer, i, i', end, octetsPerLine, groupSize);
    MoveFirst(written, FormatLine(buffer, i, end, octetsPerLine, groupSize), DumpLines(buffer, i, end, octetsPerLine, groupSize),
              DumpLines(buffer, i', end, octetsPerLine, groupSize), DumpLines(buffer, seekOffset, end, octetsPerLine, groupSize));
  }

  lemma MoveFirst<T>(done: seq<T>, x: T, rest: seq<T>, after: seq<T>, whole: seq<T>)
    requires done + rest == whole && rest == [x] + after
    ensures (done + [x]) + after == whole
  {
    SeqAssoc(done, [x], after);
  }

  /** The bytes of the lines, one chunk per pass of the loop. */
  function Chunks(buffer: seq<byte>, seekOffset: nat, end: nat, octetsPerLine: int): (r: seq<seq<byte>>)
    requires end <= |buffer|
    requires seekOffset < end ==> octetsPerLine > 0
    ensures seekOffset < end ==> |r| == LineCount(seekOffset, end, octetsPerLine)
    ensures end <= seekOffset ==> r == []
    decreases end - seekOffset
  {
    if seekOffset >= end then []
    else [Chunk(buffer, seekOffset, end, octetsPerLine)] + Chunks(buffer, seekOffset + octetsPerLine, end, octetsPerLine)
  }

  lemma ChunksStep(buffer: seq<byte>, i: nat, end: nat, octetsPerLine: int)
    requires i < end <= |buffer| && octetsPerLine > 0
    ensures Chunks(buffer, i, end, octetsPerLine)
         == [Chunk(buffer, i, end, octetsPerLine)] + Chunks(buffer, i + octetsPerLine, end, octetsPerLine)
  {
  }

  /** The lines cover the range exactly: together their bytes are
      `buffer[seekOffset..end]`. */
  lemma {:induction false} ChunksCoverRange(buffer: seq<byte>, seekOffset: nat, end: nat, octetsPerLine: int)
    requires seekOffset <= end <= |buffer| && octetsPerLine > 0
    ensures Concat(Chunks(buffer, seekOffset, end, octetsPerLine)) == buffer[seekOffset..end]
    decreases end - seekOffset
  {
    if seekOffset < end {
      var next := seekOffset + octetsPerLine;
      var c := Chunk(buffer, seekOffset, end, octetsPerLine);
      ChunksStep(buffer, seekOffset, end, octetsPerLine);
      if next < end {
        ChunksCoverRange(buffer, next, end, octetsPerLine);
        assert buffer[seekOffset..end] == c + buffer[next..end];
      } else {
        assert Chunks(buffer, next, end, octetsPerLine) == [];
        assert c == buffer[seekOffset..end];
      }
    }
  }

  /** Every line but the last holds `octetsPerLine` bytes, the last between
      1 and `octetsPerLine`. */
  lemma {:induction false} ChunkSizes(buffer: seq<byte>, seekOffset: nat, end: nat, octetsPerLine: int)
    requires seekOffset <= end <= |buffer| && octetsPerLine > 0
    ensures var cs := Chunks(buffer, seekOffset, end, octetsPerLine);
      && (forall k | 0 <= k < |cs| - 1 :: |cs[k]| == octetsPerLine)
      && (|cs| > 0 ==> 0 < |cs[|cs| - 1]| <= octetsPerLine)
    decreases end - seekOffset
  {
    if seekOffset < end {
      var next := seekOffset + octetsPerLine;
      var cs := Chunks(buffer, seekOffset, end, octetsPerLine);
      var rest := Chunks(buffer, next, end, octetsPerLine);
      ChunksStep(buffer, seekOffset, end, octetsPerLine);
      if next < end {
        ChunkSizes(buffer, next, end, octetsPerLine);
        assert forall k | 1 <= k < |cs| :: cs[k] == rest[k - 1];
      }
    }
  }

  /** Chunk `k` is the bytes of the pass that starts at
      `seekOffset + k * octetsPerLine`, and line `k` of the dump shows it. */
  lemma {:induction false} ChunkAt(buffer: seq<byte>, seekOffset: nat, end: nat, octetsPerLine: int, k: nat)
    requires end <= |buffer| && octetsPerLine > 0
    requires k < |Chunks(buffer, seekOffset, end, octetsPerLine)|
    ensures var start := LineStart(seekOffset, k, octetsPerLine);
      && 0 <= start < end
      && Chunks(buffer, seekOffset, end, octetsPerLine)[k] == Chunk(buffer, start, end, octetsPerLine)
      && Layout(buffer, seekOffset, end, octetsPerLine)[k].chunk == Chunk(buffer, start, end, octetsPerLine)
    decreases k
  {
    LayoutAt(buffer, seekOffset, end, octetsPerLine, k);
    if k > 0 {
      var next := seekOffset + octetsPerLine;
      assert Chunks(buffer, seekOffset, end, octetsPerLine)[k] == Chunks(buffer, next, end, octetsPerLine)[k - 1];
      ChunkAt(buffer, next, end, octetsPerLine, k - 1);
      LineStartStep(seekOffset, k - 1, octetsPerLine);
    }
  }
}
