/** How the reverter reads what the formatter writes. With group size 1 and
    16 octets per line, a full line keeps its 16 digit pairs exactly between
    indexes 10 and 57, so a dump stored with carriage return plus line feed
    reads back as the dumped bytes. The formatter ends lines with a bare line
    feed, though, and the default group size 2 prints four digits per token. */
module RoundTrip {
  import opened Wrappers
  import opened Text
  import opened Hex
  import opened Formatter
  import opened Reverter

  /** The octets per line the reverter's window is laid out for. */
  const LineWidth: int := 16
  /** Index just past the last possible 32-bit prefix's line: line starts
      below it print as exactly eight digits. */
  const LabelLimit: int := 0x1_0000_0000

  /** The digit pairs of a chunk joined by single spaces. */
  function HexJoined(chunk: seq<byte>): string {
    Join(HexTokens(chunk), TokenSeparator)
  }

  /** A full line printed with group size 1, without its line feed. */
  function LineBody(i: nat, chunk: seq<byte>): string {
    HexLabel(i) + ": " + HexJoined(chunk) + "  " + AsciiColumn(chunk)
  }

  /** With group size 1 and a full chunk, the line is its body and a line feed. */
  lemma FormatFullLine(buffer: seq<byte>, i: nat, end: nat)
    requires i + LineWidth <= end <= |buffer|
    ensures FormatLine(buffer, i, end, LineWidth, 1) == LineBody(i, buffer[i..i + LineWidth]) + "\n"
  {
    var chunk := Chunk(buffer, i, end, LineWidth);
    assert chunk == buffer[i..i + LineWidth];
    HexFromSingleGroups(chunk, 0);
    var hex := HexField(chunk, 1);
    assert hex == HexJoined(chunk) + " ";
    var text := TextField(chunk, i + LineWidth - end);
    assert Spaces(0) == [];
    assert text == " " + AsciiColumn(chunk) + "\n";
    var prefix := HexLabel(i) + ": ";
    assert FormatLine(buffer, i, end, LineWidth, 1) == prefix + hex + text;
    StringAssoc4(prefix, HexJoined(chunk), AsciiColumn(chunk));
  }

  lemma StringAssoc4(a: string, b: string, c: string)
    ensures a + (b + " ") + (" " + c + "\n") == a + b + "  " + c + "\n"
  {
  }

  /** The joined digit pairs of 16 bytes: 47 characters, digits and spaces
      only, starting and ending with a digit. */
  lemma HexJoinedShape(chunk: seq<byte>)
    requires |chunk| == LineWidth
    ensures var j := HexJoined(chunk);
      && |j| == 47
      && (forall k | 0 <= k < |j| :: IsLowerHexDigit(j[k]) || j[k] == ' ')
      && IsLowerHexDigit(j[0]) && IsLowerHexDigit(j[46])
  {
    var j := HexJoined(chunk);
    var field := HexFrom(chunk, 1, 0);
    HexFromSingleGroups(chunk, 0);
    assert field == j + " ";
    HexFromLength(chunk, 1, 0);
    HexFromAt(chunk, 1, 0, 15);
    assert DigitsPosition(0, 15, 1) == 45;
    assert j[46] == field[46] == Hex2(chunk[15])[1];
    assert j[0] == field[0];
    assert forall k | 0 <= k < |j| :: j[k] == field[k];
  }

  /** A full body: 75 characters without any line break, and its window is
      exactly the joined digit pairs. */
  lemma LineBodyShape(i: nat, chunk: seq<byte>)
    requires |chunk| == LineWidth && i < LabelLimit
    ensures var body := LineBody(i, chunk);
      && |body| == 75
      && body[WindowStart..WindowEnd] == HexJoined(chunk)
      && (forall k | 0 <= k < |body| :: body[k] != '\r' && body[k] != '\n')
  {
    LineBodyWindow(i, chunk);
    LineBodyNoBreak(i, chunk);
  }

  lemma LineBodyWindow(i: nat, chunk: seq<byte>)
    requires |chunk| == LineWidth && i < LabelLimit
    ensures var body := LineBody(i, chunk);
      && |body| == 75
      && body[WindowStart..WindowEnd] == HexJoined(chunk)
  {
    HexJoinedShape(chunk);
    var j := HexJoined(chunk);
    var body := LineBody(i, chunk);
    var head := HexLabel(i) + ": ";
    assert body == head + j + "  " + AsciiColumn(chunk);
    assert |head| == 10;
    assert body[10..57] == j;
  }

  /** No character of the text is a carriage return or a line feed. */
  predicate NoLineBreak(s: string) {
    forall k | 0 <= k < |s| :: s[k] != '\r' && s[k] != '\n'
  }

  lemma NoLineBreakAppend(a: string, b: string)
    requires NoLineBreak(a) && NoLineBreak(b)
    ensures NoLineBreak(a + b)
  {
    forall k | 0 <= k < |a + b|
      ensures (a + b)[k] != '\r' && (a + b)[k] != '\n'
    {
      if k >= |a| {
        assert (a + b)[k] == b[k - |a|];
      }
    }
  }

  lemma LineBodyNoBreak(i: nat, chunk: seq<byte>)
    requires |chunk| == LineWidth
    ensures NoLineBreak(LineBody(i, chunk))
  {
    HexJoinedShape(chunk);
    var prefix, j, ascii := HexLabel(i), HexJoined(chunk), AsciiColumn(chunk);
    assert NoLineBreak(prefix);
    assert NoLineBreak(j);
    assert NoLineBreak(ascii);
    NoLineBreakAppend(prefix, ": ");
    NoLineBreakAppend(prefix + ": ", j);
    NoLineBreakAppend(prefix + ": " + j, "  ");
    NoLineBreakAppend(prefix + ": " + j + "  ", ascii);
  }

  /** The digit pairs of bytes read back as the bytes. */
  lemma {:induction false} ParseHexTokens(chunk: seq<byte>)
    ensures ParseTokens(HexTokens(chunk)) == Success(chunk)
  {
    if |chunk| > 0 {
      var tokens := HexTokens(chunk);
      assert tokens[1..] == HexTokens(chunk[1..]);
      ParseHexTokens(chunk[1..]);
      ParseFirstPair(chunk[0], tokens[1..], chunk[1..]);
      assert tokens == [Hex2(chunk[0])] + tokens[1..];
      assert [chunk[0]] + chunk[1..] == chunk;
    }
  }

  /** A digit pair in front of tokens that read as `more` reads as its byte
      followed by `more`. */
  lemma ParseFirstPair(b: byte, rest: seq<string>, more: seq<byte>)
    requires ParseTokens(rest) == Success(more)
    ensures ParseTokens([Hex2(b)] + rest) == Success([b] + more)
  {
    var tokens := [Hex2(b)] + rest;
    assert tokens[1..] == rest;
    ToByteHex2(b);
    DigitNotWhiteSpace(Hex2(b)[0]);
  }

  lemma DigitNotWhiteSpace(c: char)
    requires IsLowerHexDigit(c)
    ensures !IsWhiteSpace(c)
  {
    NotInRanges(c as int, WhiteSpaceRanges);
  }

  /** A full body reads back as its chunk. */
  lemma ParseLineBody(i: nat, chunk: seq<byte>)
    requires |chunk| == LineWidth && i < LabelLimit
    ensures ParseLine(LineBody(i, chunk)) == Success(chunk)
  {
    LineBodyShape(i, chunk);
    HexJoinedShape(chunk);
    var j := HexJoined(chunk);
    assert Window(LineBody(i, chunk)) == j;
    DigitNotWhiteSpace(j[0]);
    DigitNotWhiteSpace(j[46]);
    TrimUnchanged(j);
    var tokens := HexTokens(chunk);
    forall t, k | 0 <= t < |tokens| && 0 <= k < |tokens[t]|
      ensures tokens[t][k] != TokenSeparator[0]
    {
      assert IsLowerHexDigit(Hex2(chunk[t])[k]);
    }
    SplitJoin(tokens, TokenSeparator);
    ParseHexTokens(chunk);
  }

  /** A line and its line feed, stored with a carriage return before the line feed. */
  lemma CrlfLine(body: string, rest: string)
    requires forall k | 0 <= k < |body| :: body[k] != '\n'
    ensures ToCrlf(body + "\n" + rest) == body + LineBreak + ToCrlf(rest)
  {
    ToCrlfAppend(body + "\n", rest);
    ToCrlfAppend(body, "\n");
    ToCrlfWithoutLf(body);
    assert ToCrlf("\n") == LineBreak;
  }

  /** Reading a line followed by more text, once stored with Windows line
      endings: the bytes of the line, then those of the rest. */
  lemma ParseCrlfLine(body: string, rest: string, bytes: seq<byte>, more: seq<byte>)
    requires forall k | 0 <= k < |body| :: body[k] != '\r' && body[k] != '\n'
    requires ParseLine(body) == Success(bytes)
    requires ParseLines(SplitOn(ToCrlf(rest), LineBreak)) == Success(more)
    ensures ParseLines(SplitOn(ToCrlf(body + "\n" + rest), LineBreak)) == Success(bytes + more)
  {
    CrlfLine(body, rest);
    SplitLine(body, ToCrlf(rest), LineBreak);
    var pieces := SplitOn(ToCrlf(rest), LineBreak);
    ParseLinesCons(body, pieces);
  }

  /** The empty dump reads back as no bytes. */
  lemma ParseEmptyDump()
    ensures ParseLines(SplitOn(ToCrlf([]), LineBreak)) == Success([])
  {
    var pieces: seq<string> := [[]];
    assert ToCrlf([]) == [];
    assert SplitOn([], LineBreak) == pieces;
    assert pieces[1..] == [];
    assert ParseLine(pieces[0]) == Success([]);
    assert ParseLines(pieces[1..]) == Success([]);
    var none: seq<byte> := [];
    assert none + none == none;
    assert ParseLines(pieces) == Success(none + none);
  }

  /** A dump that starts with a full line: its body, which has no line
      break and reads back as the chunk, a line feed, and the rest. */
  lemma DumpFullLine(buffer: seq<byte>, seekOffset: nat, end: nat)
    requires seekOffset + LineWidth <= end <= |buffer| && end <= LabelLimit
    ensures var next := seekOffset + LineWidth;
      var body := LineBody(seekOffset, buffer[seekOffset..next]);
      && Dump(buffer, seekOffset, end, LineWidth, 1) == body + "\n" + Dump(buffer, next, end, LineWidth, 1)
      && (forall k | 0 <= k < |body| :: body[k] != '\r' && body[k] != '\n')
      && ParseLine(body) == Success(buffer[seekOffset..next])
  {
    var chunk := buffer[seekOffset..seekOffset + LineWidth];
    DumpStep(buffer, seekOffset, end, LineWidth, 1);
    FormatFullLine(buffer, seekOffset, end);
    LineBodyShape(seekOffset, chunk);
    ParseLineBody(seekOffset, chunk);
  }

  /** A non-empty range of whole lines holds a first line and whole lines after it. */
  lemma WholeLinesStep(seekOffset: int, end: int)
    requires seekOffset < end && (end - seekOffset) % LineWidth == 0
    ensures seekOffset + LineWidth <= end && (end - (seekOffset + LineWidth)) % LineWidth == 0
  {
    var n := end - seekOffset;
    DivUnique(n - LineWidth, LineWidth, n / LineWidth - 1, 0);
  }

  /** The lines of a dump of full lines, stored with carriage return plus
      line feed, read back as the dumped range. */
  lemma {:induction false} ParseCrlfDump(buffer: seq<byte>, seekOffset: nat, end: nat)
    requires seekOffset <= end <= |buffer| && end <= LabelLimit
    requires (end - seekOffset) % LineWidth == 0
    ensures ParseLines(SplitOn(ToCrlf(Dump(buffer, seekOffset, end, LineWidth, 1)), LineBreak)) == Success(buffer[seekOffset..end])
    decreases end - seekOffset
  {
    if seekOffset == end {
      assert Dump(buffer, seekOffset, end, LineWidth, 1) == [];
      assert buffer[seekOffset..end] == [];
      ParseEmptyDump();
    } else {
      WholeLinesStep(seekOffset, end);
      var next := seekOffset + LineWidth;
      var chunk := buffer[seekOffset..next];
      var rest := Dump(buffer, next, end, LineWidth, 1);
      ParseCrlfDump(buffer, next, end);
      DumpFullLine(buffer, seekOffset, end);
      ParseCrlfLine(LineBody(seekOffset, chunk), rest, chunk, buffer[next..end]);
      SliceSplit(buffer, seekOffset, next, end);
    }
  }

  /** Round trip: a dump with group size 1 and 16 octets per line of a range
      of whole lines, stored with Windows line endings in a `.hex` file,
      reverts to exactly the dumped bytes. */
  lemma RevertCrlfDump(path: string, buffer: seq<byte>, seekOffset: nat, end: nat)
    requires EndsWith(path, HexSuffix)
    requires seekOffset <= end <= |buffer| && end <= LabelLimit
    requires (end - seekOffset) % LineWidth == 0
    ensures Revert(path, ToCrlf(Dump(buffer, seekOffset, end, LineWidth, 1))) == Success(buffer[seekOffset..end])
  {
    ParseCrlfDump(buffer, seekOffset, end);
  }

  /** The dump as the formatter writes it, with bare line feeds, is a single
      piece for a reader that splits on carriage return plus line feed: the
      reverter reads the window of the first line only and ignores the rest. */
  lemma RevertLfDump(path: string, buffer: seq<byte>, seekOffset: nat, end: nat)
    requires EndsWith(path, HexSuffix)
    requires seekOffset + LineWidth <= end <= |buffer| && end <= LabelLimit
    ensures Revert(path, Dump(buffer, seekOffset, end, LineWidth, 1)) == Success(buffer[seekOffset..seekOffset + LineWidth])
  {
    var dump := Dump(buffer, seekOffset, end, LineWidth, 1);
    DumpHasNoCr(buffer, seekOffset, end, LineWidth, 1);
    SplitWithoutSep(dump, LineBreak);
    ParseSingleLine(dump);
    ParseLfDump(buffer, seekOffset, end);
  }

  /** Read as one line, the dump gives the bytes of its first line. */
  lemma ParseLfDump(buffer: seq<byte>, seekOffset: nat, end: nat)
    requires seekOffset + LineWidth <= end <= |buffer| && end <= LabelLimit
    ensures ParseLine(Dump(buffer, seekOffset, end, LineWidth, 1)) == Success(buffer[seekOffset..seekOffset + LineWidth])
  {
    var next := seekOffset + LineWidth;
    var chunk := buffer[seekOffset..next];
    var body := LineBody(seekOffset, chunk);
    var rest := Dump(buffer, next, end, LineWidth, 1);
    DumpFullLine(buffer, seekOffset, end);
    LineBodyShape(seekOffset, chunk);
    SeqAssoc(body, "\n", rest);
    ParseLineOfPrefix(body, "\n" + rest);
  }

  /** A text of one line reads as that line. */
  lemma ParseSingleLine(line: string)
    ensures ParseLines([line]) == ParseLine(line)
  {
    ParseLinesCons(line, []);
    assert [line] + [] == [line];
    if ParseLine(line).Success? {
      assert ParseLine(line).value + [] == ParseLine(line).value;
    }
  }
}
