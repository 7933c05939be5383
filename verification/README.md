# ccxxd core in Dafny

`ccxxd` is a small `xxd`-style hex dump tool. This project models its three
pure cores, all from `ccxxd/Program.cs`, and proves properties of them.

- **The forward formatter.** This is the dump loop of `ProcessFile` with
  `PrintDataAsHex`, `PrintDataAsText` and the `x8` offset label. It is a pure
  function from a buffer, a seek offset, an end index, the octets per line and
  the group size to the lines written (modules `Hex` and `Formatter`).
- **Configuration.** This covers:
  - `ParseArguments`, which turns the tokens after the file path into an
    option map;
  - the `Get…` helpers and their defaults;
  - the end index `seekOffset + len ?? (int)fs.Length`.

  It lives in modules `Arguments` and `Config`.
- **The reverter.** This is the text-to-bytes part of `RevertFile`, in module
  `Reverter`. It depends on:
  - the `.hex` suffix check;
  - `Split("\r\n")`;
  - skipping lines shorter than 57 characters;
  - the window `line[10..57]`, which is trimmed and split on spaces;
  - skipping blank tokens;
  - `Convert.ToByte(token, 16)`.

  The .NET string operations it relies on live in module `Text`:
  `char.IsWhiteSpace`, `Trim`, `Split` and `string.IsNullOrWhiteSpace`.

Module `RoundTrip` relates the formatter to the reverter. The model follows
the code as written, and four places where the code and the tool's intent
part ways are modelled as written:

- **Control bytes.** `char.IsControl((char)b)` is true for 0x00–0x1F and also
  for 0x7F–0x9F, so the C1 range prints as `.` in the text column.
- **Window width.** The reverter's window `line[10..57]` holds exactly the
  digit pairs of a full line only with group size 1 and 16 octets per line.
  With the default group size 2, the window of a full line holds the
  40-character hex field, the space before the text column and the first six
  text characters. Each hex token is then four digits, and `Convert.ToByte`
  overflows on it unless the first byte of the pair is 0
  (`Hex.ToByteOfTwoBytes`). A line of zero bytes gets past its hex tokens and
  fails on the text fragment `......`, which is not hexadecimal.
- **Short last line.** With group size 1, a last line of 1 to 3 bytes is
  shorter than 57 characters and is skipped, so its bytes are lost. A last
  line of 4 to 10 bytes is long enough, but the padding is narrow enough that
  text-column characters fall inside the window. For example, four bytes 0x30
  print the text `0000`, and the line reverts to the five bytes 0x30, 0x30,
  0x30, 0x30, 0x00. `RoundTrip.RevertCrlfDump` therefore requires whole
  16-byte lines.
- **Line endings.** The formatter ends every line with a bare line feed, but
  the reverter splits on carriage return plus line feed. A full dump therefore
  reads back completely only once stored with Windows line endings
  (`RoundTrip.RevertCrlfDump`). As written, a dump with bare line feeds reads
  back as its first line only (`RoundTrip.RevertLfDump`).

Bytes are `Hex.byte`, the integers 0..255. Strings are `seq<char>`. Errors are
`Result` values carrying the exception `RevertFile` or `ParseArguments` would
throw.

## Model

| member | source | states |
|---|---|---|
| Formatter.Glyph | ccxxd/Program.cs:158 | a control byte (0x00–0x1F or 0x7F–0x9F) shows as a dot, any other byte as the character with its code; never a line break |
| Formatter.AsciiColumn | ccxxd/Program.cs:158 | the text column has exactly one character per byte, the glyph of that byte |
| Formatter.PaddingWidth | ccxxd/Program.cs:159 | no padding for padLeft <= 0; otherwise the width w is the least integer with 2w >= 5·padLeft, i.e. the ceiling of padLeft·2.5 |
| Formatter.TextField | ccxxd/Program.cs:156-162 | the text field is padding, a space, one glyph per byte and a line feed: its length is padding + bytes + 2, it ends in a line feed and has no other line break |
| Formatter.GroupSeparator | ccxxd/Program.cs:152 | what follows a byte's digits is at most one space, and nothing at all for a negative group size |
| Formatter.HexFrom | ccxxd/Program.cs:151-153 | the hex field from a given index has only lowercase digits and spaces, is empty exactly for an empty chunk, and starts with a digit |
| Formatter.HexField | ccxxd/Program.cs:149-154 | the hex field has only lowercase digits and spaces and is empty exactly for an empty chunk |
| Formatter.HexFromLength | ccxxd/Program.cs:151-153 | from index i, n bytes print as 2n digits plus one space per index that closes a group |
| Formatter.HexFieldLength | ccxxd/Program.cs:149-154 | the field of n bytes is 2n + n / groupSize characters for a positive group size, and 2n for a negative one |
| Formatter.HexFromAt | ccxxd/Program.cs:151-153 | byte k of the chunk prints as its two digits at its position, followed by a space exactly when index i + k closes a group |
| Formatter.HexFieldAt | ccxxd/Program.cs:152 | byte k prints as its two digits at 2k + k / groupSize, followed by a space iff k % groupSize == groupSize - 1 |
| Formatter.HexFromWithoutGroups | ccxxd/Program.cs:152 | with a negative group size no byte closes a group: the field is the digit pairs run together |
| Formatter.HexTokens | ccxxd/Program.cs:152 | the digit pairs of a chunk, one per byte, in order |
| Formatter.HexFromSingleGroups | ccxxd/Program.cs:152 | with group size 1 the field is the digit pairs joined by single spaces, plus a trailing space |
| Formatter.Chunk | ccxxd/Program.cs:93 | the bytes of the line starting at i are buffer[i..min(i + octetsPerLine, end)]: 1..octetsPerLine bytes, exactly octetsPerLine when the line is not cut by the end |
| Formatter.LineCountIsCeiling | ccxxd/Program.cs:90 | the loop runs no time when end <= seek, and otherwise the least n with n·octetsPerLine >= end - seek times |
| Formatter.LineCountFormula | ccxxd/Program.cs:90 | the number of lines is (end - seek + octetsPerLine - 1) / octetsPerLine |
| Formatter.LayoutAt | ccxxd/Program.cs:90-94 | line k starts at seek + k·octetsPerLine, which is below the end, and holds the chunk there |
| Formatter.DumpLines | ccxxd/Program.cs:90-94 | the dump has one line per loop iteration and none when end <= seek |
| Formatter.DumpLineAt | ccxxd/Program.cs:90-94 | line k of the dump is the line formatted for start seek + k·octetsPerLine |
| Formatter.DumpLinesStep | ccxxd/Program.cs:90-94 | the dump from i is the line at i followed by the dump from i + octetsPerLine |
| Formatter.DumpStep | ccxxd/Program.cs:90-94 | the written text from i is the line at i followed by the text from i + octetsPerLine |
| Formatter.LineLayout | ccxxd/Program.cs:92-94 | a line is the x8 label, ": ", the hex field, padding, a space, the text column and a line feed; a line that is not last has no padding |
| Formatter.TextColumnAligned | ccxxd/Program.cs:93-94 | with group size 2 and an even line width, hex field plus padding has the same width for a short last line as for a full one |
| Formatter.RenderBreaks | ccxxd/Program.cs:92-94 | every line ends in a line feed, has no other line feed and no carriage return |
| Formatter.DumpHasNoCr | ccxxd/Program.cs:90-94 | the whole dump contains no carriage return |
| Formatter.DumpLoop | ccxxd/Program.cs:90-95 | the loop writes exactly the dump lines, in order |
| Formatter.Chunks | ccxxd/Program.cs:90-94 | one chunk per loop iteration |
| Formatter.ChunksCoverRange | ccxxd/Program.cs:90-94 | the chunks, concatenated, are buffer[seek..end] |
| Formatter.ChunkSizes | ccxxd/Program.cs:90-94 | every chunk but the last has octetsPerLine bytes; the last has 1..octetsPerLine |
| Formatter.ChunkAt | ccxxd/Program.cs:90-94 | chunk k is the chunk of line k, starting at seek + k·octetsPerLine |
| Hex.HexDigit | ccxxd/Program.cs:152 | a digit value prints as a lowercase digit that reads back as that value |
| Hex.FixedHex | ccxxd/Program.cs:92 | n in a fixed number of lowercase digits reads back as n when it fits |
| Hex.HexWidth | ccxxd/Program.cs:92 | the least number of digits that holds n |
| Hex.Hex2 | ccxxd/Program.cs:152 | `x2`: two lowercase digits whose value is the byte |
| Hex.HexLabel | ccxxd/Program.cs:92 | `x8`: at least eight lowercase digits whose value is the offset, exactly eight for every 32-bit offset |
| Hex.HexRun | ccxxd/Program.cs:70 | the run of hex digits at the start of a string is all digits and is followed by a non-digit or the end |
| Hex.GrabHexFrom | ccxxd/Program.cs:70 | the base-16 digit loop of `ParseNumbers.GrabInts`, resumed after k digits, throws iff the whole run's value exceeds 0xFFFFFFFF and otherwise stops at the end of the run with its value |
| Hex.GrabHexValue | ccxxd/Program.cs:70 | the digit loop from the start throws iff the value of the leading run of digits exceeds 32 bits, and otherwise reads exactly that run |
| Hex.DigitsStartSkips | ccxxd/Program.cs:70 | what is skipped before the digits is nothing, `+`, `0x`, `0X`, or `+` followed by one of these prefixes |
| Hex.ReadDigits | ccxxd/Program.cs:70 | after the sign and prefix, the rest reads iff it is a non-empty string of digits of value below 256; it overflows iff its leading run exceeds 32 bits, or is all of it and exceeds a byte; every other failure is a format error |
| Hex.ToByte | ccxxd/Program.cs:70 | `Convert.ToByte(s, 16)` fails on an empty string with its own error, and with another one iff s starts with `-` |
| Hex.ToByteSuccess | ccxxd/Program.cs:70 | a token reads iff, after an optional `+` and `0x`, it is a non-empty string of hex digits of either case with value below 256; the byte is that value |
| Hex.ToByteOverflow | ccxxd/Program.cs:70 | a token overflows iff its leading run of digits exceeds 32 bits, whatever follows, or the token is all digits with value above 255 |
| Hex.ToByteDigits | ccxxd/Program.cs:70 | a token of digits alone reads as its value below 256 and overflows otherwise |
| Hex.ToBytePrefixed | ccxxd/Program.cs:70 | `+`, `0x`, `0X`, `+0x` or `+0X` in front of a token of digits does not change what it reads as |
| Hex.ToByteTrailing | ccxxd/Program.cs:70 | a run of digits that fits in 32 bits followed by a non-digit is a format error, whatever the value of the digits, when the run has more than one digit or the non-digit is not `x` or `X` (`0x5` reads as 5) |
| Hex.ToByteLongRun | ccxxd/Program.cs:70 | a run of digits beyond 32 bits is an overflow even when a non-digit follows, as for `123456789z` |
| Hex.ToByteHex2 | ccxxd/Program.cs:70 | a printed digit pair reads back as its byte |
| Hex.ToByteOfTwoBytes | ccxxd/Program.cs:70 | a four-digit token (group size 2) reads as the second byte when the first is 0 and overflows otherwise |
| Arguments.ParseInt | ccxxd/Program.cs:136 | `int.TryParse` succeeds iff what follows an optional sign is a non-empty string of decimal digits whose signed value fits in 32 bits, and it gives that value, negated after `-` |
| Arguments.ParseIntLeadingZero | ccxxd/Program.cs:136 | a zero in front of the digits, after any sign, is accepted and changes nothing |
| Arguments.ParseIntPlus | ccxxd/Program.cs:136 | a `+` in front of the digits is accepted and changes nothing |
| Arguments.ParseIntToString | ccxxd/Program.cs:136 | every 32-bit value written in decimal parses back to itself |
| Arguments.ParseArguments | ccxxd/Program.cs:121-147 | the file path is skipped; a parsed map holds only known options with valid values; no tokens after the path give the empty map |
| Arguments.ParseOptions | ccxxd/Program.cs:124-145 | a parsed map extends the map so far by known options only, includes the first option, and an unknown first token is `Invalid option` |
| Arguments.CollectKeys | ccxxd/Program.cs:134-138 | the options in the map are exactly those that occur |
| Arguments.CollectLastWins | ccxxd/Program.cs:134-138 | each option maps to the value of its last occurrence |
| Arguments.ParseArgumentsRendered | ccxxd/Program.cs:121-147 | any command line of valid settings after the path, each value spelled by any token `int.TryParse` reads as it, parses to the map of their last occurrences |
| Arguments.InvalidOptionAfterSettings | ccxxd/Program.cs:127-130 | an unknown token after valid settings is `Invalid option` for that token |
| Arguments.ValueOptionWithoutValue | ccxxd/Program.cs:136-143 | a value option as the last token is `Missing or invalid value` for that option |
| Arguments.ValueOptionWithBadValue | ccxxd/Program.cs:136-143 | a value option followed by a token that is not a 32-bit integer is `Missing or invalid value` for that option |
| Arguments.ParsePrefixThen | ccxxd/Program.cs:124-145 | after valid settings the parser continues with the rest from the map updated by them |
| Config.Wrap32 | ccxxd/Program.cs:82 | the 32-bit two's complement result: a 32-bit value congruent to the sum modulo 2^32, the sum itself when it fits |
| Config.CollectIsLastValue | ccxxd/Program.cs:98-105 | looking an option up in the parsed map finds the value of its last occurrence, and nothing when it never occurs |
| Config.ResolveCollected | ccxxd/Program.cs:80-83 | the resolved numbers of a map are those stated option by option from the last occurrences |
| Config.ResolveCommandLine | ccxxd/Program.cs:98-119 | the last `-s`, `-c`, `-g` win, with defaults seek 0 and 16 octets per line; the group size is `-g`, else 4 with `-e`, else 2; the end is seek + `-l` in 32 bits when `-l` is given, else the file length cast to 32 bits |
| Text.NotInRanges | ccxxd/Program.cs:65 | a code point outside every whitespace range is not whitespace |
| Text.LeadingWhiteSpace | ccxxd/Program.cs:65 | the length of the leading whitespace fits in the string |
| Text.TrailingWhiteSpace | ccxxd/Program.cs:65 | the length of the trailing whitespace fits in the string |
| Text.LeadingWhiteSpaceSpec | ccxxd/Program.cs:65 | the leading whitespace is the longest whitespace prefix |
| Text.TrailingWhiteSpaceSpec | ccxxd/Program.cs:65 | the trailing whitespace is the longest whitespace suffix |
| Text.TrimSpec | ccxxd/Program.cs:65 | `Trim` gives the slice of s that is whitespace on neither end, with only whitespace outside it |
| Text.TrimUnchanged | ccxxd/Program.cs:65 | a string that neither starts nor ends with whitespace trims to itself |
| Text.SplitOn | ccxxd/Program.cs:58 | `Split(sep)` gives at least one piece and joining the pieces with sep gives the string back |
| Text.SplitPiecesAvoidSep | ccxxd/Program.cs:58 | no piece of a split contains the separator |
| Text.SplitJoin | ccxxd/Program.cs:65 | splitting a join of separator-free pieces gives the pieces back |
| Text.SplitLine | ccxxd/Program.cs:58 | a line with no character equal to the separator's first character, then the separator and a rest, splits into the line and the pieces of the rest |
| Text.SplitWithoutSep | ccxxd/Program.cs:58 | text without the separator's first character splits into itself alone |
| Reverter.NonBlank | ccxxd/Program.cs:68 | the tokens that are kept are never blank |
| Reverter.NonBlankSingle | ccxxd/Program.cs:66-68 | a single token is kept iff it is not blank |
| Reverter.NonBlankAppend | ccxxd/Program.cs:66-68 | the tokens kept from a concatenation are those kept from each part, in order |
| Reverter.ParseTokensSpec | ccxxd/Program.cs:66-72 | the tokens read iff each is blank or a byte; then the bytes are those of the non-blank tokens in order; otherwise the error is the first token of the line that is neither, with `Convert.ToByte`'s reason |
| Reverter.ParseTokensOk | ccxxd/Program.cs:66-72 | the tokens read iff each is blank or a byte |
| Reverter.ParseTokensBytes | ccxxd/Program.cs:66-72 | the bytes read are one per non-blank token, each what `Convert.ToByte` gives for that token |
| Reverter.ParseTokensError | ccxxd/Program.cs:66-72 | a failure names the first token of the line that is neither blank nor a byte, with the reason `Convert.ToByte` gives for it |
| Reverter.ReadsCons | ccxxd/Program.cs:70 | a token that reads as a byte in front of tokens that read as bytes reads in front of those bytes |
| Reverter.Window | ccxxd/Program.cs:65 | the window of a readable line is 47 characters |
| Reverter.ParseLine | ccxxd/Program.cs:60-63 | a line shorter than 57 characters contributes no bytes |
| Reverter.ParseLineReadsWindowOnly | ccxxd/Program.cs:60-65 | two readable lines that agree on indexes 10..56 read the same |
| Reverter.ParseLineOfPrefix | ccxxd/Program.cs:60-65 | a readable line reads the same whatever follows it |
| Reverter.ParseLinesSuccess | ccxxd/Program.cs:58-72 | the lines read iff every one of them does |
| Reverter.ParseLinesAppend | ccxxd/Program.cs:58-72 | reading lines one after another appends their bytes, and the first error is the error of the whole |
| Reverter.Revert | ccxxd/Program.cs:50-53 | a path not ending in `.hex` is refused |
| Reverter.RevertSuccess | ccxxd/Program.cs:50-72 | a file reverts iff its path ends in `.hex` and every CRLF-separated line reads |
| RoundTrip.FormatFullLine | ccxxd/Program.cs:92-94 | a full 16-byte line with group size 1 is its body and a line feed |
| RoundTrip.HexJoinedShape | ccxxd/Program.cs:152 | the 16 digit pairs joined by spaces are 47 characters, digits and spaces only, digits at both ends |
| RoundTrip.LineBodyShape | ccxxd/Program.cs:92-94 | a full body is 75 characters without line breaks, and indexes 10..56 hold exactly the joined digit pairs |
| RoundTrip.ParseHexTokens | ccxxd/Program.cs:66-72 | printed digit pairs read back as their bytes |
| RoundTrip.ParseLineBody | ccxxd/Program.cs:60-72 | a full body reads back as its 16 bytes |
| RoundTrip.DumpFullLine | ccxxd/Program.cs:90-94 | a dump of at least 16 bytes starts with a full body that reads back as its chunk, then a line feed and the rest of the dump |
| RoundTrip.ParseCrlfDump | ccxxd/Program.cs:58-72 | the lines of a whole-line dump stored with CRLF read back as the dumped bytes |
| RoundTrip.RevertCrlfDump | ccxxd/Program.cs:58-70 | a `.hex` dump of whole 16-byte lines with group size 1, stored with CRLF, reverts to buffer[seek..end] |
| RoundTrip.RevertLfDump | ccxxd/Program.cs:58 | the same dump with the bare line feeds the formatter writes reverts to its first 16 bytes only |

## Left out

- File and console I/O are not modelled. This covers:
  - `File.Exists`, `FileStream`, `File.ReadAllBytes`, `BinaryWriter` and
    `Console.Write` (lines 24-46, 55-57, 78);
  - `Main` (lines 24-46), `ValidateArguments` and `PrintUsage`
    (lines 164-186).

  The formatter returns the written lines. The reverter returns the bytes
  or the exception.
- The buffer fill (lines 85-88) reads from file offset `seekOffset` into
  index 0, while the loop slices from index `seekOffset`. The loop is modelled
  over a given buffer; the read is not.
- `Encoding.ASCII` decoding of the file (line 58) is not modelled. It maps
  bytes above 0x7F to `?`; the reverter takes the decoded text as its input.
- Reverter.Revert: the bytes before a bad token are already written when the
  exception is thrown. The model returns only the exception.
- Reverter.Revert: `filePath.EndsWith(".hex")` compares by the current
  culture, which skips ignorable characters, so a path ending in `.hex`
  followed by a soft hyphen (U+00AD) also passes. The model compares
  ordinally (`Text.EndsWith`) and refuses such a path.
- Arguments.ParseInt: the leading and trailing whitespace and the culture's
  sign symbols that `int.TryParse` accepts are not modelled. It accepts an
  optional `+` or `-` and decimal digits.
- Formatter.PaddingWidth: `Math.Ceiling(padLeft * 2.5)` in floating point is
  replaced by the integer `(5 * padLeft + 1) / 2`. The product is exact in
  double precision, so the two agree for every 32-bit padLeft. The `(int)`
  cast of the ceiling is not modelled. From padLeft 858,993,459 on, the
  ceiling exceeds `int.MaxValue`, the cast no longer gives it, and
  `new string(' ', …)` throws after the earlier lines are written. This
  happens, for example, with `-c 1000000000` on a 10-byte file. The model
  pads with exactly the ceiling.
- Formatter.DumpLoop: `i + octetsPerLine` is unbounded rather than 32-bit.
  The model requires positive octets per line and a non-zero group size
  when the loop runs at all. With 0 octets per line the C# loop never ends.
  A negative value, or a group size of 0, throws after partial output.
- Formatter.HexFromAt: the positions are stated for a positive group size
  only. For a negative group size, Formatter.HexFromWithoutGroups gives the
  whole field.
- Reverter.ParseLine: its own contract states only the short-line case. The
  rest is stated by Reverter.ParseTokensSpec, Reverter.ParseLineReadsWindowOnly
  and RoundTrip.ParseLineBody.
- The dump with group size 2 is not proved to fail as a whole. Only the
  token-level overflow is stated (Hex.ToByteOfTwoBytes).
