/** Resolution of the parsed option map into the numbers the dump loop uses:
    group size, seek offset, end index and octets per line, with their defaults. */
module Config {
  import opened Wrappers
  import opened Arguments

  const LittleEndianSize: int := 4
  const DefaultGroupSize: int := 2
  const DefaultOctetsPerLine: int := 16
  const DefaultSeekOffset: int := 0

  function GetSeekOffset(m: map<string, int>): int {
    if OptSeekOffset in m then m[OptSeekOffset] else DefaultSeekOffset
  }

  function GetOctetsPerLine(m: map<string, int>): int {
    if OptOctetsPerLine in m then m[OptOctetsPerLine] else DefaultOctetsPerLine
  }

  function GetOctetsLength(m: map<string, int>): Option<int> {
    if OptLen in m then Some(m[OptLen]) else None
  }

  /** An explicit group size wins over the little-endian switch, which wins
      over the default. */
  function GetGroupSize(m: map<string, int>): int {
    if OptGroupSize in m then m[OptGroupSize]
    else if OptLittleEndian in m then LittleEndianSize
    else DefaultGroupSize
  }

  /** The 32-bit two's complement value of `n`, which is what C# `int`
      arithmetic produces. */
  function Wrap32(n: int): (r: int)
    ensures IsInt32(r)
    ensures (r - n) % 0x1_0000_0000 == 0
    ensures IsInt32(n) ==> r == n
  {
    (n - Int32Min) % 0x1_0000_0000 + Int32Min
  }

  /** The index one past the last byte to dump: seek offset plus length when a
      length is given (in 32-bit arithmetic), otherwise the file length cast
      to `int`, to which the seek offset is not added. */
  function EndIndex(m: map<string, int>, fileLength: int): int {
    match GetOctetsLength(m)
    case Some(len) => Wrap32(GetSeekOffset(m) + len)
    case None => Wrap32(fileLength)
  }

  /** The resolved numbers of one forward dump. */
  datatype DumpSettings = DumpSettings(groupSize: int, seekOffset: int, end: int, octetsPerLine: int)

  function Resolve(m: map<string, int>, fileLength: int): DumpSettings {
    DumpSettings(GetGroupSize(m), GetSeekOffset(m), EndIndex(m, fileLength), GetOctetsPerLine(m))
  }

  /** The value the last setting of `option` in `ss` gives it, if any. */
  function LastValue(ss: seq<Setting>, option: string): Option<int> {
    if |ss| == 0 then None
    else if ss[|ss| - 1].option == option then Some(ss[|ss| - 1].value)
    else LastValue(ss[..|ss| - 1], option)
  }

  function ValueOr(o: Option<int>, default: int): int {
    match o
    case Some(v) => v
    case None => default
  }

  /** Looking an option up in the collected map finds its last value. */
  lemma {:induction false} CollectIsLastValue(ss: seq<Setting>, option: string)
    ensures option in Collect(ss) <==> LastValue(ss, option).Some?
    ensures option in Collect(ss) ==> Collect(ss)[option] == LastValue(ss, option).value
  {
    if |ss| > 0 {
      CollectIsLastValue(ss[..|ss| - 1], option);
    }
  }

  /** What a command line resolves to: every setting comes from the last
      occurrence of its option, `-g` beats `-e`, the defaults are 16 octets
      per line, group size 2 (4 with `-e`) and seek offset 0, and the end is
      seek plus length when `-l` is given and the file length otherwise, both
      cut to 32 bits. */
  lemma ResolveCommandLine(path: string, ss: seq<Setting>, fileLength: int)
    requires forall j | 0 <= j < |ss| :: ValidSetting(ss[j])
    ensures ParseArguments([path] + Render(ss)).Success?
    ensures Resolve(ParseArguments([path] + Render(ss)).value, fileLength) == ResolveSettings(ss, fileLength)
  {
    ParseArgumentsRendered(path, ss);
    ResolveCollected(ss, fileLength);
  }

  /** The resolution of a sequence of settings, stated option by option. */
  function ResolveSettings(ss: seq<Setting>, fileLength: int): DumpSettings {
    var seek := ValueOr(LastValue(ss, OptSeekOffset), 0);
    DumpSettings(
      groupSize := if LastValue(ss, OptGroupSize).Some? then LastValue(ss, OptGroupSize).value
                   else if LastValue(ss, OptLittleEndian).Some? then 4
                   else 2,
      seekOffset := seek,
      end := if LastValue(ss, OptLen).Some? then Wrap32(seek + LastValue(ss, OptLen).value) else Wrap32(fileLength),
      octetsPerLine := ValueOr(LastValue(ss, OptOctetsPerLine), 16))
  }

  lemma ResolveCollected(ss: seq<Setting>, fileLength: int)
    ensures Resolve(Collect(ss), fileLength) == ResolveSettings(ss, fileLength)
  {
    CollectIsLastValue(ss, OptOctetsPerLine);
    CollectIsLastValue(ss, OptSeekOffset);
    CollectIsLastValue(ss, OptGroupSize);
    CollectIsLastValue(ss, OptLittleEndian);
    CollectIsLastValue(ss, OptLen);
  }
}
