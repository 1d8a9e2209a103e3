/** Reading deployment targets out of Mach-O objects, `ar` archives and universal files. */
module MachO {
  import opened Wrappers
  import opened Bytes
  import Numerals

  /** Anything the reader refuses, and the library's own error for a read past the end. */
  datatype Error = ParseError | StructError

  /** An architecture, by its name. */
  type Arch = string

  const CPU_TYPES: map<nat, string> :=
    map[7 := "i386", 0x0100_0007 := "x86_64", 12 := "arm", 0x0100_000C := "arm64", 0x0200_000C := "arm64_32",
        18 := "ppc", 0x0100_0012 := "ppc64"]

  function ArchName(cputype: nat, cpusubtype: nat): Arch {
    if cputype == 0x0100_000C && cpusubtype % 0x0100_0000 == 2 then "arm64e"
    else if cputype in CPU_TYPES then CPU_TYPES[cputype]
    else "cputype-0x" + Numerals.Numeral(cputype, 16)
  }

  const PLATFORMS: map<nat, string> :=
    map[1 := "macos", 2 := "ios", 3 := "tvos", 4 := "watchos", 5 := "bridgeos", 6 := "maccatalyst",
        7 := "iossimulator", 8 := "tvossimulator", 9 := "watchossimulator", 10 := "driverkit", 11 := "visionos",
        12 := "visionossimulator"]

  function PlatformName(platform: nat): string {
    if platform in PLATFORMS then PLATFORMS[platform] else "platform-" + Numerals.Decimal(platform)
  }

  /** `xxxx.yy.zz` packed into 32 bits; the patch is left out when it is zero. */
  function FormatVersion(value: nat): string {
    var major, minor, patch := value / 65536, value / 256 % 256, value % 256;
    if patch != 0 then
      Numerals.Decimal(major) + "." + Numerals.Decimal(minor) + "." + Numerals.Decimal(patch)
    else Numerals.Decimal(major) + "." + Numerals.Decimal(minor)
  }

  datatype Record = Record(arch: Arch, platform: string, minos: string, member: Data, loadCommand: string)

  datatype ArchReport = ArchReport(machos: nat, records: seq<Record>)

  type Report = map<Arch, ArchReport>

  function EntryFor(report: Report, arch: Arch): Report {
    if arch in report then report else report[arch := ArchReport(0, [])]
  }

  /** One more object of `arch`, with its records. */
  function AddObject(report: Report, arch: Arch, records: seq<Record>): Report {
    var entry := EntryFor(report, arch)[arch];
    report[arch := ArchReport(entry.machos + 1, entry.records + records)]
  }

  // --------------------------------------------------------------- load commands

  const LC_BUILD_VERSION: nat := 0x32

  /** An old-style version command: its platform and its name. */
  datatype VersionMinimum = VersionMinimum(platform: string, title: string)

  const VERSION_MIN: map<nat, VersionMinimum> :=
    map[0x24 := VersionMinimum("macos", "LC_VERSION_MIN_MACOSX"),
        0x25 := VersionMinimum("ios", "LC_VERSION_MIN_IPHONEOS"),
        0x2F := VersionMinimum("tvos", "LC_VERSION_MIN_TVOS"),
        0x30 := VersionMinimum("watchos", "LC_VERSION_MIN_WATCHOS")]

  /** Where a command is found and how its numbers are read. */
  datatype Context = Context(endian: Endian, arch: Arch, member: Data)

  /** The records of one command, given its number and everything behind its two header words. */
  function RecordsOf(c: Context, cmd: nat, payload: Data): (r: Result<seq<Record>, Error>)
    ensures r.Err? ==> r.error == ParseError
  {
    if cmd == LC_BUILD_VERSION then
      if |payload| < 16 then Err(ParseError)
      else Ok([Record(c.arch, PlatformName(U32(c.endian, payload, 0)), FormatVersion(U32(c.endian, payload, 4)),
        c.member, "LC_BUILD_VERSION")])
    else if cmd in VERSION_MIN then
      if |payload| < 8 then Err(ParseError)
      else Ok([Record(c.arch, VERSION_MIN[cmd].platform, FormatVersion(U32(c.endian, payload, 0)), c.member,
        VERSION_MIN[cmd].title)])
    else Ok([])
  }

  /** The records of `n` commands that start at the front of `table`. */
  function ReadCommands(c: Context, table: Data, n: nat): (r: Result<seq<Record>, Error>)
    ensures r.Err? ==> r.error == ParseError
    decreases n
  {
    if n == 0 then Ok([])
    else if |table| < 8 then Err(ParseError)
    else
      var cmd, size := U32(c.endian, table, 0), U32(c.endian, table, 4);
      if !(8 <= size <= |table|) then Err(ParseError)
      else
        var here := RecordsOf(c, cmd, table[8..size]);
        if here.Err? then here else Prepend(here.value, ReadCommands(c, table[size..], n - 1))
  }

  // --------------------------------------------------------------------- objects

  datatype Format = Format(endian: Endian, is64: bool)

  function MachOMagic(head: Data): Option<Format> {
    if head == [0xce, 0xfa, 0xed, 0xfe] then Some(Format(Little, false))
    else if head == [0xfe, 0xed, 0xfa, 0xce] then Some(Format(Big, false))
    else if head == [0xcf, 0xfa, 0xed, 0xfe] then Some(Format(Little, true))
    else if head == [0xfe, 0xed, 0xfa, 0xcf] then Some(Format(Big, true))
    else None
  }

  function HeaderSize(f: Format): nat { if f.is64 then 32 else 28 }

  /** The format an object's first four bytes announce. */
  function FormatOf(s: Data): Option<Format> {
    if |s| < 4 then None else MachOMagic(s[..4])
  }

  /** What one object contributes to the report. It is a function of the object's own bytes:
      nothing outside them can be read. */
  function ReadObject(s: Data, member: Data, report: Report, archLabel: Option<Arch>): (r: Result<Report, Error>)
    requires FormatOf(s).Some?
    ensures r.Err? ==> r.error == ParseError
  {
    var f := FormatOf(s).value;
    if |s| < HeaderSize(f) then Err(ParseError)
    else
      var ncmds, sizeofcmds := U32(f.endian, s, 16), U32(f.endian, s, 20);
      if HeaderSize(f) + sizeofcmds > |s| then Err(ParseError)
      else
        var arch := if archLabel.Some? then archLabel.value else ArchName(U32(f.endian, s, 4), U32(f.endian, s, 8));
        var records := ReadCommands(Context(f.endian, arch, member), s[HeaderSize(f)..HeaderSize(f) + sizeofcmds],
            ncmds);
        if records.Err? then Err(records.error) else Ok(AddObject(report, arch, records.value))
  }

  /** One step of `ReadCommands`, with the command at its place in the file. */
  lemma CommandAt(c: Context, data: Data, cursor: nat, end: nat, n: nat)
    requires cursor + 8 <= end <= |data| && 0 < n
    ensures var cmd, size := U32(c.endian, data, cursor), U32(c.endian, data, cursor + 4);
      ReadCommands(c, data[cursor..end], n) ==
      if !(8 <= size <= end - cursor) then Err(ParseError)
      else
        var here := RecordsOf(c, cmd, data[cursor + 8..cursor + size]);
        if here.Err? then here else Prepend(here.value, ReadCommands(c, data[cursor + size..end], n - 1))
  {
    hide RecordsOf, U32, Prepend;
    var table := data[cursor..end];
    U32Slice(c.endian, data, cursor, end, 0);
    U32Slice(c.endian, data, cursor, end, 4);
    var size := U32(c.endian, data, cursor + 4);
    if 8 <= size <= end - cursor {
      Subslice(data, cursor, end, 8, size);
      Subslice(data, cursor, end, size, end - cursor);
      assert table[size..] == table[size..end - cursor];
    }
  }

  /** The load-command loop. */
  method ParseCommands(c: Context, data: Data, begin: nat, end: nat, ncmds: nat) returns (r: Result<seq<Record>, Error>)
    requires begin <= end <= |data|
    ensures r == ReadCommands(c, data[begin..end], ncmds)
  {
    hide RecordsOf, U32, ReadCommands;
    var records: seq<Record> := [];
    var cursor := begin;
    PrependTwice([], [], ReadCommands(c, data[begin..end], ncmds));
    for k := 0 to ncmds
      invariant begin <= cursor <= end
      invariant Prepend(records, ReadCommands(c, data[cursor..end], ncmds - k))
                == ReadCommands(c, data[begin..end], ncmds)
    {
      if cursor + 8 > end {
        CommandsEnd(c, data[cursor..end], ncmds - k);
        return Err(ParseError);
      }
      CommandAt(c, data, cursor, end, ncmds - k);
      var cmd, cmdsize := U32(c.endian, data, cursor), U32(c.endian, data, cursor + 4);
      if !(8 <= cmdsize <= end - cursor) {
        return Err(ParseError);
      }
      var here := ParseCommand(c, data, cursor, cmd, cmdsize);
      if here.Err? {
        return here;
      }
      PrependTwice(records, here.value, ReadCommands(c, data[cursor + cmdsize..end], ncmds - k - 1));
      records := records + here.value;
      cursor := cursor + cmdsize;
    }
    CommandsEnd(c, data[cursor..end], 0);
    assert records + [] == records;
    r := Ok(records);
  }

  lemma CommandsEnd(c: Context, table: Data, n: nat)
    ensures n == 0 ==> ReadCommands(c, table, n) == Ok([])
    ensures n > 0 && |table| < 8 ==> ReadCommands(c, table, n) == Err(ParseError)
  {
  }

  /** One command, read at its place in the file. */
  method ParseCommand(c: Context, data: Data, cursor: nat, cmd: nat, cmdsize: nat)
    returns (r: Result<seq<Record>, Error>)
    requires 8 <= cmdsize && cursor + cmdsize <= |data|
    ensures r == RecordsOf(c, cmd, data[cursor + 8..cursor + cmdsize])
  {
    hide U32, FormatVersion, PlatformName;
    ghost var payload := data[cursor + 8..cursor + cmdsize];
    if cmd == LC_BUILD_VERSION {
      if cmdsize < 24 {
        return Err(ParseError);
      }
      U32Slice(c.endian, data, cursor + 8, cursor + cmdsize, 0);
      U32Slice(c.endian, data, cursor + 8, cursor + cmdsize, 4);
      var platform, minos := U32(c.endian, data, cursor + 8), U32(c.endian, data, cursor + 12);
      r := Ok([Record(c.arch, PlatformName(platform), FormatVersion(minos), c.member, "LC_BUILD_VERSION")]);
    } else if cmd in VERSION_MIN {
      if cmdsize < 16 {
        return Err(ParseError);
      }
      U32Slice(c.endian, data, cursor + 8, cursor + cmdsize, 0);
      var version := U32(c.endian, data, cursor + 8);
      var known := VERSION_MIN[cmd];
      r := Ok([Record(c.arch, known.platform, FormatVersion(version), c.member, known.title)]);
    } else {
      r := Ok([]);
    }
  }

  /** One object at its place in the file. The four magic bytes are looked up before the size
      is known to cover them; a shorter object is refused all the same. */
  method ParseMachO(data: Data, start: nat, size: nat, member: Data, report: Report, archLabel: Option<Arch>)
    returns (r: Result<Report, Error>)
    requires start + size <= |data| && start + 4 <= |data| && MachOMagic(data[start..start + 4]).Some?
    ensures r == if size < 4 then Err(ParseError)
                 else
                   assert data[start..start + size][..4] == data[start..start + 4];
                   ReadObject(data[start..start + size], member, report, archLabel)
  {
    hide ReadCommands, MachOMagic, U32, AddObject, ArchName;
    ghost var s := data[start..start + size];
    var f := MachOMagic(data[start..start + 4]).value;
    var headerSize := HeaderSize(f);
    if size < headerSize {
      assert size >= 4 ==> s[..4] == data[start..start + 4];
      return Err(ParseError);
    }
    assert s[..4] == data[start..start + 4];
    U32Slice(f.endian, data, start, start + size, 4);
    U32Slice(f.endian, data, start, start + size, 8);
    U32Slice(f.endian, data, start, start + size, 16);
    U32Slice(f.endian, data, start, start + size, 20);
    var cputype, cpusubtype := U32(f.endian, data, start + 4), U32(f.endian, data, start + 8);
    var ncmds, sizeofcmds := U32(f.endian, data, start + 16), U32(f.endian, data, start + 20);
    if headerSize + sizeofcmds > size {
      return Err(ParseError);
    }
    var arch := if archLabel.Some? then archLabel.value else ArchName(cputype, cpusubtype);
    var cursor := start + headerSize;
    Subslice(data, start, start + size, headerSize, headerSize + sizeofcmds);
    var records := ParseCommands(Context(f.endian, arch, member), data, cursor, cursor + sizeofcmds, ncmds);
    if records.Err? {
      return Err(records.error);
    }
    r := Ok(AddObject(report, arch, records.value));
  }

  // -------------------------------------------------------------------- archives

  /** `!<arch>` and a newline. */
  const AR_MAGIC: Data := [33, 60, 97, 114, 99, 104, 62, 10]

  /** `#1/`, which announces a name stored in front of the content. */
  const LONG_NAME: Data := [35, 49, 47]

  /** A backquote and a newline. */
  const AR_TERMINATOR: Data := [96, 10]

  const AR_HEADER_SIZE: nat := 60

  function DropTrailing(s: Data, b: Byte): (r: Data)
    ensures r <= s
  {
    if s != [] && s[|s| - 1] == b then DropTrailing(s[..|s| - 1], b) else s
  }

  /** A member: its name, its content, and the size of its body. */
  datatype Member = Member(name: Data, content: Data, size: nat)

  function DeclaredSize(header: Data): Result<nat, Error>
    requires |header| == AR_HEADER_SIZE
  {
    var n := ParseInt(header[48..58]);
    if header[58..60] != AR_TERMINATOR then Err(ParseError)
    else if n.None? || n.value < 0 then Err(ParseError)
    else Ok(n.value)
  }

  /** Name and content of a member with this body. */
  function SplitBody(header: Data, body: Data): Result<Member, Error>
    requires |header| == AR_HEADER_SIZE
  {
    if header[..3] == LONG_NAME then
      var n := ParseInt(header[3..16]);
      if n.None? || !(0 <= n.value <= |body|) then Err(ParseError)
      else Ok(Member(DropTrailing(body[..n.value], 0), body[n.value..], |body|))
    else Ok(Member(DropTrailing(Strip(header[..16]), 47), body, |body|))
  }

  /** The member at the front of `s`. */
  function TakeMember(s: Data): (r: Result<Member, Error>)
    requires AR_HEADER_SIZE <= |s|
    ensures r.Ok? ==> AR_HEADER_SIZE + r.value.size <= |s|
    ensures r.Err? ==> r.error == ParseError
  {
    var size := DeclaredSize(s[..AR_HEADER_SIZE]);
    if size.Err? then Err(size.error)
    else if AR_HEADER_SIZE + size.value > |s| then Err(ParseError)
    else SplitBody(s[..AR_HEADER_SIZE], s[AR_HEADER_SIZE..AR_HEADER_SIZE + size.value])
  }

  /** Members that are not objects are skipped. */
  function ReadContent(m: Member, report: Report, archLabel: Option<Arch>): (r: Result<Report, Error>)
    ensures r.Err? ==> r.error == ParseError
  {
    if FormatOf(m.content).Some? then ReadObject(m.content, m.name, report, archLabel) else Ok(report)
  }

  /** Where the member after one of this size starts, if there is room for it. */
  function NextMember(s: Data, size: nat): (next: nat)
    requires AR_HEADER_SIZE + size <= |s|
    ensures 0 < next <= |s|
  {
    var next := AR_HEADER_SIZE + size + size % 2;
    if next <= |s| then next else |s|
  }

  /** Every member of an archive, given what follows its magic. */
  function ReadMembers(s: Data, report: Report, archLabel: Option<Arch>): (r: Result<Report, Error>)
    ensures r.Err? ==> r.error == ParseError
    decreases |s|
  {
    if |s| < AR_HEADER_SIZE then Ok(report)
    else
      var m := TakeMember(s);
      if m.Err? then Err(m.error)
      else
        var next := ReadContent(m.value, report, archLabel);
        if next.Err? then next
        else ReadMembers(s[NextMember(s, m.value.size)..], next.value, archLabel)
  }

  /** One member read at its place; its content is `data[content..content + contentSize]`. */
  method ParseMember(data: Data, cursor: nat, limit: nat)
    returns (r: Result<Member, Error>, content: nat, contentSize: nat)
    requires cursor + AR_HEADER_SIZE <= limit <= |data|
    ensures r == TakeMember(data[cursor..limit])
    ensures r.Ok? ==> content + contentSize == cursor + AR_HEADER_SIZE + r.value.size <= limit
    ensures r.Ok? ==> r.value.content == data[content..content + contentSize]
  {
    hide ParseInt, Strip;
    ghost var s := data[cursor..limit];
    var header := data[cursor..cursor + AR_HEADER_SIZE];
    assert header == s[..AR_HEADER_SIZE];
    content, contentSize := cursor + AR_HEADER_SIZE, 0;
    if header[58..60] != AR_TERMINATOR {
      return Err(ParseError), content, contentSize;
    }
    var declared := ParseInt(header[48..58]);
    if declared.None? || declared.value < 0 {
      return Err(ParseError), content, contentSize;
    }
    var body := cursor + AR_HEADER_SIZE;
    if body + declared.value > limit {
      return Err(ParseError), content, contentSize;
    }
    contentSize := declared.value;
    Subslice(data, cursor, limit, AR_HEADER_SIZE, AR_HEADER_SIZE + contentSize);
    var rawName := header[0..16];
    assert rawName[..3] == header[..3] && rawName[3..] == header[3..16];
    var name: Data;
    if rawName[..3] == LONG_NAME {
      var nameLength := ParseInt(rawName[3..]);
      if nameLength.None? || !(0 <= nameLength.value <= declared.value) {
        return Err(ParseError), content, contentSize;
      }
      Subslice(data, body, body + declared.value, 0, nameLength.value);
      Subslice(data, body, body + declared.value, nameLength.value, declared.value);
      name := DropTrailing(data[body..body + nameLength.value], 0);
      content := content + nameLength.value;
      contentSize := contentSize - nameLength.value;
    } else {
      name := DropTrailing(Strip(rawName), 47);
    }
    r := Ok(Member(name, data[content..content + contentSize], declared.value));
  }

  /** The member loop. */
  method ParseArchive(data: Data, start: nat, size: nat, report: Report, archLabel: Option<Arch>)
    returns (r: Result<Report, Error>)
    requires |AR_MAGIC| <= size && start + size <= |data|
    ensures r == ReadMembers(data[start + |AR_MAGIC|..start + size], report, archLabel)
  {
    hide TakeMember, MachOMagic, ReadObject, EntryFor;
    var found := report;
    var cursor, limit := start + |AR_MAGIC|, start + size;
    while cursor + AR_HEADER_SIZE <= limit
      invariant start + |AR_MAGIC| <= cursor <= limit + 1
      invariant ReadMembers(data[if cursor <= limit then cursor else limit..limit], found, archLabel)
             == ReadMembers(data[start + |AR_MAGIC|..limit], report, archLabel)
      decreases limit + 1 - cursor
    {
      ghost var s := data[cursor..limit];
      var m, content, contentSize := ParseMember(data, cursor, limit);
      if m.Err? {
        return Err(m.error);
      }
      if contentSize >= 4 && MachOMagic(data[content..content + 4]).Some? {
        assert m.value.content[..4] == data[content..content + 4];
        var next := ParseMachO(data, content, contentSize, m.value.name, found, archLabel);
        if next.Err? {
          return next;
        }
        found := next.value;
      } else {
        assert contentSize >= 4 ==> m.value.content[..4] == data[content..content + 4];
      }
      assert s[NextMember(s, m.value.size)..] == data[cursor + NextMember(s, m.value.size)..limit];
      cursor := cursor + AR_HEADER_SIZE + m.value.size;
      if m.value.size % 2 != 0 {
        cursor := cursor + 1;
      }
    }
    r := Ok(found);
  }

  // ---------------------------------------------------- slices and universal files

  /** An object or an archive, from its own bytes alone. */
  function ReadContainer(s: Data, report: Report, archLabel: Option<Arch>): (r: Result<Report, Error>)
    ensures r.Err? ==> r.error == ParseError
  {
    if FormatOf(s).Some? then ReadObject(s, [], report, archLabel)
    else if AR_MAGIC <= s then ReadMembers(s[|AR_MAGIC|..], report, archLabel)
    else Err(ParseError)
  }

  method ParseContainer(data: Data, start: nat, size: nat, report: Report, archLabel: Option<Arch>)
    returns (r: Result<Report, Error>)
    requires start + size <= |data|
    ensures r == ReadContainer(data[start..start + size], report, archLabel)
  {
    hide MachOMagic, ReadObject, ReadMembers;
    ghost var s := data[start..start + size];
    if start + 4 <= |data| && MachOMagic(data[start..start + 4]).Some? {
      assert size >= 4 ==> s[..4] == data[start..start + 4];
      assert size < 4 ==> !(AR_MAGIC <= s);
      r := ParseMachO(data, start, size, [], report, archLabel);
      return;
    }
    assert size >= 4 ==> s[..4] == data[start..start + 4];
    if size >= |AR_MAGIC| && data[start..start + |AR_MAGIC|] == AR_MAGIC {
      Subslice(data, start, start + size, 0, |AR_MAGIC|);
      Subslice(data, start, start + size, |AR_MAGIC|, size);
      assert s[..|AR_MAGIC|] == AR_MAGIC && s[|AR_MAGIC|..size] == s[|AR_MAGIC|..];
      r := ParseArchive(data, start, size, report, archLabel);
      return;
    }
    r := Err(ParseError);
  }

  function FatMagic(head: Data): Option<Format> {
    if head == [0xca, 0xfe, 0xba, 0xbe] then Some(Format(Big, false))
    else if head == [0xbe, 0xba, 0xfe, 0xca] then Some(Format(Little, false))
    else if head == [0xca, 0xfe, 0xba, 0xbf] then Some(Format(Big, true))
    else if head == [0xbf, 0xba, 0xfe, 0xca] then Some(Format(Little, true))
    else None
  }

  function EntrySize(f: Format): nat { if f.is64 then 32 else 20 }

  /** The size of `n` rows. */
  function RowsSize(f: Format, n: nat): (r: nat)
    ensures r == n * EntrySize(f)
  {
    if f.is64 then 32 * n else 20 * n
  }

  /** One row of the universal header. */
  datatype FatEntry = FatEntry(arch: Arch, offset: nat, size: nat)

  function EntryAt(f: Format, data: Data, i: nat): FatEntry
    requires i + EntrySize(f) <= |data|
  {
    var arch := ArchName(U32(f.endian, data, i), U32(f.endian, data, i + 4));
    if f.is64 then FatEntry(arch, U64(f.endian, data, i + 8), U64(f.endian, data, i + 16))
    else FatEntry(arch, U32(f.endian, data, i + 8), U32(f.endian, data, i + 12))
  }

  /** What one slice adds: an architecture named for the first time, and its own bytes. */
  function ReadSlice(e: FatEntry, data: Data, report: Report): (r: Result<Report, Error>)
    ensures r.Err? ==> r.error == ParseError
  {
    if e.offset + e.size > |data| || e.arch in report then Err(ParseError)
    else ReadContainer(data[e.offset..e.offset + e.size], EntryFor(report, e.arch), Some(e.arch))
  }

  /** The slices from row `index` on. */
  function ReadSlices(f: Format, data: Data, index: nat, count: nat, report: Report): (r: Result<Report, Error>)
    requires index <= count && 8 + RowsSize(f, count) <= |data|
    ensures r.Err? ==> r.error == ParseError
    decreases count - index
  {
    if index == count then Ok(report)
    else
      var next := ReadSlice(EntryAt(f, data, 8 + RowsSize(f, index)), data, report);
      if next.Err? then next else ReadSlices(f, data, index + 1, count, next.value)
  }

  function ReadFat(f: Format, data: Data): Result<Report, Error> {
    if |data| < 8 then Err(StructError)
    else
      var count := U32(f.endian, data, 4);
      if 8 + RowsSize(f, count) > |data| then Err(ParseError) else ReadSlices(f, data, 0, count, map[])
  }

  method ParseFat(data: Data) returns (r: Result<Report, Error>)
    requires 4 <= |data| && FatMagic(data[..4]).Some?
    ensures r == ReadFat(FatMagic(data[..4]).value, data)
  {
    hide FatMagic, ReadContainer, EntryAt;
    var f := FatMagic(data[..4]).value;
    if |data| < 8 {
      return Err(StructError);
    }
    var count := U32(f.endian, data, 4);
    if 8 + RowsSize(f, count) > |data| {
      return Err(ParseError);
    }
    var report: Report := map[];
    for index := 0 to count
      invariant ReadSlices(f, data, index, count, report) == ReadSlices(f, data, 0, count, map[])
    {
      var e := EntryAt(f, data, 8 + RowsSize(f, index));
      if e.offset + e.size > |data| {
        return Err(ParseError);
      }
      if e.arch in report {
        return Err(ParseError);
      }
      var next := ParseContainer(data, e.offset, e.size, EntryFor(report, e.arch), Some(e.arch));
      if next.Err? {
        return next;
      }
      report := next.value;
    }
    r := Ok(report);
  }

  /** The whole file; `None` is a file the reader does not own. */
  function ReadReport(data: Data): Option<Result<Report, Error>> {
    if 4 <= |data| && FatMagic(data[..4]).Some? then Some(ReadFat(FatMagic(data[..4]).value, data))
    else if FormatOf(data).Some? || AR_MAGIC <= data then Some(ReadContainer(data, map[], None))
    else None
  }

  method ReadFile(data: Data) returns (r: Option<Result<Report, Error>>)
    ensures r == ReadReport(data)
  {
    hide FatMagic, MachOMagic, ReadObject, ReadMembers, ReadFat;
    if 4 <= |data| && FatMagic(data[..4]).Some? {
      var report := ParseFat(data);
      return Some(report);
    }
    assert data[0..|data|] == data;
    if 4 <= |data| && MachOMagic(data[..4]).Some? {
      assert data[0..4] == data[..4];
      var report := ParseMachO(data, 0, |data|, [], map[], None);
      return Some(report);
    }
    if AR_MAGIC <= data {
      var report := ParseArchive(data, 0, |data|, map[], None);
      return Some(report);
    }
    r := None;
  }

  /** The only read past the end of the file is the slice count of a universal file shorter
      than its own header; every other field is checked before it is read. */
  lemma ReadsPastTheEnd(data: Data)
    ensures ReadReport(data) == Some(Err(StructError))
       <==> 4 <= |data| < 8 && FatMagic(data[..4]).Some?
  {
    hide FatMagic, ReadContainer, EntryAt;
  }

  // ------------------------------------------------------------ landmarks and refusals

  /** Magic numbers are byte sequences that read as one number in the byte order they announce. */
  lemma MagicIsNative(head: Data)
    requires |head| == 4
    ensures MachOMagic(head).Some? <==>
        exists f: Format :: U32(f.endian, head, 0) == if f.is64 then 0xFEED_FACF else 0xFEED_FACE
    ensures MachOMagic(head).Some? ==>
      var f := MachOMagic(head).value; U32(f.endian, head, 0) == if f.is64 then 0xFEED_FACF else 0xFEED_FACE
    ensures FatMagic(head).Some? ==>
      var f := FatMagic(head).value; U32(f.endian, head, 0) == if f.is64 then 0xCAFE_BABF else 0xCAFE_BABE
  {
  }

  /** The archive's landmarks, as text. */
  lemma Landmarks()
    ensures AR_MAGIC == Ascii("!<arch>\n") && LONG_NAME == Ascii("#1/") && AR_TERMINATOR == Ascii("`\n")
  {
  }

  /** Row `i` of the universal header. */
  function Row(f: Format, data: Data, i: nat): FatEntry
    requires 8 + RowsSize(f, i + 1) <= |data|
  {
    EntryAt(f, data, 8 + RowsSize(f, i))
  }

  /** Whether an object can be read has nothing to do with the report so far or its label. */
  lemma ObjectReadable(s: Data, member: Data, report: Report, archLabel: Option<Arch>)
    requires FormatOf(s).Some?
    ensures ReadObject(s, member, report, archLabel).Ok? <==> ReadObject(s, [], map[], None).Ok?
    ensures archLabel.Some? && archLabel.value in report && ReadObject(s, member, report, archLabel).Ok? ==>
      ReadObject(s, member, report, archLabel).value.Keys == report.Keys
  {
    hide ReadCommands, U32, ArchName, MachOMagic;
    var f := FormatOf(s).value;
    if |s| >= HeaderSize(f) {
      var ncmds, size := U32(f.endian, s, 16), U32(f.endian, s, 20);
      if HeaderSize(f) + size <= |s| {
        var own := ArchName(U32(f.endian, s, 4), U32(f.endian, s, 8));
        var arch := if archLabel.Some? then archLabel.value else own;
        CommandsReadable(Context(f.endian, arch, member), Context(f.endian, own, []),
          s[HeaderSize(f)..HeaderSize(f) + size], ncmds);
      }
    }
  }

  lemma {:induction false} CommandsReadable(c: Context, d: Context, table: Data, n: nat)
    requires c.endian == d.endian
    ensures ReadCommands(c, table, n).Ok? <==> ReadCommands(d, table, n).Ok?
    decreases n
  {
    hide U32, FormatVersion, PlatformName;
    if n > 0 && |table| >= 8 {
      var size := U32(c.endian, table, 4);
      if 8 <= size <= |table| {
        CommandsReadable(c, d, table[size..], n - 1);
      }
    }
  }

  lemma {:induction false} MembersReadable(s: Data, report: Report, first: Report, archLabel: Option<Arch>)
    ensures ReadMembers(s, report, archLabel).Ok? <==> ReadMembers(s, first, None).Ok?
    ensures archLabel.Some? && archLabel.value in report && ReadMembers(s, report, archLabel).Ok? ==>
      ReadMembers(s, report, archLabel).value.Keys == report.Keys
    decreases |s|
  {
    hide ReadObject, TakeMember, FormatOf, NextMember;
    if |s| >= AR_HEADER_SIZE && TakeMember(s).Ok? {
      var m := TakeMember(s).value;
      if FormatOf(m.content).Some? {
        ObjectReadable(m.content, m.name, report, archLabel);
        ObjectReadable(m.content, m.name, first, None);
      }
      var next, other := ReadContent(m, report, archLabel), ReadContent(m, first, None);
      if next.Ok? {
        MembersReadable(s[NextMember(s, m.size)..], next.value, other.value, archLabel);
      }
    }
  }

  lemma ContainerReadable(s: Data, report: Report, archLabel: Option<Arch>)
    ensures ReadContainer(s, report, archLabel).Ok? <==> ReadContainer(s, map[], None).Ok?
    ensures archLabel.Some? && archLabel.value in report && ReadContainer(s, report, archLabel).Ok? ==>
      ReadContainer(s, report, archLabel).value.Keys == report.Keys
  {
    hide ReadObject, ReadMembers, FormatOf;
    if FormatOf(s).Some? {
      ObjectReadable(s, [], report, archLabel);
    } else if AR_MAGIC <= s {
      MembersReadable(s[|AR_MAGIC|..], report, map[], archLabel);
    }
  }

  /** A row whose slice lies in the file and reads as a file of its own. */
  predicate RowHolds(f: Format, data: Data, i: nat)
    requires 8 + RowsSize(f, i + 1) <= |data|
  {
    var e := Row(f, data, i);
    e.offset + e.size <= |data| && ReadContainer(data[e.offset..e.offset + e.size], map[], None).Ok?
  }

  /** The rows from `index` on are good, and name architectures not met before. */
  ghost predicate RowsHold(f: Format, data: Data, index: nat, count: nat, met: set<Arch>)
    requires index <= count && 8 + RowsSize(f, count) <= |data|
  {
    && (forall i :: index <= i < count ==> RowHolds(f, data, i) && Row(f, data, i).arch !in met)
    && forall i, j :: index <= i < j < count ==> Row(f, data, i).arch != Row(f, data, j).arch
  }

  lemma RowsHoldNext(f: Format, data: Data, index: nat, count: nat, met: set<Arch>)
    requires index < count && 8 + RowsSize(f, count) <= |data|
    ensures RowsHold(f, data, index, count, met)
       <==> RowHolds(f, data, index) && Row(f, data, index).arch !in met
            && RowsHold(f, data, index + 1, count, met + {Row(f, data, index).arch})
  {
    hide RowHolds, Row;
  }

  lemma SliceAccepted(e: FatEntry, data: Data, report: Report)
    ensures ReadSlice(e, data, report).Ok?
       <==> e.offset + e.size <= |data| && ReadContainer(data[e.offset..e.offset + e.size], map[], None).Ok?
            && e.arch !in report
    ensures ReadSlice(e, data, report).Ok? ==> ReadSlice(e, data, report).value.Keys == report.Keys + {e.arch}
  {
    hide ReadContainer;
    if e.offset + e.size <= |data| && e.arch !in report {
      ContainerReadable(data[e.offset..e.offset + e.size], EntryFor(report, e.arch), Some(e.arch));
    }
  }

  lemma {:induction false} SlicesAccepted(f: Format, data: Data, index: nat, count: nat, report: Report)
    requires index <= count && 8 + RowsSize(f, count) <= |data|
    ensures ReadSlices(f, data, index, count, report).Ok? <==> RowsHold(f, data, index, count, report.Keys)
    decreases count - index
  {
    hide ReadContainer, EntryAt, ReadSlice;
    if index < count {
      hide RowsHold;
      RowsHoldNext(f, data, index, count, report.Keys);
      var e := Row(f, data, index);
      SliceAccepted(e, data, report);
      var next := ReadSlice(e, data, report);
      if next.Ok? {
        SlicesAccepted(f, data, index + 1, count, next.value);
      }
    }
  }

  /** A universal file is read exactly when its rows fit, every slice lies inside the file and
      can be read by itself, and no architecture is named twice. */
  lemma FatAccepted(f: Format, data: Data)
    requires 8 <= |data|
    ensures var count := U32(f.endian, data, 4);
      ReadFat(f, data).Ok? <==> 8 + RowsSize(f, count) <= |data| && RowsHold(f, data, 0, count, {})
  {
    hide U32, ReadSlices, RowsHold;
    var count := U32(f.endian, data, 4);
    if 8 + RowsSize(f, count) <= |data| {
      var none: Report := map[];
      assert none.Keys == {};
      SlicesAccepted(f, data, 0, count, none);
    }
  }
}
