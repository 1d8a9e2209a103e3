/** A writer of objects, archives and universal files, and the proof that the reader undoes it:
    every version command of every object is reported, once, under its own architecture. */
module MachOWriter {
  import opened Wrappers
  import opened Bytes
  import opened MachO
  import opened MachONames

  // ----------------------------------------------------------------------- words

  predicate AllU32(words: seq<nat>) { forall i :: 0 <= i < |words| ==> words[i] < U32_LIMIT }

  /** Consecutive 32-bit numbers. */
  function Words(endian: Endian, words: seq<nat>): (r: Data)
    requires AllU32(words)
    ensures |r| == 4 * |words|
  {
    if words == [] then [] else Words(endian, words[..|words| - 1]) + EncodeU32(endian, words[|words| - 1])
  }

  lemma {:induction false} WordAt(endian: Endian, words: seq<nat>, before: Data, after: Data, k: nat)
    requires AllU32(words) && k < |words|
    ensures U32(endian, before + Words(endian, words) + after, |before| + 4 * k) == words[k]
  {
    hide U32, EncodeU32;
    var init, last := words[..|words| - 1], words[|words| - 1];
    var s := before + Words(endian, words) + after;
    if k == |words| - 1 {
      assert s == (before + Words(endian, init)) + EncodeU32(endian, last) + after;
      U32Reads(endian, last, before + Words(endian, init), after);
    } else {
      assert s == before + Words(endian, init) + (EncodeU32(endian, last) + after);
      WordAt(endian, init, before, EncodeU32(endian, last) + after, k);
    }
  }

  // --------------------------------------------------------------- load commands

  /** A load command. `rest` and `payload` are bytes no version is read from. */
  datatype Command =
    | BuildVersion(platform: nat, minos: Version, rest: Data)
    | VersionMin(platform: nat, minos: Version, rest: Data)
    | Other(cmd: nat, payload: Data)

  function Number(c: Command): nat {
    match c
    case BuildVersion(_, _, _) => 0x32
    case VersionMin(platform, _, _) => MinimumNumber(platform)
    case Other(cmd, _) => cmd
  }

  predicate WellFormed(c: Command) {
    match c
    case BuildVersion(platform, minos, rest) => platform < U32_LIMIT && ValidVersion(minos) && |rest| >= 8
    case VersionMin(platform, minos, rest) => 1 <= platform <= 4 && ValidVersion(minos) && |rest| >= 4
    case Other(cmd, _) => cmd < U32_LIMIT && cmd !in {0x32, 0x24, 0x25, 0x2F, 0x30}
  }

  function PayloadSize(c: Command): nat {
    match c
    case BuildVersion(_, _, rest) => 8 + |rest|
    case VersionMin(_, _, rest) => 4 + |rest|
    case Other(_, payload) => |payload|
  }

  function Payload(endian: Endian, c: Command): (r: Data)
    requires WellFormed(c)
    ensures |r| == PayloadSize(c)
  {
    match c
    case BuildVersion(platform, minos, rest) => Words(endian, [platform, PackVersion(minos)]) + rest
    case VersionMin(_, minos, rest) => Words(endian, [PackVersion(minos)]) + rest
    case Other(_, payload) => payload
  }

  /** Well formed, and short enough for its size to be written down. */
  predicate ValidCommand(c: Command) {
    WellFormed(c) && 8 + PayloadSize(c) < U32_LIMIT
  }

  function EncodeCommand(endian: Endian, c: Command): (r: Data)
    requires ValidCommand(c)
    ensures |r| == 8 + PayloadSize(c)
  {
    Words(endian, [Number(c), 8 + PayloadSize(c)]) + Payload(endian, c)
  }

  /** What the report should say of a command. */
  function VersionsOf(c: Command, arch: Arch, member: Data): seq<Record> {
    match c
    case BuildVersion(platform, minos, _) =>
      [Record(arch, PlatformTitle(platform), VersionText(minos), member, "LC_BUILD_VERSION")]
    case VersionMin(platform, minos, _) =>
      [Record(arch, PlatformTitle(platform), VersionText(minos), member, MinimumTitle(platform))]
    case Other(_, _) => []
  }

  lemma PayloadReads(x: Context, c: Command)
    requires WellFormed(c)
    ensures RecordsOf(x, Number(c), Payload(x.endian, c)) == Ok(VersionsOf(c, x.arch, x.member))
  {
    hide U32, Words, FormatVersion, PackVersion, VersionText, PlatformName, PlatformTitle;
    match c
    case BuildVersion(platform, minos, rest) =>
      PlatformReads(platform);
      var words := [platform, PackVersion(minos)];
      WordAt(x.endian, words, [], rest, 0);
      WordAt(x.endian, words, [], rest, 1);
      assert [] + Words(x.endian, words) + rest == Payload(x.endian, c);
      VersionReads(minos);
    case VersionMin(platform, minos, rest) =>
      MinimumReads(platform);
      var words := [PackVersion(minos)];
      WordAt(x.endian, words, [], rest, 0);
      assert [] + Words(x.endian, words) + rest == Payload(x.endian, c);
      VersionReads(minos);
    case Other(_, _) =>
  }

  predicate ValidCommands(cs: seq<Command>) {
    forall i :: 0 <= i < |cs| ==> ValidCommand(cs[i])
  }

  function CommandsSize(cs: seq<Command>): nat {
    if cs == [] then 0 else 8 + PayloadSize(cs[0]) + CommandsSize(cs[1..])
  }

  function EncodeCommands(endian: Endian, cs: seq<Command>): (r: Data)
    requires ValidCommands(cs)
    ensures |r| == CommandsSize(cs)
  {
    if cs == [] then [] else EncodeCommand(endian, cs[0]) + EncodeCommands(endian, cs[1..])
  }

  function VersionsIn(cs: seq<Command>, arch: Arch, member: Data): seq<Record> {
    if cs == [] then [] else VersionsOf(cs[0], arch, member) + VersionsIn(cs[1..], arch, member)
  }

  lemma Rebracket(head: Data, payload: Data, others: Data, slack: Data)
    ensures ((head + payload) + others) + slack == [] + head + (payload + (others + slack))
  {
  }

  lemma CommandParts(table: Data, head: Data, payload: Data, after: Data)
    requires |head| == 8 && table == [] + head + (payload + after)
    ensures table[8..8 + |payload|] == payload && table[8 + |payload|..] == after
  {
  }

  lemma {:induction false} CommandsRead(x: Context, cs: seq<Command>, slack: Data)
    requires ValidCommands(cs)
    ensures ReadCommands(x, EncodeCommands(x.endian, cs) + slack, |cs|) == Ok(VersionsIn(cs, x.arch, x.member))
  {
    hide U32, Words, RecordsOf, Payload, VersionsOf;
    if cs != [] {
      var payload := Payload(x.endian, cs[0]);
      var after := EncodeCommands(x.endian, cs[1..]) + slack;
      var words := [Number(cs[0]), 8 + |payload|];
      var head := Words(x.endian, words);
      var table := EncodeCommands(x.endian, cs) + slack;
      Rebracket(head, payload, EncodeCommands(x.endian, cs[1..]), slack);
      assert table == [] + head + (payload + after);
      WordAt(x.endian, words, [], payload + after, 0);
      WordAt(x.endian, words, [], payload + after, 1);
      CommandParts(table, head, payload, after);
      PayloadReads(x, cs[0]);
      CommandsRead(x, cs[1..], slack);
    }
  }

  // --------------------------------------------------------------------- objects

  /** An object file. `slack` lies in the command table behind the commands, `rest` behind it. */
  datatype Object = Object(
    format: Format, processor: Processor, cpusubtype: nat, filetype: nat, flags: nat, reserved: Data,
    commands: seq<Command>, slack: Data, rest: Data)

  function MagicBytes(f: Format): (r: Data)
    ensures |r| == 4
  {
    if f.endian == Little then [if f.is64 then 0xcf else 0xce, 0xfa, 0xed, 0xfe]
    else [0xfe, 0xed, 0xfa, if f.is64 then 0xcf else 0xce]
  }

  lemma MagicReads(f: Format)
    ensures MachOMagic(MagicBytes(f)) == Some(f) && FatMagic(MagicBytes(f)).None?
  {
    var r := MagicBytes(f);
    assert r[0] != 0xca && r[0] != 0xbe && r[0] != 0xbf;
    assert f.endian == Big ==> r[3] == if f.is64 then 0xcf else 0xce;
  }

  predicate ValidObject(o: Object) {
    && ValidProcessor(o.processor, o.cpusubtype) && o.filetype < U32_LIMIT && o.flags < U32_LIMIT
    && |o.commands| < U32_LIMIT
    && |o.reserved| == (if o.format.is64 then 4 else 0)
    && ValidCommands(o.commands) && TableSize(o) < U32_LIMIT
  }

  function TableSize(o: Object): nat { CommandsSize(o.commands) + |o.slack| }

  function CommandTable(o: Object): (r: Data)
    requires ValidCommands(o.commands)
    ensures |r| == TableSize(o)
  {
    EncodeCommands(o.format.endian, o.commands) + o.slack
  }

  function HeaderWords(o: Object): (r: seq<nat>)
    requires ValidObject(o)
    ensures AllU32(r) && |r| == 6
  {
    [CpuType(o.processor), o.cpusubtype, o.filetype, |o.commands|, TableSize(o), o.flags]
  }

  function ObjectSize(o: Object): nat { HeaderSize(o.format) + TableSize(o) + |o.rest| }

  function EncodeObject(o: Object): (r: Data)
    requires ValidObject(o)
    ensures |r| == ObjectSize(o)
  {
    MagicBytes(o.format) + Words(o.format.endian, HeaderWords(o)) + (o.reserved + CommandTable(o) + o.rest)
  }

  function ArchOf(o: Object, archLabel: Option<Arch>): Arch {
    if archLabel.Some? then archLabel.value else Title(o.processor)
  }

  lemma ObjectReads(o: Object, member: Data, report: Report, archLabel: Option<Arch>)
    requires ValidObject(o)
    ensures FormatOf(EncodeObject(o)) == Some(o.format)
    ensures var arch := ArchOf(o, archLabel);
      ReadObject(EncodeObject(o), member, report, archLabel)
        == Ok(AddObject(report, arch, VersionsIn(o.commands, arch, member)))
  {
    hide U32, Words, CommandTable, MagicBytes, MachOMagic, AddObject, ArchName, VersionsIn, ReadCommands, CpuType,
      Title;
    ProcessorReads(o.processor, o.cpusubtype);
    var endian, words, table := o.format.endian, HeaderWords(o), CommandTable(o);
    var s, magic, after := EncodeObject(o), MagicBytes(o.format), o.reserved + table + o.rest;
    assert s[..4] == magic;
    MagicReads(o.format);
    WordAt(endian, words, magic, after, 0);
    WordAt(endian, words, magic, after, 1);
    WordAt(endian, words, magic, after, 3);
    WordAt(endian, words, magic, after, 4);
    var h := HeaderSize(o.format);
    assert s == (magic + Words(endian, words) + o.reserved) + table + o.rest;
    assert |magic + Words(endian, words) + o.reserved| == h;
    assert s[h..h + |table|] == table;
    var arch := ArchOf(o, archLabel);
    ObjectTable(o, Context(endian, arch, member));
  }

  lemma ObjectTable(o: Object, x: Context)
    requires ValidObject(o) && x.endian == o.format.endian
    ensures ReadCommands(x, CommandTable(o), |o.commands|) == Ok(VersionsIn(o.commands, x.arch, x.member))
  {
    CommandsRead(x, o.commands, o.slack);
  }

  /** An object and the member name it goes by. */
  datatype Named = Named(name: Data, macho: Object)

  /** The report after these objects. */
  function Collect(objects: seq<Named>, report: Report, archLabel: Option<Arch>): Report {
    if objects == [] then report
    else
      var arch := ArchOf(objects[0].macho, archLabel);
      Collect(objects[1..], AddObject(report, arch, VersionsIn(objects[0].macho.commands, arch, objects[0].name)),
        archLabel)
  }

  // -------------------------------------------------------------------- archives

  datatype Content = Binary(macho: Object) | Opaque(bytes: Data)

  /** A name in the 16-byte field, with the slashes some writers close it with; or the BSD form,
      stored in front of the content and filled up with zero bytes. */
  datatype Name = Short(text: Data, slashes: nat) | Long(text: Data, zeros: nat)

  /** `stamp` is the date, the owner and the mode; `pad` is written behind odd-sized bodies. */
  datatype Entry = Entry(name: Name, stamp: Data, content: Content, pad: Byte)

  function Copies(b: Byte, n: nat): (r: Data)
    ensures |r| == n
  {
    seq(n, _ => b)
  }

  predicate ValidContent(c: Content) {
    match c
    case Binary(o) => ValidObject(o)
    case Opaque(bytes) => FormatOf(bytes).None?
  }

  function ContentSize(c: Content): nat {
    match c
    case Binary(o) => ObjectSize(o)
    case Opaque(bytes) => |bytes|
  }

  function ContentBytes(c: Content): (r: Data)
    requires ValidContent(c)
    ensures |r| == ContentSize(c)
  {
    match c
    case Binary(o) => EncodeObject(o)
    case Opaque(bytes) => bytes
  }

  /** The unpadded name field. */
  function NameText(n: Name): Data {
    match n
    case Short(text, slashes) => text + Copies(47, slashes)
    case Long(text, zeros) => LONG_NAME + Decimal(|text| + zeros)
  }

  /** A name that fits its field and cannot be taken for another one. */
  predicate ValidName(n: Name) {
    match n
    case Short(text, slashes) =>
      && |text| + slashes <= 16 && !(LONG_NAME <= NameText(n))
      && (text != [] ==> !IsSpace(text[0]) && !IsSpace(text[|text| - 1]) && text[|text| - 1] != 47)
    case Long(text, zeros) =>
      |text| + zeros < 10_000_000_000_000 && (text != [] ==> text[|text| - 1] != 0)
  }

  lemma NameFits(n: Name)
    requires ValidName(n)
    ensures |NameText(n)| <= 16
  {
    match n
    case Short(_, _) =>
    case Long(text, zeros) => DecimalFits(|text| + zeros, 13);
  }

  predicate ValidEntry(e: Entry) {
    ValidName(e.name) && |e.stamp| == 32 && ValidContent(e.content) && BodySize(e) < 10_000_000_000
  }

  function BodySize(e: Entry): nat {
    match e.name
    case Short(_, _) => ContentSize(e.content)
    case Long(text, zeros) => |text| + zeros + ContentSize(e.content)
  }

  function Body(e: Entry): (r: Data)
    requires ValidContent(e.content)
    ensures |r| == BodySize(e)
  {
    match e.name
    case Short(_, _) => ContentBytes(e.content)
    case Long(text, zeros) => text + Copies(0, zeros) + ContentBytes(e.content)
  }

  function PadTo(s: Data, width: nat): (r: Data)
    requires |s| <= width
    ensures |r| == width
  {
    s + Spaces(width - |s|)
  }

  function EncodeHeader(e: Entry): (r: Data)
    requires ValidEntry(e)
    ensures |r| == AR_HEADER_SIZE
  {
    NameFits(e.name);
    DecimalFits(BodySize(e), 10);
    PadTo(NameText(e.name), 16) + e.stamp + PadTo(Decimal(BodySize(e)), 10) + AR_TERMINATOR
  }

  function MemberSize(e: Entry): nat { AR_HEADER_SIZE + BodySize(e) + BodySize(e) % 2 }

  function EncodeEntry(e: Entry): (r: Data)
    requires ValidEntry(e)
    ensures |r| == MemberSize(e)
  {
    EncodeHeader(e) + Body(e) + (if BodySize(e) % 2 == 1 then [e.pad] else [])
  }

  lemma {:induction false} TrailingDropped(s: Data, b: Byte, n: nat)
    requires s != [] ==> s[|s| - 1] != b
    ensures DropTrailing(s + Copies(b, n), b) == s
  {
    var t := s + Copies(b, n);
    if n == 0 {
      assert t == s;
    } else {
      assert t[..|t| - 1] == s + Copies(b, n - 1);
      TrailingDropped(s, b, n - 1);
    }
  }

  lemma {:induction false} BlankStrips(n: nat)
    ensures Strip(Spaces(n)) == []
  {
    if n > 0 {
      assert Spaces(n)[1..] == Spaces(n - 1);
      BlankStrips(n - 1);
    }
  }

  lemma ShortNameReads(text: Data, slashes: nat, n: nat)
    requires text != [] ==> !IsSpace(text[0]) && !IsSpace(text[|text| - 1]) && text[|text| - 1] != 47
    ensures DropTrailing(Strip(text + Copies(47, slashes) + Spaces(n)), 47) == text
  {
    hide Strip, DropTrailing;
    var full := text + Copies(47, slashes);
    if full == [] {
      assert full + Spaces(n) == Spaces(n);
      BlankStrips(n);
    } else {
      assert slashes > 0 ==> full[|full| - 1] == 47;
      assert slashes == 0 ==> full == text;
      assert text == [] ==> full[0] == 47;
      StripPadding(full, n);
    }
    TrailingDropped(text, 47, slashes);
  }

  /** The fields of a header where the reader looks for them. */
  lemma HeaderFields(e: Entry)
    requires ValidEntry(e)
    ensures var h := EncodeHeader(e);
      && |NameText(e.name)| <= 16 && h[..16] == PadTo(NameText(e.name), 16)
      && |Decimal(BodySize(e))| <= 10 && h[48..58] == PadTo(Decimal(BodySize(e)), 10) && h[58..60] == AR_TERMINATOR
  {
    hide Decimal, BodySize, NameText, PadTo;
    NameFits(e.name);
    DecimalFits(BodySize(e), 10);
    var name, size := PadTo(NameText(e.name), 16), PadTo(Decimal(BodySize(e)), 10);
    var h := EncodeHeader(e);
    assert h == (name + e.stamp) + (size + AR_TERMINATOR);
    assert |name + e.stamp| == 48;
    assert h[48..58] == size;
    assert h[58..60] == AR_TERMINATOR;
  }

  lemma BodySplits(e: Entry)
    requires ValidEntry(e)
    ensures SplitBody(EncodeHeader(e), Body(e)) == Ok(Member(e.name.text, ContentBytes(e.content), BodySize(e)))
  {
    hide Decimal, ParseInt, ContentBytes, EncodeHeader, Strip, DropTrailing;
    HeaderFields(e);
    var h, field := EncodeHeader(e), PadTo(NameText(e.name), 16);
    assert h[..3] == h[..16][..3];
    match e.name
    case Short(text, slashes) =>
      ShortPrefix(NameText(e.name), 16 - |NameText(e.name)|);
      ShortNameReads(text, slashes, 16 - |NameText(e.name)|);
    case Long(text, zeros) =>
      var digits, n := Decimal(|text| + zeros), 16 - |NameText(e.name)|;
      assert field == LONG_NAME + (digits + Spaces(n));
      assert h[3..16] == h[..16][3..] == digits + Spaces(n);
      ParsePadded(|text| + zeros, n);
      assert Body(e)[..|text| + zeros] == text + Copies(0, zeros);
      assert Body(e)[|text| + zeros..] == ContentBytes(e.content);
      TrailingDropped(text, 0, zeros);
  }

  lemma ShortPrefix(s: Data, n: nat)
    requires |s| + n == 16 && !(LONG_NAME <= s)
    ensures (s + Spaces(n))[..3] != LONG_NAME
  {
    var t := s + Spaces(n);
    if |s| >= 3 {
      assert t[..3] == s[..3];
    } else {
      assert t[2] == SPACE;
    }
  }

  lemma MemberTaken(e: Entry, after: Data)
    requires ValidEntry(e)
    ensures var s := EncodeHeader(e) + Body(e) + after;
      TakeMember(s) == Ok(Member(e.name.text, ContentBytes(e.content), BodySize(e)))
  {
    hide Body, SplitBody, ParseInt, Decimal, EncodeHeader, ContentBytes;
    var s, h := EncodeHeader(e) + Body(e) + after, EncodeHeader(e);
    assert s[..AR_HEADER_SIZE] == h;
    assert s[AR_HEADER_SIZE..AR_HEADER_SIZE + BodySize(e)] == Body(e);
    SizeDeclared(e);
    BodySplits(e);
  }

  lemma SizeDeclared(e: Entry)
    requires ValidEntry(e)
    ensures DeclaredSize(EncodeHeader(e)) == Ok(BodySize(e))
  {
    hide ParseInt, Decimal, EncodeHeader;
    HeaderFields(e);
    ParsePadded(BodySize(e), 10 - |Decimal(BodySize(e))|);
  }

  lemma EntryTaken(e: Entry, after: Data)
    requires ValidEntry(e)
    ensures var s := EncodeEntry(e) + after;
      && |s| >= AR_HEADER_SIZE
      && TakeMember(s) == Ok(Member(e.name.text, ContentBytes(e.content), BodySize(e)))
      && s[NextMember(s, BodySize(e))..] == after
  {
    hide Body, TakeMember, EncodeHeader, ContentBytes;
    var s, pad := EncodeEntry(e) + after, if BodySize(e) % 2 == 1 then [e.pad] else [];
    assert s == EncodeHeader(e) + Body(e) + (pad + after);
    MemberTaken(e, pad + after);
  }

  predicate ValidEntries(es: seq<Entry>) { forall i :: 0 <= i < |es| ==> ValidEntry(es[i]) }

  function EntriesSize(es: seq<Entry>): nat { if es == [] then 0 else MemberSize(es[0]) + EntriesSize(es[1..]) }

  function EncodeEntries(es: seq<Entry>): (r: Data)
    requires ValidEntries(es)
    ensures |r| == EntriesSize(es)
  {
    if es == [] then [] else EncodeEntry(es[0]) + EncodeEntries(es[1..])
  }

  /** The objects among the members. */
  function ObjectsIn(es: seq<Entry>): seq<Named> {
    if es == [] then []
    else if es[0].content.Binary? then [Named(es[0].name.text, es[0].content.macho)] + ObjectsIn(es[1..])
    else ObjectsIn(es[1..])
  }

  lemma EntryContent(e: Entry, report: Report, archLabel: Option<Arch>)
    requires ValidEntry(e)
    ensures ReadContent(Member(e.name.text, ContentBytes(e.content), BodySize(e)), report, archLabel)
         == Ok(Collect(ObjectsIn([e]), report, archLabel))
  {
    hide ReadObject, EncodeObject, AddObject, FormatOf;
    assert [e][1..] == [];
    if e.content.Binary? {
      var o := e.content.macho;
      ObjectReads(o, e.name.text, report, archLabel);
      assert [Named(e.name.text, o)] + [] == [Named(e.name.text, o)];
      assert [Named(e.name.text, o)][1..] == [];
    }
  }

  lemma {:induction false} CollectTwice(a: seq<Named>, b: seq<Named>, report: Report, archLabel: Option<Arch>)
    ensures Collect(a + b, report, archLabel) == Collect(b, Collect(a, report, archLabel), archLabel)
  {
    hide AddObject, ArchOf, VersionsIn;
    if a == [] {
      assert a + b == b;
    } else {
      assert (a + b)[1..] == a[1..] + b;
      var arch := ArchOf(a[0].macho, archLabel);
      CollectTwice(a[1..], b, AddObject(report, arch, VersionsIn(a[0].macho.commands, arch, a[0].name)), archLabel);
    }
  }

  /** Behind written members the reader goes on with whatever follows. */
  lemma {:induction false} EntriesThen(es: seq<Entry>, tail: Data, report: Report, archLabel: Option<Arch>)
    requires ValidEntries(es)
    ensures ReadMembers(EncodeEntries(es) + tail, report, archLabel)
         == ReadMembers(tail, Collect(ObjectsIn(es), report, archLabel), archLabel)
  {
    hide TakeMember, ReadContent, EncodeEntry, ValidEntry, Body, Collect;
    if es == [] {
      assert EncodeEntries(es) + tail == tail;
      CollectNone(report, archLabel);
    } else {
      var after := EncodeEntries(es[1..]) + tail;
      assert EncodeEntries(es) + tail == EncodeEntry(es[0]) + after;
      EntryTaken(es[0], after);
      EntryContent(es[0], report, archLabel);
      EntriesThen(es[1..], tail, Collect(ObjectsIn([es[0]]), report, archLabel), archLabel);
      assert [es[0]][1..] == [];
      assert ObjectsIn(es) == ObjectsIn([es[0]]) + ObjectsIn(es[1..]);
      CollectTwice(ObjectsIn([es[0]]), ObjectsIn(es[1..]), report, archLabel);
    }
  }

  lemma EntriesRead(es: seq<Entry>, tail: Data, report: Report, archLabel: Option<Arch>)
    requires ValidEntries(es) && |tail| < AR_HEADER_SIZE
    ensures ReadMembers(EncodeEntries(es) + tail, report, archLabel) == Ok(Collect(ObjectsIn(es), report, archLabel))
  {
    EntriesThen(es, tail, report, archLabel);
  }

  /** An archive cut off inside its last member: a cut inside the member's body is refused, but a
      cut inside its header goes unnoticed and the member is not reported. */
  lemma TruncatedArchive(es: seq<Entry>, e: Entry, k: nat, report: Report, archLabel: Option<Arch>)
    requires ValidEntries(es) && ValidEntry(e) && k <= |EncodeEntry(e)|
    ensures var r := ReadMembers(EncodeEntries(es) + EncodeEntry(e)[..k], report, archLabel);
      var before := Collect(ObjectsIn(es), report, archLabel);
      r == if k < AR_HEADER_SIZE then Ok(before)
           else if k < AR_HEADER_SIZE + BodySize(e) then Err(ParseError)
           else Ok(Collect(ObjectsIn([e]), before, archLabel))
  {
    hide Body, TakeMember, EncodeHeader, ContentBytes, Collect, ReadContent;
    var cut, before := EncodeEntry(e)[..k], Collect(ObjectsIn(es), report, archLabel);
    EntriesThen(es, cut, report, archLabel);
    if AR_HEADER_SIZE <= k < AR_HEADER_SIZE + BodySize(e) {
      assert cut[..AR_HEADER_SIZE] == EncodeHeader(e);
      CutBody(e, cut);
    } else if AR_HEADER_SIZE + BodySize(e) <= k {
      var rest := cut[AR_HEADER_SIZE + BodySize(e)..];
      assert cut == EncodeHeader(e) + Body(e) + rest;
      MemberTaken(e, rest);
      EntryContent(e, before, archLabel);
      assert cut[NextMember(cut, BodySize(e))..] == [];
    }
  }

  lemma CutBody(e: Entry, cut: Data)
    requires ValidEntry(e) && AR_HEADER_SIZE <= |cut| < AR_HEADER_SIZE + BodySize(e)
    requires cut[..AR_HEADER_SIZE] == EncodeHeader(e)
    ensures TakeMember(cut) == Err(ParseError)
  {
    hide EncodeHeader, ValidEntry, DeclaredSize;
    SizeDeclared(e);
  }

  lemma CollectNone(report: Report, archLabel: Option<Arch>)
    ensures Collect([], report, archLabel) == report
  {
  }

  // ------------------------------------------------------------------ containers

  /** An object, or an archive with fewer than a header's bytes behind its last member. */
  datatype Container = Single(macho: Object) | Archive(entries: seq<Entry>, tail: Data)

  predicate ValidContainer(c: Container) {
    match c
    case Single(o) => ValidObject(o)
    case Archive(es, tail) => ValidEntries(es) && |tail| < AR_HEADER_SIZE
  }

  function ContainerSize(c: Container): nat {
    match c
    case Single(o) => ObjectSize(o)
    case Archive(es, tail) => |AR_MAGIC| + EntriesSize(es) + |tail|
  }

  function EncodeContainer(c: Container): (r: Data)
    requires ValidContainer(c)
    ensures |r| == ContainerSize(c)
  {
    match c
    case Single(o) => EncodeObject(o)
    case Archive(es, tail) => AR_MAGIC + (EncodeEntries(es) + tail)
  }

  function Contents(c: Container): seq<Named> {
    match c
    case Single(o) => [Named([], o)]
    case Archive(es, _) => ObjectsIn(es)
  }

  lemma ContainerReads(c: Container, report: Report, archLabel: Option<Arch>)
    requires ValidContainer(c)
    ensures ReadContainer(EncodeContainer(c), report, archLabel) == Ok(Collect(Contents(c), report, archLabel))
  {
    hide ReadObject, EncodeObject, AddObject, EncodeEntries, ReadMembers, ObjectsIn;
    match c
    case Single(o) =>
      ObjectReads(o, [], report, archLabel);
      assert [Named([], o)][1..] == [];
    case Archive(es, tail) =>
      var s, inner := EncodeContainer(c), EncodeEntries(es) + tail;
      assert s[..4] == [33, 60, 97, 114];
      assert s[|AR_MAGIC|..] == inner && s[..|AR_MAGIC|] == AR_MAGIC;
      EntriesRead(es, tail, report, archLabel);
  }

  // -------------------------------------------------------------- universal files

  /** A slice: its architecture, the row's remaining bytes, the gap before it, and what it holds. */
  datatype Slice = Slice(processor: Processor, cpusubtype: nat, extra: Data, gap: Data, container: Container)

  function SliceArch(s: Slice): Arch { Title(s.processor) }

  predicate ValidSlice(f: Format, s: Slice) {
    ValidProcessor(s.processor, s.cpusubtype) && |s.extra| == (if f.is64 then 8 else 4)
      && ValidContainer(s.container)
  }

  predicate ValidSlices(f: Format, slices: seq<Slice>) {
    forall i :: 0 <= i < |slices| ==> ValidSlice(f, slices[i])
  }

  function OffsetLimit(f: Format): nat { if f.is64 then U64_LIMIT else U32_LIMIT }

  function EncodeRow(f: Format, s: Slice, offset: nat): (r: Data)
    requires ValidSlice(f, s) && offset < OffsetLimit(f) && ContainerSize(s.container) < OffsetLimit(f)
    ensures |r| == EntrySize(f)
  {
    var size := ContainerSize(s.container);
    if f.is64 then
      Words(f.endian, [CpuType(s.processor), s.cpusubtype]) + EncodeU64(f.endian, offset) + EncodeU64(f.endian, size)
        + s.extra
    else Words(f.endian, [CpuType(s.processor), s.cpusubtype, offset, size]) + s.extra
  }

  lemma RowReads(f: Format, s: Slice, offset: nat, before: Data, after: Data)
    requires ValidSlice(f, s) && offset < OffsetLimit(f) && ContainerSize(s.container) < OffsetLimit(f)
    ensures EntryAt(f, before + EncodeRow(f, s, offset) + after, |before|)
         == FatEntry(SliceArch(s), offset, ContainerSize(s.container))
  {
    hide U32, U64, Words, EncodeU64, EncodeContainer, ArchName, ValidContainer, CpuType, Title;
    ProcessorReads(s.processor, s.cpusubtype);
    var size, data := ContainerSize(s.container), before + EncodeRow(f, s, offset) + after;
    var endian := f.endian;
    if f.is64 {
      var words := [CpuType(s.processor), s.cpusubtype];
      var w, o, z := Words(endian, words), EncodeU64(endian, offset), EncodeU64(endian, size);
      assert data == before + w + (o + z + s.extra + after);
      assert data == (before + w) + o + (z + s.extra + after);
      assert data == (before + w + o) + z + (s.extra + after);
      WordAt(endian, words, before, o + z + s.extra + after, 0);
      WordAt(endian, words, before, o + z + s.extra + after, 1);
      U64Reads(endian, offset, before + w, z + s.extra + after);
      U64Reads(endian, size, before + w + o, s.extra + after);
    } else {
      var words := [CpuType(s.processor), s.cpusubtype, offset, size];
      assert data == before + Words(endian, words) + (s.extra + after);
      WordAt(endian, words, before, s.extra + after, 0);
      WordAt(endian, words, before, s.extra + after, 1);
      WordAt(endian, words, before, s.extra + after, 2);
      WordAt(endian, words, before, s.extra + after, 3);
    }
  }

  function BodiesSize(slices: seq<Slice>): nat {
    if slices == [] then 0 else |slices[0].gap| + ContainerSize(slices[0].container) + BodiesSize(slices[1..])
  }

  /** The bodies, each behind its gap. */
  function EncodeBodies(f: Format, slices: seq<Slice>): (r: Data)
    requires ValidSlices(f, slices)
    ensures |r| == BodiesSize(slices)
  {
    if slices == [] then []
    else slices[0].gap + EncodeContainer(slices[0].container) + EncodeBodies(f, slices[1..])
  }

  /** The rows of slices whose first gap starts at `base`. */
  function EncodeRows(f: Format, slices: seq<Slice>, base: nat): (r: Data)
    requires ValidSlices(f, slices) && base + BodiesSize(slices) < OffsetLimit(f)
  {
    if slices == [] then []
    else
      var offset := base + |slices[0].gap|;
      EncodeRow(f, slices[0], offset)
      + EncodeRows(f, slices[1..], offset + ContainerSize(slices[0].container))
  }

  lemma {:induction false} RowsLength(f: Format, slices: seq<Slice>, base: nat)
    requires ValidSlices(f, slices) && base + BodiesSize(slices) < OffsetLimit(f)
    ensures |EncodeRows(f, slices, base)| == RowsSize(f, |slices|)
  {
    hide EncodeRow, EncodeContainer, ValidContainer, OffsetLimit;
    if slices != [] {
      RowsLength(f, slices[1..], base + |slices[0].gap| + ContainerSize(slices[0].container));
    }
  }

  /** The report of these slices, one architecture after the other. */
  function CollectSlices(slices: seq<Slice>, report: Report): Report {
    if slices == [] then report
    else
      var arch := SliceArch(slices[0]);
      CollectSlices(slices[1..], Collect(Contents(slices[0].container), EntryFor(report, arch), Some(arch)))
  }

  predicate DistinctArchs(slices: seq<Slice>) {
    forall i, j :: 0 <= i < j < |slices| ==> SliceArch(slices[i]) != SliceArch(slices[j])
  }

  /** No architecture twice means no processor twice. */
  lemma DistinctProcessors(slices: seq<Slice>)
    ensures DistinctArchs(slices)
       <==> forall i, j :: 0 <= i < j < |slices| ==> slices[i].processor != slices[j].processor
  {
    hide Title;
    forall i, j | 0 <= i < j < |slices| && SliceArch(slices[i]) == SliceArch(slices[j])
      ensures slices[i].processor == slices[j].processor
    {
      TitlesDiffer(slices[i].processor, slices[j].processor);
    }
  }

  /** A file from some row on: `before` ends where the row starts, `between` fills the space
      between the last row and the first gap. */
  predicate Laid(f: Format, slices: seq<Slice>, data: Data, before: Data, between: Data) {
    var base := |before| + RowsSize(f, |slices|) + |between|;
    && ValidSlices(f, slices) && base + BodiesSize(slices) < OffsetLimit(f)
    && data == before + EncodeRows(f, slices, base) + between + EncodeBodies(f, slices)
  }

  /** The same bytes, bracketed the way each reader of them needs. */
  lemma Regroup(before: Data, row: Data, rows: Data, between: Data, gap: Data, body: Data, bodies: Data)
    ensures before + (row + rows) + between + (gap + body + bodies) == before + row
            + (rows + between + (gap + body + bodies))
    ensures before + (row + rows) + between + (gap + body + bodies) == (before + row) + rows + (between + gap + body)
            + bodies
  {
    assert between + (gap + body + bodies) == (between + gap + body) + bodies;
    assert before + (row + rows) == before + row + rows;
  }

  lemma BodyAt(lead: Data, between: Data, gap: Data, body: Data, bodies: Data)
    ensures (lead + (between + gap + body) + bodies)[|lead| + |between| + |gap|..|lead| + |between| + |gap| + |body|]
            == body
  {
    assert lead + (between + gap + body) + bodies == (lead + (between + gap)) + body + bodies;
  }

  /** Where the first slice lies. */
  function FirstOffset(f: Format, slices: seq<Slice>, before: Data, between: Data): nat
    requires slices != []
  {
    |before| + RowsSize(f, |slices|) + |between| + |slices[0].gap|
  }

  /** The first row and the first body, taken out of the file. */
  lemma FirstParts(f: Format, slices: seq<Slice>, data: Data, before: Data, between: Data)
    requires Laid(f, slices, data, before, between) && slices != []
    ensures var gap, body, offset := slices[0].gap, EncodeContainer(slices[0].container),
            FirstOffset(f, slices, before, between);
      && offset + |body| + BodiesSize(slices[1..]) < OffsetLimit(f)
      && var row, rows := EncodeRow(f, slices[0], offset), EncodeRows(f, slices[1..], offset + |body|);
      && |rows| == RowsSize(f, |slices| - 1)
      && data == before + (row + rows) + between + (gap + body + EncodeBodies(f, slices[1..]))
  {
    hide EncodeRow, EncodeContainer, ValidContainer, OffsetLimit;
    RowsLength(f, slices[1..], FirstOffset(f, slices, before, between) + ContainerSize(slices[0].container));
  }

  /** The first of these rows, and the file from the next row on. */
  lemma FirstLaid(f: Format, slices: seq<Slice>, data: Data, before: Data, between: Data)
    requires Laid(f, slices, data, before, between) && slices != []
    ensures |before| + EntrySize(f) <= |data|
    ensures var body, offset := EncodeContainer(slices[0].container), FirstOffset(f, slices, before, between);
      && EntryAt(f, data, |before|) == FatEntry(SliceArch(slices[0]), offset, |body|)
      && offset + |body| <= |data| && data[offset..offset + |body|] == body && offset < OffsetLimit(f)
        && |body| < OffsetLimit(f)
      && Laid(f, slices[1..], data, before + EncodeRow(f, slices[0], offset), between + slices[0].gap + body)
  {
    hide EncodeRow, EncodeContainer, ValidContainer, OffsetLimit, EntryAt, SliceArch, EncodeRows, EncodeBodies;
    FirstParts(f, slices, data, before, between);
    var gap, body, offset := slices[0].gap, EncodeContainer(slices[0].container),
        FirstOffset(f, slices, before, between);
    var row, rows := EncodeRow(f, slices[0], offset), EncodeRows(f, slices[1..], offset + |body|);
    var bodies := EncodeBodies(f, slices[1..]);
    Regroup(before, row, rows, between, gap, body, bodies);
    RowReads(f, slices[0], offset, before, rows + between + (gap + body + bodies));
    BodyAt(before + row + rows, between, gap, body, bodies);
  }

  /** Row `index` of the header points at the bytes of `s`, wherever they are. */
  predicate Placed(f: Format, s: Slice, data: Data, index: nat) {
    && ValidContainer(s.container) && 8 + RowsSize(f, index + 1) <= |data|
    && var e := EntryAt(f, data, 8 + RowsSize(f, index));
    && e.arch == SliceArch(s) && e.offset + e.size <= |data|
    && data[e.offset..e.offset + e.size] == EncodeContainer(s.container)
  }

  predicate AllPlaced(f: Format, slices: seq<Slice>, data: Data, index: nat) {
    forall i :: 0 <= i < |slices| ==> Placed(f, slices[i], data, index + i)
  }

  /** Rows that point at slices read back, however the slices are laid out: in any order, with
      any gaps, even overlapping. */
  lemma {:induction false} SlicesRead(f: Format, slices: seq<Slice>, data: Data, index: nat, report: Report)
    requires AllPlaced(f, slices, data, index) && 8 + RowsSize(f, index + |slices|) <= |data|
    requires DistinctArchs(slices) && forall i :: 0 <= i < |slices| ==> SliceArch(slices[i]) !in report
    ensures ReadSlices(f, data, index, index + |slices|, report) == Ok(CollectSlices(slices, report))
    decreases |slices|
  {
    hide EncodeContainer, ValidContainer, EntryAt, ReadContainer, Collect, Contents, ArchName, Title, ValidProcessor;
    if slices != [] {
      var first, arch := slices[0], SliceArch(slices[0]);
      assert Placed(f, first, data, index + 0);
      assert AllPlaced(f, slices[1..], data, index + 1) by {
        forall i | 0 <= i < |slices[1..]| ensures Placed(f, slices[1..][i], data, index + 1 + i) {
          assert Placed(f, slices[i + 1], data, index + (i + 1));
        }
      }
      ContainerReads(first.container, EntryFor(report, arch), Some(arch));
      LabelledKeys(Contents(first.container), EntryFor(report, arch), arch);
      SlicesRead(f, slices[1..], data, index + 1, Collect(Contents(first.container), EntryFor(report, arch),
        Some(arch)));
    }
  }

  /** The writer's own layout is one of these. */
  lemma {:induction false} LaidIsPlaced(f: Format, slices: seq<Slice>, data: Data, index: nat, before: Data,
      between: Data)
    requires Laid(f, slices, data, before, between) && |before| == 8 + RowsSize(f, index)
    ensures AllPlaced(f, slices, data, index) && 8 + RowsSize(f, index + |slices|) <= |data|
    decreases |slices|
  {
    hide EncodeRow, EncodeContainer, EntryAt, ArchName, ValidContainer, EncodeRows, EncodeBodies, ValidProcessor, Title,
         BodiesSize, OffsetLimit;
    RowsLength(f, slices, |before| + RowsSize(f, |slices|) + |between|);
    if slices != [] {
      assert ValidContainer(slices[0].container);
      hide Laid;
      FirstLaid(f, slices, data, before, between);
      var row := EncodeRow(f, slices[0], FirstOffset(f, slices, before, between));
      var body := EncodeContainer(slices[0].container);
      assert Placed(f, slices[0], data, index);
      hide Placed;
      LaidIsPlaced(f, slices[1..], data, index + 1, before + row, between + slices[0].gap + body);
      forall i | 0 < i < |slices| ensures Placed(f, slices[i], data, index + i) {
        assert Placed(f, slices[1..][i - 1], data, index + 1 + (i - 1));
      }
    }
  }

  /** A universal file, however it came to be: its magic, its slice count, and rows that point
      at the slices. */
  predicate IsUniversal(f: Format, slices: seq<Slice>, data: Data) {
    && 8 + RowsSize(f, |slices|) <= |data| && FatMagic(data[..4]) == Some(f)
    && U32(f.endian, data, 4) == |slices| && AllPlaced(f, slices, data, 0)
  }

  /** Reading a universal file: the objects of every slice, under its architecture. */
  lemma UniversalReads(f: Format, slices: seq<Slice>, data: Data)
    requires IsUniversal(f, slices, data) && DistinctArchs(slices)
    ensures ReadReport(data) == Some(Ok(CollectSlices(slices, map[])))
  {
    hide FatMagic, AllPlaced, ReadSlices, CollectSlices, DistinctArchs, U32;
    SlicesRead(f, slices, data, 0, map[]);
  }

  lemma {:induction false} LabelledKeys(objects: seq<Named>, report: Report, arch: Arch)
    requires arch in report
    ensures Collect(objects, report, Some(arch)).Keys == report.Keys
  {
    if objects != [] {
      var next := AddObject(report, arch, VersionsIn(objects[0].macho.commands, arch, objects[0].name));
      assert next.Keys == report.Keys;
      LabelledKeys(objects[1..], next, arch);
    }
  }

  // ----------------------------------------------------------------------- files

  /** A file the reader owns. */
  datatype File = Plain(container: Container) | Universal(format: Format, slices: seq<Slice>)

  function FatMagicBytes(f: Format): (r: Data)
    ensures |r| == 4
  {
    var last: Byte := if f.is64 then 0xbf else 0xbe;
    if f.endian == Big then [0xca, 0xfe, 0xba, last] else [last, 0xba, 0xfe, 0xca]
  }

  lemma FatMagicReads(f: Format)
    ensures FatMagic(FatMagicBytes(f)) == Some(f)
  {
    var r := FatMagicBytes(f);
    assert f.endian == Big ==> r[3] == if f.is64 then 0xbf else 0xbe;
    assert f.endian == Little ==> r[0] == if f.is64 then 0xbf else 0xbe;
  }

  function HeaderEnd(f: Format, slices: seq<Slice>): nat { 8 + RowsSize(f, |slices|) }

  predicate ValidFile(file: File) {
    match file
    case Plain(c) => ValidContainer(c)
    case Universal(f, slices) =>
      && |slices| < U32_LIMIT && ValidSlices(f, slices) && DistinctArchs(slices)
      && HeaderEnd(f, slices) + BodiesSize(slices) < OffsetLimit(f)
  }

  function EncodeFile(file: File): Data
    requires ValidFile(file)
  {
    match file
    case Plain(c) => EncodeContainer(c)
    case Universal(f, slices) =>
      FatMagicBytes(f) + EncodeU32(f.endian, |slices|)
      + EncodeRows(f, slices, HeaderEnd(f, slices)) + EncodeBodies(f, slices)
  }

  function Expected(file: File): Report {
    match file
    case Plain(c) => Collect(Contents(c), map[], None)
    case Universal(_, slices) => CollectSlices(slices, map[])
  }

  /** Reading undoes writing, for every kind of file. */
  lemma FileReads(file: File)
    requires ValidFile(file)
    ensures ReadReport(EncodeFile(file)) == Some(Ok(Expected(file)))
  {
    hide FatMagicBytes, FatMagic, MachOMagic, U32, EncodeU32, EncodeRows, EncodeBodies, ReadSlices, ReadContainer,
         Collect, CollectSlices, EncodeContainer, OffsetLimit, ValidContainer, ValidSlices;
    match file
    case Plain(c) =>
      ContainerReads(c, map[], None);
      PlainHead(c);
    case Universal(f, slices) =>
      var magic, count := FatMagicBytes(f), EncodeU32(f.endian, |slices|);
      var rows, bodies := EncodeRows(f, slices, HeaderEnd(f, slices)), EncodeBodies(f, slices);
      var data := EncodeFile(file);
      assert data[..4] == magic;
      FatMagicReads(f);
      assert data == magic + count + (rows + bodies);
      U32Reads(f.endian, |slices|, magic, rows + bodies);
      assert data == (magic + count) + rows + [] + bodies;
      LaidIsPlaced(f, slices, data, 0, magic + count, []);
      UniversalReads(f, slices, data);
  }

  lemma PlainHead(c: Container)
    requires ValidContainer(c)
    ensures var s := EncodeContainer(c);
      4 <= |s| && FatMagic(s[..4]).None? && (FormatOf(s).Some? || AR_MAGIC <= s)
  {
    hide EncodeObject, EncodeEntries;
    var s := EncodeContainer(c);
    match c
    case Single(o) =>
      ObjectReads(o, [], map[], None);
      ObjectHead(o);
    case Archive(es, tail) =>
      assert s[..4] == [33, 60, 97, 114];
      assert s[..|AR_MAGIC|] == AR_MAGIC;
  }

  lemma ObjectHead(o: Object)
    requires ValidObject(o)
    ensures 4 <= |EncodeObject(o)| && EncodeObject(o)[..4] == MagicBytes(o.format)
    ensures FatMagic(MagicBytes(o.format)).None?
  {
    MagicReads(o.format);
  }

  // ------------------------------------------------------------- what is reported

  function ReportAt(report: Report, arch: Arch): ArchReport {
    if arch in report then report[arch] else ArchReport(0, [])
  }

  /** The objects counted under an architecture. */
  function Under(objects: seq<Named>, archLabel: Option<Arch>, arch: Arch): seq<Named> {
    if objects == [] then []
    else if ArchOf(objects[0].macho, archLabel) == arch then [objects[0]] + Under(objects[1..], archLabel, arch)
    else Under(objects[1..], archLabel, arch)
  }

  /** The version commands of some objects, in order. */
  function Versions(objects: seq<Named>, arch: Arch): seq<Record> {
    if objects == [] then []
    else VersionsIn(objects[0].macho.commands, arch, objects[0].name) + Versions(objects[1..], arch)
  }

  function Tally(objects: seq<Named>, arch: Arch): ArchReport { ArchReport(|objects|, Versions(objects, arch)) }

  function Sum(a: ArchReport, b: ArchReport): ArchReport { ArchReport(a.machos + b.machos, a.records + b.records) }

  lemma AddTallies(report: Report, own: Arch, records: seq<Record>, arch: Arch)
    ensures var after := AddObject(report, own, records);
      && ReportAt(after, arch) == (if own == arch then Sum(ReportAt(report, arch), ArchReport(1, records))
        else ReportAt(report, arch))
      && (arch in after <==> arch in report || own == arch)
  {
  }

  lemma SumAssociative(a: ArchReport, b: ArchReport, c: ArchReport)
    ensures Sum(Sum(a, b), c) == Sum(a, Sum(b, c))
  {
    assert (a.records + b.records) + c.records == a.records + (b.records + c.records);
  }

  lemma TallyCons(first: Named, others: seq<Named>, arch: Arch)
    ensures Tally([first] + others, arch)
         == Sum(ArchReport(1, VersionsIn(first.macho.commands, arch, first.name)), Tally(others, arch))
  {
    assert ([first] + others)[1..] == others;
  }

  /** Every object is counted once, under its own architecture, and under no other. */
  lemma {:induction false} CollectTallies(objects: seq<Named>, report: Report, archLabel: Option<Arch>, arch: Arch)
    ensures var after := Collect(objects, report, archLabel);
      && ReportAt(after, arch) == Sum(ReportAt(report, arch), Tally(Under(objects, archLabel, arch), arch))
      && (arch in after <==> arch in report || Under(objects, archLabel, arch) != [])
  {
    hide VersionsIn, ArchOf, AddObject, Sum, Tally, ReportAt;
    if objects == [] {
      EmptyTally(ReportAt(report, arch), arch);
    } else {
      var own := ArchOf(objects[0].macho, archLabel);
      var records := VersionsIn(objects[0].macho.commands, own, objects[0].name);
      AddTallies(report, own, records, arch);
      CollectTallies(objects[1..], AddObject(report, own, records), archLabel, arch);
      if own == arch {
        var tail := Under(objects[1..], archLabel, arch);
        TallyCons(objects[0], tail, arch);
        SumAssociative(ReportAt(report, arch), ArchReport(1, records), Tally(tail, arch));
      }
    }
  }

  lemma {:induction false} UnderLabel(objects: seq<Named>, own: Arch, arch: Arch)
    ensures Under(objects, Some(own), arch) == if own == arch then objects else []
  {
    if objects != [] {
      UnderLabel(objects[1..], own, arch);
    }
  }

  predicate Names(slices: seq<Slice>, arch: Arch) {
    exists i :: 0 <= i < |slices| && SliceArch(slices[i]) == arch
  }

  lemma NamesCons(slices: seq<Slice>, arch: Arch)
    requires slices != []
    ensures Names(slices, arch) <==> SliceArch(slices[0]) == arch || Names(slices[1..], arch)
  {
    forall i | 0 < i < |slices| ensures slices[i] == slices[1..][i - 1] {}
  }

  /** What a universal file reports under one architecture. */
  predicate Tallied(slices: seq<Slice>, after: ArchReport, arch: Arch) {
    forall i :: 0 <= i < |slices| && SliceArch(slices[i]) == arch
        ==> after == Tally(Contents(slices[i].container), arch)
  }

  lemma FromNothing(r: ArchReport)
    ensures Sum(ArchReport(0, []), r) == r
  {
    assert [] + r.records == r.records;
  }

  /** The step for the first slice. */
  lemma FirstTally(objects: seq<Named>, report: Report, own: Arch, arch: Arch)
    requires own !in report
    ensures var next := Collect(objects, EntryFor(report, own), Some(own));
      && next.Keys == report.Keys + {own}
      && ReportAt(next, arch) == if own == arch then Tally(objects, arch) else ReportAt(report, arch)
  {
    hide Collect, Tally, Sum, Under;
    CollectTallies(objects, EntryFor(report, own), Some(own), arch);
    UnderLabel(objects, own, arch);
    LabelledKeys(objects, EntryFor(report, own), own);
    EmptyTally(ReportAt(EntryFor(report, own), arch), arch);
    FromNothing(Tally(objects, arch));
  }

  /** A slice's architecture reports exactly the objects of that slice. */
  lemma {:induction false} SlicesTally(slices: seq<Slice>, report: Report, arch: Arch)
    requires DistinctArchs(slices)
    requires forall i :: 0 <= i < |slices| ==> SliceArch(slices[i]) !in report
    ensures var after := CollectSlices(slices, report);
      && (arch in after <==> arch in report || Names(slices, arch))
      && (arch in report ==> ReportAt(after, arch) == report[arch])
      && Tallied(slices, ReportAt(after, arch), arch)
  {
    hide Collect, Contents, Tally, SliceArch, EntryFor;
    if slices != [] {
      var own, objects := SliceArch(slices[0]), Contents(slices[0].container);
      FirstTally(objects, report, own, arch);
      SlicesTally(slices[1..], Collect(objects, EntryFor(report, own), Some(own)), arch);
      NamesCons(slices, arch);
      forall i | 0 < i < |slices| ensures slices[i] == slices[1..][i - 1] {}
    }
  }

  lemma EmptyTally(r: ArchReport, arch: Arch)
    ensures Sum(r, Tally([], arch)) == r
  {
    assert r.records + [] == r.records;
  }

  /** The reader's answer for a universal file: one entry per slice, holding the number of objects
      in that slice and the version of every one of them. */
  lemma UniversalReported(f: Format, slices: seq<Slice>, data: Data)
    requires IsUniversal(f, slices, data) && DistinctArchs(slices)
    ensures var r := ReadReport(data);
      && r.Some? && r.value.Ok?
      && (forall arch :: arch in r.value.value <==> Names(slices, arch))
      && (forall arch :: Tallied(slices, ReportAt(r.value.value, arch), arch))
  {
    hide ReadReport, IsUniversal, CollectSlices, Tallied, Names, ReportAt;
    UniversalReads(f, slices, data);
    forall arch ensures
      var after := CollectSlices(slices, map[]);
      && (arch in after <==> Names(slices, arch)) && Tallied(slices, ReportAt(after, arch), arch)
    {
      SlicesTally(slices, map[], arch);
    }
  }

  /** The reader's answer for a plain object or archive: every object once, under the
      architecture its own header names. */
  lemma PlainReported(c: Container)
    requires ValidContainer(c)
    ensures var r := ReadReport(EncodeFile(Plain(c)));
      && r.Some? && r.value.Ok?
      && forall arch ::
           && (arch in r.value.value <==> Under(Contents(c), None, arch) != [])
           && ReportAt(r.value.value, arch) == Tally(Under(Contents(c), None, arch), arch)
  {
    hide ReadReport, EncodeFile, Collect, Contents, Versions;
    FileReads(Plain(c));
    forall arch ensures
      var after := Collect(Contents(c), map[], None);
      && (arch in after <==> Under(Contents(c), None, arch) != [])
      && ReportAt(after, arch) == Tally(Under(Contents(c), None, arch), arch)
    {
      CollectTallies(Contents(c), map[], None, arch);
      var records := Versions(Under(Contents(c), None, arch), arch);
      assert [] + records == records;
    }
  }
}
