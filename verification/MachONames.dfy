/** Processors, platforms and versions as a file's author knows them: the numbers that are written
    for them and the texts a report should show. */
module MachONames {
  import opened Wrappers
  import opened Bytes
  import opened MachO
  import Numerals
  import Text

  // ------------------------------------------------------------------ processors

  /** The processors with a name of their own, and all others by number. */
  datatype Processor = I386 | X86_64 | Arm | Arm64 | Arm64e | Arm64_32 | Ppc | Ppc64 | Unlisted(number: nat)

  /** A family of processors, its 64-bit variant, and the one with 32-bit pointers on 64-bit
      registers. */
  const X86: nat := 7
  const ARM: nat := 12
  const POWERPC: nat := 18
  const ABI64: nat := 0x0100_0000
  const ABI64_32: nat := 0x0200_0000

  function CpuType(p: Processor): nat {
    match p
    case I386 => X86
    case X86_64 => ABI64 + X86
    case Arm => ARM
    case Arm64 => ABI64 + ARM
    case Arm64e => ABI64 + ARM
    case Arm64_32 => ABI64_32 + ARM
    case Ppc => POWERPC
    case Ppc64 => ABI64 + POWERPC
    case Unlisted(number) => number
  }

  function Title(p: Processor): string {
    match p
    case I386 => "i386"
    case X86_64 => "x86_64"
    case Arm => "arm"
    case Arm64 => "arm64"
    case Arm64e => "arm64e"
    case Arm64_32 => "arm64_32"
    case Ppc => "ppc"
    case Ppc64 => "ppc64"
    case Unlisted(number) => "cputype-0x" + Numerals.Numeral(number, 16)
  }

  predicate IsListed(cputype: nat) {
    cputype in {X86, ABI64 + X86, ARM, ABI64 + ARM, ABI64_32 + ARM, POWERPC, ABI64 + POWERPC}
  }

  /** The low three bytes of the subtype tell the two 64-bit arms apart; the high byte holds
      capability bits. */
  predicate ValidProcessor(p: Processor, cpusubtype: nat) {
    && cpusubtype < U32_LIMIT && CpuType(p) < U32_LIMIT
    && (p.Arm64? ==> cpusubtype % 0x0100_0000 != 2)
    && (p.Arm64e? ==> cpusubtype % 0x0100_0000 == 2)
    && (p.Unlisted? ==> !IsListed(p.number))
  }

  /** The name of a processor is found again from what is written for it. */
  lemma ProcessorReads(p: Processor, cpusubtype: nat)
    requires ValidProcessor(p, cpusubtype)
    ensures ArchName(CpuType(p), cpusubtype) == Title(p)
  {
    hide Numerals.Numeral;
  }

  /** Any two words in the header are those of some processor. */
  lemma ProcessorExists(cputype: nat, cpusubtype: nat)
    requires cputype < U32_LIMIT && cpusubtype < U32_LIMIT
    ensures exists p :: ValidProcessor(p, cpusubtype) && CpuType(p) == cputype
  {
    var p := if cputype == X86 then I386
      else if cputype == ABI64 + X86 then X86_64
      else if cputype == ARM then Arm
      else if cputype == ABI64 + ARM && cpusubtype % 0x0100_0000 == 2 then Arm64e
      else if cputype == ABI64 + ARM then Arm64
      else if cputype == ABI64_32 + ARM then Arm64_32
      else if cputype == POWERPC then Ppc
      else if cputype == ABI64 + POWERPC then Ppc64
      else Unlisted(cputype);
    assert ValidProcessor(p, cpusubtype) && CpuType(p) == cputype;
  }

  lemma FirstLetter(p: Processor)
    ensures Title(p) != "" && (Title(p)[0] == 'c' <==> p.Unlisted?)
  {
  }

  /** No two processors share a name. */
  lemma TitlesDiffer(p: Processor, q: Processor)
    requires Title(p) == Title(q)
    ensures p == q
  {
    hide Numerals.Numeral;
    if p.Unlisted? && q.Unlisted? {
      var a, b := Numerals.Numeral(p.number, 16), Numerals.Numeral(q.number, 16);
      assert Title(p)[10..] == a && Title(q)[10..] == b;
      Numerals.NumeralInjective(p.number, q.number, 16);
    } else {
      FirstLetter(p);
      FirstLetter(q);
    }
  }

  /** Two headers are counted under one architecture exactly when they name the same processor
      type and, for 64-bit arms, agree on being the authenticated-pointer variant. */
  lemma SameArchitecture(a: nat, x: nat, b: nat, y: nat)
    requires a < U32_LIMIT && x < U32_LIMIT && b < U32_LIMIT && y < U32_LIMIT
    ensures ArchName(a, x) == ArchName(b, y)
       <==> a == b && (a == 0x0100_000C ==> (x % 0x0100_0000 == 2 <==> y % 0x0100_0000 == 2))
  {
    hide ArchName, Title;
    ProcessorExists(a, x);
    ProcessorExists(b, y);
    var p :| ValidProcessor(p, x) && CpuType(p) == a;
    var q :| ValidProcessor(q, y) && CpuType(q) == b;
    ProcessorReads(p, x);
    ProcessorReads(q, y);
    if Title(p) == Title(q) {
      TitlesDiffer(p, q);
    }
  }

  // ------------------------------------------------------------------- platforms

  /** The platforms with a name, from number one on. */
  const TITLES: seq<string> :=
    ["macos", "ios", "tvos", "watchos", "bridgeos", "maccatalyst", "iossimulator", "tvossimulator", "watchossimulator",
     "driverkit", "visionos", "visionossimulator"]

  function PlatformTitle(platform: nat): string {
    if 1 <= platform <= |TITLES| then TITLES[platform - 1] else "platform-" + Numerals.Decimal(platform)
  }

  lemma PlatformReads(platform: nat)
    ensures PlatformName(platform) == PlatformTitle(platform)
  {
    hide Numerals.Decimal;
    if 1 <= platform <= 12 {
      assert PLATFORMS[platform] == TITLES[platform - 1];
    }
  }

  /** The old version commands, one for each of the first four platforms. */
  function MinimumNumber(platform: nat): nat {
    if platform == 1 then 0x24 else if platform == 2 then 0x25 else if platform == 3 then 0x2F else 0x30
  }

  function MinimumTitle(platform: nat): string {
    if platform == 1 then "LC_VERSION_MIN_MACOSX"
    else if platform == 2 then "LC_VERSION_MIN_IPHONEOS"
    else if platform == 3 then "LC_VERSION_MIN_TVOS"
    else "LC_VERSION_MIN_WATCHOS"
  }

  lemma MinimumReads(platform: nat)
    requires 1 <= platform <= 4
    ensures MinimumNumber(platform) in VERSION_MIN
    ensures VERSION_MIN[MinimumNumber(platform)] == VersionMinimum(PlatformTitle(platform), MinimumTitle(platform))
  {
  }

  // -------------------------------------------------------------------- versions

  datatype Version = Version(major: nat, minor: nat, patch: nat)

  predicate ValidVersion(v: Version) { v.major < 65536 && v.minor < 256 && v.patch < 256 }

  function PackVersion(v: Version): (n: nat)
    requires ValidVersion(v)
    ensures n < U32_LIMIT
  {
    v.major * 65536 + v.minor * 256 + v.patch
  }

  /** The numbers that are shown: all but a patch of zero. */
  function Shown(v: Version): (r: seq<nat>)
    ensures |r| >= 2
  {
    [v.major, v.minor] + if v.patch == 0 then [] else [v.patch]
  }

  function Decimals(numbers: seq<nat>): (r: seq<string>)
    ensures |r| == |numbers|
  {
    seq(|numbers|, i requires 0 <= i < |numbers| => Numerals.Decimal(numbers[i]))
  }

  function VersionText(v: Version): string { Text.Join(Decimals(Shown(v)), '.') }

  lemma Unpacked(v: Version)
    requires ValidVersion(v)
    ensures var n := PackVersion(v); n / 65536 == v.major && n / 256 % 256 == v.minor && n % 256 == v.patch
  {
    var n := PackVersion(v);
    assert n == (v.major * 256 + v.minor) * 256 + v.patch;
    assert n / 256 == v.major * 256 + v.minor;
    assert n / 65536 == n / 256 / 256;
  }

  lemma VersionReads(v: Version)
    requires ValidVersion(v)
    ensures FormatVersion(PackVersion(v)) == VersionText(v)
  {
    hide Numerals.Decimal, PackVersion;
    Unpacked(v);
    var a, b, c := Numerals.Decimal(v.major), Numerals.Decimal(v.minor), Numerals.Decimal(v.patch);
    JoinFew(a, b, c);
    assert Decimals(Shown(v)) == if v.patch == 0 then [a, b] else [a, b, c];
  }

  lemma JoinFew(a: string, b: string, c: string)
    ensures Text.Join([a, b], '.') == a + "." + b
    ensures Text.Join([a, b, c], '.') == a + "." + b + "." + c
  {
    assert [a, b][1..] == [b] && Text.Join([b], '.') == b;
    assert [a, b, c][1..] == [b, c] && [b, c][1..] == [c] && Text.Join([c], '.') == c;
    assert Text.Join([b, c], '.') == b + "." + c;
    assert a + "." + (b + "." + c) == a + "." + b + "." + c;
  }

  /** Taken apart at its dots, the reported text gives back the numbers. */
  lemma VersionParts(v: Version, k: nat)
    requires ValidVersion(v) && k < |Shown(v)|
    ensures var parts := Text.Split(FormatVersion(PackVersion(v)), '.');
      |parts| == |Shown(v)| && Numerals.Value(parts[k], 10) == Shown(v)[k]
  {
    hide Numerals.Decimal, FormatVersion, PackVersion;
    VersionReads(v);
    var pieces := Decimals(Shown(v));
    forall i | 0 <= i < |pieces| ensures '.' !in pieces[i] {
      Numerals.DecimalDigits(Shown(v)[i]);
    }
    Text.SplitJoin(pieces, '.');
    Numerals.DecimalValue(Shown(v)[k]);
  }
}
