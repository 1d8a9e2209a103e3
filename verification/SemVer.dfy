/** The package-version check: a hand-written parser for the SemVer 2.0.0 grammar. */
module SemVer {
  import opened Wrappers
  import opened Text
  import opened ManifestFields

  // ------------------------------------------------------------------ the grammar

  predicate IsIdentChar(c: char) { IsDigit(c) || 'a' <= c <= 'z' || 'A' <= c <= 'Z' || c == '-' }

  predicate AllDigits(s: string) { forall i :: 0 <= i < |s| ==> IsDigit(s[i]) }

  predicate AllIdent(s: string) { forall i :: 0 <= i < |s| ==> IsIdentChar(s[i]) }

  /** Items 2 and 9: a numeric identifier has no leading zero. */
  predicate IsNumeric(s: string) { s != "" && AllDigits(s) && (|s| > 1 ==> s[0] != '0') }

  /** Item 10: build identifiers are any nonempty run of letters, digits and hyphens. */
  predicate IsBuildIdentifier(s: string) { s != "" && AllIdent(s) }

  /** Item 9: a pre-release identifier that is all digits is numeric. */
  predicate IsPreIdentifier(s: string) { IsBuildIdentifier(s) && (AllDigits(s) ==> IsNumeric(s)) }

  /** A version taken apart. */
  datatype Version = Version(major: string, minor: string, patch: string, pre: Option<seq<string>>,
      build: Option<seq<string>>)

  /** A pre-release or build part, when there is one, has at least one identifier. */
  predicate HasPieces(v: Version) {
    (v.pre.Some? ==> v.pre.value != []) && (v.build.Some? ==> v.build.value != [])
  }

  predicate IsVersion(v: Version) {
    && HasPieces(v)
    && IsNumeric(v.major) && IsNumeric(v.minor) && IsNumeric(v.patch)
    && (v.pre.Some? ==> forall i :: 0 <= i < |v.pre.value| ==> IsPreIdentifier(v.pre.value[i]))
    && (v.build.Some? ==> forall i :: 0 <= i < |v.build.value| ==> IsBuildIdentifier(v.build.value[i]))
  }

  function PrintCore(v: Version): string { Join([v.major, v.minor, v.patch], '.') }

  function PrintPre(v: Version): string
    requires HasPieces(v)
  {
    if v.pre.Some? then PrintCore(v) + ['-'] + Join(v.pre.value, '.') else PrintCore(v)
  }

  function Print(v: Version): string
    requires HasPieces(v)
  {
    if v.build.Some? then PrintPre(v) + ['+'] + Join(v.build.value, '.') else PrintPre(v)
  }

  /** The text is a version of the grammar. */
  ghost predicate IsSemVer(s: string) {
    exists v :: IsVersion(v) && Print(v) == s
  }

  // ------------------------------------------------------------------- the parser

  predicate ValidIdentifiers(value: string, leadingZeroesAllowed: bool) {
    forall i :: 0 <= i < |Split(value, '.')| ==>
      if leadingZeroesAllowed then IsBuildIdentifier(Split(value, '.')[i]) else IsPreIdentifier(Split(value, '.')[i])
  }

  /** Check the dot-separated identifiers one after another. */
  method CheckIdentifiers(value: string, leadingZeroesAllowed: bool) returns (ok: bool)
    ensures ok == ValidIdentifiers(value, leadingZeroesAllowed)
  {
    var pieces := Split(value, '.');
    for i := 0 to |pieces|
      invariant forall k :: 0 <= k < i ==>
                  if leadingZeroesAllowed then IsBuildIdentifier(pieces[k]) else IsPreIdentifier(pieces[k])
    {
      var identifier := pieces[i];
      if identifier == "" || !AllIdent(identifier) {
        return false;
      }
      if !leadingZeroesAllowed && |identifier| > 1 && AllDigits(identifier) && identifier[0] == '0' {
        return false;
      }
    }
    ok := true;
  }

  predicate ValidCore(core: string) {
    var pieces := Split(core, '.');
    |pieces| == 3 && IsNumeric(pieces[0]) && IsNumeric(pieces[1]) && IsNumeric(pieces[2])
  }

  /** Check major, minor and patch, and that nothing follows. */
  method CheckCore(core: string) returns (ok: bool)
    ensures ok == ValidCore(core)
  {
    var components := Split(core, '.');
    for field := 0 to 3
      invariant field <= |components| && forall k :: 0 <= k < field ==> IsNumeric(components[k])
    {
      if field >= |components| {
        return false;
      }
      var component := components[field];
      if component == "" || !AllDigits(component) || (|component| > 1 && component[0] == '0') {
        return false;
      }
    }
    ok := |components| == 3;
  }

  predicate IsAscii(s: string) { forall i :: 0 <= i < |s| ==> s[i] < '\U{80}' }

  lemma AsciiBytes(s: string)
    ensures IsAscii(s) <==> forall i :: 0 <= i < |s| ==> s[i] as int <= 127
  {
    assert forall i :: 0 <= i < |s| ==> (s[i] < '\U{80}' <==> s[i] as int <= 127);
  }

  /** What the parser takes a text apart into, when it accepts it. */
  function Take(s: string): Option<Version> {
    var plus := SplitOnce(s, '+');
    if plus.Some? && (plus.value.0 == "" || plus.value.1 == "" || '+' in plus.value.1
        || !ValidIdentifiers(plus.value.1, true)) then None
    else TakeRest(if plus.Some? then plus.value.0 else s, if plus.Some? then Some(Split(plus.value.1, '.')) else None)
  }

  function TakeRest(withoutBuild: string, build: Option<seq<string>>): Option<Version> {
    var dash := SplitOnce(withoutBuild, '-');
    if dash.Some? && (dash.value.0 == "" || dash.value.1 == "" || !ValidIdentifiers(dash.value.1, false)) then None
    else
      var core := if dash.Some? then dash.value.0 else withoutBuild;
      if !ValidCore(core) then None
      else
        var pieces := Split(core, '.');
        Some(Version(pieces[0], pieces[1], pieces[2], if dash.Some? then Some(Split(dash.value.1, '.')) else None,
          build))
  }

  /** The whole check accepts exactly the SemVer texts of at most 128 bytes. */
  method ValidatePackageVersion(version: string) returns (ok: bool)
    ensures ok <==> |version| <= 128 && IsSemVer(version)
  {
    TakeIsGrammar(version);
    if IsSemVer(version) {
      VersionIsOrdinary(version);
    }
    if IsPlaceholder(version) {
      return false;
    }
    if |version| > 128 || !IsAscii(version) {
      return false;
    }
    var plus := SplitOnce(version, '+');
    var withoutBuild := version;
    if plus.Some? {
      if plus.value.0 == "" || plus.value.1 == "" || '+' in plus.value.1 {
        return false;
      }
      var valid := CheckIdentifiers(plus.value.1, true);
      if !valid {
        return false;
      }
      withoutBuild := plus.value.0;
    }
    var dash := SplitOnce(withoutBuild, '-');
    var core := withoutBuild;
    if dash.Some? {
      if dash.value.0 == "" || dash.value.1 == "" {
        return false;
      }
      var valid := CheckIdentifiers(dash.value.1, false);
      if !valid {
        return false;
      }
      core := dash.value.0;
    }
    ok := CheckCore(core);
  }

  // ----------------------------------------------------------- parser and grammar

  /** The parser accepts exactly the texts of the grammar. */
  lemma TakeIsGrammar(s: string)
    ensures Take(s).Some? <==> IsSemVer(s)
  {
    if Take(s).Some? {
      TakeSound(s);
    }
    if v :| IsVersion(v) && Print(v) == s {
      TakePrinted(v);
    }
  }

  /** An accepted text prints back. */
  lemma TakeSound(s: string)
    requires Take(s).Some?
    ensures IsVersion(Take(s).value) && Print(Take(s).value) == s
  {
    var plus := SplitOnce(s, '+');
    if plus.Some? {
      JoinSplit(plus.value.1, '.');
      TakeRestSound(plus.value.0, Some(Split(plus.value.1, '.')));
    } else {
      TakeRestSound(s, None);
    }
  }

  lemma TakeRestSound(withoutBuild: string, build: Option<seq<string>>)
    requires TakeRest(withoutBuild, build).Some?
    requires build.Some? ==> build.value != [] && forall i :: 0 <= i < |build.value| ==>
                                                    IsBuildIdentifier(build.value[i])
    ensures var v := TakeRest(withoutBuild, build).value;
            IsVersion(v) && v.build == build && PrintPre(v) == withoutBuild
  {
    var dash := SplitOnce(withoutBuild, '-');
    var core := if dash.Some? then dash.value.0 else withoutBuild;
    if dash.Some? {
      JoinSplit(dash.value.1, '.');
    }
    JoinSplit(core, '.');
    var pieces := Split(core, '.');
    assert pieces == [pieces[0], pieces[1], pieces[2]];
  }

  lemma IdentifiersHaveNone(pieces: seq<string>, c: char)
    requires pieces != [] && (forall i :: 0 <= i < |pieces| ==> IsBuildIdentifier(pieces[i]))
    requires !IsIdentChar(c) && c != '.'
    ensures c !in Join(pieces, '.') && Join(pieces, '.') != ""
    ensures Split(Join(pieces, '.'), '.') == pieces
  {
    JoinHas(pieces, '.', c);
    SplitJoin(pieces, '.');
    if |pieces| == 1 {
      assert pieces[0] != "";
    }
  }

  /** A core text holds digits and dots only, and splits into its three numbers. */
  lemma CoreSplits(v: Version)
    requires IsVersion(v)
    ensures '-' !in PrintCore(v) && '+' !in PrintCore(v) && PrintCore(v) != ""
            && Split(PrintCore(v), '.') == [v.major, v.minor, v.patch]
  {
    var pieces := [v.major, v.minor, v.patch];
    JoinHas(pieces, '.', '-');
    JoinHas(pieces, '.', '+');
    SplitJoin(pieces, '.');
  }

  /** A printed version is taken apart again, into itself. */
  lemma TakePrinted(v: Version)
    requires IsVersion(v)
    ensures Take(Print(v)) == Some(v)
  {
    hide Join, Split, IsBuildIdentifier, IsNumeric;
    CoreSplits(v);
    PrePrinted(v);
    if v.build.Some? {
      var build := v.build.value;
      IdentifiersHaveNone(build, '+');
      SplitOnceOf(PrintPre(v), Join(build, '.'), '+');
    }
  }

  lemma PrePrinted(v: Version)
    requires IsVersion(v)
    ensures '+' !in PrintPre(v) && PrintPre(v) != "" && TakeRest(PrintPre(v), v.build) == Some(v)
  {
    hide Join, Split;
    CoreSplits(v);
    if v.pre.Some? {
      IdentifiersHaveNone(v.pre.value, '+');
      SplitOnceOf(PrintCore(v), Join(v.pre.value, '.'), '-');
    }
  }

  /** A version is no placeholder and all ASCII: it starts and ends in plain characters. */
  lemma VersionIsOrdinary(s: string)
    requires IsSemVer(s)
    ensures !IsPlaceholder(s) && IsAscii(s)
  {
    var v :| IsVersion(v) && Print(v) == s;
    PrintedChars(v);
    hide Print, IsVersion;
    PlainIsNoPlaceholder(s);
  }

  predicate IsVersionChar(c: char) { IsIdentChar(c) || c == '.' || c == '+' }

  lemma PrintedChars(v: Version)
    requires IsVersion(v)
    ensures var s := Print(v);
            s != "" && IsDigit(s[0]) && forall i :: 0 <= i < |s| ==> IsVersionChar(s[i])
  {
    JoinChars([v.major, v.minor, v.patch]);
    assert PrintCore(v)[0] == v.major[0];
    if v.pre.Some? {
      JoinChars(v.pre.value);
    }
    if v.build.Some? {
      JoinChars(v.build.value);
    }
  }

  lemma {:induction false} JoinChars(pieces: seq<string>)
    requires pieces != [] && forall i :: 0 <= i < |pieces| ==> AllIdent(pieces[i])
    ensures forall i :: 0 <= i < |Join(pieces, '.')| ==> IsVersionChar(Join(pieces, '.')[i])
  {
    if |pieces| > 1 {
      JoinChars(pieces[1..]);
    }
  }
}
