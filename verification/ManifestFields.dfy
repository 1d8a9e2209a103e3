/** Checks that every kind of manifest makes of its text fields. */
module ManifestFields {
  import opened Text

  predicate IsSpace(c: char) {
    '\U{9}' <= c <= '\U{d}' || c == ' ' || c == '\U{85}' || c == '\U{a0}' || c == '\U{1680}'
      || '\U{2000}' <= c <= '\U{200a}'
    || c == '\U{2028}' || c == '\U{2029}' || c == '\U{202f}' || c == '\U{205f}' || c == '\U{3000}'
  }

  function Trim(s: string): string
    decreases |s|
  {
    if s != "" && IsSpace(s[0]) then Trim(s[1..])
    else if s != "" && IsSpace(s[|s| - 1]) then Trim(s[..|s| - 1])
    else s
  }

  function Lower(s: string): string {
    seq(|s|, i requires 0 <= i < |s| => if 'A' <= s[i] <= 'Z' then s[i] - 'A' + 'a' else s[i])
  }

  /** The generic rejection of empty, unknown and placeholder values. */
  predicate IsPlaceholder(s: string) {
    var t := Trim(s);
    t == "" || Lower(t) == "unknown" || Lower(t) == "unset" || '<' in t || '>' in t
  }

  /** A text that starts with no `u`, ends in no blank and has no angle bracket is ordinary. */
  lemma PlainIsNoPlaceholder(s: string)
    requires s != "" && !IsSpace(s[0]) && !IsSpace(s[|s| - 1]) && s[0] !in {'u', 'U'} && '<' !in s && '>' !in s
    ensures !IsPlaceholder(s)
  {
    assert Trim(s) == s;
    assert Lower(s)[0] == (if 'A' <= s[0] <= 'Z' then s[0] - 'A' + 'a' else s[0]) != 'u';
  }

  predicate IsLowerHex(c: char) { IsDigit(c) || 'a' <= c <= 'f' }

  /** A SHA-256 digest as manifests write it. */
  predicate IsDigest(s: string) { |s| == 64 && forall i :: 0 <= i < |s| ==> IsLowerHex(s[i]) }

  type Digest = s: string | IsDigest(s) witness seq(64, _ => '0')

  /** The generic rejection never hits a digest. */
  lemma DigestIsNoPlaceholder(s: string)
    requires IsDigest(s)
    ensures !IsPlaceholder(s)
  {
    assert IsLowerHex(s[0]) && IsLowerHex(s[|s| - 1]);
    PlainIsNoPlaceholder(s);
  }

  /** Unicode's white space, by code points. */
  lemma WhiteSpace(c: char)
    ensures IsSpace(c) <==> c as int in {9, 10, 11, 12, 13, 32, 133, 160, 5760, 8192, 8193, 8194, 8195, 8196, 8197,
            8198,
              8199, 8200, 8201, 8202, 8232, 8233, 8239, 8287, 12288}
  {
  }

  /** A digest is 64 digits and letters from a to f. */
  lemma DigestText(s: string)
    ensures IsDigest(s) <==> |s| == 64 && forall i :: 0 <= i < 64 ==> 48 <= s[i] as int < 58 || 97 <= s[i] as int < 103
  {
    assert forall i :: 0 <= i < |s| ==> (IsLowerHex(s[i]) <==> 48 <= s[i] as int < 58 || 97 <= s[i] as int < 103);
  }

  predicate AllSpace(s: string) { forall i :: 0 <= i < |s| ==> IsSpace(s[i]) }

  /** Trimming takes off the white space at both ends. */
  lemma {:induction false} TrimIs(a: string, core: string, b: string)
    requires AllSpace(a) && AllSpace(b) && (core != "" ==> !IsSpace(core[0]) && !IsSpace(core[|core| - 1]))
    ensures Trim(a + core + b) == core
    decreases |a| + |b|
  {
    hide IsSpace;
    var s := a + core + b;
    if a != "" {
      assert s[1..] == a[1..] + core + b;
      TrimIs(a[1..], core, b);
    } else if b != "" && core != "" {
      assert s[..|s| - 1] == a + core + b[..|b| - 1];
      TrimIs(a, core, b[..|b| - 1]);
    } else if b != "" {
      assert s[1..] == a + core + b[1..];
      TrimIs(a, core, b[1..]);
    } else {
      assert s == core;
    }
  }

  lemma {:induction false} TrimKeeps(s: string, c: char)
    requires c in s && !IsSpace(c)
    ensures c in Trim(s)
    decreases |s|
  {
    hide IsSpace;
    if IsSpace(s[0]) {
      TrimKeeps(s[1..], c);
    } else if IsSpace(s[|s| - 1]) {
      TrimKeeps(s[..|s| - 1], c);
    }
  }

  /** Every character is that of one text or of the other. */
  predicate Mixes(s: string, lower: string, upper: string) {
    |s| == |lower| == |upper| && forall i :: 0 <= i < |s| ==> s[i] == lower[i] || s[i] == upper[i]
  }

  /** White space alone, two words in any case with white space around them, and everything that
      holds an angle bracket are placeholders. */
  lemma PlaceholderForms(a: string, core: string, b: string)
    requires AllSpace(a) && AllSpace(b)
    ensures core == "" || Mixes(core, "unknown", "UNKNOWN") || Mixes(core, "unset", "UNSET") ==>
              IsPlaceholder(a + core + b)
    ensures '<' in core || '>' in core ==> IsPlaceholder(a + core + b)
  {
    var s := a + core + b;
    if core == "" || Mixes(core, "unknown", "UNKNOWN") || Mixes(core, "unset", "UNSET") {
      TrimIs(a, core, b);
      if Mixes(core, "unknown", "UNKNOWN") {
        assert Lower(core) == "unknown";
      } else if Mixes(core, "unset", "UNSET") {
        assert Lower(core) == "unset";
      }
    }
    if '<' in core {
      TrimKeeps(s, '<');
    }
    if '>' in core {
      TrimKeeps(s, '>');
    }
  }
}
