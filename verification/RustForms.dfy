/** The texts that the Rust masker takes for character literals and for the delimiters of raw
    strings, written out. */
module RustForms {
  import opened Wrappers
  import opened SourceMask
  import opened RustMasker
  import opened RustRemask

  /** ASCII digits, and the letters a to f of both cases. */
  predicate IsHexDigit(c: int) { 48 <= c < 58 || 65 <= c < 71 || 97 <= c < 103 }

  /** `'c'`, with neither a quote nor a backslash between the quotes. */
  predicate IsPlainForm(t: string) { |t| == 3 && t[0] == '\'' && t[1] !in {'\'', '\\'} && t[2] == '\'' }

  /** A backslash and one character that is no newline. */
  predicate IsEscapeForm(t: string) {
    |t| == 4 && t[0] == '\'' && t[1] == '\\' && t[2] != '\n' && t[3] == '\''
  }

  /** A backslash, an `x` and two hexadecimal digits. */
  predicate IsByteForm(t: string) {
    && |t| == 6 && t[0] == '\'' && t[1] == '\\' && t[2] == 'x'
    && IsHexDigit(t[3] as int) && IsHexDigit(t[4] as int) && t[5] == '\''
  }

  /** A backslash, a `u` and one to six hexadecimal digits in braces. */
  predicate IsUnicodeForm(t: string) {
    && 7 <= |t| <= 12 && t[0] == '\'' && t[1] == '\\' && t[2] == 'u' && t[3] == '{'
    && (forall k :: 4 <= k < |t| - 2 ==> IsHexDigit(t[k] as int)) && t[|t| - 2] == '}' && t[|t| - 1] == '\''
  }

  predicate IsCharLiteral(t: string) { IsPlainForm(t) || IsEscapeForm(t) || IsByteForm(t) || IsUnicodeForm(t) }

  lemma HexDigits(c: char)
    ensures IsHex(c) <==> IsHexDigit(c as int)
  {
  }

  /** Identifiers are made of ASCII letters, digits and underscores. */
  lemma IdentLetters(c: char)
    ensures IsIdent(c) <==> 48 <= c as int < 58 || 65 <= c as int < 91 || 97 <= c as int < 123 || c as int == 95
  {
  }

  /** A quote starts a character literal exactly when a text of one of the four forms stands
      there, and the literal ends where that text ends. */
  lemma CharForms(s: string, i: nat, end: nat)
    requires i < |s| && s[i] == '\''
    ensures RustCharEnd(s, i) == Some(end) <==> i < end <= |s| && IsCharLiteral(s[i..end])
  {
    if RustCharEnd(s, i) == Some(end) {
      FormFound(s, i);
    }
    if i < end <= |s| && IsCharLiteral(s[i..end]) {
      FormRead(s, i, end);
    }
  }

  lemma FormFound(s: string, i: nat)
    requires i < |s| && s[i] == '\'' && RustCharEnd(s, i).Some?
    ensures IsCharLiteral(s[i..RustCharEnd(s, i).value])
  {
    if At(s, i, '\'', '\\') && i + 4 <= |s| {
      RunLengthAll(s, IsHex, i + 4);
    }
  }

  lemma FormRead(s: string, i: nat, end: nat)
    requires i < end <= |s| && s[i] == '\'' && IsCharLiteral(s[i..end])
    ensures RustCharEnd(s, i) == Some(end)
  {
    var t := s[i..end];
    assert forall k :: 0 <= k < |t| ==> t[k] == s[i + k];
    if IsUnicodeForm(t) {
      forall k | i + 4 <= k < end - 2 ensures IsHex(s[k]) {
        assert s[k] == t[k - i];
      }
      RunLengthIs(s, IsHex, i + 4, |t| - 6);
    }
  }

  /** The text that opens a raw string with this many hashes. */
  function RawOpening(byte: bool, hashes: nat): string {
    (if byte then "br" else "r") + seq(hashes, _ => '#') + "\""
  }

  /** A raw string opens exactly where such a text stands. */
  lemma RawForms(s: string, i: nat, hashes: nat, end: nat)
    requires i < |s|
    ensures RustRawOpener(s, i) == Some((hashes, end))
       <==> i < end <= |s| && (s[i..end] == RawOpening(false, hashes) || s[i..end] == RawOpening(true, hashes))
  {
    if RustRawOpener(s, i) == Some((hashes, end)) {
      var at := if s[i] == 'b' then i + 1 else i;
      RunLengthAll(s, c => c == '#', at + 1);
      assert s[i..end] == RawOpening(s[i] == 'b', hashes);
    }
    if byte: bool :| i < end <= |s| && s[i..end] == RawOpening(byte, hashes) {
      RawRead(s, i, byte, hashes, end);
    }
  }

  lemma RawRead(s: string, i: nat, byte: bool, hashes: nat, end: nat)
    requires i < end <= |s| && s[i..end] == RawOpening(byte, hashes)
    ensures RustRawOpener(s, i) == Some((hashes, end))
  {
    var t := s[i..end];
    var at := if byte then i + 1 else i;
    assert forall k :: 0 <= k < |t| ==> t[k] == s[i + k];
    assert s[i] == if byte then 'b' else 'r';
    assert s[at] == t[at - i] == 'r' && s[end - 1] == t[|t| - 1] == '"';
    forall k | at + 1 <= k < end - 1 ensures s[k] == '#' {
      assert s[k] == t[k - i];
    }
    RunLengthIs(s, c => c == '#', at + 1, hashes);
  }

  /** A raw string closes at a quote that its own number of hashes follow. */
  lemma ClosingForm(s: string, i: nat, hashes: nat)
    requires i < |s|
    ensures ClosesRaw(s, i, hashes) <==> i + 1 + hashes <= |s| && s[i..i + 1 + hashes] == "\"" + seq(hashes, _ => '#')
  {
    if i + 1 + hashes <= |s| {
      var t := s[i..i + 1 + hashes];
      assert forall k :: i < k <= i + hashes ==> s[k] == t[k - i];
      if t == "\"" + seq(hashes, _ => '#') {
        assert forall k :: 0 < k <= hashes ==> t[k] == '#';
      }
      if ClosesRaw(s, i, hashes) {
        assert t == "\"" + seq(hashes, _ => '#');
      }
    }
  }
}
