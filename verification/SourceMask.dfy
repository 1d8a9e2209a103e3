/** Blanking ranges of source text with offsets preserved: what both maskers share. */
module SourceMask {
  import opened Wrappers

  /** What a character is: program text, the quote that opens or closes a literal, or part of
      a comment or of a literal's interior. */
  datatype Kind = Plain | Delimiter | Hidden

  /** `s` reads `a` then `b` at position `i`. */
  predicate At(s: string, i: nat, a: char, b: char) {
    i + 1 < |s| && s[i] == a && s[i + 1] == b
  }

  function Blank(c: char): char { if c == '\n' then '\n' else ' ' }

  ghost function MaskedChar(c: char, kind: Kind): char { if kind == Hidden then Blank(c) else c }

  ghost function Applied(s: string, kinds: seq<Kind>): (r: string)
    requires |s| == |kinds|
    ensures |r| == |s|
  {
    seq(|s|, i requires 0 <= i < |s| => MaskedChar(s[i], kinds[i]))
  }

  /** Same length, same newlines, and nothing changes except to a space. */
  ghost predicate IsMaskOf(m: string, s: string) {
    |m| == |s| && forall i :: 0 <= i < |s| ==> m[i] == s[i] || (m[i] == ' ' && s[i] != '\n')
  }

  /** The first position from `i` on where `s` reads `a` then `b`, if there is one. */
  function FindPair(s: string, a: char, b: char, i: nat): (r: Option<nat>)
    ensures r.Some? ==> i <= r.value && At(s, r.value, a, b)
    ensures forall j :: i <= j && (r.Some? ==> j < r.value) ==> !At(s, j, a, b)
    decreases |s| - i
  {
    if i + 1 >= |s| then None
    else if At(s, i, a, b) then Some(i)
    else FindPair(s, a, b, i + 1)
  }

  /** `out` with positions `start` to `end` blanked and newlines left alone. */
  ghost function BlankedRange(out: string, start: nat, end: nat): (r: string)
    requires start <= end <= |out|
    ensures |r| == |out|
  {
    seq(|out|, i requires 0 <= i < |out| => if start <= i < end then Blank(out[i]) else out[i])
  }

  method BlankRange(out: string, start: nat, end: nat) returns (r: string)
    requires start <= end <= |out|
    ensures r == BlankedRange(out, start, end)
  {
    r := out;
    for index := start to end
      invariant r == BlankedRange(out, start, index)
    {
      if r[index] != '\n' {
        r := r[index := ' '];
      }
    }
  }

  /** `out` is `want` up to `i` and still the source from there on. */
  ghost predicate MaskedUpTo(out: string, want: string, source: string, i: nat) {
    |out| == |want| == |source| && i <= |source|
    && (forall j :: 0 <= j < i ==> out[j] == want[j])
    && (forall j :: i <= j < |source| ==> out[j] == source[j])
  }

  /** The offset of the quote that closes a literal whose interior starts at `i`. A backslash
      takes the character behind it along. */
  function ClosingQuote(s: string, i: nat, quote: char): (r: Option<nat>)
    ensures r.Some? ==> i <= r.value < |s| && s[r.value] == quote
    decreases |s| - i
  {
    if i >= |s| then None
    else if s[i] == '\\' then ClosingQuote(s, i + 2, quote)
    else if s[i] == quote then Some(i)
    else ClosingQuote(s, i + 1, quote)
  }

  /** Where the interior of a literal ends: at its closing quote, or with the text. */
  function InteriorEnd(s: string, i: nat, quote: char): (r: nat)
    requires i <= |s|
    ensures i <= r <= |s|
  {
    var close := ClosingQuote(s, i, quote);
    if close.Some? then close.value else |s|
  }

  /** Blank a literal's interior; return the offset past its closing quote, or the length. */
  method MaskQuoted(source: string, out: string, openQuote: nat, quote: char) returns (out': string, end: nat)
    requires openQuote < |source| == |out|
    ensures var interior := InteriorEnd(source, openQuote + 1, quote);
            out' == BlankedRange(out, openQuote + 1, interior)
              && end == (if interior < |source| then interior + 1 else interior)
  {
    out' := out;
    var index := openQuote + 1;
    while index < |source|
      invariant openQuote < index && out' == BlankedRange(out, openQuote + 1, Min(index, |source|))
      invariant ClosingQuote(source, index, quote) == ClosingQuote(source, openQuote + 1, quote)
      decreases |source| - index
    {
      if source[index] == '\\' {
        out' := BlankRange(out', index, Min(index + 2, |source|));
        index := index + 2;
      } else if source[index] == quote {
        return out', index + 1;
      } else {
        out' := BlankRange(out', index, index + 1);
        index := index + 1;
      }
    }
    end := |source|;
  }
}
