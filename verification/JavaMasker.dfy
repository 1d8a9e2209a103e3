/** Blanking comments and literals in Java source, against a character-by-character lexer. */
module JavaMasker {
  import opened Wrappers
  import opened Text
  import opened SourceMask

  // ----------------------------------------------------------- the reference lexer

  /** Where the lexer is between two characters. */
  datatype Mode =
    | Code
    | LineComment
    | BlockOpen
    | BlockComment
    | BlockClose
    | Literal(quote: char)
    | Escape(quote: char)

  datatype Lexed = Lexed(kind: Kind, mode: Mode)

  predicate IsQuote(c: char) { c == '"' || c == '\'' }

  /** One character of the language: its kind, and the mode behind it. */
  ghost function Next(s: string, i: nat, mode: Mode): Lexed
    requires i < |s|
  {
    match mode
    case Code =>
      if At(s, i, '/', '/') then Lexed(Hidden, LineComment)
      else if At(s, i, '/', '*') then Lexed(Hidden, BlockOpen)
      else if IsQuote(s[i]) then Lexed(Delimiter, Literal(s[i]))
      else Lexed(Plain, Code)
    case LineComment => if s[i] == '\n' then Lexed(Plain, Code) else Lexed(Hidden, LineComment)
    case BlockOpen => Lexed(Hidden, BlockComment)
    case BlockComment => Lexed(Hidden, if At(s, i, '*', '/') then BlockClose else BlockComment)
    case BlockClose => Lexed(Hidden, Code)
    case Literal(quote) =>
      if s[i] == '\\' then Lexed(Hidden, Escape(quote))
      else if s[i] == quote then Lexed(Delimiter, Code)
      else Lexed(Hidden, mode)
    case Escape(quote) => Lexed(Hidden, Literal(quote))
  }

  /** The kinds of all characters from `i` on. */
  ghost function Kinds(s: string, i: nat, mode: Mode): (r: seq<Kind>)
    requires i <= |s|
    ensures |r| == |s| - i
    decreases |s| - i
  {
    if i == |s| then []
    else [Next(s, i, mode).kind] + Kinds(s, i + 1, Next(s, i, mode).mode)
  }

  /** The specification of the Java masker: hidden characters go blank, all others stay. */
  ghost function JavaMask(s: string): (r: string)
    ensures |r| == |s|
  {
    Applied(s, Kinds(s, 0, Code))
  }

  /** Masking a masked text changes nothing: comments have become blanks and a literal's
      interior can no longer hold a quote or an escape. */
  lemma JavaMaskIdempotent(s: string)
    ensures JavaMask(JavaMask(s)) == JavaMask(s) && IsMaskOf(JavaMask(s), s)
  {
    var kinds := Kinds(s, 0, Code);
    assert kinds[0..] == kinds;
    Relex(s, JavaMask(s), kinds, 0, Code);
  }

  /** The mode the second lexing is in where the first one was in `mode`. */
  ghost function Relexed(mode: Mode): Mode {
    if mode.Literal? || mode.Escape? then Literal(mode.quote) else Code
  }

  lemma {:induction false} Relex(s: string, m: string, kinds: seq<Kind>, i: nat, mode: Mode)
    requires |kinds| == |s| && m == Applied(s, kinds) && i <= |s|
    requires kinds[i..] == Kinds(s, i, mode) && (mode.Literal? || mode.Escape? ==> IsQuote(mode.quote))
    ensures forall j :: i <= j < |m| ==> MaskedChar(m[j], Kinds(m, i, Relexed(mode))[j - i]) == m[j]
    decreases |s| - i
  {
    if i < |s| {
      var next := Next(s, i, mode);
      assert kinds[i] == kinds[i..][0] == next.kind;
      assert kinds[i + 1..] == kinds[i..][1..] == Kinds(s, i + 1, next.mode);
      Relex(s, m, kinds, i + 1, next.mode);
      assert Next(m, i, Relexed(mode)).mode == Relexed(next.mode);
      assert MaskedChar(m[i], Next(m, i, Relexed(mode)).kind) == m[i];
      var again := Kinds(m, i, Relexed(mode));
      forall j | i <= j < |m| ensures MaskedChar(m[j], again[j - i]) == m[j] {
        if j > i {
          assert again[j - i] == again[1..][j - (i + 1)];
          assert again[1..] == Kinds(m, i + 1, Relexed(next.mode));
        }
      }
    }
  }

  /** A comma, bracket or letter left in the mask is program text. */
  lemma {:induction false} MaskedTextIsCode(s: string, i: nat)
    requires i < |s| && JavaMask(s)[i] != Blank(JavaMask(s)[i]) && !IsQuote(JavaMask(s)[i])
    ensures Kinds(s, 0, Code)[i] == Plain && JavaMask(s)[i] == s[i]
  {
    if Kinds(s, 0, Code)[i] == Delimiter {
      DelimiterIsQuote(s, 0, Code, i);
    }
  }

  lemma {:induction false} DelimiterIsQuote(s: string, i: nat, mode: Mode, j: nat)
    requires i <= j < |s| && Kinds(s, i, mode)[j - i] == Delimiter
    requires mode.Literal? || mode.Escape? ==> IsQuote(mode.quote)
    ensures IsQuote(s[j])
    decreases |s| - i
  {
    if i < j {
      DelimiterIsQuote(s, i + 1, Next(s, i, mode).mode, j);
    }
  }

  // ------------------------------------------------------------------- the masker

  /** From `i` in `mode` the lexer stays hidden up to `end`, where it is in `mode'`. */
  ghost predicate HiddenRun(s: string, i: nat, mode: Mode, end: nat, mode': Mode)
    requires i <= end <= |s|
  {
    Kinds(s, i, mode) == AllHidden(end - i) + Kinds(s, end, mode')
  }

  ghost function AllHidden(n: nat): seq<Kind> { seq(n, _ => Hidden) }

  lemma ExtendRun(s: string, i: nat, mode: Mode, end: nat, mode': Mode)
    requires i < end <= |s| && Next(s, i, mode).kind == Hidden
    requires HiddenRun(s, i + 1, Next(s, i, mode).mode, end, mode')
    ensures HiddenRun(s, i, mode, end, mode')
  {
    assert [Hidden] + AllHidden(end - (i + 1)) == AllHidden(end - i);
  }

  lemma {:induction false} LineRun(s: string, i: nat, end: nat)
    requires i <= end <= |s| && (end < |s| ==> s[end] == '\n') && forall j :: i <= j < end ==> s[j] != '\n'
    ensures HiddenRun(s, i, LineComment, end, LineComment)
    decreases end - i
  {
    if i < end {
      LineRun(s, i + 1, end);
      ExtendRun(s, i, LineComment, end, LineComment);
    }
  }

  /** At the newline, or at the end of the text, a line comment is over. */
  lemma LineCommentOver(s: string, end: nat)
    requires end <= |s| && (end < |s| ==> s[end] == '\n')
    ensures Kinds(s, end, LineComment) == Kinds(s, end, Code)
  {
  }

  lemma {:induction false} BlockRun(s: string, i: nat, close: nat)
    requires i <= close && At(s, close, '*', '/') && forall j :: i <= j < close ==> !At(s, j, '*', '/')
    ensures HiddenRun(s, i, BlockComment, close + 2, Code)
    decreases close - i
  {
    if i < close {
      BlockRun(s, i + 1, close);
    } else {
      ExtendRun(s, close + 1, BlockClose, close + 2, Code);
    }
    ExtendRun(s, i, BlockComment, close + 2, Code);
  }

  lemma {:induction false} OpenBlockRun(s: string, i: nat)
    requires i <= |s| && forall j :: i <= j ==> !At(s, j, '*', '/')
    ensures HiddenRun(s, i, BlockComment, |s|, BlockComment)
    decreases |s| - i
  {
    if i < |s| {
      OpenBlockRun(s, i + 1);
      ExtendRun(s, i, BlockComment, |s|, BlockComment);
    }
  }

  /** The masker has done everything before `i`, and the lexer is in `mode` there. */
  ghost predicate Reached(s: string, kinds: seq<Kind>, out: string, i: nat, mode: Mode) {
    |kinds| == |s| && i <= |s| && kinds[i..] == Kinds(s, i, mode) && MaskedUpTo(out, Applied(s, kinds), s, i)
  }

  /** Blanking a hidden run takes the masker to its end. */
  lemma BlankedReached(s: string, kinds: seq<Kind>, out: string, i: nat, end: nat, mode: Mode,
      mode': Mode)
    requires i <= end <= |s| && Reached(s, kinds, out, i, mode) && HiddenRun(s, i, mode, end, mode')
    ensures Reached(s, kinds, BlankedRange(out, i, end), end, mode')
  {
    hide Kinds;
    assert kinds[end..] == kinds[i..][end - i..];
    forall j | i <= j < end ensures kinds[j] == Hidden {
      assert kinds[j] == kinds[i..][j - i];
    }
  }

  method BlankRun(s: string, out: string, i: nat, end: nat, ghost kinds: seq<Kind>, ghost mode: Mode, ghost mode': Mode)
    returns (out': string)
    requires i <= end <= |s| && Reached(s, kinds, out, i, mode) && HiddenRun(s, i, mode, end, mode')
    ensures Reached(s, kinds, out', end, mode')
  {
    hide Kinds;
    BlankedReached(s, kinds, out, i, end, mode, mode');
    out' := BlankRange(out, i, end);
  }

  /** Stepping over a character that stays. */
  lemma KeepOne(s: string, kinds: seq<Kind>, out: string, i: nat, mode: Mode)
    requires Reached(s, kinds, out, i, mode) && i < |s| && Next(s, i, mode).kind != Hidden
    ensures Reached(s, kinds, out, i + 1, Next(s, i, mode).mode)
  {
    assert kinds[i + 1..] == kinds[i..][1..] && kinds[i] == kinds[i..][0];
  }

  lemma HiddenOne(s: string, i: nat, mode: Mode)
    requires i < |s| && Next(s, i, mode).kind == Hidden
    ensures HiddenRun(s, i, mode, i + 1, Next(s, i, mode).mode)
  {
    assert AllHidden(0) + Kinds(s, i + 1, Next(s, i, mode).mode) == Kinds(s, i + 1, Next(s, i, mode).mode);
    ExtendRun(s, i, mode, i + 1, Next(s, i, mode).mode);
  }

  /** At the end of the text every mode looks the same. */
  lemma AtEnd(s: string, kinds: seq<Kind>, out: string, mode: Mode, mode': Mode)
    requires Reached(s, kinds, out, |s|, mode)
    ensures Reached(s, kinds, out, |s|, mode')
  {
  }

  /** The lexer hides a literal's interior. */
  lemma {:induction false} LiteralRun(s: string, i: nat, quote: char)
    requires i <= |s|
    ensures HiddenRun(s, i, Literal(quote), InteriorEnd(s, i, quote), Literal(quote))
    decreases |s| - i
  {
    var end := InteriorEnd(s, i, quote);
    if i == |s| || (s[i] == quote && s[i] != '\\') {
      assert AllHidden(0) + Kinds(s, i, Literal(quote)) == Kinds(s, i, Literal(quote));
    } else if s[i] != '\\' {
      LiteralRun(s, i + 1, quote);
      ExtendRun(s, i, Literal(quote), end, Literal(quote));
    } else if i + 1 == |s| {
      HiddenOne(s, i, Literal(quote));
    } else {
      LiteralRun(s, i + 2, quote);
      ExtendRun(s, i + 1, Escape(quote), end, Literal(quote));
      ExtendRun(s, i, Literal(quote), end, Literal(quote));
    }
  }

  method MaskLiteral(source: string, out: string, index: nat, ghost kinds: seq<Kind>) returns (out': string, end: nat)
    requires index < |source| && IsQuote(source[index]) && Reached(source, kinds, out, index, Code)
    ensures index < end <= |source| && Reached(source, kinds, out', end, Code)
  {
    hide Kinds;
    ghost var quote := source[index];
    KeepOne(source, kinds, out, index, Code);
    LiteralRun(source, index + 1, quote);
    ghost var interior := InteriorEnd(source, index + 1, quote);
    out', end := MaskQuoted(source, out, index, source[index]);
    BlankedReached(source, kinds, out, index + 1, interior, Literal(quote), Literal(quote));
    if interior < |source| {
      KeepOne(source, kinds, out', interior, Literal(quote));
    } else {
      AtEnd(source, kinds, out', Literal(quote), Code);
    }
  }

  /** Blank a `//` comment up to its newline. */
  method MaskLineComment(source: string, out: string, index: nat, ghost kinds: seq<Kind>)
    returns (out': string, end: nat)
    requires At(source, index, '/', '/') && Reached(source, kinds, out, index, Code)
    ensures index < end <= |source| && Reached(source, kinds, out', end, Code)
  {
    end := Find(source, '\n', index);
    LineRun(source, index + 1, end);
    ExtendRun(source, index, Code, end, LineComment);
    out' := BlankRun(source, out, index, end, kinds, Code, LineComment);
    LineCommentOver(source, end);
  }

  /** Blank a block comment up to its terminator, or to the end of the text. */
  method MaskBlockComment(source: string, out: string, index: nat, ghost kinds: seq<Kind>)
    returns (out': string, end: nat)
    requires At(source, index, '/', '*') && Reached(source, kinds, out, index, Code)
    ensures index < end <= |source| && Reached(source, kinds, out', end, Code)
  {
    var close := FindPair(source, '*', '/', index + 2);
    if close.Some? {
      end := close.value + 2;
      BlockRun(source, index + 2, close.value);
      ExtendRun(source, index + 1, BlockOpen, end, Code);
      ExtendRun(source, index, Code, end, Code);
      out' := BlankRun(source, out, index, end, kinds, Code, Code);
    } else {
      end := |source|;
      OpenBlockRun(source, index + 2);
      ExtendRun(source, index + 1, BlockOpen, end, BlockComment);
      ExtendRun(source, index, Code, end, BlockComment);
      out' := BlankRun(source, out, index, end, kinds, Code, BlockComment);
      AtEnd(source, kinds, out', BlockComment, Code);
    }
  }

  /** The Java masker computes exactly what the reference lexer calls for. */
  method MaskJava(source: string) returns (out: string)
    ensures out == JavaMask(source)
  {
    hide Kinds, Reached;
    out := source;
    var index := 0;
    ghost var kinds := Kinds(source, 0, Code);
    StartMask(source);
    while index < |source|
      invariant index <= |source| && Reached(source, kinds, out, index, Code)
      decreases |source| - index
    {
      if At(source, index, '/', '/') {
        out, index := MaskLineComment(source, out, index, kinds);
      } else if At(source, index, '/', '*') {
        out, index := MaskBlockComment(source, out, index, kinds);
      } else if IsQuote(source[index]) {
        out, index := MaskLiteral(source, out, index, kinds);
      } else {
        KeepOne(source, kinds, out, index, Code);
        index := index + 1;
      }
    }
    EndMask(source, kinds, out);
  }

  lemma StartMask(s: string)
    ensures Reached(s, Kinds(s, 0, Code), s, 0, Code)
  {
    assert Kinds(s, 0, Code)[0..] == Kinds(s, 0, Code);
  }

  lemma EndMask(s: string, kinds: seq<Kind>, out: string)
    requires Reached(s, kinds, out, |s|, Code)
    ensures out == Applied(s, kinds)
  {
  }
}
