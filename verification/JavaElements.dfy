/** Java source put together from comments, literals and other characters, and what the masker
    makes of each. */
module JavaElements {
  import opened SourceMask
  import opened JavaMasker

  /** A character of program text, a comment up to and with its newline, a block comment, or a
      string or character literal. */
  datatype Element = Text(c: char) | Line(body: string) | Block(body: string) | Quoted(quote: char, body: string)

  function Written(e: Element): (r: string)
    ensures r != ""
  {
    match e
    case Text(c) => [c]
    case Line(body) => "//" + body + "\n"
    case Block(body) => "/*" + body + "*/"
    case Quoted(quote, body) => [quote] + body + [quote]
  }

  /** Spaces, with the newlines where they were. */
  function Spaced(s: string): (r: string)
    ensures |r| == |s|
  {
    seq(|s|, i requires 0 <= i < |s| => if s[i] == '\n' then '\n' else ' ')
  }

  /** What is left of an element: comments vanish, and of literals the quotes remain. */
  function Shown(e: Element): (r: string)
    ensures |r| == |Written(e)|
  {
    match e
    case Text(c) => [c]
    case Line(body) => "  " + Spaced(body) + "\n"
    case Block(body) => "  " + Spaced(body) + "  "
    case Quoted(quote, body) => [quote] + Spaced(body) + [quote]
  }

  /** The interior of a literal: its own quote appears behind a backslash only, and no backslash
      is left over at the end. */
  predicate IsInterior(body: string, quote: char)
    decreases |body|
  {
    if body == "" then true
    else if body[0] == '\\' then |body| >= 2 && IsInterior(body[2..], quote)
    else body[0] != quote && IsInterior(body[1..], quote)
  }

  /** The element is what its form says, in front of this text. */
  predicate Fits(e: Element, rest: string) {
    match e
    case Text(c) => c != '"' && c != '\'' && (c == '/' ==> rest == "" || (rest[0] != '/' && rest[0] != '*'))
    case Line(body) => '\n' !in body
    case Block(body) => forall j :: 0 <= j < |body| - 1 ==> !(body[j] == '*' && body[j + 1] == '/')
    case Quoted(quote, body) => (quote == '"' || quote == '\'') && IsInterior(body, quote)
  }

  // ------------------------------------------------------------------- one element

  /** The lexer does not look back. */
  lemma {:induction false} Shifted(front: string, s: string, i: nat, mode: Mode)
    requires i <= |s|
    ensures Kinds(front + s, |front| + i, mode) == Kinds(s, i, mode)
    decreases |s| - i
  {
    if i < |s| {
      assert (front + s)[|front| + i] == s[i];
      assert i + 1 < |s| ==> (front + s)[|front| + i + 1] == s[i + 1];
      assert Next(front + s, |front| + i, mode) == Next(s, i, mode);
      Shifted(front, s, i + 1, Next(s, i, mode).mode);
    }
  }

  /** The kinds of an element's characters. */
  ghost function KindsOf(e: Element): (r: seq<Kind>)
    ensures |r| == |Written(e)|
  {
    match e
    case Text(_) => [Plain]
    case Line(body) => AllHidden(2 + |body|) + [Plain]
    case Block(body) => AllHidden(|body| + 4)
    case Quoted(_, body) => [Delimiter] + AllHidden(|body|) + [Delimiter]
  }

  lemma ElementKinds(e: Element, rest: string)
    requires Fits(e, rest)
    ensures Kinds(Written(e) + rest, 0, Code) == KindsOf(e) + Kinds(rest, 0, Code)
  {
    hide Kinds, AllHidden, InteriorEnd, IsInterior;
    var s := Written(e) + rest;
    Shifted(Written(e), rest, 0, Code);
    match e
    case Text(_) => TextKinds(s);
    case Line(body) =>
      forall j | 2 <= j < |body| + 2 ensures s[j] == body[j - 2] {}
      LineKinds(s, |body| + 2);
    case Block(body) =>
      forall j | 2 <= j < |body| + 2 ensures s[j] == body[j - 2] {}
      NoTerminator(s, body);
      BlockKinds(s, |body| + 2);
    case Quoted(quote, body) =>
      var end := |body| + 1;
      assert s[0] == quote && s[end] == quote && s[1..end] == body;
      InteriorKinds(s, 1, end, quote);
      QuotedKinds(s, end, quote);
  }

  lemma TextKinds(s: string)
    requires s != "" && !IsQuote(s[0]) && !At(s, 0, '/', '/') && !At(s, 0, '/', '*')
    ensures Kinds(s, 0, Code) == [Plain] + Kinds(s, 1, Code)
  {
  }

  lemma LineKinds(s: string, end: nat)
    requires 2 <= end < |s| && s[0] == '/' && s[1] == '/' && s[end] == '\n' && forall j :: 2 <= j < end ==> s[j] != '\n'
    ensures Kinds(s, 0, Code) == AllHidden(end) + [Plain] + Kinds(s, end + 1, Code)
  {
    LineRun(s, 1, end);
    ExtendRun(s, 0, Code, end, LineComment);
    LineCommentOver(s, end);
    NewlineKind(s, end);
    hide Kinds, Next;
    assert Kinds(s, 0, Code) == AllHidden(end) + ([Plain] + Kinds(s, end + 1, Code));
  }

  lemma NewlineKind(s: string, i: nat)
    requires i < |s| && s[i] == '\n'
    ensures Kinds(s, i, Code) == [Plain] + Kinds(s, i + 1, Code)
  {
  }

  lemma NoTerminator(s: string, body: string)
    requires Fits(Block(body), "") && |body| + 4 <= |s| && s[|body| + 2] == '*'
    requires forall j :: 2 <= j < |body| + 2 ==> s[j] == body[j - 2]
    ensures forall j :: 2 <= j < |body| + 2 ==> !At(s, j, '*', '/')
  {
  }

  lemma BlockKinds(s: string, close: nat)
    requires 2 <= close && close + 2 <= |s| && s[0] == '/' && s[1] == '*' && At(s, close, '*', '/')
    requires forall j :: 2 <= j < close ==> !At(s, j, '*', '/')
    ensures Kinds(s, 0, Code) == AllHidden(close + 2) + Kinds(s, close + 2, Code)
  {
    BlockRun(s, 2, close);
    ExtendRun(s, 1, BlockOpen, close + 2, Code);
    ExtendRun(s, 0, Code, close + 2, Code);
  }

  lemma {:induction false} InteriorKinds(s: string, i: nat, end: nat, quote: char)
    requires i <= end < |s| && s[end] == quote && quote != '\\' && IsInterior(s[i..end], quote)
    ensures InteriorEnd(s, i, quote) == end
    decreases end - i
  {
    if i < end {
      var body := s[i..end];
      if body[0] == '\\' {
        assert body[2..] == s[i + 2..end];
        InteriorKinds(s, i + 2, end, quote);
      } else {
        assert body[1..] == s[i + 1..end];
        InteriorKinds(s, i + 1, end, quote);
      }
    }
  }

  lemma QuotedKinds(s: string, end: nat, quote: char)
    requires 1 <= end < |s| && IsQuote(quote) && s[0] == quote && s[end] == quote && InteriorEnd(s, 1, quote) == end
    ensures Kinds(s, 0, Code) == [Delimiter] + AllHidden(end - 1) + [Delimiter] + Kinds(s, end + 1, Code)
  {
    hide Kinds, Next, InteriorEnd, AllHidden;
    LiteralRun(s, 1, quote);
    QuoteKind(s, quote, end);
    QuotedShape(AllHidden(end - 1), Kinds(s, end + 1, Code));
  }

  lemma QuotedShape(interior: seq<Kind>, tail: seq<Kind>)
    ensures [Delimiter] + (interior + ([Delimiter] + tail)) == [Delimiter] + interior + [Delimiter] + tail
  {
  }

  lemma QuoteKind(s: string, quote: char, end: nat)
    requires 1 <= end < |s| && IsQuote(quote) && s[0] == quote && s[end] == quote
    ensures Kinds(s, 0, Code) == [Delimiter] + Kinds(s, 1, Literal(quote))
    ensures Kinds(s, end, Literal(quote)) == [Delimiter] + Kinds(s, end + 1, Code)
  {
  }

  /** An element is masked by itself, whatever follows. */
  lemma ElementMasked(e: Element, rest: string)
    requires Fits(e, rest)
    ensures JavaMask(Written(e) + rest) == Shown(e) + JavaMask(rest)
  {
    hide Kinds, Fits, KindsOf, Written, Shown;
    ElementKinds(e, rest);
    var s, n := Written(e) + rest, |Written(e)|;
    forall j | 0 <= j < |s| ensures JavaMask(s)[j] == (Shown(e) + JavaMask(rest))[j] {
      if j < n {
        ShownAt(e, j);
      }
    }
  }

  lemma ShownAt(e: Element, j: nat)
    requires j < |Written(e)|
    ensures Shown(e)[j] == MaskedChar(Written(e)[j], KindsOf(e)[j])
  {
  }

  // --------------------------------------------------------------------- all of them

  function WrittenAll(es: seq<Element>): string {
    if es == [] then "" else Written(es[0]) + WrittenAll(es[1..])
  }

  function ShownAll(es: seq<Element>): string {
    if es == [] then "" else Shown(es[0]) + ShownAll(es[1..])
  }

  predicate AllFit(es: seq<Element>) {
    es != [] ==> Fits(es[0], WrittenAll(es[1..])) && AllFit(es[1..])
  }

  /** The mask of any text that is written as comments, literals and other characters. */
  lemma {:induction false} ElementsMasked(es: seq<Element>)
    requires AllFit(es)
    ensures JavaMask(WrittenAll(es)) == ShownAll(es)
  {
    if es != [] {
      hide JavaMask, Written, Shown, Fits;
      ElementMasked(es[0], WrittenAll(es[1..]));
      ElementsMasked(es[1..]);
    }
  }
}
