/** The package generator's regular expression for versions, and the proof that it accepts the
    same texts as the manifest's hand-written check. */
module VersionExpression {
  import opened Wrappers
  import opened Text
  import opened SemVer

  // --------------------------------------------------------- regular expressions

  /** The character classes of the expression. */
  datatype Class = Single(c: char) | Digit | NonZero | Ident | Letter

  predicate In(k: Class, c: char) {
    match k
    case Single(d) => c == d
    case Digit => '0' <= c <= '9'
    case NonZero => '1' <= c <= '9'
    case Ident => '0' <= c <= '9' || 'A' <= c <= 'Z' || 'a' <= c <= 'z' || c == '-'
    case Letter => 'A' <= c <= 'Z' || 'a' <= c <= 'z' || c == '-'
  }

  datatype Regex =
    | Empty
    | One(k: Class)
    | Cat(first: Regex, second: Regex)
    | Alt(left: Regex, right: Regex)
    | Star(body: Regex)

  /** `r` matches the whole of `s`. A repetition is cut into nonempty rounds. */
  ghost predicate Matches(r: Regex, s: string)
    decreases r, |s|
  {
    match r
    case Empty => s == ""
    case One(k) => |s| == 1 && In(k, s[0])
    case Cat(first, second) => exists i :: 0 <= i <= |s| && Matches(first, s[..i]) && Matches(second, s[i..])
    case Alt(left, right) => Matches(left, s) || Matches(right, s)
    case Star(body) => s == "" || exists i :: 0 < i <= |s| && Matches(body, s[..i]) && Matches(r, s[i..])
  }

  function Plus(r: Regex): Regex { Cat(r, Star(r)) }

  function Opt(r: Regex): Regex { Alt(Empty, r) }

  function Symbol(c: char): Regex { One(Single(c)) }

  /** `x(?:\.x)*` */
  function Dotted(r: Regex): Regex { Cat(r, Star(Cat(Symbol('.'), r))) }

  // --------------------------------------------------------------- the expression

  function Digits(): Regex { One(Digit) }

  function Idents(): Regex { One(Ident) }

  /** `0|[1-9][0-9]*` */
  function Number(): Regex {
    Alt(Symbol('0'), Cat(One(NonZero), Star(Digits())))
  }

  /** `0|[1-9][0-9]*|[0-9A-Za-z-]*[A-Za-z-][0-9A-Za-z-]*` */
  function PreRelease(): Regex {
    Alt(Number(), Cat(Star(Idents()), Cat(One(Letter), Star(Idents()))))
  }

  /** `[0-9A-Za-z-]+` */
  function Build(): Regex { Plus(Idents()) }

  /** The optional pre-release and build parts. */
  function Suffix(): Regex {
    Cat(Opt(Cat(Symbol('-'), Dotted(PreRelease()))), Opt(Cat(Symbol('+'), Dotted(Build()))))
  }

  function PackageVersion(): Regex {
    Cat(Number(), Cat(Symbol('.'), Cat(Number(), Cat(Symbol('.'), Cat(Number(), Suffix())))))
  }

  // ------------------------------------------------------------------- matching

  lemma CatIntro(a: Regex, b: Regex, s: string, t: string)
    requires Matches(a, s) && Matches(b, t)
    ensures Matches(Cat(a, b), s + t)
  {
    assert (s + t)[..|s|] == s && (s + t)[|s|..] == t;
  }

  lemma CatElim(a: Regex, b: Regex, s: string) returns (u: string, v: string)
    requires Matches(Cat(a, b), s)
    ensures s == u + v && Matches(a, u) && Matches(b, v)
  {
    var i :| 0 <= i <= |s| && Matches(a, s[..i]) && Matches(b, s[i..]);
    u, v := s[..i], s[i..];
  }

  lemma SymbolMatches(c: char, s: string)
    ensures Matches(Symbol(c), s) <==> s == [c]
  {
  }

  /** A repeated class matches the texts over that class. */
  lemma {:induction false} StarOfOne(k: Class, s: string)
    ensures Matches(Star(One(k)), s) <==> forall i :: 0 <= i < |s| ==> In(k, s[i])
    decreases |s|
  {
    if s != "" {
      assert s[..1] == [s[0]] && s == [s[0]] + s[1..];
      StarOfOne(k, s[1..]);
      assert Matches(One(k), s[..1]) <==> In(k, s[0]);
      if Matches(Star(One(k)), s) {
        var i :| 0 < i <= |s| && Matches(One(k), s[..i]) && Matches(Star(One(k)), s[i..]);
        assert i == 1;
      }
    }
  }

  lemma NumberMatches(s: string)
    ensures Matches(Number(), s) <==> IsNumeric(s)
  {
    hide Matches;
    var head, tail := One(NonZero), Star(Digits());
    AltMatches(Symbol('0'), Cat(head, tail), s);
    SymbolMatches('0', s);
    if Matches(Cat(head, tail), s) {
      var u, v := CatElim(head, tail, s);
      OneMatches(NonZero, u);
      StarOfOne(Digit, v);
    }
    if IsNumeric(s) && s != "0" {
      assert s == [s[0]] + s[1..];
      OneMatches(NonZero, [s[0]]);
      StarOfOne(Digit, s[1..]);
      CatIntro(head, tail, [s[0]], s[1..]);
    }
  }

  lemma AltMatches(a: Regex, b: Regex, s: string)
    ensures Matches(Alt(a, b), s) <==> Matches(a, s) || Matches(b, s)
  {
  }

  lemma OneMatches(k: Class, s: string)
    ensures Matches(One(k), s) <==> |s| == 1 && In(k, s[0])
  {
  }

  lemma BuildMatches(s: string)
    ensures Matches(Build(), s) <==> IsBuildIdentifier(s)
  {
    hide Matches;
    if Matches(Build(), s) {
      var u, v := CatElim(Idents(), Star(Idents()), s);
      OneMatches(Ident, u);
      StarOfOne(Ident, v);
    }
    if IsBuildIdentifier(s) {
      assert s == [s[0]] + s[1..];
      OneMatches(Ident, [s[0]]);
      StarOfOne(Ident, s[1..]);
      CatIntro(Idents(), Star(Idents()), [s[0]], s[1..]);
    }
  }

  /** `[0-9A-Za-z-]*[A-Za-z-][0-9A-Za-z-]*` matches the identifiers with a character that is
      no digit. */
  lemma WordElim(s: string)
    requires Matches(Cat(Star(Idents()), Cat(One(Letter), Star(Idents()))), s)
    ensures IsBuildIdentifier(s) && !AllDigits(s)
  {
    hide Matches;
    var u, v := CatElim(Star(Idents()), Cat(One(Letter), Star(Idents())), s);
    var w, x := CatElim(One(Letter), Star(Idents()), v);
    StarOfOne(Ident, u);
    OneMatches(Letter, w);
    StarOfOne(Ident, x);
    assert s[|u|] == w[0];
  }

  lemma WordIntro(s: string, k: nat)
    requires IsBuildIdentifier(s) && k < |s| && !IsDigit(s[k])
    ensures Matches(Cat(Star(Idents()), Cat(One(Letter), Star(Idents()))), s)
  {
    hide Matches;
    assert s == s[..k] + ([s[k]] + s[k + 1..]);
    StarOfOne(Ident, s[..k]);
    OneMatches(Letter, [s[k]]);
    StarOfOne(Ident, s[k + 1..]);
    CatIntro(One(Letter), Star(Idents()), [s[k]], s[k + 1..]);
    CatIntro(Star(Idents()), Cat(One(Letter), Star(Idents())), s[..k], [s[k]] + s[k + 1..]);
  }

  lemma PreReleaseMatches(s: string)
    ensures Matches(PreRelease(), s) <==> IsPreIdentifier(s)
  {
    hide Matches;
    var word := Cat(Star(Idents()), Cat(One(Letter), Star(Idents())));
    AltMatches(Number(), word, s);
    NumberMatches(s);
    if Matches(word, s) {
      WordElim(s);
    }
    if IsPreIdentifier(s) && !AllDigits(s) {
      var k :| 0 <= k < |s| && !IsDigit(s[k]);
      WordIntro(s, k);
    }
  }

  // ---------------------------------------------------------------- dotted lists

  ghost predicate AllMatch(r: Regex, pieces: seq<string>) {
    forall i :: 0 <= i < |pieces| ==> Matches(r, pieces[i])
  }

  /** A dotted list matches a text exactly when the text is a join of matches. */
  lemma DottedElim(r: Regex, s: string) returns (pieces: seq<string>)
    requires Matches(Dotted(r), s)
    ensures pieces != [] && AllMatch(r, pieces) && Join(pieces, '.') == s
  {
    hide Matches;
    var u, v := CatElim(r, Star(Cat(Symbol('.'), r)), s);
    pieces := TailElim(r, u, v);
  }

  lemma {:induction false} TailElim(r: Regex, u: string, v: string) returns (pieces: seq<string>)
    requires Matches(r, u) && Matches(Star(Cat(Symbol('.'), r)), v)
    ensures pieces != [] && AllMatch(r, pieces) && Join(pieces, '.') == u + v
    decreases |v|
  {
    hide Matches;
    if v == "" {
      pieces := [u];
      assert u + v == u;
    } else {
      var round, after := StarElim(Cat(Symbol('.'), r), v);
      var dot, w := CatElim(Symbol('.'), r, round);
      SymbolMatches('.', dot);
      var rest := TailElim(r, w, after);
      pieces := [u] + rest;
      assert pieces[1..] == rest;
      assert u + ['.'] + (w + after) == u + v;
    }
  }

  lemma DottedIntro(r: Regex, pieces: seq<string>)
    requires pieces != [] && AllMatch(r, pieces)
    ensures Matches(Dotted(r), Join(pieces, '.'))
  {
    hide Matches;
    var v := TailIntro(r, pieces);
    CatIntro(r, Star(Cat(Symbol('.'), r)), pieces[0], v);
  }

  lemma {:induction false} TailIntro(r: Regex, pieces: seq<string>) returns (v: string)
    requires pieces != [] && AllMatch(r, pieces)
    ensures Matches(Star(Cat(Symbol('.'), r)), v) && Join(pieces, '.') == pieces[0] + v
  {
    hide Matches;
    if |pieces| == 1 {
      v := "";
      StarMatchesEmpty(Cat(Symbol('.'), r));
    } else {
      var w := TailIntro(r, pieces[1..]);
      var round := ['.'] + pieces[1];
      v := round + w;
      SymbolMatches('.', ['.']);
      CatIntro(Symbol('.'), r, ['.'], pieces[1]);
      StarIntro(Cat(Symbol('.'), r), round, w);
      assert pieces[0] + ['.'] + (pieces[1] + w) == pieces[0] + v;
    }
  }

  lemma StarMatchesEmpty(r: Regex)
    ensures Matches(Star(r), "")
  {
  }

  lemma StarElim(r: Regex, s: string) returns (u: string, v: string)
    requires Matches(Star(r), s) && s != ""
    ensures s == u + v && u != "" && Matches(r, u) && Matches(Star(r), v)
  {
    var i :| 0 < i <= |s| && Matches(r, s[..i]) && Matches(Star(r), s[i..]);
    u, v := s[..i], s[i..];
  }

  lemma StarIntro(r: Regex, s: string, t: string)
    requires s != "" && Matches(r, s) && Matches(Star(r), t)
    ensures Matches(Star(r), s + t)
  {
    assert (s + t)[..|s|] == s && (s + t)[|s|..] == t;
  }

  // ------------------------------------------------------------ the whole pattern

  /** The text of an optional part. */
  function PartText(mark: char, pieces: Option<seq<string>>): string
    requires pieces.Some? ==> pieces.value != []
  {
    if pieces.Some? then [mark] + Join(pieces.value, '.') else ""
  }

  lemma PartElim(mark: char, r: Regex, s: string) returns (pieces: Option<seq<string>>)
    requires Matches(Opt(Cat(Symbol(mark), Dotted(r))), s)
    ensures pieces.Some? ==> pieces.value != [] && AllMatch(r, pieces.value)
    ensures s == PartText(mark, pieces)
  {
    AltMatches(Empty, Cat(Symbol(mark), Dotted(r)), s);
    if s == "" {
      pieces := None;
    } else {
      assert !Matches(Empty, s);
      hide Matches;
      var m, t := CatElim(Symbol(mark), Dotted(r), s);
      SymbolMatches(mark, m);
      var ps := DottedElim(r, t);
      pieces := Some(ps);
    }
  }

  lemma PartIntro(mark: char, r: Regex, pieces: Option<seq<string>>)
    requires pieces.Some? ==> pieces.value != [] && AllMatch(r, pieces.value)
    ensures Matches(Opt(Cat(Symbol(mark), Dotted(r))), PartText(mark, pieces))
  {
    AltMatches(Empty, Cat(Symbol(mark), Dotted(r)), PartText(mark, pieces));
    if pieces.Some? {
      hide Matches;
      SymbolMatches(mark, [mark]);
      DottedIntro(r, pieces.value);
      CatIntro(Symbol(mark), Dotted(r), [mark], Join(pieces.value, '.'));
    }
  }

  lemma PrintParts(v: Version)
    requires HasPieces(v)
    ensures Print(v) == v.major + (['.'] + (v.minor
            + (['.'] + (v.patch + (PartText('-', v.pre) + PartText('+', v.build))))))
  {
    hide Join, PrintCore;
    var core, pre, build := PrintCore(v), PartText('-', v.pre), PartText('+', v.build);
    CoreText(v);
    assert PrintPre(v) == core + pre;
    assert Print(v) == core + pre + build;
    Nest(v.major + ['.'] + v.minor + ['.'] + v.patch, pre, build);
    Nest(v.major + ['.'] + v.minor + ['.'], v.patch, pre + build);
    Nest(v.major + ['.'] + v.minor, ['.'], v.patch + (pre + build));
    Nest(v.major + ['.'], v.minor, ['.'] + (v.patch + (pre + build)));
    Nest(v.major, ['.'], v.minor + (['.'] + (v.patch + (pre + build))));
  }

  lemma Nest(a: string, b: string, c: string)
    ensures a + b + c == a + (b + c)
  {
  }

  lemma CoreText(v: Version)
    ensures PrintCore(v) == v.major + ['.'] + v.minor + ['.'] + v.patch
  {
    var pieces, rest := [v.major, v.minor, v.patch], [v.minor, v.patch];
    assert pieces[1..] == rest && rest[1..] == [v.patch];
    assert Join(rest, '.') == v.minor + ['.'] + v.patch;
    assert v.major + ['.'] + (v.minor + ['.'] + v.patch) == v.major + ['.'] + v.minor + ['.'] + v.patch;
  }

  lemma PiecesAgree(v: Version)
    requires HasPieces(v)
    ensures IsVersion(v) <==>
      && Matches(Number(), v.major) && Matches(Number(), v.minor) && Matches(Number(), v.patch)
      && (v.pre.Some? ==> AllMatch(PreRelease(), v.pre.value)) && (v.build.Some? ==> AllMatch(Build(), v.build.value))
  {
    hide Matches, IsNumeric, IsPreIdentifier, IsBuildIdentifier;
    NumberMatches(v.major);
    NumberMatches(v.minor);
    NumberMatches(v.patch);
    forall s ensures Matches(PreRelease(), s) <==> IsPreIdentifier(s) {
      PreReleaseMatches(s);
    }
    forall s ensures Matches(Build(), s) <==> IsBuildIdentifier(s) {
      BuildMatches(s);
    }
  }

  lemma Matched(s: string) returns (v: Version)
    requires Matches(PackageVersion(), s)
    ensures IsVersion(v) && Print(v) == s
  {
    hide Matches, IsVersion;
    var dot, number, suffix := Symbol('.'), Number(), Suffix();
    var major, s1 := CatElim(number, Cat(dot, Cat(number, Cat(dot, Cat(number, suffix)))), s);
    var d1, s2 := CatElim(dot, Cat(number, Cat(dot, Cat(number, suffix))), s1);
    var minor, s3 := CatElim(number, Cat(dot, Cat(number, suffix)), s2);
    var d2, s4 := CatElim(dot, Cat(number, suffix), s3);
    var patch, s5 := CatElim(number, suffix, s4);
    SymbolMatches('.', d1);
    SymbolMatches('.', d2);
    var p, b := CatElim(Opt(Cat(Symbol('-'), Dotted(PreRelease()))), Opt(Cat(Symbol('+'), Dotted(Build()))), s5);
    var pre := PartElim('-', PreRelease(), p);
    var build := PartElim('+', Build(), b);
    v := Version(major, minor, patch, pre, build);
    PiecesAgree(v);
    PrintParts(v);
  }

  lemma Printed(v: Version)
    requires IsVersion(v)
    ensures Matches(PackageVersion(), Print(v))
  {
    hide Matches;
    PiecesAgree(v);
    hide IsVersion;
    var dot, number, suffix := Symbol('.'), Number(), Suffix();
    var p, b := PartText('-', v.pre), PartText('+', v.build);
    PartIntro('-', PreRelease(), v.pre);
    PartIntro('+', Build(), v.build);
    CatIntro(Opt(Cat(Symbol('-'), Dotted(PreRelease()))), Opt(Cat(Symbol('+'), Dotted(Build()))), p, b);
    SymbolMatches('.', ['.']);
    CatIntro(number, suffix, v.patch, p + b);
    CatIntro(dot, Cat(number, suffix), ['.'], v.patch + (p + b));
    CatIntro(number, Cat(dot, Cat(number, suffix)), v.minor, ['.'] + (v.patch + (p + b)));
    CatIntro(dot, Cat(number, Cat(dot, Cat(number, suffix))), ['.'], v.minor + (['.'] + (v.patch + (p + b))));
    CatIntro(number, Cat(dot, Cat(number, Cat(dot, Cat(number, suffix)))), v.major,
      ['.'] + (v.minor + (['.'] + (v.patch + (p + b)))));
    PrintParts(v);
  }

  /** The metadata generator and the manifest check accept the same texts. */
  lemma ExpressionIsGrammar(s: string)
    ensures Matches(PackageVersion(), s) <==> IsSemVer(s)
  {
    if Matches(PackageVersion(), s) {
      var v := Matched(s);
    }
    if IsSemVer(s) {
      var v :| IsVersion(v) && Print(v) == s;
      Printed(v);
    }
  }
}
