/** Masking a masked Rust text: when it changes nothing. */
module RustRemask {
  import opened Wrappers
  import opened SourceMask
  import opened RustMasker

  predicate IsBlank(c: char) { c == Blank(c) }

  /** A character literal opens at `k` and closes at `c`. */
  ghost predicate Encloses(s: string, k: nat, c: nat) {
    && k < c < |s| && ModeAt(s, 0, Code, k) == Code && Next(s, k, Code).mode.Char?
    && RustCharEnd(s, k) == Some(c + 1)
  }

  /** `c` closes a character literal that the mask's lexer does not see as one: it is longer than
      one character, so that the mask has more than one blank between its quotes; or its opening
      quote, one blank behind the closing quote of another such literal, closes a literal made
      of these two quotes. */
  ghost predicate IsBare(s: string, c: nat)
    decreases c
  {
    exists k :: 0 <= k < c && Encloses(s, k, c)
                && (k + 2 < c || (k >= 2 && IsBare(s, k - 2) && IsBlank(RustMask(s)[k - 1])))
  }

  /** In the mask the closing quote `c` of such a literal opens another one that has more than
      blanks inside. */
  ghost predicate Bites(s: string, c: nat) {
    && c < |s| && IsBare(s, c) && RustCharEnd(RustMask(s), c).Some?
    && exists j :: c < j < RustCharEnd(RustMask(s), c).value - 1 && !IsBlank(RustMask(s)[j])
  }

  /** In the mask the closing quote `c` of such a literal opens another one. */
  ghost predicate Skews(s: string, c: nat) {
    c < |s| && IsBare(s, c) && RustCharEnd(RustMask(s), c).Some?
  }

  /** Where the mask's lexer stands when the text's lexer is in `mode` in front of `i`. */
  ghost function InStep(s: string, i: nat, mode: Mode): Mode
    requires i <= |s|
  {
    match mode
    case Code =>
      if i >= 1 && Skews(s, i - 1) then Char(1) else if i >= 2 && Skews(s, i - 2) then Char(0) else Code
    case LineComment => Code
    case Block(_) => Code
    case Marker(_) => Code
    case StrEscape => Str
    case Char(left) => if IsBare(s, i + left) then Code else mode
    case _ => mode
  }

  lemma MaskAt(s: string, j: nat)
    requires j < |s|
    ensures RustMask(s)[j] == MaskedChar(s[j], MaskNext(s, j, ModeAt(s, 0, Code, j)).kind)
  {
    KindAt(s, 0, Code, j);
  }

  /** What the mask shows is what the text holds. */
  lemma ShownIsKept(s: string, j: nat)
    requires j < |s| && RustMask(s)[j] != Blank(RustMask(s)[j])
    ensures RustMask(s)[j] == s[j]
  {
  }

  lemma RunKept(s: string, i: nat, mode: Mode, end: nat, mode': Mode, j: nat)
    requires Run(s, i, mode, end, mode', false) && mode == ModeAt(s, 0, Code, i) && i <= j < end
    ensures RustMask(s)[j] == s[j]
  {
    KindAt(s, i, mode, j);
    ModeTwice(s, 0, Code, i, j);
    MaskAt(s, j);
  }

  lemma {:induction false} RunLengthAll(s: string, p: char -> bool, i: nat)
    requires i <= |s|
    ensures forall k :: i <= k < i + RunLength(s, p, i) ==> p(s[k])
    ensures i + RunLength(s, p, i) < |s| ==> !p(s[i + RunLength(s, p, i)])
    decreases |s| - i
  {
    if i < |s| && p(s[i]) {
      RunLengthAll(s, p, i + 1);
    }
  }

  lemma {:induction false} RunLengthIs(s: string, p: char -> bool, i: nat, n: nat)
    requires i + n < |s| && (forall k :: i <= k < i + n ==> p(s[k])) && !p(s[i + n])
    ensures RunLength(s, p, i) == n
    decreases n
  {
    if n > 0 {
      RunLengthIs(s, p, i + 1, n - 1);
    }
  }

  /** Texts that agree on a raw string's opener agree that it is one. */
  lemma OpenerDepends(a: string, b: string, i: nat)
    requires |a| == |b| && i < |a| && RustRawOpener(a, i).Some?
    requires forall j :: i <= j < RustRawOpener(a, i).value.1 ==> a[j] == b[j]
    ensures RustRawOpener(b, i) == RustRawOpener(a, i)
  {
    var at := if a[i] == 'b' then i + 1 else i;
    var hashes := RunLength(a, c => c == '#', at + 1);
    RunLengthAll(a, c => c == '#', at + 1);
    RunLengthIs(b, c => c == '#', at + 1, hashes);
  }

  lemma OpenerShown(a: string, i: nat, j: nat)
    requires i < |a| && RustRawOpener(a, i).Some? && i <= j < RustRawOpener(a, i).value.1
    ensures a[j] in {'b', 'r', '#', '"'}
  {
    RunLengthAll(a, c => c == '#', (if a[i] == 'b' then i + 1 else i) + 1);
  }

  /** Texts that agree on a character literal agree that it is one. */
  lemma CharDepends(a: string, b: string, i: nat)
    requires |a| == |b| && i < |a| && RustCharEnd(a, i).Some?
    requires forall j :: i <= j < RustCharEnd(a, i).value ==> a[j] == b[j]
    ensures RustCharEnd(b, i) == RustCharEnd(a, i)
  {
    var end := RustCharEnd(a, i).value;
    if At(a, i, a[i], '\\') && end > i + 4 && a[i + 2] == 'u' {
      var digits := RunLength(a, IsHex, i + 4);
      RunLengthAll(a, IsHex, i + 4);
      RunLengthIs(b, IsHex, i + 4, digits);
    }
  }

  /** A lifetime's quote opens no literal in the mask either. */
  lemma {:induction false} LifetimeStays(s: string, i: nat)
    requires i < |s| && ModeAt(s, 0, Code, i) == Code && s[i] == '\'' && Next(s, i, Code) == Lexed(Plain, Code)
    ensures RustCharEnd(RustMask(s), i).None?
  {
    var m := RustMask(s);
    if RustCharEnd(m, i).Some? {
      var end := RustCharEnd(m, i).value;
      MaskAt(s, i);
      MaskAt(s, i + 1);
      ModeTwice(s, 0, Code, i, i + 1);
      assert ModeAt(s, i, Code, i + 1) == Code;
      assert RustCharEnd(s, i).None?;
      if At(m, i, m[i], '\\') {
        if end > i + 4 {
          RunLengthAll(m, IsHex, i + 4);
          forall j | i <= j < end ensures m[j] == s[j] {
            ShownIsKept(s, j);
          }
          CharDepends(m, s, i);
        }
      }
    }
  }

  /** In the mask an identifier character in front of program text is still there. */
  ghost predicate PreviousKept(s: string, i: nat)
    requires i <= |s|
  {
    i > 0 && ModeAt(s, 0, Code, i) == Code && IsIdent(s[i - 1]) ==> RustMask(s)[i - 1] == s[i - 1]
  }

  lemma NoNewOpener(s: string, i: nat)
    requires i < |s| && ModeAt(s, 0, Code, i) == Code && !StartsRaw(s, i) && PreviousKept(s, i)
    ensures !StartsRaw(RustMask(s), i)
  {
    hide Next;
    var m := RustMask(s);
    if RustRawOpener(m, i).Some? {
      forall j | i <= j < RustRawOpener(m, i).value.1 ensures m[j] == s[j] {
        OpenerShown(m, i, j);
        ShownIsKept(s, j);
      }
      OpenerDepends(m, s, i);
    }
  }

  /** A raw string's opener stays. */
  lemma OpenerKept(s: string, i: nat, hashes: nat, interior: nat)
    requires i < |s| && ModeAt(s, 0, Code, i) == Code && StartsRaw(s, i)
    requires !At(s, i, '/', '/') && !At(s, i, '/', '*') && RustRawOpener(s, i) == Some((hashes, interior))
    ensures forall j :: i <= j < interior ==> RustMask(s)[j] == s[j]
  {
    OpenerRun(s, i + 1, interior - i - 1, hashes);
    RunStep(s, i, Code, interior, Raw(hashes), false);
    hide Next, Run, ModeAt, RustMask;
    forall j | i <= j < interior ensures RustMask(s)[j] == s[j] {
      RunKept(s, i, Code, interior, Raw(hashes), j);
    }
  }

  lemma OldOpener(s: string, i: nat)
    requires i < |s| && ModeAt(s, 0, Code, i) == Code && StartsRaw(s, i)
    requires !At(s, i, '/', '/') && !At(s, i, '/', '*')
    ensures StartsRaw(RustMask(s), i) && RustRawOpener(RustMask(s), i) == RustRawOpener(s, i)
    ensures RustMask(s)[i] == s[i]
  {
    hide ModeAt, RustMask, RustRawOpener;
    var m := RustMask(s);
    var (hashes, interior) := RustRawOpener(s, i).value;
    OpenerKept(s, i, hashes, interior);
    OpenerDepends(s, m, i);
    if i > 0 {
      RustMaskIsMask(s);
      assert m[i - 1] == s[i - 1] || m[i - 1] == ' ';
    }
  }

  /** Inside a character literal the lexer counts down to its closing quote. */
  lemma {:induction false} InsideLiteral(s: string, k: nat, c: nat, j: nat)
    requires Encloses(s, k, c) && k < j <= c
    ensures ModeAt(s, 0, Code, j) == Char(c - j)
    decreases j
  {
    if j == k + 1 {
      ModeNext(s, k);
    } else {
      InsideLiteral(s, k, c, j - 1);
      ModeNext(s, j - 1);
    }
  }

  lemma OneOpening(s: string, k: nat, k': nat, c: nat)
    requires Encloses(s, k, c) && Encloses(s, k', c)
    ensures k == k'
  {
    if k < k' {
      InsideLiteral(s, k, c, k');
    } else if k' < k {
      InsideLiteral(s, k', c, k);
    }
  }

  /** What makes the literal that opens at `k` bare. */
  lemma BareFrom(s: string, k: nat, c: nat)
    requires Encloses(s, k, c)
    ensures IsBare(s, c) <==> k + 2 < c || (k >= 2 && IsBare(s, k - 2) && IsBlank(RustMask(s)[k - 1]))
  {
    hide Next, RustCharEnd, RustMask, ModeAt;
    if IsBare(s, c) {
      var k' :| 0 <= k' < c && Encloses(s, k', c)
                && (k' + 2 < c || (k' >= 2 && IsBare(s, k' - 2) && IsBlank(RustMask(s)[k' - 1])));
      OneOpening(s, k, k', c);
    }
  }

  lemma BareMode(s: string, c: nat)
    requires IsBare(s, c)
    ensures c < |s| && ModeAt(s, 0, Code, c) == Char(0) && RustMask(s)[c] == s[c] == '\''
    ensures c >= 1 && ModeAt(s, 0, Code, c - 1) != Char(0)
  {
    hide RustCharEnd, RustRawOpener, ModeAt, RustMask;
    var k :| 0 <= k < c && Encloses(s, k, c)
             && (k + 2 < c || (k >= 2 && IsBare(s, k - 2) && IsBlank(RustMask(s)[k - 1])));
    InsideLiteral(s, k, c, c);
    if k < c - 1 {
      InsideLiteral(s, k, c, c - 1);
    }
    MaskAt(s, c);
  }

  /** Lexing character `i` of the mask keeps in step and finds nothing to blank. */
  ghost predicate StepsAlong(s: string, i: nat, mode: Mode)
    requires i < |s|
  {
    var m := RustMask(s);
    var next := MaskNext(m, i, InStep(s, i, mode));
    next.mode == InStep(s, i + 1, Next(s, i, mode).mode) && MaskedChar(m[i], next.kind) == m[i]
  }

  lemma NotSlash(s: string, i: nat)
    requires i < |s| && RustRawOpener(s, i).Some?
    ensures s[i] != '/'
  {
  }

  lemma BlankIsPlain(m: string, i: nat)
    requires i < |m| && IsBlank(m[i])
    ensures MaskNext(m, i, Code) == Lexed(Plain, Code)
  {
  }

  lemma NoNewComment(s: string, i: nat)
    requires i < |s| && RustMask(s)[i] == s[i] && !At(s, i, '/', '/') && !At(s, i, '/', '*')
    ensures !At(RustMask(s), i, '/', '/') && !At(RustMask(s), i, '/', '*')
  {
    if i + 1 < |s| && RustMask(s)[i + 1] in {'/', '*'} {
      ShownIsKept(s, i + 1);
    }
  }

  /** A literal of one character is one in the mask; a longer one is none. */
  lemma LiteralStep(s: string, i: nat, c: nat)
    requires Encloses(s, i, c)
    ensures RustMask(s)[i] == s[i] == '\''
    ensures RustCharEnd(RustMask(s), i) == if c == i + 2 then Some(i + 3) else None
  {
    var m := RustMask(s);
    InsideLiteral(s, i, c, i + 1);
    InsideLiteral(s, i, c, i + 2);
    MaskAt(s, i);
    MaskAt(s, i + 1);
    MaskAt(s, i + 2);
    assert IsBlank(m[i + 1]);
    assert i + 2 < c ==> IsBlank(m[i + 2]);
  }

  /** Program text with the mask's lexer in program text too. */
  lemma CodeStep(s: string, i: nat)
    requires i < |s| && ModeAt(s, 0, Code, i) == Code && PreviousKept(s, i) && InStep(s, i, Code) == Code
    ensures StepsAlong(s, i, Code)
  {
    hide RustRawOpener, RustCharEnd, PreviousKept, IsBare;
    var m := RustMask(s);
    MaskAt(s, i);
    NoSkewHere(s, i);
    if At(s, i, '/', '/') || At(s, i, '/', '*') {
      BlankIsPlain(m, i);
    } else if StartsRaw(s, i) {
      OldOpener(s, i);
      NotSlash(s, i);
    } else {
      NoNewOpener(s, i);
      NoNewComment(s, i);
      if s[i] == '\'' && RustCharEnd(s, i).Some? {
        OpeningStep(s, i, RustCharEnd(s, i).value - 1);
      } else if s[i] == '\'' {
        LifetimeStays(s, i);
      }
    }
  }

  lemma NoSkewHere(s: string, i: nat)
    requires i < |s| && ModeAt(s, 0, Code, i) == Code
    ensures !Skews(s, i)
  {
    if IsBare(s, i) {
      BareMode(s, i);
    }
  }

  /** Opening a literal: its fate in the mask is decided here. */
  lemma OpeningStep(s: string, i: nat, c: nat)
    requires Encloses(s, i, c) && InStep(s, i, Code) == Code
    ensures RustMask(s)[i] == '\''
    ensures IsBare(s, c) <==> i + 2 < c
    ensures RustCharEnd(RustMask(s), i) == if c == i + 2 then Some(i + 3) else None
  {
    var m := RustMask(s);
    LiteralStep(s, i, c);
    BareFrom(s, i, c);
    if i >= 2 {
      SkewsBefore(s, i);
    }
  }

  /** A blank between a bare closing quote and another quote. */
  lemma SkewsBefore(s: string, i: nat)
    requires 2 <= i < |s| && RustMask(s)[i] == '\''
    ensures IsBare(s, i - 2) && IsBlank(RustMask(s)[i - 1]) ==> Skews(s, i - 2)
  {
    hide IsBare;
    if IsBare(s, i - 2) && IsBlank(RustMask(s)[i - 1]) {
      BareMode(s, i - 2);
    }
  }

  lemma BlankIsNotBare(s: string, c: nat)
    requires c < |s| && IsBlank(RustMask(s)[c])
    ensures !IsBare(s, c)
  {
    hide IsBare;
    if IsBare(s, c) {
      BareMode(s, c);
    }
  }

  /** The blank behind a quote that opens a literal in the mask alone. */
  lemma SkewedBlank(s: string, i: nat)
    requires 1 <= i < |s| && ModeAt(s, 0, Code, i) == Code && Skews(s, i - 1) && !Bites(s, i - 1)
    ensures StepsAlong(s, i, Code) && InStep(s, i, Code) == Char(1)
  {
    hide IsBare;
    var m := RustMask(s);
    SkewedLiteral(s, i - 1);
    MaskAt(s, i);
    MaskAt(s, i + 1);
    ModeNext(s, i);
    BlankHere(s, i);
    NoSkewHere(s, i);
  }

  /** Only two quotes around one blank can be such a literal. */
  lemma SkewedLiteral(s: string, c: nat)
    requires Skews(s, c) && !Bites(s, c)
    ensures c + 2 < |s| && IsBlank(RustMask(s)[c + 1]) && RustMask(s)[c + 2] == '\''
    ensures RustCharEnd(RustMask(s), c) == Some(c + 3)
  {
    hide IsBare;
    var m := RustMask(s);
    var end := RustCharEnd(m, c).value;
    assert IsBlank(m[c + 1]);
  }

  /** A blank of the mask in front of a quote is program text. */
  lemma BlankHere(s: string, i: nat)
    requires i + 1 < |s| && ModeAt(s, 0, Code, i) == Code
    requires IsBlank(RustMask(s)[i]) && RustMask(s)[i + 1] == '\''
    ensures Next(s, i, Code) == Lexed(Plain, Code)
  {
    MaskAt(s, i);
    MaskAt(s, i + 1);
    ModeNext(s, i);
    ShownIsKept(s, i + 1);
    if At(s, i, '/', '/') || At(s, i, '/', '*') {
      assert false;
    }
  }

  /** The quote that closes a literal in the mask alone. */
  lemma SkewedQuote(s: string, i: nat)
    requires 2 <= i < |s| && ModeAt(s, 0, Code, i) == Code && Skews(s, i - 2) && !Bites(s, i - 2)
    ensures StepsAlong(s, i, Code) && InStep(s, i, Code) == Char(0)
  {
    hide IsBare;
    var m := RustMask(s);
    SkewedLiteral(s, i - 2);
    ShownIsKept(s, i);
    NoSkewHere(s, i);
    BlankIsNotBare(s, i - 1);
    if RustCharEnd(s, i).Some? {
      BareFrom(s, i, RustCharEnd(s, i).value - 1);
    }
  }

  /** The closing quote of a literal. */
  lemma ClosingStep(s: string, i: nat)
    requires i < |s| && ModeAt(s, 0, Code, i) == Char(0) && Expected(s, i, Char(0)) && !Bites(s, i)
    ensures StepsAlong(s, i, Char(0))
  {
    hide IsBare;
    var m := RustMask(s);
    MaskAt(s, i);
    if i >= 1 && Skews(s, i - 1) {
      BareMode(s, i - 1);
      ModeNext(s, i - 1);
      assert false;
    }
    if Skews(s, i) {
      SkewedLiteral(s, i);
    }
  }

  lemma RawStep(s: string, i: nat, hashes: nat)
    requires i < |s| && ModeAt(s, 0, Code, i) == Raw(hashes)
    ensures StepsAlong(s, i, Raw(hashes))
  {
    hide IsBare, Skews, RustCharEnd, RustRawOpener, Run;
    var m := RustMask(s);
    MaskAt(s, i);
    NotCloser(s, i);
    if ClosesRaw(s, i, hashes) {
      ModeNext(s, i);
      CloserRun(s, i + 1, hashes);
      forall k | i < k <= i + hashes ensures m[k] == s[k] {
        RunKept(s, i + 1, Closing(hashes), i + 1 + hashes, Code, k);
      }
      assert ClosesRaw(m, i, hashes);
    } else if ClosesRaw(m, i, hashes) {
      forall k | i <= k <= i + hashes ensures m[k] == s[k] {
        ShownIsKept(s, k);
      }
      assert false;
    }
  }

  /** Neither `i` nor the character before it closes a bare literal. */
  lemma NotCloser(s: string, i: nat)
    requires i < |s| && !ModeAt(s, 0, Code, i).Code? && !ModeAt(s, 0, Code, i).Char?
    ensures !Skews(s, i) && (i >= 1 ==> !Skews(s, i - 1))
  {
    if IsBare(s, i) {
      BareMode(s, i);
    }
    if i >= 1 && IsBare(s, i - 1) {
      BareMode(s, i - 1);
      ModeNext(s, i - 1);
    }
  }

  lemma OtherStep(s: string, i: nat, mode: Mode)
    requires i < |s| && mode == ModeAt(s, 0, Code, i) && !mode.Code? && !mode.Raw? && !mode.Char?
    requires Expected(s, i, mode)
    ensures StepsAlong(s, i, mode)
  {
    hide RustRawOpener, IsBare;
    MaskAt(s, i);
    NotCloser(s, i);
    if InStep(s, i, mode) == Code {
      BlankIsPlain(RustMask(s), i);
    }
  }

  lemma CharStep(s: string, i: nat, left: nat)
    requires i < |s| && Char(left) == ModeAt(s, 0, Code, i) && left > 0
    ensures StepsAlong(s, i, Char(left))
  {
    hide RustRawOpener, IsBare;
    MaskAt(s, i);
    if InStep(s, i, Char(left)) == Code {
      BlankIsPlain(RustMask(s), i);
    }
  }

  lemma PreviousStep(s: string, i: nat)
    requires i < |s|
    ensures PreviousKept(s, i + 1)
  {
    ExpectedAt(s, i);
    ModeNext(s, i);
    MaskAt(s, i);
  }

  lemma AnyStep(s: string, i: nat)
    requires i < |s| && PreviousKept(s, i)
    requires !Bites(s, i) && (i >= 1 ==> !Bites(s, i - 1)) && (i >= 2 ==> !Bites(s, i - 2))
    ensures StepsAlong(s, i, ModeAt(s, 0, Code, i))
  {
    hide Next, IsBare, RustCharEnd, RustRawOpener, MaskNext, PreviousKept, StepsAlong, Bites;
    var mode := ModeAt(s, 0, Code, i);
    ExpectedAt(s, i);
    if mode == Code {
      if i >= 1 && Skews(s, i - 1) {
        SkewedBlank(s, i);
      } else if i >= 2 && Skews(s, i - 2) {
        SkewedQuote(s, i);
      } else {
        CodeStep(s, i);
      }
    } else if mode.Raw? {
      RawStep(s, i, mode.hashes);
    } else if mode == Char(0) {
      ClosingStep(s, i);
    } else if mode.Char? {
      CharStep(s, i, mode.left);
    } else {
      OtherStep(s, i, mode);
    }
  }

  /** Up to the first biting quote the two lexers stay in step. */
  lemma {:induction false} StaysInStep(s: string, n: nat)
    requires n <= |s| && forall c: nat :: c < n ==> !Bites(s, c)
    ensures ModeAt(RustMask(s), 0, Code, n) == InStep(s, n, ModeAt(s, 0, Code, n)) && PreviousKept(s, n)
    ensures n > 0 ==> StepsAlong(s, n - 1, ModeAt(s, 0, Code, n - 1))
  {
    hide Next, IsBare, RustCharEnd, RustRawOpener, PreviousKept, Bites, InStep;
    if n == 0 {
      StepsStart(s);
    } else {
      var i := n - 1;
      StaysInStep(s, i);
      AnyStep(s, i);
      PreviousStep(s, i);
      ModeNext(s, i);
      ModeNext(RustMask(s), i);
    }
  }

  lemma StepsStart(s: string)
    ensures InStep(s, 0, Code) == Code && PreviousKept(s, 0)
  {
  }

  /** Masking a mask changes nothing exactly when no closing quote bites. */
  lemma RustMaskIdempotent(s: string)
    ensures RustMask(RustMask(s)) == RustMask(s) <==> forall c: nat :: !Bites(s, c)
  {
    hide Next, IsBare, RustCharEnd, RustRawOpener, PreviousKept, Bites, InStep, MaskNext;
    var m := RustMask(s);
    if forall c: nat :: !Bites(s, c) {
      forall j | 0 <= j < |s| ensures RustMask(m)[j] == m[j] {
        StaysInStep(s, j);
        StaysInStep(s, j + 1);
        MaskAt(m, j);
      }
      assert RustMask(m) == m;
    } else {
      var c := FirstBite(s);
      BiteChanges(s, c);
    }
  }

  lemma FirstBite(s: string) returns (c: nat)
    requires exists c: nat :: Bites(s, c)
    ensures Bites(s, c) && forall d: nat :: d < c ==> !Bites(s, d)
  {
    hide Bites;
    c :| Bites(s, c);
    while exists d: nat :: d < c && Bites(s, d)
      invariant Bites(s, c)
      decreases c
    {
      var d: nat :| d < c && Bites(s, d);
      c := d;
    }
  }

  lemma BiteChanges(s: string, c: nat)
    requires Bites(s, c) && forall d: nat :: d < c ==> !Bites(s, d)
    ensures RustMask(RustMask(s)) != RustMask(s)
  {
    hide IsBare, Next, RustCharEnd, ModeAt, RustMask, StepsAlong, PreviousKept;
    var m := RustMask(s);
    var end := RustCharEnd(m, c).value;
    BareMode(s, c);
    StaysInStep(s, c);
    QuoteOpens(m, c);
    var j :| c < j < end - 1 && !IsBlank(m[j]);
    InsideLiteral(m, c, end - 1, j);
    HiddenInside(m, j);
  }

  lemma QuoteOpens(m: string, c: nat)
    requires c < |m| && m[c] == '\'' && ModeAt(m, 0, Code, c) == Code && RustCharEnd(m, c).Some?
    ensures Encloses(m, c, RustCharEnd(m, c).value - 1)
  {
    hide RustCharEnd;
  }

  lemma HiddenInside(m: string, j: nat)
    requires j < |m| && ModeAt(m, 0, Code, j).Char? && ModeAt(m, 0, Code, j).left > 0 && !IsBlank(m[j])
    ensures RustMask(m) != m
  {
    hide RustCharEnd, RustRawOpener;
    MaskAt(m, j);
  }

  lemma CommaAndQuote(s: string, i: nat)
    requires i + 1 < |s| && s[i] == ',' && s[i + 1] == '\''
    ensures Next(s, i, Code) == Lexed(Plain, Code) && MaskNext(s, i, Code).kind != Hidden
    ensures MaskNext(s, i + 1, Code).kind != Hidden
  {
  }

  lemma QuotedComma(m: string, c: nat)
    requires c + 2 < |m| && m[c] == '\'' && m[c + 1] == ',' && m[c + 2] == '\''
    ensures RustCharEnd(m, c) == Some(c + 3)
  {
  }

  /** Two neighbouring literals, the first of them escaped and a comma between them. */
  lemma CommaBitten(s: string, c: nat)
    requires Encloses(s, 0, c) && c >= 3 && c + 2 < |s| && s[c + 1] == ',' && s[c + 2] == '\''
    ensures Bites(s, c)
  {
    assert IsBare(s, c);
    BareMode(s, c);
    ModeNext(s, c);
    hide IsBare, RustCharEnd, RustRawOpener;
    CommaAndQuote(s, c + 1);
    ModeNext(s, c + 1);
    hide Next, ModeAt;
    MaskAt(s, c + 1);
    MaskAt(s, c + 2);
    QuotedComma(RustMask(s), c);
    assert !IsBlank(RustMask(s)[c + 1]);
  }

  /** In the text `'\n','a'` the closing quote of the first literal bites the comma. */
  lemma MaskedTwice()
    ensures var s := ['\'', '\\', 'n', '\'', ',', '\'', 'a', '\''];
            Bites(s, 3) && RustMask(RustMask(s)) != RustMask(s)
  {
    var s := ['\'', '\\', 'n', '\'', ',', '\'', 'a', '\''];
    assert RustCharEnd(s, 0) == Some(4);
    assert Encloses(s, 0, 3);
    hide *;
    CommaBitten(s, 3);
    RustMaskIdempotent(s);
  }
}
