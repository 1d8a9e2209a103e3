/** Java text blocks, which the Java masker does not know: when it blanks their bodies all the
    same. */
module JavaTextBlocks {
  import opened SourceMask
  import opened JavaMasker

  /** `s` reads three double quotes at `i`. */
  predicate AtTriple(s: string, i: nat) { At(s, i, '"', '"') && At(s, i + 1, '"', '"') }

  lemma TripleText(s: string, i: nat)
    ensures AtTriple(s, i) <==> i + 3 <= |s| && s[i..i + 3] == "\"\"\""
  {
    if i + 3 <= |s| {
      assert s[i..i + 3] == [s[i], s[i + 1], s[i + 2]];
    }
  }

  /** The masker's modes outside text blocks, and those of a text block: `left` quotes of its
      opening delimiter, its body, an escape in it, `left` quotes of its closing delimiter. */
  datatype BlockMode =
    | Outside(mode: Mode)
    | Opening(left: nat)
    | Body
    | BodyEscape
    | Ending(left: nat)

  datatype BlockLexed = BlockLexed(kind: Kind, mode: BlockMode)

  /** One character of Java with text blocks. */
  ghost function BlockNext(s: string, i: nat, mode: BlockMode): BlockLexed
    requires i < |s|
  {
    match mode
    case Outside(m) =>
      if m == Code && AtTriple(s, i) then BlockLexed(Delimiter, Opening(2))
      else BlockLexed(Next(s, i, m).kind, Outside(Next(s, i, m).mode))
    case Opening(left) => BlockLexed(Delimiter, if left <= 1 then Body else Opening(left - 1))
    case Body =>
      if s[i] == '\\' then BlockLexed(Hidden, BodyEscape)
      else if AtTriple(s, i) then BlockLexed(Delimiter, Ending(2))
      else BlockLexed(Hidden, Body)
    case BodyEscape => BlockLexed(Hidden, Body)
    case Ending(left) => BlockLexed(Delimiter, if left <= 1 then Outside(Code) else Ending(left - 1))
  }

  /** The mode in front of character `j`. */
  ghost function BlockModeAt(s: string, j: nat): BlockMode
    requires j <= |s|
  {
    if j == 0 then Outside(Code) else BlockNext(s, j - 1, BlockModeAt(s, j - 1)).mode
  }

  ghost function BlockKinds(s: string): (r: seq<Kind>)
    ensures |r| == |s|
  {
    seq(|s|, j requires 0 <= j < |s| => BlockNext(s, j, BlockModeAt(s, j)).kind)
  }

  /** What blanking every comment and literal body, text blocks included, would leave. */
  ghost function BlockMask(s: string): (r: string)
    ensures |r| == |s|
  {
    Applied(s, BlockKinds(s))
  }

  /** A quote inside a text block that neither is escaped nor belongs to its end. */
  ghost predicate IsStray(s: string, j: nat) {
    j < |s| && BlockModeAt(s, j) == Body && s[j] == '"' && !AtTriple(s, j)
  }

  ghost function ModeAt(s: string, j: nat): Mode
    requires j <= |s|
  {
    if j == 0 then Code else Next(s, j - 1, ModeAt(s, j - 1)).mode
  }

  lemma {:induction false} KindsFrom(s: string, j: nat)
    requires j <= |s|
    ensures Kinds(s, 0, Code)[j..] == Kinds(s, j, ModeAt(s, j))
  {
    if j > 0 {
      KindsFrom(s, j - 1);
      var before := Kinds(s, 0, Code)[j - 1..];
      assert Kinds(s, 0, Code)[j..] == before[1..];
    }
  }

  lemma KindAt(s: string, j: nat)
    requires j < |s|
    ensures Kinds(s, 0, Code)[j] == Next(s, j, ModeAt(s, j)).kind
  {
    KindsFrom(s, j);
    assert Kinds(s, 0, Code)[j] == Kinds(s, 0, Code)[j..][0];
  }

  /** Where the masker's lexer stands when the block-aware one is in `mode`: a block's three
      opening quotes are an empty literal and the start of another one, its closing quotes the
      end of that one and an empty literal. */
  ghost function InStep(mode: BlockMode): Mode {
    match mode
    case Outside(m) => m
    case Opening(left) => if left == 1 then Code else Literal('"')
    case Body => Literal('"')
    case BodyEscape => Escape('"')
    case Ending(left) => if left == 1 then Literal('"') else Code
  }

  /** The quotes a counting mode counts are really there. */
  ghost predicate Expected(s: string, j: nat, mode: BlockMode) {
    match mode
    case Opening(left) => 1 <= left <= 2 && j + left <= |s| && forall k :: j <= k < j + left ==> s[k] == '"'
    case Ending(left) => 1 <= left <= 2 && j + left <= |s| && forall k :: j <= k < j + left ==> s[k] == '"'
    case _ => true
  }

  lemma BlockStep(s: string, j: nat, mode: BlockMode)
    requires j < |s| && Expected(s, j, mode) && !(mode == Body && s[j] == '"' && !AtTriple(s, j))
    ensures var next := BlockNext(s, j, mode);
            && Expected(s, j + 1, next.mode)
            && Next(s, j, InStep(mode)) == Lexed(next.kind, InStep(next.mode))
  {
    assert s[j] == '"' ==> !At(s, j, '/', '/') && !At(s, j, '/', '*');
  }

  /** Up to the first stray quote the two lexers stay in step. */
  lemma {:induction false} StaysInStep(s: string, n: nat)
    requires n <= |s| && forall j :: 0 <= j < n ==> !IsStray(s, j)
    ensures ModeAt(s, n) == InStep(BlockModeAt(s, n)) && Expected(s, n, BlockModeAt(s, n))
  {
    hide Next, BlockNext, Expected;
    if n > 0 {
      StaysInStep(s, n - 1);
      assert !IsStray(s, n - 1);
      BlockStep(s, n - 1, BlockModeAt(s, n - 1));
    } else {
      ExpectedStart(s);
    }
  }

  lemma ExpectedStart(s: string)
    ensures Expected(s, 0, Outside(Code))
  {
  }

  /** The masker blanks the bodies of all literals, text blocks included, exactly when no text
      block holds a stray quote. */
  lemma MaskIsBlockMask(s: string)
    ensures JavaMask(s) == BlockMask(s) <==> forall j: nat :: !IsStray(s, j)
  {
    hide Next, BlockNext, Expected, IsStray;
    if forall j: nat :: !IsStray(s, j) {
      forall j | 0 <= j < |s| ensures JavaMask(s)[j] == BlockMask(s)[j] {
        StaysInStep(s, j);
        KindAt(s, j);
        StepKeepsKind(s, j);
      }
    } else {
      var j := FirstStray(s);
      StrayShows(s, j);
      StaysInStep(s, j);
      KindAt(s, j);
      assert JavaMask(s)[j] != BlockMask(s)[j];
    }
  }

  lemma StepKeepsKind(s: string, j: nat)
    requires j < |s| && Expected(s, j, BlockModeAt(s, j)) && !IsStray(s, j)
    ensures Next(s, j, InStep(BlockModeAt(s, j))).kind == BlockNext(s, j, BlockModeAt(s, j)).kind
  {
    BlockStep(s, j, BlockModeAt(s, j));
  }

  lemma FirstStray(s: string) returns (j: nat)
    requires exists j: nat :: IsStray(s, j)
    ensures IsStray(s, j) && forall k :: 0 <= k < j ==> !IsStray(s, k)
  {
    hide IsStray;
    j :| IsStray(s, j);
    while exists k: nat :: k < j && IsStray(s, k)
      invariant IsStray(s, j)
      decreases j
    {
      var k: nat :| k < j && IsStray(s, k);
      j := k;
    }
  }

  lemma StrayShows(s: string, j: nat)
    requires IsStray(s, j)
    ensures j < |s| && s[j] == '"' && Next(s, j, InStep(BlockModeAt(s, j))).kind == Delimiter
    ensures BlockNext(s, j, BlockModeAt(s, j)).kind == Hidden
  {
  }

  /** A text block whose body is a quote and a comma: the masker shows the comma. */
  lemma CommaInBlock()
    ensures var s := ['"', '"', '"', '"', ',', '"', '"', '"'];
            IsStray(s, 3) && BlockKinds(s)[4] == Hidden && JavaMask(s)[4] == ','
  {
    var s := ['"', '"', '"', '"', ',', '"', '"', '"'];
    assert BlockModeAt(s, 1) == Opening(2);
    assert BlockModeAt(s, 2) == Opening(1);
    assert BlockModeAt(s, 3) == Body;
    assert BlockModeAt(s, 4) == Body;
    assert ModeAt(s, 1) == Literal('"');
    assert ModeAt(s, 2) == Code;
    assert ModeAt(s, 3) == Literal('"');
    assert ModeAt(s, 4) == Code;
    KindAt(s, 4);
  }
}
