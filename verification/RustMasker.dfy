/** Blanking comments and literals in Rust source, against a character-by-character lexer. */
module RustMasker {
  import opened Wrappers
  import opened Text
  import opened SourceMask

  // ------------------------------------------------------ the script's expressions

  predicate IsHex(c: char) { IsDigit(c) || 'a' <= c <= 'f' || 'A' <= c <= 'F' }

  predicate IsIdent(c: char) { IsDigit(c) || 'a' <= c <= 'z' || 'A' <= c <= 'Z' || c == '_' }

  /** How many characters from `i` on satisfy `p`. */
  function RunLength(s: string, p: char -> bool, i: nat): (n: nat)
    requires i <= |s|
    ensures i + n <= |s|
    decreases |s| - i
  {
    if i < |s| && p(s[i]) then 1 + RunLength(s, p, i + 1) else 0
  }

  /** The end of a character literal that opens at `i`; a lifetime has no closing quote. */
  function RustCharEnd(s: string, i: nat): (r: Option<nat>)
    requires i < |s|
    ensures r.Some? ==> i + 3 <= r.value <= |s| && s[r.value - 1] == '\''
  {
    if At(s, i, s[i], '\\') then
      var digits := if i + 4 <= |s| then RunLength(s, IsHex, i + 4) else 0;
      if At(s, i + 2, 'u', '{') && 1 <= digits <= 6 && At(s, i + 4 + digits, '}', '\'') then Some(i + 6 + digits)
      else if i + 5 < |s| && s[i + 2] == 'x' && IsHex(s[i + 3]) && IsHex(s[i + 4]) && s[i + 5] == '\'' then Some(i + 6)
      else if i + 3 < |s| && s[i + 2] != '\n' && s[i + 3] == '\'' then Some(i + 4)
      else None
    else if i + 2 < |s| && s[i + 1] != '\'' && s[i + 2] == '\'' then Some(i + 3)
    else None
  }

  /** The number of hashes of a raw string whose `b?r#*"` opener starts at `i`, and the offset
      past that opener. */
  function RustRawOpener(s: string, i: nat): (r: Option<(nat, nat)>)
    requires i < |s|
    ensures r.Some? ==> i + 2 <= r.value.1 <= |s|
  {
    var at := if s[i] == 'b' then i + 1 else i;
    if at < |s| && s[at] == 'r' then
      var hashes := RunLength(s, c => c == '#', at + 1);
      if at + 1 + hashes < |s| && s[at + 1 + hashes] == '"' then Some((hashes, at + 2 + hashes)) else None
    else None
  }

  // ----------------------------------------------------------- the reference lexer

  /** `i` is the quote that closes a raw string with this many hashes. */
  predicate ClosesRaw(s: string, i: nat, hashes: nat) {
    && i + 1 + hashes <= |s| && s[i] == '"'
    && forall k :: i < k <= i + hashes ==> s[k] == '#'
  }

  /** Where the lexer is between two characters.

      `Block(depth)` is a comment that many levels deep, and `Marker(depth)` the middle of a
      two-character marker that leads there. `Opener` and `Closer` count the characters left
      of a raw string's delimiters, `Char` those left of a character literal's interior. */
  datatype Mode =
    | Code
    | LineComment
    | Block(depth: nat)
    | Marker(depth: nat)
    | Str
    | StrEscape
    | Opener(left: nat, hashes: nat)
    | Raw(hashes: nat)
    | Closer(left: nat)
    | Char(left: nat)

  datatype Lexed = Lexed(kind: Kind, mode: Mode)

  function Inside(depth: nat): Mode { if depth == 0 then Code else Block(depth) }

  function Closing(left: nat): Mode { if left == 0 then Code else Closer(left) }

  predicate StartsRaw(s: string, i: nat)
    requires i < |s|
  {
    RustRawOpener(s, i).Some? && !(i > 0 && IsIdent(s[i - 1]))
  }

  /** One character of the language: its kind, and the mode behind it. */
  ghost function Next(s: string, i: nat, mode: Mode): Lexed
    requires i < |s|
  {
    match mode
    case Code =>
      if At(s, i, '/', '/') then Lexed(Hidden, LineComment)
      else if At(s, i, '/', '*') then Lexed(Hidden, Marker(1))
      else if StartsRaw(s, i) then
        var (hashes, interior) := RustRawOpener(s, i).value;
        Lexed(Plain, Opener(interior - i - 1, hashes))
      else if s[i] == '"' then Lexed(Delimiter, Str)
      else if s[i] == '\'' && RustCharEnd(s, i).Some? then Lexed(Delimiter, Char(RustCharEnd(s, i).value - i - 2))
      else Lexed(Plain, Code)
    case LineComment => if s[i] == '\n' then Lexed(Plain, Code) else Lexed(Hidden, LineComment)
    case Block(depth) =>
      if At(s, i, '/', '*') then Lexed(Hidden, Marker(depth + 1))
      else if At(s, i, '*', '/') && depth > 0 then Lexed(Hidden, Marker(depth - 1))
      else Lexed(Hidden, mode)
    case Marker(depth) => Lexed(Hidden, Inside(depth))
    case Str =>
      if s[i] == '\\' then Lexed(Hidden, StrEscape)
      else if s[i] == '"' then Lexed(Delimiter, Code)
      else Lexed(Hidden, Str)
    case StrEscape => Lexed(Hidden, Str)
    case Opener(left, hashes) =>
      if left > 1 then Lexed(Plain, Opener(left - 1, hashes)) else Lexed(Delimiter, Raw(hashes))
    case Raw(hashes) =>
      if ClosesRaw(s, i, hashes) then Lexed(Delimiter, Closing(hashes)) else Lexed(Hidden, mode)
    case Closer(left) => Lexed(Delimiter, Closing(if left == 0 then 0 else left - 1))
    case Char(left) =>
      if left > 0 then Lexed(Hidden, Char(left - 1)) else Lexed(Delimiter, Code)
  }

  /** The kinds of all characters from `i` on. */
  ghost function Kinds(s: string, i: nat, mode: Mode): (r: seq<Kind>)
    requires i <= |s|
    ensures |r| == |s| - i
    decreases |s| - i
  {
    if i == |s| then []
    else [Next(s, i, mode).kind] + Kinds(s, i + 1, Next(s, i, mode).mode)
  }

  /** What blanking every comment and literal body would leave. */
  ghost function StrictMask(s: string): (r: string)
    ensures |r| == |s|
  {
    Applied(s, Kinds(s, 0, Code))
  }

  /** `i` is an interior character of an unclosed raw string that stands where the closer would
      have had to be. The masker leaves it visible. */
  predicate Leaks(s: string, i: nat, mode: Mode) {
    mode.Raw? && i < |s| && !ClosesRaw(s, i, mode.hashes) && |s| <= i + 1 + mode.hashes
  }

  ghost function MaskNext(s: string, i: nat, mode: Mode): Lexed
    requires i < |s|
  {
    if Leaks(s, i, mode) then Next(s, i, mode).(kind := Plain) else Next(s, i, mode)
  }

  /** The kinds as the masker treats them. */
  ghost function MaskKinds(s: string, i: nat, mode: Mode): (r: seq<Kind>)
    requires i <= |s|
    ensures |r| == |s| - i
    decreases |s| - i
  {
    if i == |s| then []
    else [MaskNext(s, i, mode).kind] + MaskKinds(s, i + 1, MaskNext(s, i, mode).mode)
  }

  /** The specification of the Rust masker: hidden characters other than leaks go blank, all
      others stay. */
  ghost function RustMask(s: string): (r: string)
    ensures |r| == |s|
  {
    Applied(s, MaskKinds(s, 0, Code))
  }

  /** The mode in front of character `j`. */
  ghost function ModeAt(s: string, i: nat, mode: Mode, j: nat): Mode
    requires i <= j <= |s|
    decreases j - i
  {
    if i == j then mode else ModeAt(s, i + 1, Next(s, i, mode).mode, j)
  }

  lemma {:induction false} KindAt(s: string, i: nat, mode: Mode, j: nat)
    requires i <= j < |s|
    ensures Kinds(s, i, mode)[j - i] == Next(s, j, ModeAt(s, i, mode, j)).kind
    ensures MaskKinds(s, i, mode)[j - i] == MaskNext(s, j, ModeAt(s, i, mode, j)).kind
    decreases j - i
  {
    hide Next;
    if i < j {
      LeakIsHidden(s, i, mode);
      KindAt(s, i + 1, Next(s, i, mode).mode, j);
    }
  }

  /** Character `j` of the whole text leaks. */
  ghost predicate LeaksAt(s: string, j: nat) {
    j < |s| && Leaks(s, j, ModeAt(s, 0, Code, j))
  }

  /** The masker blanks every comment and literal body exactly when no leak holds anything but
      blanks. */
  lemma MaskIsStrict(s: string)
    ensures RustMask(s) == StrictMask(s) <==> forall j: nat :: LeaksAt(s, j) ==> s[j] == Blank(s[j])
  {
    hide Next;
    forall j | 0 <= j < |s|
      ensures RustMask(s)[j] == StrictMask(s)[j] <==> (LeaksAt(s, j) ==> s[j] == Blank(s[j]))
    {
      KindAt(s, 0, Code, j);
      LeakIsHidden(s, j, ModeAt(s, 0, Code, j));
    }
    if RustMask(s) == StrictMask(s) {
      assert forall j :: 0 <= j < |s| ==> RustMask(s)[j] == StrictMask(s)[j];
    }
  }

  lemma LeakIsHidden(s: string, i: nat, mode: Mode)
    requires i < |s|
    ensures Leaks(s, i, mode) ==> Next(s, i, mode) == Lexed(Hidden, mode)
  {
  }

  lemma {:induction false} ModeTwice(s: string, i: nat, mode: Mode, j: nat, k: nat)
    requires i <= j <= k <= |s|
    ensures ModeAt(s, i, mode, k) == ModeAt(s, j, ModeAt(s, i, mode, j), k)
    decreases j - i
  {
    if i < j {
      ModeTwice(s, i + 1, Next(s, i, mode).mode, j, k);
    }
  }

  /** A leak means that the text ends inside that raw string. */
  lemma LeakIsUnclosed(s: string, j: nat)
    requires LeaksAt(s, j)
    ensures ModeAt(s, 0, Code, |s|) == ModeAt(s, 0, Code, j) && ModeAt(s, 0, Code, |s|).Raw?
  {
    var mode := ModeAt(s, 0, Code, j);
    ModeTwice(s, 0, Code, j, |s|);
    StaysRaw(s, j, mode.hashes);
  }

  lemma {:induction false} StaysRaw(s: string, i: nat, hashes: nat)
    requires i <= |s| <= i + 1 + hashes && (i < |s| ==> !ClosesRaw(s, i, hashes))
    ensures ModeAt(s, i, Raw(hashes), |s|) == Raw(hashes)
    decreases |s| - i
  {
    if i < |s| {
      StaysRaw(s, i + 1, hashes);
    }
  }

  /** A text that does not end inside a raw string is masked strictly. */
  lemma ClosedIsStrict(s: string)
    requires !ModeAt(s, 0, Code, |s|).Raw?
    ensures RustMask(s) == StrictMask(s)
  {
    MaskIsStrict(s);
    if j: nat :| LeaksAt(s, j) {
      LeakIsUnclosed(s, j);
    }
  }

  /** The comma in `r",` is part of an unclosed raw string and stays. */
  lemma LeakingComma()
    ensures var s := ['r', '"', ','];
            LeaksAt(s, 2) && Kinds(s, 0, Code)[2] == Hidden && RustMask(s)[2] == ','
  {
    var s := ['r', '"', ','];
    assert RunLength(s, c => c == '#', 1) == 0;
    assert RustRawOpener(s, 0) == Some((0, 2));
    assert Next(s, 0, Code) == Lexed(Plain, Opener(1, 0));
    assert Next(s, 1, Opener(1, 0)) == Lexed(Delimiter, Raw(0));
    assert ModeAt(s, 1, Opener(1, 0), 2) == ModeAt(s, 2, Raw(0), 2) == Raw(0);
    assert ModeAt(s, 0, Code, 2) == Raw(0);
    KindAt(s, 0, Code, 2);
  }

  lemma RustMaskIsMask(s: string)
    ensures IsMaskOf(RustMask(s), s)
  {
  }

  /** The delimiters are quotes and hashes. */
  lemma DelimiterIsMark(s: string, j: nat)
    requires j < |s| && Kinds(s, 0, Code)[j] == Delimiter
    ensures s[j] in {'"', '\'', '#'}
  {
    hide Next, Expected, Kinds, MaskKinds;
    ExpectedAt(s, j);
    KindAt(s, 0, Code, j);
    DelimiterChar(s, j, ModeAt(s, 0, Code, j));
  }

  lemma DelimiterChar(s: string, j: nat, mode: Mode)
    requires j < |s| && Expected(s, j, mode) && Next(s, j, mode).kind == Delimiter
    ensures s[j] in {'"', '\'', '#'}
  {
    hide RustRawOpener, RustCharEnd, StartsRaw;
    assert mode.Closer? ==> s[j] == '#';
  }

  /** The characters a counting mode counts down to are really there. */
  ghost predicate Expected(s: string, i: nat, mode: Mode)
    requires i <= |s|
  {
    match mode
    case Opener(left, _) => left >= 1 && i + left <= |s| && s[i + left - 1] == '"'
    case Closer(left) => left >= 1 && i + left <= |s| && forall k :: i <= k < i + left ==> s[k] == '#'
    case Char(left) => i + left < |s| && s[i + left] == '\''
    case Marker(_) => i < |s| && s[i] in {'*', '/'}
    case _ => true
  }

  lemma {:induction false} ExpectedAt(s: string, j: nat)
    requires j <= |s|
    ensures Expected(s, j, ModeAt(s, 0, Code, j))
  {
    hide Next, Expected;
    if j == 0 {
      ExpectedStart(s);
    } else {
      ExpectedAt(s, j - 1);
      ExpectedNext(s, j - 1, ModeAt(s, 0, Code, j - 1));
      ModeNext(s, j - 1);
    }
  }

  lemma ExpectedStart(s: string)
    ensures Expected(s, 0, Code)
  {
  }

  lemma ModeNext(s: string, i: nat)
    requires i < |s|
    ensures ModeAt(s, 0, Code, i + 1) == Next(s, i, ModeAt(s, 0, Code, i)).mode
  {
    ModeTwice(s, 0, Code, i, i + 1);
  }

  lemma ExpectedNext(s: string, i: nat, mode: Mode)
    requires i < |s| && Expected(s, i, mode)
    ensures Expected(s, i + 1, Next(s, i, mode).mode)
  {
  }

  /** A comma, bracket or letter left in the mask, other than a quote or a hash, is program text
      unless it leaks. */
  lemma {:induction false} MaskedTextIsCode(s: string, i: nat)
    requires i < |s| && RustMask(s)[i] != Blank(RustMask(s)[i]) && RustMask(s)[i] !in {'"', '\'', '#'}
    ensures RustMask(s)[i] == s[i] && (Kinds(s, 0, Code)[i] == Plain <==> !LeaksAt(s, i))
  {
    hide Next;
    KindAt(s, 0, Code, i);
    LeakIsHidden(s, i, ModeAt(s, 0, Code, i));
    if Kinds(s, 0, Code)[i] == Delimiter {
      DelimiterIsMark(s, i);
    }
  }

  // --------------------------------------------------------------------- stretches

  /** From `i` in `mode` to `end` in `mode'` the characters are all hidden, or none is. */
  ghost predicate Run(s: string, i: nat, mode: Mode, end: nat, mode': Mode, hidden: bool) {
    && i <= end <= |s|
    && MaskKinds(s, i, mode)[end - i..] == MaskKinds(s, end, mode')
    && forall j :: 0 <= j < end - i ==> (MaskKinds(s, i, mode)[j] == Hidden <==> hidden)
  }

  lemma RunNone(s: string, i: nat, mode: Mode, hidden: bool)
    requires i <= |s|
    ensures Run(s, i, mode, i, mode, hidden)
  {
  }

  lemma RunStep(s: string, i: nat, mode: Mode, end: nat, mode': Mode, hidden: bool)
    requires i < |s| && (MaskNext(s, i, mode).kind == Hidden <==> hidden)
    requires Run(s, i + 1, MaskNext(s, i, mode).mode, end, mode', hidden)
    ensures Run(s, i, mode, end, mode', hidden)
  {
    var next := MaskNext(s, i, mode);
    var all, tail := MaskKinds(s, i, mode), MaskKinds(s, i + 1, next.mode);
    assert all == [next.kind] + tail;
    assert all[end - i..] == tail[end - (i + 1)..];
    assert forall j :: 0 < j < end - i ==> all[j] == tail[j - 1];
  }

  /** At the end of the text every mode looks the same. */
  lemma RunToEnd(s: string, i: nat, mode: Mode, mode1: Mode, mode2: Mode, hidden: bool)
    requires Run(s, i, mode, |s|, mode1, hidden)
    ensures Run(s, i, mode, |s|, mode2, hidden)
  {
  }

  lemma {:induction false} LineRun(s: string, i: nat, end: nat)
    requires i <= end <= |s| && (end < |s| ==> s[end] == '\n') && forall j :: i <= j < end ==> s[j] != '\n'
    ensures Run(s, i, LineComment, end, Code, true)
    decreases end - i
  {
    hide Run;
    if i < end {
      LineRun(s, i + 1, end);
      RunStep(s, i, LineComment, end, Code, true);
    } else {
      LineCommentOver(s, end);
    }
  }

  /** At the newline, or at the end of the text, a line comment is over. */
  lemma LineCommentOver(s: string, end: nat)
    requires end <= |s| && (end < |s| ==> s[end] == '\n')
    ensures Run(s, end, LineComment, end, Code, true)
  {
  }

  lemma {:induction false} BlockRun(s: string, i: nat, depth: nat)
    requires i <= |s|
    ensures Run(s, i, Inside(depth), NestedEnd(s, i, depth), Code, true)
    decreases |s| - i
  {
    hide Run;
    var end := NestedEnd(s, i, depth);
    if i == |s| || depth == 0 {
      RunNone(s, i, Inside(depth), true);
      if i == |s| {
        RunToEnd(s, i, Inside(depth), Inside(depth), Code, true);
      }
    } else if At(s, i, '/', '*') || At(s, i, '*', '/') {
      var depth' := if s[i] == '/' then depth + 1 else depth - 1;
      BlockRun(s, i + 2, depth');
      RunStep(s, i + 1, Marker(depth'), end, Code, true);
      RunStep(s, i, Block(depth), end, Code, true);
    } else {
      BlockRun(s, i + 1, depth);
      RunStep(s, i, Block(depth), end, Code, true);
    }
  }

  lemma {:induction false} StrRun(s: string, i: nat)
    requires i <= |s|
    ensures Run(s, i, Str, InteriorEnd(s, i, '"'), Str, true)
    decreases |s| - i
  {
    hide Run;
    var end := InteriorEnd(s, i, '"');
    if i == |s| || s[i] == '"' {
      RunNone(s, i, Str, true);
    } else if s[i] != '\\' {
      StrRun(s, i + 1);
      RunStep(s, i, Str, end, Str, true);
    } else if i + 1 == |s| {
      RunNone(s, i + 1, StrEscape, true);
      RunToEnd(s, i + 1, StrEscape, StrEscape, Str, true);
      RunStep(s, i, Str, end, Str, true);
    } else {
      StrRun(s, i + 2);
      RunStep(s, i + 1, StrEscape, end, Str, true);
      RunStep(s, i, Str, end, Str, true);
    }
  }

  lemma {:induction false} OpenerRun(s: string, i: nat, left: nat, hashes: nat)
    requires left >= 1 && i + left <= |s|
    ensures Run(s, i, Opener(left, hashes), i + left, Raw(hashes), false)
    decreases left
  {
    hide Run;
    if left > 1 {
      OpenerRun(s, i + 1, left - 1, hashes);
    } else {
      RunNone(s, i + 1, Raw(hashes), false);
    }
    RunStep(s, i, Opener(left, hashes), i + left, Raw(hashes), false);
  }

  /** The hidden stretch of a raw string: up to its closer, or, without one, up to where the
      closer would have had to start. */
  lemma {:induction false} RawRun(s: string, i: nat, end: nat, hashes: nat)
    requires i <= end && end + 1 + hashes <= |s| && forall j :: i <= j < end ==> !ClosesRaw(s, j, hashes)
    ensures Run(s, i, Raw(hashes), end, Raw(hashes), true)
    decreases end - i
  {
    hide Run;
    if i < end {
      RawRun(s, i + 1, end, hashes);
      RunStep(s, i, Raw(hashes), end, Raw(hashes), true);
    } else {
      RunNone(s, i, Raw(hashes), true);
    }
  }

  lemma {:induction false} CloserRun(s: string, i: nat, left: nat)
    requires i + left <= |s|
    ensures Run(s, i, Closing(left), i + left, Code, false)
    decreases left
  {
    hide Run;
    if left > 0 {
      CloserRun(s, i + 1, left - 1);
      RunStep(s, i, Closer(left), i + left, Code, false);
    } else {
      RunNone(s, i, Code, false);
    }
  }

  /** Without a closer the tail of the text stays visible. */
  lemma {:induction false} RawTailRun(s: string, i: nat, hashes: nat)
    requires i <= |s| && |s| <= i + 1 + hashes && forall j :: i <= j ==> !ClosesRaw(s, j, hashes)
    ensures Run(s, i, Raw(hashes), |s|, Code, false)
    decreases |s| - i
  {
    hide Run;
    if i < |s| {
      RawTailRun(s, i + 1, hashes);
      RunStep(s, i, Raw(hashes), |s|, Code, false);
    } else {
      RunNone(s, i, Raw(hashes), false);
      RunToEnd(s, i, Raw(hashes), Raw(hashes), Code, false);
    }
  }

  lemma {:induction false} CharRun(s: string, i: nat, left: nat)
    requires i + left < |s|
    ensures Run(s, i, Char(left), i + left, Char(0), true)
    decreases left
  {
    hide Run;
    if left > 0 {
      CharRun(s, i + 1, left - 1);
      RunStep(s, i, Char(left), i + left, Char(0), true);
    } else {
      RunNone(s, i, Char(0), true);
    }
  }

  // -------------------------------------------------------------------- the masker

  /** The first `"` from `i` on that `hashes` hashes follow, if there is one. */
  function FindRawEnd(s: string, hashes: nat, i: nat): (r: Option<nat>)
    requires i <= |s|
    ensures r.Some? ==> i <= r.value && ClosesRaw(s, r.value, hashes)
    ensures forall j :: i <= j && (r.Some? ==> j < r.value) ==> !ClosesRaw(s, j, hashes)
    decreases |s| - i
  {
    if i == |s| then None
    else if ClosesRaw(s, i, hashes) then Some(i)
    else FindRawEnd(s, hashes, i + 1)
  }

  /** Where a block comment of nesting depth `depth` ends; Rust nests them. */
  function NestedEnd(s: string, i: nat, depth: nat): (r: nat)
    requires i <= |s|
    ensures i <= r <= |s|
    decreases |s| - i
  {
    if i == |s| || depth == 0 then i
    else if At(s, i, '/', '*') then NestedEnd(s, i + 2, depth + 1)
    else if At(s, i, '*', '/') then NestedEnd(s, i + 2, depth - 1)
    else NestedEnd(s, i + 1, depth)
  }

  method NestedCommentEnd(source: string, index: nat) returns (cursor: nat)
    requires At(source, index, '/', '*')
    ensures cursor == NestedEnd(source, index + 2, 1)
  {
    var depth: nat := 0;
    cursor := index;
    while cursor < |source|
      invariant index <= cursor <= |source|
      invariant if cursor == index then depth == 0
                else && index + 2 <= cursor && depth >= 1
                     && NestedEnd(source, cursor, depth) == NestedEnd(source, index + 2, 1)
      decreases |source| - cursor
    {
      if At(source, cursor, '/', '*') {
        depth := depth + 1;
        cursor := cursor + 2;
      } else if At(source, cursor, '*', '/') {
        depth := depth - 1;
        cursor := cursor + 2;
        if depth == 0 {
          break;
        }
      } else {
        cursor := cursor + 1;
      }
    }
  }

  /** The masker has done everything before `i`, and the lexer is in program text there. */
  ghost predicate Reached(s: string, kinds: seq<Kind>, out: string, i: nat) {
    |kinds| == |s| && i <= |s| && kinds[i..] == MaskKinds(s, i, Code) && MaskedUpTo(out, Applied(s, kinds), s, i)
  }

  /** Blanking the hidden middle of an element takes the masker past it. */
  lemma Advance(s: string, kinds: seq<Kind>, out: string, i: nat, from: nat, mode: Mode,
                                   until: nat, mode': Mode, end: nat)
    requires Reached(s, kinds, out, i)
    requires Run(s, i, Code, from, mode, false) && Run(s, from, mode, until, mode', true)
             && Run(s, until, mode', end, Code, false)
    ensures Reached(s, kinds, BlankedRange(out, from, until), end)
  {
    hide MaskKinds;
    var all := MaskKinds(s, i, Code);
    assert kinds[end..] == kinds[i..][end - i..];
    assert all[end - i..] == all[from - i..][until - from..][end - until..];
    forall j | i <= j < end ensures kinds[j] == Hidden <==> from <= j < until {
      assert kinds[j] == kinds[i..][j - i] == all[j - i];
      if j >= until {
        assert all[j - i] == all[from - i..][until - from..][j - until];
      } else if j >= from {
        assert all[j - i] == all[from - i..][j - from];
      }
    }
  }

  /** Blank a raw string whose opener ends at `interior`. */
  method MaskRaw(source: string, out: string, index: nat, hashes: nat, interior: nat, ghost kinds: seq<Kind>)
    returns (out': string, end: nat)
    requires index < |source| && StartsRaw(source, index) && RustRawOpener(source, index) == Some((hashes, interior))
    requires !At(source, index, '/', '/') && !At(source, index, '/', '*') && Reached(source, kinds, out, index)
    ensures index < end <= |source| && Reached(source, kinds, out', end)
  {
    hide MaskKinds, Run, Reached, RustRawOpener;
    OpenerRun(source, index + 1, interior - index - 1, hashes);
    RunStep(source, index, Code, interior, Raw(hashes), false);
    var close := FindRawEnd(source, hashes, interior);
    if close.Some? {
      end := close.value + 1 + hashes;
      RawRun(source, interior, close.value, hashes);
      CloserRun(source, close.value + 1, hashes);
      RunStep(source, close.value, Raw(hashes), end, Code, false);
      Advance(source, kinds, out, index, interior, Raw(hashes), close.value, Raw(hashes), end);
      assert |out| == |source| by { ReachedLength(source, kinds, out, index); }
      out' := BlankRange(out, interior, close.value);
    } else {
      end := |source|;
      var until := if interior <= end - (1 + hashes) then end - (1 + hashes) else interior;
      if interior < until {
        RawRun(source, interior, until, hashes);
      } else {
        RunNone(source, interior, Raw(hashes), true);
      }
      RawTailRun(source, until, hashes);
      Advance(source, kinds, out, index, interior, Raw(hashes), until, Raw(hashes), end);
      assert |out| == |source| by { ReachedLength(source, kinds, out, index); }
      out' := BlankRange(out, interior, until);
    }
  }

  lemma ReachedLength(s: string, kinds: seq<Kind>, out: string, i: nat)
    requires Reached(s, kinds, out, i)
    ensures |out| == |s|
  {
  }

  /** A comment: hidden from its first character on. */
  method MaskComment(source: string, out: string, index: nat, end: nat, ghost kinds: seq<Kind>) returns (out': string)
    requires Reached(source, kinds, out, index) && Run(source, index, Code, end, Code, true)
    ensures Reached(source, kinds, out', end)
  {
    hide MaskKinds;
    RunNone(source, index, Code, false);
    RunNone(source, end, Code, false);
    Advance(source, kinds, out, index, index, Code, end, Code, end);
    out' := BlankRange(out, index, end);
  }

  method MaskString(source: string, out: string, index: nat, ghost kinds: seq<Kind>) returns (out': string, end: nat)
    requires index < |source| && source[index] == '"' && !StartsRaw(source, index) && Reached(source, kinds, out, index)
    ensures index < end <= |source| && Reached(source, kinds, out', end)
  {
    hide MaskKinds, Run, Reached;
    ghost var interior := InteriorEnd(source, index + 1, '"');
    assert |out| == |source| by { ReachedLength(source, kinds, out, index); }
    out', end := MaskQuoted(source, out, index, '"');
    RunNone(source, index + 1, Str, false);
    RunStep(source, index, Code, index + 1, Str, false);
    StrRun(source, index + 1);
    RunNone(source, end, Code, false);
    if interior < |source| {
      RunStep(source, interior, Str, end, Code, false);
    } else {
      RunNone(source, interior, Str, false);
      RunToEnd(source, interior, Str, Str, Code, false);
    }
    Advance(source, kinds, out, index, index + 1, Str, interior, Str, end);
  }

  method MaskChar(source: string, out: string, index: nat, end: nat, ghost kinds: seq<Kind>) returns (out': string)
    requires index < |source| && source[index] == '\'' && !StartsRaw(source, index)
             && Reached(source, kinds, out, index)
    requires RustCharEnd(source, index) == Some(end)
    ensures Reached(source, kinds, out', end)
  {
    hide MaskKinds, Run, Reached;
    RunNone(source, index + 1, Char(end - index - 2), false);
    RunStep(source, index, Code, index + 1, Char(end - index - 2), false);
    CharRun(source, index + 1, end - index - 2);
    RunNone(source, end, Code, false);
    RunStep(source, end - 1, Char(0), end, Code, false);
    Advance(source, kinds, out, index, index + 1, Char(end - index - 2), end - 1, Char(0), end);
    assert |out| == |source| by { ReachedLength(source, kinds, out, index); }
    out' := BlankRange(out, index + 1, end - 1);
  }

  /** Stepping over a character of program text. */
  lemma KeepOne(s: string, kinds: seq<Kind>, out: string, i: nat)
    requires Reached(s, kinds, out, i) && i < |s| && MaskNext(s, i, Code) == Lexed(Plain, Code)
    ensures Reached(s, kinds, out, i + 1)
  {
    assert kinds[i + 1..] == kinds[i..][1..] && kinds[i] == kinds[i..][0];
  }

  /** One turn of the loop: past the element at `index`. */
  method MaskElement(source: string, out: string, index: nat, ghost kinds: seq<Kind>) returns (out': string, end: nat)
    requires index < |source| && Reached(source, kinds, out, index)
    ensures index < end <= |source| && Reached(source, kinds, out', end)
  {
    hide MaskKinds, Run, Reached, RustRawOpener, RustCharEnd;
    var raw := RustRawOpener(source, index);
    if At(source, index, '/', '/') {
      end := Find(source, '\n', index);
      LineRun(source, index + 1, end);
      RunStep(source, index, Code, end, Code, true);
      out' := MaskComment(source, out, index, end, kinds);
    } else if At(source, index, '/', '*') {
      end := NestedCommentEnd(source, index);
      BlockRun(source, index + 2, 1);
      RunStep(source, index + 1, Marker(1), end, Code, true);
      RunStep(source, index, Code, end, Code, true);
      out' := MaskComment(source, out, index, end, kinds);
    } else if raw.Some? && !(index > 0 && IsIdent(source[index - 1])) {
      out', end := MaskRaw(source, out, index, raw.value.0, raw.value.1, kinds);
    } else if source[index] == '"' {
      out', end := MaskString(source, out, index, kinds);
    } else if source[index] == '\'' && RustCharEnd(source, index).Some? {
      end := RustCharEnd(source, index).value;
      out' := MaskChar(source, out, index, end, kinds);
    } else {
      KeepOne(source, kinds, out, index);
      out', end := out, index + 1;
    }
  }

  /** The Rust masker computes exactly what the reference lexer calls for. */
  method MaskRust(source: string) returns (out: string)
    ensures out == RustMask(source)
  {
    hide MaskKinds, Reached;
    out := source;
    var index := 0;
    ghost var kinds := MaskKinds(source, 0, Code);
    StartMask(source);
    while index < |source|
      invariant index <= |source| && Reached(source, kinds, out, index)
      decreases |source| - index
    {
      out, index := MaskElement(source, out, index, kinds);
    }
    EndMask(source, kinds, out);
  }

  lemma StartMask(s: string)
    ensures Reached(s, MaskKinds(s, 0, Code), s, 0)
  {
    assert MaskKinds(s, 0, Code)[0..] == MaskKinds(s, 0, Code);
  }

  lemma EndMask(s: string, kinds: seq<Kind>, out: string)
    requires Reached(s, kinds, out, |s|)
    ensures out == Applied(s, kinds)
  {
  }
}
