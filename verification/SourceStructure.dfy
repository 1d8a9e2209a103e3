/** Reading structure off masked source: matching brackets and splitting argument lists. */
module SourceStructure {
  import opened Wrappers
  import opened SourceMask
  import JavaMasker
  import RustMasker

  predicate IsOpener(c: char) { c == '(' || c == '[' || c == '{' }

  predicate IsCloser(c: char) { c == ')' || c == ']' || c == '}' }

  function Weight(c: char): int { if IsOpener(c) then 1 else if IsCloser(c) then -1 else 0 }

  /** The bracket nesting of `masked` between two offsets. */
  ghost function Depth(masked: string, from: nat, end: nat): int
    requires from <= end <= |masked|
  {
    if from == end then 0 else Depth(masked, from, end - 1) + Weight(masked[end - 1])
  }

  /** `i` closes what was open at `from`: the nesting counted from there is back to zero. */
  ghost predicate Closes(masked: string, from: nat, i: nat)
    requires from <= i < |masked|
  {
    IsCloser(masked[i]) && Depth(masked, from, i + 1) == 0
  }

  /** The first closer at which the nesting returns to zero, or none at all. */
  method BalancedEnd(masked: string, openBracket: nat) returns (r: Option<nat>)
    ensures r.Some? ==> openBracket <= r.value < |masked| && Closes(masked, openBracket, r.value)
    ensures forall j :: openBracket <= j < |masked| && (r.Some? ==> j < r.value) ==> !Closes(masked, openBracket, j)
  {
    if openBracket > |masked| {
      return None;
    }
    var depth := 0;
    for index := openBracket to |masked|
      invariant depth == Depth(masked, openBracket, index)
      invariant forall j :: openBracket <= j < index ==> !Closes(masked, openBracket, j)
    {
      var c := masked[index];
      assert Depth(masked, openBracket, index + 1) == depth + Weight(c);
      if IsOpener(c) {
        depth := depth + 1;
      } else if IsCloser(c) {
        depth := depth - 1;
        if depth == 0 {
          return Some(index);
        }
      }
    }
    r := None;
  }

  /** The closing bracket of an opening one. */
  function CloserOf(c: char): char
    requires IsOpener(c)
  {
    if c == '(' then ')' else if c == '[' then ']' else '}'
  }

  /** The three kinds of brackets. */
  lemma BracketKinds(c: char)
    ensures Weight(c) == 1 <==> c in {'(', '[', '{'}
    ensures Weight(c) == -1 <==> c in {')', ']', '}'}
    ensures Weight(c) == 0 <==> c !in {'(', '[', '{', ')', ']', '}'}
    ensures IsOpener(c) ==> [c, CloserOf(c)] in {"()", "[]", "{}"}
  {
    if IsOpener(c) {
      assert [c, CloserOf(c)] == "()" || [c, CloserOf(c)] == "[]" || [c, CloserOf(c)] == "{}";
    }
  }

  /** The brackets still open after `masked[from..end]` when kinds count, or nothing once a closer
      met an opener of another kind or none at all. */
  ghost function OpenBrackets(masked: string, from: nat, end: nat): (r: Option<string>)
    requires from <= end <= |masked|
    ensures r.Some? ==> forall k :: 0 <= k < |r.value| ==> IsOpener(r.value[k])
  {
    if from == end then Some("")
    else
      var before, c := OpenBrackets(masked, from, end - 1), masked[end - 1];
      if before.None? then None
      else if IsOpener(c) then Some(before.value + [c])
      else if !IsCloser(c) then before
      else if before.value != "" && CloserOf(before.value[|before.value| - 1]) == c then
        Some(before.value[..|before.value| - 1])
      else None
  }

  lemma {:induction false} OpenIsDepth(masked: string, from: nat, end: nat)
    requires from <= end <= |masked| && OpenBrackets(masked, from, end).Some?
    ensures |OpenBrackets(masked, from, end).value| == Depth(masked, from, end)
  {
    if from < end {
      OpenIsDepth(masked, from, end - 1);
    }
  }

  /** As long as the nesting has not returned to zero, the bracket it started with is open. */
  lemma {:induction false} FirstStaysOpen(masked: string, from: nat, end: nat)
    requires from < end <= |masked| && IsOpener(masked[from]) && OpenBrackets(masked, from, end).Some?
    requires forall j :: from <= j < end ==> !Closes(masked, from, j)
    ensures var open := OpenBrackets(masked, from, end).value; open != "" && open[0] == masked[from]
  {
    OpenIsDepth(masked, from, end);
    if end == from + 1 {
      assert OpenBrackets(masked, from, from) == Some("");
    } else {
      FirstStaysOpen(masked, from, end - 1);
      OpenIsDepth(masked, from, end - 1);
      assert !Closes(masked, from, end - 1);
    }
  }

  /** The scan ignores the kinds of brackets. What it finds is the bracket that closes the one it
      started at exactly when no closer up to there met an opener of another kind. */
  lemma BalancedMatches(masked: string, from: nat, i: nat)
    requires from < i < |masked| && IsOpener(masked[from]) && Closes(masked, from, i)
    requires forall j :: from <= j < i ==> !Closes(masked, from, j)
    ensures OpenBrackets(masked, from, i + 1) == Some("") <==> OpenBrackets(masked, from, i + 1).Some?
    ensures OpenBrackets(masked, from, i + 1).Some? ==> masked[i] == CloserOf(masked[from])
  {
    if OpenBrackets(masked, from, i + 1).Some? {
      OpenIsDepth(masked, from, i + 1);
      OpenIsDepth(masked, from, i);
      FirstStaysOpen(masked, from, i);
    }
  }

  /** The scan takes `]` for the end of `(`. */
  lemma MismatchedEnd()
    ensures Closes(['(', ']'], 0, 1) && !Closes(['(', ']'], 0, 0) && OpenBrackets(['(', ']'], 0, 2).None?
  {
    var masked := ['(', ']'];
    assert Depth(masked, 0, 1) == Depth(masked, 0, 0) + 1;
    assert OpenBrackets(masked, 0, 0) == Some("");
    assert OpenBrackets(masked, 0, 1) == Some("" + ['(']);
  }

  /** Whether `i` is a comma outside all brackets. */
  ghost predicate IsCut(masked: string, i: nat)
    requires i < |masked|
  {
    masked[i] == ',' && Depth(masked, 0, i) == 0
  }

  /** The cuts before `n`, in increasing order. */
  ghost function Cuts(masked: string, n: nat): seq<nat>
    requires n <= |masked|
  {
    if n == 0 then [] else Cuts(masked, n - 1) + if IsCut(masked, n - 1) then [n - 1] else []
  }

  /** A slice whose bounds are cut off at the end of the text. */
  function Slice(text: string, from: nat, end: nat): string {
    if from <= end then text[Min(from, |text|)..Min(end, |text|)] else ""
  }

  /** Where the piece behind the last of `cuts` starts. */
  ghost function PieceStart(cuts: seq<nat>): nat { if cuts == [] then 0 else cuts[|cuts| - 1] + 1 }

  /** The pieces of `text` between consecutive cuts, the one behind the last cut left out. */
  ghost function ClosedPieces(text: string, cuts: seq<nat>): seq<string> {
    if cuts == [] then []
    else
      var init := cuts[..|cuts| - 1];
      ClosedPieces(text, init) + [Slice(text, PieceStart(init), cuts[|cuts| - 1])]
  }

  /** Splitting yields the text between the top-level commas of the mask. */
  method SplitArguments(text: string, masked: string) returns (parts: seq<string>)
    ensures var cuts := Cuts(masked, |masked|);
            parts == PiecesTo(text, cuts, |text|)
  {
    parts := [];
    var depth, start := 0, 0;
    for index := 0 to |masked|
      invariant depth == Depth(masked, 0, index)
      invariant start == PieceStart(Cuts(masked, index)) <= index
      invariant parts == ClosedPieces(text, Cuts(masked, index))
    {
      var c := masked[index];
      assert Depth(masked, 0, index + 1) == depth + Weight(c);
      assert !IsCut(masked, index) ==> Cuts(masked, index + 1) == Cuts(masked, index);
      if IsOpener(c) {
        depth := depth + 1;
      } else if IsCloser(c) {
        depth := depth - 1;
      } else if c == ',' && depth == 0 {
        ghost var cuts := Cuts(masked, index);
        assert Cuts(masked, index + 1) == cuts + [index];
        assert (cuts + [index])[..|cuts|] == cuts;
        parts := parts + [Slice(text, start, index)];
        start := index + 1;
      }
    }
    parts := parts + [Slice(text, start, |text|)];
  }

  /** Parts put back together with commas. */
  ghost function Joined(parts: seq<string>): string
    requires parts != []
  {
    if |parts| == 1 then parts[0] else Joined(parts[..|parts| - 1]) + "," + parts[|parts| - 1]
  }

  lemma {:induction false} CutsExact(masked: string, n: nat)
    requires n <= |masked|
    ensures forall i, j :: 0 <= i < j < |Cuts(masked, n)| ==> Cuts(masked, n)[i] < Cuts(masked, n)[j]
    ensures forall i :: i in Cuts(masked, n) <==> 0 <= i < n && IsCut(masked, i)
  {
    if n > 0 {
      CutsExact(masked, n - 1);
      var before := Cuts(masked, n - 1);
      assert forall i :: 0 <= i < |before| ==> before[i] in before;
    }
  }

  /** The pieces up to any point, joined, are the text up to that point: splitting loses
      nothing, provided every comma of the mask is a comma of the text. */
  lemma {:induction false} PiecesRejoin(text: string, masked: string, n: nat, end: nat)
    requires |text| == |masked| && n <= end <= |text|
    requires forall i :: 0 <= i < |masked| && masked[i] == ',' ==> text[i] == ','
    ensures PieceStart(Cuts(masked, n)) <= n && Joined(PiecesTo(text, Cuts(masked, n), end)) == text[..end]
    decreases n, end
  {
    if n == 0 {
      assert PiecesTo(text, [], end) == [text[..end]];
    } else if IsCut(masked, n - 1) {
      PiecesRejoin(text, masked, n - 1, n - 1);
      CutRejoins(text, Cuts(masked, n - 1), n - 1, end);
    } else {
      PiecesRejoin(text, masked, n - 1, end);
      assert Cuts(masked, n) == Cuts(masked, n - 1);
    }
  }

  /** All pieces of `text` up to `end`. */
  ghost function PiecesTo(text: string, cuts: seq<nat>, end: nat): (r: seq<string>)
    ensures r != []
  {
    ClosedPieces(text, cuts) + [Slice(text, PieceStart(cuts), end)]
  }

  lemma CutRejoins(text: string, cuts: seq<nat>, cut: nat, end: nat)
    requires cut < end <= |text| && text[cut] == ',' && PieceStart(cuts) <= cut
    requires Joined(PiecesTo(text, cuts, cut)) == text[..cut]
    ensures Joined(PiecesTo(text, cuts + [cut], end)) == text[..end]
  {
    hide Joined, Slice;
    assert (cuts + [cut])[..|cuts|] == cuts;
    assert ClosedPieces(text, cuts + [cut]) == PiecesTo(text, cuts, cut);
    JoinedSnoc(PiecesTo(text, cuts, cut), Slice(text, cut + 1, end));
    SliceIs(text, cut + 1, end);
    assert text[..end] == text[..cut] + "," + text[cut + 1..end];
  }

  lemma SliceIs(text: string, from: nat, end: nat)
    requires from <= end <= |text|
    ensures Slice(text, from, end) == text[from..end]
  {
  }

  lemma JoinedSnoc(parts: seq<string>, last: string)
    requires parts != []
    ensures Joined(parts + [last]) == Joined(parts) + "," + last
  {
    assert (parts + [last])[..|parts|] == parts;
  }

  /** A split over a mask whose commas are the plain commas of the text cuts exactly at those
      of depth zero, and its parts rejoin to the text. */
  lemma PlainSplit(text: string, kinds: seq<Kind>)
    requires |kinds| == |text|
    requires forall i :: 0 <= i < |text| && text[i] == ',' ==> kinds[i] != Delimiter
    ensures var masked := Applied(text, kinds);
            var cuts := Cuts(masked, |masked|);
            && Joined(PiecesTo(text, cuts, |text|)) == text
            && (forall i :: i in cuts <==>
                  0 <= i < |text| && text[i] == ',' && kinds[i] == Plain && Depth(masked, 0, i) == 0)
  {
    var masked := Applied(text, kinds);
    CutsExact(masked, |masked|);
    assert forall i :: 0 <= i < |text| ==> (masked[i] == ',' <==> text[i] == ',' && kinds[i] == Plain);
    PiecesRejoin(text, masked, |masked|, |text|);
    assert text[..|text|] == text;
  }

  /** On Java source the split cuts exactly at the top-level commas of the program text, and
      its parts rejoin to the text. */
  lemma JavaSplit(text: string)
    ensures var masked := JavaMasker.JavaMask(text);
            var cuts := Cuts(masked, |masked|);
            && Joined(PiecesTo(text, cuts, |text|)) == text
            && (forall i :: i in cuts <==>
                  && 0 <= i < |text| && text[i] == ',' && Depth(masked, 0, i) == 0
                  && JavaMasker.Kinds(text, 0, JavaMasker.Code)[i] == Plain)
  {
    var kinds := JavaMasker.Kinds(text, 0, JavaMasker.Code);
    forall i | 0 <= i < |text| && text[i] == ',' ensures kinds[i] != Delimiter {
      if kinds[i] == Delimiter {
        JavaMasker.DelimiterIsQuote(text, 0, JavaMasker.Code, i);
      }
    }
    PlainSplit(text, kinds);
  }

  /** On Rust source the split cuts exactly at the top-level commas of the program text and at
      those that leak out of an unclosed raw string; without such a leak, at the former alone. */
  lemma RustSplit(text: string)
    ensures var masked := RustMasker.RustMask(text);
            var cuts := Cuts(masked, |masked|);
            && Joined(PiecesTo(text, cuts, |text|)) == text
            && (forall i :: i in cuts <==>
                  && 0 <= i < |text| && text[i] == ',' && Depth(masked, 0, i) == 0
                  && (RustMasker.Kinds(text, 0, RustMasker.Code)[i] == Plain || RustMasker.LeaksAt(text, i)))
            && (forall i :: i in cuts ==>
                  (RustMasker.Kinds(text, 0, RustMasker.Code)[i] == Plain <==> !RustMasker.LeaksAt(text, i)))
  {
    hide RustMasker.Next;
    var kinds := RustMasker.MaskKinds(text, 0, RustMasker.Code);
    forall i | 0 <= i < |text| && text[i] == ','
      ensures kinds[i] != Delimiter
      ensures kinds[i] == Plain <==>
                RustMasker.Kinds(text, 0, RustMasker.Code)[i] == Plain || RustMasker.LeaksAt(text, i)
      ensures RustMasker.LeaksAt(text, i) ==> RustMasker.Kinds(text, 0, RustMasker.Code)[i] == Hidden
    {
      RustMasker.KindAt(text, 0, RustMasker.Code, i);
      RustMasker.LeakIsHidden(text, i, RustMasker.ModeAt(text, 0, RustMasker.Code, i));
      if RustMasker.Kinds(text, 0, RustMasker.Code)[i] == Delimiter {
        RustMasker.DelimiterIsMark(text, i);
      }
    }
    PlainSplit(text, kinds);
  }

  /** The split cuts inside the unclosed raw string `r",`. */
  lemma LeakingCut()
    ensures var masked := RustMasker.RustMask(['r', '"', ',']);
            2 in Cuts(masked, 3) && !(2 in Cuts(RustMasker.StrictMask(['r', '"', ',']), 3))
  {
    var s := ['r', '"', ','];
    RustMasker.LeakingComma();
    RustMasker.RustMaskIsMask(s);
    var masked, strict := RustMasker.RustMask(s), RustMasker.StrictMask(s);
    CutsExact(masked, 3);
    CutsExact(strict, 3);
    assert Depth(masked, 0, 1) == Depth(masked, 0, 0) + Weight(masked[0]);
    assert Depth(masked, 0, 2) == Depth(masked, 0, 1) + Weight(masked[1]);
  }
}
