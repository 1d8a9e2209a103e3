/** Searching, splitting and joining strings. */
module Text {
  import opened Wrappers

  predicate IsDigit(c: char) { '0' <= c <= '9' }

  /** The first position of `c` from `i` on, or the length of `s`. */
  function Find(s: string, c: char, i: nat): (r: nat)
    requires i <= |s|
    ensures i <= r <= |s| && (r < |s| ==> s[r] == c)
    ensures forall j :: i <= j < r ==> s[j] != c
    decreases |s| - i
  {
    if i == |s| || s[i] == c then i else Find(s, c, i + 1)
  }

  /** The text before and behind the first `c`, if there is one. */
  function SplitOnce(s: string, c: char): (r: Option<(string, string)>)
    ensures r.Some? ==> s == r.value.0 + [c] + r.value.1 && c !in r.value.0 && |r.value.1| < |s|
    ensures r.None? <==> c !in s
  {
    var i := Find(s, c, 0);
    if i < |s| then Some((s[..i], s[i + 1..])) else None
  }

  /** The pieces of `s` between the occurrences of `c`; always at least one. */
  function Split(s: string, c: char): (r: seq<string>)
    ensures r != []
    decreases |s|
  {
    var once := SplitOnce(s, c);
    if once.None? then [s] else [once.value.0] + Split(once.value.1, c)
  }

  /** Pieces put together with `c` between them. */
  function Join(pieces: seq<string>, c: char): string
    requires pieces != []
  {
    if |pieces| == 1 then pieces[0] else pieces[0] + [c] + Join(pieces[1..], c)
  }

  lemma {:induction false} JoinSplit(s: string, c: char)
    ensures Join(Split(s, c), c) == s
    ensures forall i :: 0 <= i < |Split(s, c)| ==> c !in Split(s, c)[i]
    decreases |s|
  {
    var once := SplitOnce(s, c);
    if once.Some? {
      var (head, tail) := once.value;
      JoinSplit(tail, c);
      assert Split(s, c)[1..] == Split(tail, c);
    }
  }

  lemma SplitOnceOf(head: string, tail: string, c: char)
    requires c !in head
    ensures SplitOnce(head + [c] + tail, c) == Some((head, tail))
  {
    var s := head + [c] + tail;
    assert s[|head|] == c;
    assert forall i :: 0 <= i < |head| ==> s[i] == head[i];
    assert s[..|head|] == head && s[|head| + 1..] == tail;
  }

  lemma {:induction false} SplitJoin(pieces: seq<string>, c: char)
    requires pieces != [] && forall i :: 0 <= i < |pieces| ==> c !in pieces[i]
    ensures Split(Join(pieces, c), c) == pieces
  {
    if |pieces| == 1 {
      assert pieces == [pieces[0]];
    } else {
      SplitJoin(pieces[1..], c);
      SplitOnceOf(pieces[0], Join(pieces[1..], c), c);
      assert pieces == [pieces[0]] + pieces[1..];
    }
  }

  lemma {:induction false} JoinSnoc(pieces: seq<string>, last: string, c: char)
    requires pieces != []
    ensures Join(pieces + [last], c) == Join(pieces, c) + [c] + last
  {
    var all := pieces + [last];
    assert all[1..] == pieces[1..] + [last];
    if |pieces| > 1 {
      JoinSnoc(pieces[1..], last, c);
    } else {
      assert all[1..] == [last] && pieces == [pieces[0]];
    }
  }

  /** A character of the joined text is one of a piece or the joint. */
  lemma {:induction false} JoinHas(pieces: seq<string>, c: char, x: char)
    requires pieces != [] && x != c && forall i :: 0 <= i < |pieces| ==> x !in pieces[i]
    ensures x !in Join(pieces, c)
  {
    if |pieces| > 1 {
      JoinHas(pieces[1..], c, x);
    }
  }
}
