/** Which nodes a collection pass keeps, stated without reference to the passes.

    `prune` removes collectible nodes one at a time, in whatever order the node map
    happens to enumerate them. The survivors do not depend on that order. */
module Collector {
  import opened Digraph
  import opened AudioGraph

  /** The graph as a collection finds it. */
  datatype Snapshot = Snapshot(
    ids: set<NodeId>,
    finished: set<NodeId>,
    producing: set<NodeId>,
    released: set<NodeId>,
    connections: seq<Connection>)

  /** `v` would be taken by a pass that finds exactly the nodes `left` still present. */
  predicate Collectible(s: Snapshot, left: set<NodeId>, v: NodeId) {
    v in left && v != DESTINATION_NODE_ID
    && (v in s.finished
        || (v in s.released && v !in s.producing && !HasLiveInput(s.connections, left, v)))
  }

  predicate HasLiveInput(connections: seq<Connection>, left: set<NodeId>, v: NodeId) {
    exists c :: c in connections && c.dst == v && c.src in left
  }

  /** Nodes that no pass can take for having finished. */
  ghost function Unfinished(s: Snapshot): set<NodeId> {
    set v | v in s.ids && (v == DESTINATION_NODE_ID || v !in s.finished)
  }

  ghost function UnfinishedArcs(s: Snapshot): Arcs {
    LiveArcs(Unfinished(s), s.connections)
  }

  /** A node that keeps itself: the destination, one JavaScript still holds, one that can
      still sound, or one that feeds itself around a cycle. */
  ghost predicate IsRoot(s: Snapshot, v: NodeId) {
    v in Unfinished(s)
    && (v == DESTINATION_NODE_ID || v !in s.released || v in s.producing || OnCycle(UnfinishedArcs(s), v))
  }

  /** `v` is reachable from a root through unfinished nodes. */
  ghost predicate Survives(s: Snapshot, v: NodeId) {
    v in Unfinished(s) && exists r :: IsRoot(s, r) && Reaches(UnfinishedArcs(s), r, v)
  }

  ghost function Survivors(s: Snapshot): set<NodeId> {
    set v | v in s.ids && Survives(s, v)
  }

  lemma SurvivorsExist(s: Snapshot)
    ensures Survivors(s) <= Unfinished(s) && Survivors(s) <= s.ids
  {
  }

  lemma RootSurvives(s: Snapshot, v: NodeId)
    requires IsRoot(s, v)
    ensures v in Survivors(s)
  {
    ReachesSelf(UnfinishedArcs(s), v);
  }

  /** Feeding from a survivor makes an unfinished node a survivor. */
  lemma FedSurvives(s: Snapshot, u: NodeId, v: NodeId)
    requires u in Survivors(s) && (u, v) in UnfinishedArcs(s)
    ensures v in Survivors(s)
  {
    var r :| IsRoot(s, r) && Reaches(UnfinishedArcs(s), r, u);
    ExtendWalk(UnfinishedArcs(s), r, u, v);
  }

  /** A survivor that is not kept for its own sake is fed by a survivor. */
  lemma SurvivorIsFed(s: Snapshot, v: NodeId) returns (u: NodeId)
    requires v in Survivors(s)
    requires v != DESTINATION_NODE_ID && v in s.released && v !in s.producing
    ensures u in Survivors(s) && (u, v) in UnfinishedArcs(s)
  {
    var arcs := UnfinishedArcs(s);
    var r :| IsRoot(s, r) && Reaches(arcs, r, v);
    if r == v {
      u := CyclePredecessor(arcs, v);
      RootSurvives(s, u);
    } else {
      u := LastArc(arcs, r, v);
    }
  }

  /** No pass takes a survivor, however many non-survivors are already gone. */
  lemma VictimIsNoSurvivor(s: Snapshot, left: set<NodeId>, v: NodeId)
    requires Survivors(s) <= left <= s.ids
    requires Collectible(s, left, v)
    ensures v !in Survivors(s)
  {
    if v in Survivors(s) {
      var u := SurvivorIsFed(s, v);
    }
  }

  /** When nothing is collectible any more, only survivors are left. */
  lemma QuiescentIsSurvivors(s: Snapshot, left: set<NodeId>)
    requires Survivors(s) <= left <= s.ids
    requires Quiescent(s, left)
    ensures left == Survivors(s)
  {
    var arcs := UnfinishedArcs(s);
    var rest := left - Survivors(s);
    if rest != {} {
      forall v | v in rest ensures HasPredecessor(arcs, rest, v) {
        if IsRoot(s, v) {
          RootSurvives(s, v);
        }
        var c :| c in s.connections && c.dst == v && c.src in left;
        assert IsLive(Unfinished(s), c);
        if c.src in Survivors(s) {
          FedSurvives(s, c.src, v);
        }
      }
      var c := PredecessorClosedHasCycle(arcs, rest);
      RootSurvives(s, c);
    }
    assert left == Survivors(s) + rest;
  }

  /** `kept` is what every maximal sequence of passes ends with: no pass takes a node of it,
      and passes stop only at it. */
  ghost predicate IsKernel(s: Snapshot, kept: set<NodeId>) {
    && kept <= s.ids
    && (forall left, v :: kept <= left <= s.ids && Collectible(s, left, v) ==> v !in kept)
    && (forall left :: kept <= left <= s.ids && Quiescent(s, left) ==> left == kept)
  }

  ghost predicate Quiescent(s: Snapshot, left: set<NodeId>) {
    forall v :: v in left ==> !Collectible(s, left, v)
  }

  lemma SurvivorsAreKernel(s: Snapshot)
    ensures IsKernel(s, Survivors(s))
  {
    forall left, v | Survivors(s) <= left <= s.ids && Collectible(s, left, v) ensures v !in Survivors(s) {
      VictimIsNoSurvivor(s, left, v);
    }
    forall left | Survivors(s) <= left <= s.ids && Quiescent(s, left) ensures left == Survivors(s) {
      QuiescentIsSurvivors(s, left);
    }
  }

  /** A finished node goes unless it is the destination; the destination always stays. */
  lemma FinishedNeverSurvives(s: Snapshot, v: NodeId)
    requires v in s.ids && (v == DESTINATION_NODE_ID || v in s.finished)
    ensures v in Survivors(s) <==> v == DESTINATION_NODE_ID
  {
    if v == DESTINATION_NODE_ID {
      RootSurvives(s, v);
    }
  }

  /** When everything but the destination is released and silent, what survives is exactly what
      the destination or a directed cycle of unfinished nodes feeds: a dropped feedback loop is
      never collected. */
  lemma ReleasedSurvivors(s: Snapshot, v: NodeId)
    requires s.producing == {} && s.ids - {DESTINATION_NODE_ID} <= s.released && v in s.ids
    ensures var arcs := UnfinishedArcs(s);
            v in Survivors(s) <==>
              && v in Unfinished(s)
              && ((DESTINATION_NODE_ID in s.ids && Reaches(arcs, DESTINATION_NODE_ID, v))
                  || exists c :: OnCycle(arcs, c) && Reaches(arcs, c, v))
  {
    var arcs := UnfinishedArcs(s);
    if v in Survivors(s) {
      var r :| IsRoot(s, r) && Reaches(arcs, r, v);
    }
    if v in Unfinished(s) && DESTINATION_NODE_ID in s.ids && Reaches(arcs, DESTINATION_NODE_ID, v) {
      assert IsRoot(s, DESTINATION_NODE_ID);
    }
    if v in Unfinished(s) {
      if c :| OnCycle(arcs, c) && Reaches(arcs, c, v) {
        var u := CyclePredecessor(arcs, c);
        assert IsRoot(s, c);
      }
    }
  }

  /** What stays can all still be heard exactly when, from every node that keeps itself, each node
      that is reachable through unfinished nodes has a way on to the destination. */
  lemma SurvivorsAreHeard(s: Snapshot)
    ensures var arcs := UnfinishedArcs(s);
            (forall v :: v in Survivors(s) ==> Reaches(arcs, v, DESTINATION_NODE_ID))
            <==> (forall r, v :: IsRoot(s, r) && Reaches(arcs, r, v) ==> Reaches(arcs, v, DESTINATION_NODE_ID))
  {
    var arcs := UnfinishedArcs(s);
    forall r, v | IsRoot(s, r) && Reaches(arcs, r, v) ensures v in Survivors(s) {
      ReachedExists(s, r, v);
    }
    forall v | v in Survivors(s) ensures exists r :: IsRoot(s, r) && Reaches(arcs, r, v) {
    }
  }

  lemma ReachedExists(s: Snapshot, r: NodeId, v: NodeId)
    requires r in Unfinished(s) && Reaches(UnfinishedArcs(s), r, v)
    ensures v in Unfinished(s)
  {
    var p :| WalkFromTo(UnfinishedArcs(s), p, r, v);
    if |p| > 1 {
      assert (p[|p| - 2], p[|p| - 1]) in UnfinishedArcs(s);
    }
  }

  /** A released node that feeds itself and a released source wired nowhere both stay, and neither
      can be heard. */
  lemma UnheardSurvivors()
    ensures var loop := Snapshot({0, 1}, {}, {}, {1}, [Connection(1, 0, 1, 0)]);
            1 in Survivors(loop) && !Reaches(UnfinishedArcs(loop), 1, DESTINATION_NODE_ID)
    ensures var loose := Snapshot({0, 1}, {}, {1}, {1}, []);
            1 in Survivors(loose) && !Reaches(UnfinishedArcs(loose), 1, DESTINATION_NODE_ID)
  {
    var loop := Snapshot({0, 1}, {}, {}, {1}, [Connection(1, 0, 1, 0)]);
    assert loop.connections[0] in loop.connections;
    assert (1, 1) in UnfinishedArcs(loop);
    ArcPrecedes(UnfinishedArcs(loop), 1, 1);
    RootSurvives(loop, 1);
    NoWayIn(UnfinishedArcs(loop), 1);
    var loose := Snapshot({0, 1}, {}, {1}, {1}, []);
    RootSurvives(loose, 1);
    NoWayIn(UnfinishedArcs(loose), 1);
  }

  lemma NoWayIn(arcs: Arcs, v: nat)
    requires v != DESTINATION_NODE_ID && forall u :: (u, DESTINATION_NODE_ID) !in arcs
    ensures !Reaches(arcs, v, DESTINATION_NODE_ID)
  {
    forall p | |p| >= 2 && p[|p| - 1] == DESTINATION_NODE_ID ensures !IsWalk(arcs, p) {
      assert (p[|p| - 2], p[|p| - 1]) !in arcs;
    }
  }

  /** What is left of a snapshot once only the nodes of `left` exist. */
  ghost function Remaining(s: Snapshot, left: set<NodeId>): Snapshot {
    Snapshot(left, s.finished * left, s.producing * left, s.released * left, Without(s.connections, s.ids - left))
  }

  /** Collecting looks only at what is left. */
  lemma CollectibleAgrees(s: Snapshot, left: set<NodeId>, v: NodeId)
    requires left <= s.ids && v in left
    ensures Collectible(Remaining(s, left), left, v) <==> Collectible(s, left, v)
  {
    forall c | c in s.connections && c.dst == v && c.src in left ensures c in Without(s.connections, s.ids - left) {
    }
  }

  /** Collecting again finds nothing: what stayed once stays. */
  lemma CollectAgain(s: Snapshot)
    ensures Survivors(Remaining(s, Survivors(s))) == Survivors(s)
  {
    var kept := Survivors(s);
    var left := Remaining(s, kept);
    forall v | v in kept ensures !Collectible(left, kept, v) {
      CollectibleAgrees(s, kept, v);
      if Collectible(s, kept, v) {
        VictimIsNoSurvivor(s, kept, v);
      }
    }
    QuiescentIsSurvivors(left, kept);
  }

  lemma RemainingNext(s: Snapshot, left: set<NodeId>, v: NodeId)
    requires left <= s.ids && v in left
    ensures Remaining(s, left - {v}).connections == Without(Remaining(s, left).connections, {v})
  {
    WithoutTwice(s.connections, s.ids - left, {v});
    assert (s.ids - left) + {v} == s.ids - (left - {v});
  }

  /** Before the first pass, everything is left. */
  lemma RemainingAll(s: Snapshot)
    requires s.finished <= s.ids && s.producing <= s.ids && s.released <= s.ids
    ensures Remaining(s, s.ids) == s
  {
    WithoutNone(s.connections);
    assert s.ids - s.ids == {};
  }
}
