/** The entities of the audio graph: node ids, connections, nodes and the abstract
    signal-processing operations that the graph code calls but never looks into. */
module AudioGraph {
  import opened Wrappers
  import opened Digraph

  type NodeId = nat

  const DESTINATION_NODE_ID: NodeId := 0

  datatype Connection = Connection(src: NodeId, srcOutput: nat, dst: NodeId, dstInput: nat)

  /** A node's port counts are fixed when it is created; rendering changes only `state`. */
  datatype Node<S> = Node(inputPorts: nat, outputPorts: nat, state: S)

  /** Sample arithmetic and node processors as uninterpreted total operations.

      `step(state, input, length, frames)` is one call of a node's `process`: it returns
      the new state and the sample written at each index below `length`. Nothing about
      `add` is assumed, in particular neither associativity nor commutativity. */
  datatype Dsp<!S, !A> = Dsp(
    zero: A,
    add: (A, A) -> A,
    mean: seq<A> -> A,
    step: (S, seq<A>, nat, nat) -> (S, nat -> A),
    finished: S -> bool,
    producing: S -> bool)

  datatype Graph<S> = Graph(nodes: map<NodeId, Node<S>>, connections: seq<Connection>)

  predicate IsLive(ids: set<NodeId>, c: Connection) {
    c.src in ids && c.dst in ids
  }

  /** The arcs between existing nodes. Connections that name a missing node are dangling
      and contribute nothing. */
  ghost function LiveArcs(ids: set<NodeId>, connections: seq<Connection>): Arcs {
    set c | c in connections && IsLive(ids, c) :: (c.src, c.dst)
  }

  /** `connections` without those that touch an id of `gone`, in their old order. */
  function Without(connections: seq<Connection>, gone: set<NodeId>): (r: seq<Connection>)
    ensures forall c :: c in r <==> c in connections && c.src !in gone && c.dst !in gone
  {
    if connections == [] then []
    else
      var last := connections[|connections| - 1];
      Without(connections[..|connections| - 1], gone)
      + if last.src !in gone && last.dst !in gone then [last] else []
  }

  /** Cutting works connection by connection, so what stays keeps its order. */
  lemma WithoutSnoc(connections: seq<Connection>, c: Connection, gone: set<NodeId>)
    ensures Without([], gone) == []
    ensures c.src in gone || c.dst in gone ==> Without(connections + [c], gone) == Without(connections, gone)
    ensures c.src !in gone && c.dst !in gone ==> Without(connections + [c], gone) == Without(connections, gone) + [c]
  {
    assert (connections + [c])[..|connections|] == connections;
  }

  predicate NoDuplicates<T(==)>(s: seq<T>) {
    forall i, j :: 0 <= i < j < |s| ==> s[i] != s[j]
  }

  lemma {:induction false} WithoutTwice(connections: seq<Connection>, a: set<NodeId>, b: set<NodeId>)
    ensures Without(Without(connections, a), b) == Without(connections, a + b)
  {
    if connections != [] {
      var last := connections[|connections| - 1];
      var init := connections[..|connections| - 1];
      WithoutTwice(init, a, b);
      if last.src !in a && last.dst !in a {
        assert Without(connections, a)[..|Without(init, a)|] == Without(init, a);
      } else {
        assert Without(connections, a) == Without(init, a);
      }
    }
  }

  lemma {:induction false} WithoutNone(connections: seq<Connection>)
    ensures Without(connections, {}) == connections
  {
    if connections != [] {
      var init, last := connections[..|connections| - 1], connections[|connections| - 1];
      WithoutNone(init);
      assert connections == init + [last];
    }
  }

  lemma {:induction false} WithoutKeepsDistinct(connections: seq<Connection>, gone: set<NodeId>)
    requires NoDuplicates(connections)
    ensures NoDuplicates(Without(connections, gone))
  {
    if connections != [] {
      WithoutKeepsDistinct(connections[..|connections| - 1], gone);
    }
  }

  /** `connections` without those out of `src`, or out of `src` into `dst` if one is given. */
  function Disconnected(connections: seq<Connection>, src: NodeId, dst: Option<NodeId>): (r: seq<Connection>)
    ensures forall c :: c in r <==> c in connections && !(c.src == src && (dst.None? || dst.value == c.dst))
    ensures |r| <= |connections| && (|r| == |connections| ==> r == connections)
  {
    if connections == [] then []
    else
      var last := connections[|connections| - 1];
      Disconnected(connections[..|connections| - 1], src, dst)
      + if last.src == src && (dst.None? || dst.value == last.dst) then [] else [last]
  }

  /** So does disconnecting: exactly the connections out of `src`, or out of `src` into the given
      target, go, and what stays keeps its order. */
  lemma DisconnectedSnoc(connections: seq<Connection>, c: Connection, src: NodeId, dst: Option<NodeId>)
    ensures Disconnected([], src, dst) == []
    ensures c.src == src && dst in {None, Some(c.dst)} ==>
              Disconnected(connections + [c], src, dst) == Disconnected(connections, src, dst)
    ensures !(c.src == src && dst in {None, Some(c.dst)}) ==>
              Disconnected(connections + [c], src, dst) == Disconnected(connections, src, dst) + [c]
  {
    assert (connections + [c])[..|connections|] == connections;
  }

  lemma {:induction false} DisconnectedKeepsDistinct(connections: seq<Connection>, src: NodeId, dst: Option<NodeId>)
    requires NoDuplicates(connections)
    ensures NoDuplicates(Disconnected(connections, src, dst))
  {
    if connections != [] {
      DisconnectedKeepsDistinct(connections[..|connections| - 1], src, dst);
    }
  }
}
