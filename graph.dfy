/**
 * The graph aggregate of src/graph/graph.rs: a node map keyed by node id, a
 * counter that mints node ids, and a root node held outside the map.  Edges
 * live only inside the nodes' edge maps; the graph reaches them by scanning.
 *
 * The first half of the module gives each state change as a function on the
 * node map, with its properties; the class `Graph` then performs the changes
 * in place, each method's postcondition tying the new map to its function.
 */
module Graphs {
  import opened Wrappers
  import opened EdgeTraits
  import opened NodeTraits
  import opened Ids
  import Edges
  import opened Nodes

  type NodeMap = map<string, Node>

  /** Node `k` is stored and holds a record under `edgeId`. */
  predicate HoldsEdge(ns: NodeMap, k: string, edgeId: string)
  {
    k in ns && edgeId in ns[k].edges
  }

  /** Some stored node holds a record under `edgeId`. */
  predicate HasEdge(ns: NodeMap, edgeId: string)
  {
    exists k :: k in ns && edgeId in ns[k].edges
  }

  /** All records stored under `edgeId`, on whichever nodes hold one. */
  function Records(ns: NodeMap, edgeId: string): (rs: set<Edges.Edge>)
    ensures rs == {} <==> !HasEdge(ns, edgeId)
  {
    var rs := set k | k in ns && edgeId in ns[k].edges :: ns[k].edges[edgeId];
    assert HasEdge(ns, edgeId) ==> exists k :: HoldsEdge(ns, k, edgeId) && ns[k].edges[edgeId] in rs;
    rs
  }

  // ---- Node payload -------------------------------------------------------

  /** `add_text_data` / `add_binary_data`: an absent node is ignored;
      otherwise that node, and only it, becomes `add_data`'s result. */
  function AppendData(ns: NodeMap, nodeId: string, v: DataValue): (r: NodeMap)
    ensures r.Keys == ns.Keys
    ensures forall k :: k in ns && k != nodeId ==> r[k] == ns[k]
    ensures nodeId in ns ==> r[nodeId] == AddData(ns[nodeId], v)
    ensures nodeId !in ns ==> r == ns
  {
    if nodeId in ns then ns[nodeId := AddData(ns[nodeId], v)] else ns
  }

  // ---- Creating edges -----------------------------------------------------

  /** `add_undirected_edge(a, b)`: one record, built by `Edge::new`, goes to
      node `a` and its `reverse` (an identical record) to node `b`, both under
      the id `"<a>_<b>_undirected"`.  An absent side is skipped; no other node
      changes. */
  function LinkUndirected(ns: NodeMap, a: string, b: string, createdAt: nat, updatedAt: nat): (r: NodeMap)
    ensures r.Keys == ns.Keys
    ensures forall k :: k in ns && k != a && k != b ==> r[k] == ns[k]
    ensures a in ns ==> r[a] == AddEdge(ns[a], Edges.New(UndirectedEdgeId(a, b), a, b, createdAt, updatedAt))
    ensures b in ns ==> r[b] == AddEdge(ns[b], Edges.Reverse(Edges.New(UndirectedEdgeId(a, b), a, b, createdAt, updatedAt)))
  {
    var e := Edges.New(UndirectedEdgeId(a, b), a, b, createdAt, updatedAt);
    var m := if a in ns then ns[a := AddEdge(ns[a], e)] else ns;
    if b in m then m[b := AddEdge(m[b], Edges.Reverse(e))] else m
  }

  /** `add_directed_edge(a, b)`: only node `a` changes, gaining the record
      `Edge::new("<a>_<b>_directed", a, b)`, whose type tag is still
      Undirected. */
  function LinkDirected(ns: NodeMap, a: string, b: string, createdAt: nat, updatedAt: nat): (r: NodeMap)
    ensures r.Keys == ns.Keys
    ensures forall k :: k in ns && k != a ==> r[k] == ns[k]
    ensures a in ns ==> r[a] == AddEdge(ns[a], Edges.New(DirectedEdgeId(a, b), a, b, createdAt, updatedAt))
    ensures a in ns ==> r[a].edges[DirectedEdgeId(a, b)].edgeType == Undirected
  {
    var e := Edges.New(DirectedEdgeId(a, b), a, b, createdAt, updatedAt);
    if a in ns then ns[a := AddEdge(ns[a], e)] else ns
  }

  /** After an undirected link of two stored nodes both hold the same record,
      with the endpoints as given (not swapped on `b`'s side); when no node
      held the id before, only `a` and `b` hold it and it is the only record
      under that id. */
  lemma LinkUndirectedRecords(ns: NodeMap, a: string, b: string, createdAt: nat, updatedAt: nat)
    requires a in ns || b in ns
    ensures var id := UndirectedEdgeId(a, b);
            var r := LinkUndirected(ns, a, b, createdAt, updatedAt);
            var e := Edges.New(id, a, b, createdAt, updatedAt);
            && (a in ns ==> HoldsEdge(r, a, id) && r[a].edges[id] == e)
            && (b in ns ==> HoldsEdge(r, b, id) && r[b].edges[id] == e)
            && (!HasEdge(ns, id) ==> Records(r, id) == {e})
            && (!HasEdge(ns, id) ==> forall k :: HoldsEdge(r, k, id) ==> k == a || k == b)
  {
    var id := UndirectedEdgeId(a, b);
    var r := LinkUndirected(ns, a, b, createdAt, updatedAt);
    var e := Edges.New(id, a, b, createdAt, updatedAt);
    if !HasEdge(ns, id) {
      forall k | HoldsEdge(r, k, id)
        ensures (k == a || k == b) && r[k].edges[id] == e
      {
      }
      var w := if a in ns then a else b;
      assert HoldsEdge(r, w, id) && r[w].edges[id] == e;
    }
  }

  /** A directed link gives `a`, and no other node, the new id; when no node
      held it before, that record is the only one. */
  lemma LinkDirectedRecords(ns: NodeMap, a: string, b: string, createdAt: nat, updatedAt: nat)
    requires a in ns
    ensures var id := DirectedEdgeId(a, b);
            var r := LinkDirected(ns, a, b, createdAt, updatedAt);
            var e := Edges.New(id, a, b, createdAt, updatedAt);
            && HoldsEdge(r, a, id) && r[a].edges[id] == e
            && (!HasEdge(ns, id) ==> Records(r, id) == {e})
            && (!HasEdge(ns, id) ==> forall k :: HoldsEdge(r, k, id) ==> k == a)
  {
    var id := DirectedEdgeId(a, b);
    var r := LinkDirected(ns, a, b, createdAt, updatedAt);
    if !HasEdge(ns, id) {
      forall k | HoldsEdge(r, k, id)
        ensures k == a
      {
      }
    }
  }

  // ---- Changing an edge ---------------------------------------------------

  /** Overwrites the one record under `edgeId` on node `owner`; every other
      record on every node, and every other field of `owner`, is unchanged. */
  function ReplaceEdge(ns: NodeMap, owner: string, edgeId: string, e: Edges.Edge): (r: NodeMap)
    requires HoldsEdge(ns, owner, edgeId)
    ensures r.Keys == ns.Keys
    ensures forall k :: k in ns && k != owner ==> r[k] == ns[k]
    ensures r[owner].(edges := ns[owner].edges) == ns[owner]
    ensures r[owner].edges.Keys == ns[owner].edges.Keys
    ensures r[owner].edges[edgeId] == e
    ensures forall x :: x in ns[owner].edges && x != edgeId ==> r[owner].edges[x] == ns[owner].edges[x]
  {
    ns[owner := ns[owner].(edges := ns[owner].edges[edgeId := e])]
  }

  /** Changing an undirected edge through one owner leaves the mirror record
      on the other endpoint as it was. */
  lemma ReplaceEdgeLeavesMirror(ns: NodeMap, owner: string, other: string, edgeId: string, e: Edges.Edge)
    requires HoldsEdge(ns, owner, edgeId) && HoldsEdge(ns, other, edgeId) && owner != other
    ensures ReplaceEdge(ns, owner, edgeId, e)[other].edges[edgeId] == ns[other].edges[edgeId]
  {
  }

  // ---- Deleting edges -----------------------------------------------------

  /** `remove_edge` on node `nodeId` when it is stored; otherwise nothing. */
  function RemoveEdgeAt(ns: NodeMap, nodeId: string, edgeId: string): (r: NodeMap)
    ensures r.Keys == ns.Keys
    ensures forall k :: k in ns && k != nodeId ==> r[k] == ns[k]
    ensures nodeId in ns ==> r[nodeId] == RemoveEdge(ns[nodeId], edgeId)
  {
    if nodeId in ns then ns[nodeId := RemoveEdge(ns[nodeId], edgeId)] else ns
  }

  /** `delete_undirected_edge` once the scan has found record `e`: the id is
      removed from the start node and from the end node `e` names (when
      stored), whichever node `e` was found on; every other node, and every
      other record, is unchanged. */
  function DeleteUndirected(ns: NodeMap, e: Edges.Edge, edgeId: string): (r: NodeMap)
    ensures r.Keys == ns.Keys
    ensures forall k :: k in ns ==>
              r[k] == if k == e.startNodeId || k == e.endNodeId then RemoveEdge(ns[k], edgeId) else ns[k]
  {
    RemoveEdgeAt(RemoveEdgeAt(ns, e.startNodeId, edgeId), e.endNodeId, edgeId)
  }

  /** `delete_directed_edge` once the scan has found record `e`: the id is
      removed from the start node `e` names only. */
  function DeleteDirected(ns: NodeMap, e: Edges.Edge, edgeId: string): (r: NodeMap)
    ensures r.Keys == ns.Keys
    ensures forall k :: k in ns ==>
              r[k] == if k == e.startNodeId then RemoveEdge(ns[k], edgeId) else ns[k]
  {
    RemoveEdgeAt(ns, e.startNodeId, edgeId)
  }

  /** `delete_edge` when the scan finds record `e`: the type tag picks the
      deletion; the unset tag `None` deletes nothing. */
  function DeleteEdgeWith(ns: NodeMap, e: Edges.Edge, edgeId: string): (r: NodeMap)
    ensures e.edgeType.Undirected? ==> r == DeleteUndirected(ns, e, edgeId)
    ensures e.edgeType.Directed? ==> r == DeleteDirected(ns, e, edgeId)
    ensures e.edgeType.None? ==> r == ns
  {
    match e.edgeType
    case Undirected => DeleteUndirected(ns, e, edgeId)
    case Directed => DeleteDirected(ns, e, edgeId)
    case None => ns
  }

  /** When every holder of the id is an endpoint of `e`, the undirected
      deletion leaves the id on no node at all. */
  lemma DeleteUndirectedClears(ns: NodeMap, e: Edges.Edge, edgeId: string)
    requires forall k :: HoldsEdge(ns, k, edgeId) ==> k == e.startNodeId || k == e.endNodeId
    ensures !HasEdge(DeleteUndirected(ns, e, edgeId), edgeId)
  {
    var r := DeleteUndirected(ns, e, edgeId);
    forall k | k in r
      ensures edgeId !in r[k].edges
    {
      if k != e.startNodeId && k != e.endNodeId {
        assert !HoldsEdge(ns, k, edgeId);
      }
    }
  }

  /** When the start node of `e` is the only holder of the id, the directed
      deletion leaves the id on no node at all. */
  lemma DeleteDirectedClears(ns: NodeMap, e: Edges.Edge, edgeId: string)
    requires forall k :: HoldsEdge(ns, k, edgeId) ==> k == e.startNodeId
    ensures !HasEdge(DeleteDirected(ns, e, edgeId), edgeId)
  {
    var r := DeleteDirected(ns, e, edgeId);
    forall k | k in r
      ensures edgeId !in r[k].edges
    {
      if k != e.startNodeId {
        assert !HoldsEdge(ns, k, edgeId);
      }
    }
  }

  /** The undirected deletion of a record equals the directed one whenever
      the record's end node is its start node or holds no record under the
      id: only the start node then loses anything. */
  lemma DeleteUndirectedMatchesDirected(ns: NodeMap, e: Edges.Edge, edgeId: string)
    requires e.endNodeId == e.startNodeId || !HoldsEdge(ns, e.endNodeId, edgeId)
    ensures DeleteUndirected(ns, e, edgeId) == DeleteDirected(ns, e, edgeId)
  {
    var u, d := DeleteUndirected(ns, e, edgeId), DeleteDirected(ns, e, edgeId);
    forall k | k in ns
      ensures u[k] == d[k]
    {
      if k == e.endNodeId && k != e.startNodeId {
        assert RemoveEdge(ns[k], edgeId).edges == ns[k].edges;
      }
    }
  }

  /** Deleting one id keeps the records under every other id. */
  lemma DeleteKeepsOtherIds(ns: NodeMap, e: Edges.Edge, edgeId: string, other: string)
    requires other != edgeId
    ensures Records(DeleteEdgeWith(ns, e, edgeId), other) == Records(ns, other)
  {
    var r := DeleteEdgeWith(ns, e, edgeId);
    forall k | k in ns
      ensures (other in r[k].edges <==> other in ns[k].edges)
      ensures other in ns[k].edges ==> r[k].edges[other] == ns[k].edges[other]
    {
    }
  }

  /** Every node holding a record under `edgeId` is in `holders`. */
  predicate OnlyOn(ns: NodeMap, edgeId: string, holders: set<string>)
  {
    forall k :: k in ns && edgeId in ns[k].edges ==> k in holders
  }

  /** A directed link leaves the records under every other id, and who
      holds them, as they were. */
  lemma LinkDirectedKeepsOtherIds(ns: NodeMap, a: string, b: string, t1: nat, t2: nat,
                                  other: string, holders: set<string>)
    requires other != DirectedEdgeId(a, b)
    ensures Records(LinkDirected(ns, a, b, t1, t2), other) == Records(ns, other)
    ensures OnlyOn(ns, other, holders) ==> OnlyOn(LinkDirected(ns, a, b, t1, t2), other, holders)
  {
    var r := LinkDirected(ns, a, b, t1, t2);
    forall k | k in ns
      ensures (other in r[k].edges <==> other in ns[k].edges)
      ensures other in ns[k].edges ==> r[k].edges[other] == ns[k].edges[other]
    {
    }
  }

  /** Connecting a–b (undirected) and then a→c (directed) between stored
      nodes, with both ids new: each id has exactly one record, held only by
      its endpoints. */
  lemma ConnectBoth(ns: NodeMap, a: string, b: string, c: string, t1: nat, t2: nat, t3: nat, t4: nat)
    requires a in ns && b in ns && c in ns
    requires !HasEdge(ns, UndirectedEdgeId(a, b)) && !HasEdge(ns, DirectedEdgeId(a, c))
    ensures var ns2 := LinkDirected(LinkUndirected(ns, a, b, t1, t2), a, c, t3, t4);
            && Records(ns2, UndirectedEdgeId(a, b)) == {Edges.New(UndirectedEdgeId(a, b), a, b, t1, t2)}
            && OnlyOn(ns2, UndirectedEdgeId(a, b), {a, b})
            && Records(ns2, DirectedEdgeId(a, c)) == {Edges.New(DirectedEdgeId(a, c), a, c, t3, t4)}
            && OnlyOn(ns2, DirectedEdgeId(a, c), {a})
  {
    var u, d := UndirectedEdgeId(a, b), DirectedEdgeId(a, c);
    EdgeIdKindsDisjoint(a, b, a, c);
    var ns1 := LinkUndirected(ns, a, b, t1, t2);
    LinkUndirectedRecords(ns, a, b, t1, t2);
    assert !HasEdge(ns1, d) by {
      forall k | k in ns1
        ensures d !in ns1[k].edges
      {
        assert !HoldsEdge(ns, k, d);
      }
    }
    LinkDirectedRecords(ns1, a, c, t3, t4);
    LinkDirectedKeepsOtherIds(ns1, a, c, t3, t4, u, {a, b});
  }

  /** Deleting, with `delete_edge`, an undirected id held only by its
      endpoints and then a second id held only by its start node leaves
      neither id on any node.  (Records built by `add_directed_edge` carry the
      Undirected tag, so both deletions take the undirected path.) */
  lemma DeleteBoth(ns: NodeMap, eu: Edges.Edge, u: string, ed: Edges.Edge, d: string)
    requires u != d
    requires eu.edgeType.Undirected? && ed.edgeType.Undirected?
    requires OnlyOn(ns, u, {eu.startNodeId, eu.endNodeId})
    requires OnlyOn(ns, d, {ed.startNodeId})
    ensures var ns4 := DeleteEdgeWith(DeleteEdgeWith(ns, eu, u), ed, d);
            !HasEdge(ns4, u) && !HasEdge(ns4, d)
  {
    var ns3 := DeleteEdgeWith(ns, eu, u);
    DeleteUndirectedClears(ns, eu, u);
    DeleteKeepsOtherIds(ns, eu, u, d);
    assert OnlyOn(ns3, d, {ed.startNodeId}) by {
      forall k | HoldsEdge(ns3, k, d)
        ensures k == ed.startNodeId
      {
        assert HoldsEdge(ns, k, d);
      }
    }
    DeleteUndirectedClears(ns3, ed, d);
    DeleteKeepsOtherIds(ns3, ed, d, u);
  }

  /** The connect-and-delete scenario: connect a–b and a→c, then delete both
      ids with `delete_edge`.  Each id has a single record when it is
      deleted, so the scans have no choice to make, and afterwards neither id
      is findable on any node. */
  lemma ConnectThenDeleteBoth(ns: NodeMap, a: string, b: string, c: string,
                              t1: nat, t2: nat, t3: nat, t4: nat)
    requires a in ns && b in ns && c in ns
    requires !HasEdge(ns, UndirectedEdgeId(a, b)) && !HasEdge(ns, DirectedEdgeId(a, c))
    ensures var u, d := UndirectedEdgeId(a, b), DirectedEdgeId(a, c);
            var eu, ed := Edges.New(u, a, b, t1, t2), Edges.New(d, a, c, t3, t4);
            var ns2 := LinkDirected(LinkUndirected(ns, a, b, t1, t2), a, c, t3, t4);
            var ns4 := DeleteEdgeWith(DeleteEdgeWith(ns2, eu, u), ed, d);
            && Records(ns2, u) == {eu}
            && Records(DeleteEdgeWith(ns2, eu, u), d) == {ed}
            && !HasEdge(ns4, u) && !HasEdge(ns4, d)
  {
    var u, d := UndirectedEdgeId(a, b), DirectedEdgeId(a, c);
    var eu, ed := Edges.New(u, a, b, t1, t2), Edges.New(d, a, c, t3, t4);
    EdgeIdKindsDisjoint(a, b, a, c);
    ConnectBoth(ns, a, b, c, t1, t2, t3, t4);
    var ns2 := LinkDirected(LinkUndirected(ns, a, b, t1, t2), a, c, t3, t4);
    DeleteKeepsOtherIds(ns2, eu, u, d);
    DeleteBoth(ns2, eu, u, ed, d);
  }

  /** Deleting a node does not cascade: a peer's mirror record naming the
      deleted node stays stored and findable. */
  lemma MirrorOutlivesDeletedNode(ns: NodeMap, a: string, b: string, t1: nat, t2: nat)
    requires a in ns && b in ns && a != b
    ensures var r := LinkUndirected(ns, a, b, t1, t2) - {a};
            var id := UndirectedEdgeId(a, b);
            && a !in r
            && HoldsEdge(r, b, id)
            && r[b].edges[id] == Edges.New(id, a, b, t1, t2)
            && Edges.New(id, a, b, t1, t2) in Records(r, id)
  {
    LinkUndirectedRecords(ns, a, b, t1, t2);
  }

  // ---- The stateful graph -------------------------------------------------

  class Graph {
    var nodes: NodeMap
    var baseId: nat
    var root: Option<Node>
    /** Every id `CreateNode` has handed out so far. */
    ghost var issued: set<string>

    /** The counter starts at 1 and every id handed out carries a counter
        value below the current one. */
    ghost predicate Valid()
      reads this
    {
      && baseId >= 1
      && forall id :: id in issued ==> exists c: nat, t :: c < baseId && id == MintedId(c, t)
    }

    /** `Graph::new`: no stored nodes, counter 1, and a Primary root node
        with the reserved id, held outside the node map. */
    constructor (now: nat)
      ensures Valid()
      ensures nodes == map[] && baseId == 1 && issued == {}
      ensures root == Some(NewNode(NodeType.Primary, RootId(), now))
      ensures RootId() !in nodes
    {
      nodes := map[];
      baseId := 1;
      root := Some(NewNode(NodeType.Primary, Decimal(0) + "_root", now));
      issued := {};
    }

    /** `create_node`: mints `"<counter>_<Type>"` and advances the counter by
        one; the node is returned, not stored.  The id differs from every id
        handed out before. */
    method CreateNode(t: NodeType, now: nat) returns (n: Node, id: string)
      requires Valid()
      modifies this
      ensures Valid()
      ensures id == MintedId(old(baseId), t) && n == NewNode(t, id, now)
      ensures id !in old(issued) && issued == old(issued) + {id}
      ensures baseId == old(baseId) + 1
      ensures nodes == old(nodes) && root == old(root)
    {
      id := Decimal(baseId) + "_" + Display(t);
      forall id' | id' in issued
        ensures id' != id
      {
        var c: nat, t' :| c < baseId && id' == MintedId(c, t');
        MintedIdInjective(c, t', baseId, t);
      }
      baseId := baseId + 1;
      n := NewNode(t, id, now);
      issued := issued + {id};
      forall id' | id' in issued
        ensures exists c: nat, t' :: c < baseId && id' == MintedId(c, t')
      {
        if id' == id {
          assert id' == MintedId(baseId - 1, t);
        } else {
          var c: nat, t' :| c < old(baseId) && id' == MintedId(c, t');
        }
      }
    }

    /** `add_node`: stores `n` under its own id, silently replacing any node
        already stored there. */
    method AddNode(n: Node)
      requires Valid()
      modifies this
      ensures Valid()
      ensures nodes == old(nodes)[n.id := n]
      ensures baseId == old(baseId) && root == old(root) && issued == old(issued)
    {
      nodes := nodes[n.id := n];
    }

    /** `get_node_by_id`. */
    function GetNodeById(id: string): (r: Option<Node>)
      reads this
      ensures r.Some? <==> id in nodes
      ensures r.Some? ==> r.value == nodes[id] && r.value in nodes.Values
    {
      if id in nodes then Some(nodes[id]) else Option.None
    }

    /** `add_text_data`. */
    method AddTextData(nodeId: string, text: string)
      requires Valid()
      modifies this
      ensures Valid()
      ensures nodes == AppendData(old(nodes), nodeId, TextValue(text))
      ensures baseId == old(baseId) && root == old(root) && issued == old(issued)
    {
      if nodeId in nodes {
        nodes := nodes[nodeId := AddData(nodes[nodeId], TextValue(text))];
      }
    }

    /** `add_binary_data`. */
    method AddBinaryData(nodeId: string, bytes: seq<Byte>)
      requires Valid()
      modifies this
      ensures Valid()
      ensures nodes == AppendData(old(nodes), nodeId, BinaryValue(bytes))
      ensures baseId == old(baseId) && root == old(root) && issued == old(issued)
    {
      if nodeId in nodes {
        nodes := nodes[nodeId := AddData(nodes[nodeId], BinaryValue(bytes))];
      }
    }

    /** `delete_node`: removes that key only.  Records on other nodes that
        name the deleted node stay as they are. */
    method DeleteNode(nodeId: string)
      requires Valid()
      modifies this
      ensures Valid()
      ensures nodes == old(nodes) - {nodeId}
      ensures nodeId !in nodes && forall k :: k in nodes ==> nodes[k] == old(nodes)[k]
      ensures baseId == old(baseId) && root == old(root) && issued == old(issued)
    {
      nodes := nodes - {nodeId};
    }

    /** The scan behind `get_edge_by_id` and `get_edge_by_id_mut`: visits the
        stored nodes in an unspecified order and reports the first one that
        holds a record under `edgeId`. */
    method FindEdgeOwner(edgeId: string) returns (owner: Option<string>)
      ensures owner.None? <==> !HasEdge(nodes, edgeId)
      ensures owner.Some? ==> HoldsEdge(nodes, owner.value, edgeId)
    {
      var unvisited := nodes.Keys;
      while unvisited != {}
        invariant unvisited <= nodes.Keys
        invariant forall k :: k in nodes && k !in unvisited ==> edgeId !in nodes[k].edges
        decreases unvisited
      {
        var k :| k in unvisited;
        if edgeId in nodes[k].edges {
          return Some(k);
        }
        unvisited := unvisited - {k};
      }
      return Option.None;
    }

    /** `get_edge_by_id`: some record stored under `edgeId`, if any node holds
        one; which one is left open. */
    method GetEdgeById(edgeId: string) returns (r: Option<Edges.Edge>)
      ensures r.None? <==> !HasEdge(nodes, edgeId)
      ensures r.Some? ==> r.value in Records(nodes, edgeId)
    {
      var owner := FindEdgeOwner(edgeId);
      if owner.Some? {
        r := Some(nodes[owner.value].edges[edgeId]);
      } else {
        r := Option.None;
      }
    }

    /** `get_all_edges_of_node`. */
    function GetAllEdgesOfNode(nodeId: string): (r: Option<set<Edges.Edge>>)
      reads this
      ensures r.Some? <==> nodeId in nodes && nodes[nodeId].edges != map[]
      ensures r.Some? ==> forall e :: e in r.value <==> e in nodes[nodeId].edges.Values
    {
      if nodeId in nodes then GetAllEdges(nodes[nodeId]) else Option.None
    }

    /** `add_undirected_edge`. */
    method AddUndirectedEdge(a: string, b: string, createdAt: nat, updatedAt: nat)
      requires Valid()
      modifies this
      ensures Valid()
      ensures nodes == LinkUndirected(old(nodes), a, b, createdAt, updatedAt)
      ensures baseId == old(baseId) && root == old(root) && issued == old(issued)
    {
      var e := Edges.New(UndirectedEdgeId(a, b), a, b, createdAt, updatedAt);
      var mirror := Edges.Reverse(e);
      if a in nodes {
        nodes := nodes[a := AddEdge(nodes[a], e)];
      }
      if b in nodes {
        nodes := nodes[b := AddEdge(nodes[b], mirror)];
      }
    }

    /** `add_directed_edge`. */
    method AddDirectedEdge(a: string, b: string, createdAt: nat, updatedAt: nat)
      requires Valid()
      modifies this
      ensures Valid()
      ensures nodes == LinkDirected(old(nodes), a, b, createdAt, updatedAt)
      ensures baseId == old(baseId) && root == old(root) && issued == old(issued)
    {
      var e := Edges.New(DirectedEdgeId(a, b), a, b, createdAt, updatedAt);
      if a in nodes {
        nodes := nodes[a := AddEdge(nodes[a], e)];
      }
    }

    /** The shared shape of the `set_edge_*` methods: find one record under
        `edgeId` by the scan and call setter `u` on it in place.  `owner`
        names the node whose record changed. */
    method ModifyEdge(edgeId: string, u: Edges.EdgeUpdate) returns (ghost owner: Option<string>)
      requires Valid()
      modifies this
      ensures Valid()
      ensures owner.None? <==> !HasEdge(old(nodes), edgeId)
      ensures owner.None? ==> nodes == old(nodes)
      ensures owner.Some? ==> (HoldsEdge(old(nodes), owner.value, edgeId) &&
                nodes == ReplaceEdge(old(nodes), owner.value, edgeId,
                                     Edges.Apply(old(nodes)[owner.value].edges[edgeId], u)))
      ensures baseId == old(baseId) && root == old(root) && issued == old(issued)
    {
      var found := FindEdgeOwner(edgeId);
      owner := found;
      if found.Some? {
        var k := found.value;
        var e := Edges.Apply(nodes[k].edges[edgeId], u);
        nodes := nodes[k := nodes[k].(edges := nodes[k].edges[edgeId := e])];
      }
    }

    /** `set_edge_type`. */
    method SetEdgeType(edgeId: string, t: EdgeType) returns (ghost owner: Option<string>)
      requires Valid()
      modifies this
      ensures Valid()
      ensures owner.None? <==> !HasEdge(old(nodes), edgeId)
      ensures owner.None? ==> nodes == old(nodes)
      ensures owner.Some? ==> (HoldsEdge(old(nodes), owner.value, edgeId) &&
                nodes == ReplaceEdge(old(nodes), owner.value, edgeId,
                                     Edges.SetType(old(nodes)[owner.value].edges[edgeId], t)))
      ensures baseId == old(baseId) && root == old(root) && issued == old(issued)
    {
      owner := ModifyEdge(edgeId, Edges.TypeTo(t));
    }

    /** `set_edge_weight`. */
    method SetEdgeWeight(edgeId: string, w: Edges.Weight) returns (ghost owner: Option<string>)
      requires Valid()
      modifies this
      ensures Valid()
      ensures owner.None? <==> !HasEdge(old(nodes), edgeId)
      ensures owner.None? ==> nodes == old(nodes)
      ensures owner.Some? ==> (HoldsEdge(old(nodes), owner.value, edgeId) &&
                nodes == ReplaceEdge(old(nodes), owner.value, edgeId,
                                     Edges.SetWeight(old(nodes)[owner.value].edges[edgeId], w)))
      ensures baseId == old(baseId) && root == old(root) && issued == old(issued)
    {
      owner := ModifyEdge(edgeId, Edges.WeightTo(w));
    }

    /** `set_ege_label` (the source's spelling). */
    method SetEdgeLabel(edgeId: string, l: string) returns (ghost owner: Option<string>)
      requires Valid()
      modifies this
      ensures Valid()
      ensures owner.None? <==> !HasEdge(old(nodes), edgeId)
      ensures owner.None? ==> nodes == old(nodes)
      ensures owner.Some? ==> (HoldsEdge(old(nodes), owner.value, edgeId) &&
                nodes == ReplaceEdge(old(nodes), owner.value, edgeId,
                                     Edges.SetLabel(old(nodes)[owner.value].edges[edgeId], l)))
      ensures baseId == old(baseId) && root == old(root) && issued == old(issued)
    {
      owner := ModifyEdge(edgeId, Edges.LabelTo(l));
    }

    /** `set_edge_blocked`. */
    method SetEdgeBlocked(edgeId: string, b: bool) returns (ghost owner: Option<string>)
      requires Valid()
      modifies this
      ensures Valid()
      ensures owner.None? <==> !HasEdge(old(nodes), edgeId)
      ensures owner.None? ==> nodes == old(nodes)
      ensures owner.Some? ==> (HoldsEdge(old(nodes), owner.value, edgeId) &&
                nodes == ReplaceEdge(old(nodes), owner.value, edgeId,
                                     Edges.SetBlocked(old(nodes)[owner.value].edges[edgeId], b)))
      ensures baseId == old(baseId) && root == old(root) && issued == old(issued)
    {
      owner := ModifyEdge(edgeId, Edges.BlockedTo(b));
    }

    /** The removals `delete_undirected_edge` performs once its scan has
        found record `e`: the id goes from the start node and from the end
        node `e` names, each when stored. */
    method RemoveUndirectedFound(e: Edges.Edge, edgeId: string)
      requires Valid()
      modifies this
      ensures Valid()
      ensures nodes == DeleteUndirected(old(nodes), e, edgeId)
      ensures baseId == old(baseId) && root == old(root) && issued == old(issued)
    {
      var start, end := e.startNodeId, e.endNodeId;
      if start in nodes {
        nodes := nodes[start := RemoveEdge(nodes[start], edgeId)];
      }
      if end in nodes {
        nodes := nodes[end := RemoveEdge(nodes[end], edgeId)];
      }
    }

    /** The removal `delete_directed_edge` performs once its scan has found
        record `e`: the id goes from the start node `e` names, when stored. */
    method RemoveDirectedFound(e: Edges.Edge, edgeId: string)
      requires Valid()
      modifies this
      ensures Valid()
      ensures nodes == DeleteDirected(old(nodes), e, edgeId)
      ensures baseId == old(baseId) && root == old(root) && issued == old(issued)
    {
      var start := e.startNodeId;
      if start in nodes {
        nodes := nodes[start := RemoveEdge(nodes[start], edgeId)];
      }
    }

    /** `delete_undirected_edge`: scans for a record under `edgeId` and
        removes the id from the start and end nodes that record names.
        `located` is the record the scan found. */
    method DeleteUndirectedEdge(edgeId: string) returns (ghost located: Option<Edges.Edge>)
      requires Valid()
      modifies this
      ensures Valid()
      ensures located.None? <==> !HasEdge(old(nodes), edgeId)
      ensures located.None? ==> nodes == old(nodes)
      ensures located.Some? ==> (located.value in Records(old(nodes), edgeId) &&
                nodes == DeleteUndirected(old(nodes), located.value, edgeId))
      ensures baseId == old(baseId) && root == old(root) && issued == old(issued)
    {
      var owner := FindEdgeOwner(edgeId);
      located := Option.None;
      if owner.Some? {
        var e := nodes[owner.value].edges[edgeId];
        located := Some(e);
        RemoveUndirectedFound(e, edgeId);
      }
    }

    /** `delete_directed_edge`: scans for a record under `edgeId` and removes
        the id from the start node that record names. */
    method DeleteDirectedEdge(edgeId: string) returns (ghost located: Option<Edges.Edge>)
      requires Valid()
      modifies this
      ensures Valid()
      ensures located.None? <==> !HasEdge(old(nodes), edgeId)
      ensures located.None? ==> nodes == old(nodes)
      ensures located.Some? ==> (located.value in Records(old(nodes), edgeId) &&
                nodes == DeleteDirected(old(nodes), located.value, edgeId))
      ensures baseId == old(baseId) && root == old(root) && issued == old(issued)
    {
      var owner := FindEdgeOwner(edgeId);
      located := Option.None;
      if owner.Some? {
        var e := nodes[owner.value].edges[edgeId];
        located := Some(e);
        RemoveDirectedFound(e, edgeId);
      }
    }

    /** `delete_edge`: scans for a record under `edgeId` (`found`) and lets its
        type tag choose the deletion.  The chosen `delete_*_edge` scans the
        same, still unchanged map again, in the same iteration order, so it
        finds the same record; the deletion therefore runs on `found`.  The
        unset tag `None`, or no holder at all, deletes nothing. */
    method DeleteEdge(edgeId: string) returns (ghost found: Option<Edges.Edge>)
      requires Valid()
      modifies this
      ensures Valid()
      ensures found.None? <==> !HasEdge(old(nodes), edgeId)
      ensures found.None? ==> nodes == old(nodes)
      ensures found.Some? ==> (found.value in Records(old(nodes), edgeId) &&
                nodes == DeleteEdgeWith(old(nodes), found.value, edgeId))
      ensures baseId == old(baseId) && root == old(root) && issued == old(issued)
    {
      var owner := FindEdgeOwner(edgeId);
      found := Option.None;
      if owner.Some? {
        var e := nodes[owner.value].edges[edgeId];
        found := Some(e);
        match e.edgeType
        case Undirected =>
          RemoveUndirectedFound(e, edgeId);
        case Directed =>
          RemoveDirectedFound(e, edgeId);
        case None =>
      }
    }
  }

  /** The node scenario of the source's tests, as a client of `Graph`: mint
      two Primary nodes, store both, look both up, delete the first.  The
      first is gone, the second is still found under its own id. */
  method AddGetDeleteNodes(now: nat) returns (g: Graph, id1: string, id2: string)
    ensures fresh(g) && g.Valid()
    ensures id1 != id2
    ensures g.GetNodeById(id1).None?
    ensures g.GetNodeById(id2).Some? && g.GetNodeById(id2).value.id == id2
  {
    g := new Graph(now);
    var n1, n2;
    n1, id1 := g.CreateNode(NodeType.Primary, now);
    n2, id2 := g.CreateNode(NodeType.Primary, now);
    g.AddNode(n1);
    g.AddNode(n2);
    assert g.GetNodeById(id1) == Some(n1) && g.GetNodeById(id2) == Some(n2);
    g.DeleteNode(id1);
  }

  /** Mints a Primary node with `create_node` and stores it with `add_node`. */
  method AddPrimaryNode(g: Graph, now: nat) returns (id: string)
    requires g.Valid()
    modifies g
    ensures g.Valid()
    ensures id == MintedId(old(g.baseId), NodeType.Primary) && id !in old(g.issued)
    ensures g.nodes == old(g.nodes)[id := NewNode(NodeType.Primary, id, now)]
    ensures g.baseId == old(g.baseId) + 1 && g.root == old(g.root) && g.issued == old(g.issued) + {id}
  {
    var n;
    n, id := g.CreateNode(NodeType.Primary, now);
    g.AddNode(n);
  }

  /** The setup of the edge scenario of the source's tests: mint and store
      three Primary nodes, all distinct, none of which holds an edge yet.
      Exactly these three are stored, under the ids minted from counters 1,
      2 and 3. */
  method ThreeNodes(now: nat) returns (g: Graph, id1: string, id2: string, id3: string)
    ensures fresh(g) && g.Valid()
    ensures id1 == MintedId(1, NodeType.Primary) && id2 == MintedId(2, NodeType.Primary)
            && id3 == MintedId(3, NodeType.Primary)
    ensures g.nodes == map[id1 := NewNode(NodeType.Primary, id1, now),
                           id2 := NewNode(NodeType.Primary, id2, now),
                           id3 := NewNode(NodeType.Primary, id3, now)]
    ensures g.baseId == 4
    ensures id1 in g.nodes && id2 in g.nodes && id3 in g.nodes
    ensures id1 != id2 && id2 != id3 && id1 != id3
    ensures forall k :: k in g.nodes ==> g.nodes[k].edges == map[]
  {
    g := new Graph(now);
    id1 := AddPrimaryNode(g, now);
    id2 := AddPrimaryNode(g, now);
    id3 := AddPrimaryNode(g, now);
    forall k | k in g.nodes
      ensures g.nodes[k].edges == map[]
    {
      if k != id3 && k != id2 {
        assert k == id1;
      }
    }
  }

  /** The first half of the edge scenario: connect n1–n2 and n1→n3 and find
      both edges by id.  `now` is the clock reading the nodes take; each
      `Edge::new` reads the clock twice, `t1`, `t2` for the undirected edge
      and `t3`, `t4` for the directed one. */
  method ConnectEdges(now: nat, t1: nat, t2: nat, t3: nat, t4: nat)
    returns (g: Graph, id1: string, id2: string, id3: string)
    ensures fresh(g) && g.Valid()
    ensures id1 in g.nodes && id2 in g.nodes && id3 in g.nodes
    ensures var u := UndirectedEdgeId(id1, id2);
            Records(g.nodes, u) == {Edges.New(u, id1, id2, t1, t2)} && OnlyOn(g.nodes, u, {id1, id2})
    ensures var d := DirectedEdgeId(id1, id3);
            Records(g.nodes, d) == {Edges.New(d, id1, id3, t3, t4)} && OnlyOn(g.nodes, d, {id1})
  {
    g, id1, id2, id3 := ThreeNodes(now);
    ConnectStored(g, id1, id2, id3, t1, t2, t3, t4);
  }

  /** `add_undirected_edge(n1, n2)` then `add_directed_edge(n1, n3)` on a
      graph that stores all three nodes and holds neither id yet; both
      lookups by id then return the record `Edge::new` built. */
  method ConnectStored(g: Graph, id1: string, id2: string, id3: string, t1: nat, t2: nat, t3: nat, t4: nat)
    requires g.Valid()
    requires id1 in g.nodes && id2 in g.nodes && id3 in g.nodes
    requires !HasEdge(g.nodes, UndirectedEdgeId(id1, id2)) && !HasEdge(g.nodes, DirectedEdgeId(id1, id3))
    modifies g
    ensures g.Valid()
    ensures id1 in g.nodes && id2 in g.nodes && id3 in g.nodes
    ensures var u := UndirectedEdgeId(id1, id2);
            Records(g.nodes, u) == {Edges.New(u, id1, id2, t1, t2)} && OnlyOn(g.nodes, u, {id1, id2})
    ensures var d := DirectedEdgeId(id1, id3);
            Records(g.nodes, d) == {Edges.New(d, id1, id3, t3, t4)} && OnlyOn(g.nodes, d, {id1})
  {
    var u, d := UndirectedEdgeId(id1, id2), DirectedEdgeId(id1, id3);
    ghost var ns := g.nodes;
    ConnectBoth(ns, id1, id2, id3, t1, t2, t3, t4);
    g.AddUndirectedEdge(id1, id2, t1, t2);
    g.AddDirectedEdge(id1, id3, t3, t4);
    assert g.nodes == LinkDirected(LinkUndirected(ns, id1, id2, t1, t2), id1, id3, t3, t4);
    ghost var eu, ed := Edges.New(u, id1, id2, t1, t2), Edges.New(d, id1, id3, t3, t4);
    assert Records(g.nodes, u) == {eu} && Records(g.nodes, d) == {ed};
    var r1 := g.GetEdgeById(u);
    var r2 := g.GetEdgeById(d);
    assert r1.Some? && r2.Some?;
    assert r1 == Some(eu) && r2 == Some(ed);
  }

  /** The second half of the edge scenario: delete both edges with
      `delete_edge`; afterwards neither id is found, and in particular n2
      holds no record of the undirected edge any more. */
  method DeleteConnectedEdges(g: Graph, id1: string, id2: string, id3: string, t1: nat, t2: nat, t3: nat, t4: nat)
    requires g.Valid()
    requires var u := UndirectedEdgeId(id1, id2);
             Records(g.nodes, u) == {Edges.New(u, id1, id2, t1, t2)} && OnlyOn(g.nodes, u, {id1, id2})
    requires var d := DirectedEdgeId(id1, id3);
             Records(g.nodes, d) == {Edges.New(d, id1, id3, t3, t4)} && OnlyOn(g.nodes, d, {id1})
    modifies g
    ensures g.Valid()
    ensures g.nodes.Keys == old(g.nodes.Keys)
    ensures !HasEdge(g.nodes, UndirectedEdgeId(id1, id2)) && !HasEdge(g.nodes, DirectedEdgeId(id1, id3))
  {
    var u, d := UndirectedEdgeId(id1, id2), DirectedEdgeId(id1, id3);
    ghost var eu, ed := Edges.New(u, id1, id2, t1, t2), Edges.New(d, id1, id3, t3, t4);
    ghost var ns := g.nodes;
    EdgeIdKindsDisjoint(id1, id2, id1, id3);
    DeleteKeepsOtherIds(ns, eu, u, d);
    DeleteBoth(ns, eu, u, ed, d);
    ghost var found := g.DeleteEdge(u);
    assert found == Some(eu);
    found := g.DeleteEdge(d);
    assert found == Some(ed);
    var r1 := g.GetEdgeById(u);
    var r2 := g.GetEdgeById(d);
    assert r1.None? && r2.None?;
  }

  /** The whole edge scenario of the source's tests: connect, then delete.
      Neither edge id is held by any node afterwards, and n2's own lookup of
      the undirected id finds nothing. */
  method ConnectAndDeleteEdges(now: nat, t1: nat, t2: nat, t3: nat, t4: nat)
    returns (g: Graph, id1: string, id2: string, id3: string)
    ensures fresh(g) && g.Valid()
    ensures !HasEdge(g.nodes, UndirectedEdgeId(id1, id2)) && !HasEdge(g.nodes, DirectedEdgeId(id1, id3))
    ensures id2 in g.nodes && GetEdge(g.nodes[id2], UndirectedEdgeId(id1, id2)).None?
  {
    g, id1, id2, id3 := ConnectEdges(now, t1, t2, t3, t4);
    DeleteConnectedEdges(g, id1, id2, id3, t1, t2, t3, t4);
  }

}
