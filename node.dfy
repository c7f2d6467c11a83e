/**
 * The node record of src/graph/node.rs.  The graph stores nodes by value in
 * its node map, so the in-place operations of the source (`add_data`,
 * `add_edge`, `remove_edge`, the setters) are functions returning the
 * updated node.
 */
module Nodes {
  import opened Wrappers
  import opened NodeTraits
  import opened Edges

  /** What `add_data` may be handed.  The source takes any value and
      inspects its runtime type; only a string or a byte vector can be
      stored, and a value of any other type is always refused. */
  datatype DataValue =
    | TextValue(text: string)
    | BinaryValue(bytes: seq<Byte>)
    | OtherValue

  datatype Node = Node(
    id: string,
    nodeType: NodeType,
    edges: map<string, Edge>,
    data: NodeData,
    creationTime: nat,
    modificationTime: nat)

  /** `Node::new`: the node type chooses the payload variant; the edge map is
      empty and both timestamps are the one clock reading `now`. */
  function NewNode(t: NodeType, id: string, now: nat): (n: Node)
    ensures n.id == id && n.nodeType == t && n.edges == map[]
    ensures n.creationTime == now && n.modificationTime == now
    ensures t.Primary? ==> n.data.None?
    ensures t.Data? ==> n.data == Composite([], [])
    ensures t.Text? ==> n.data == NodeData.Text([])
    ensures t.Binary? ==> n.data == NodeData.Binary([])
    ensures t.None? ==> n.data.None?
  {
    var data := match t
      case Primary => NodeData.None
      case Data => Composite([], [])
      case Text => NodeData.Text([])
      case Binary => NodeData.Binary([])
      case None => NodeData.None;
    Node(id, t, map[], data, now, now)
  }

  /** The list of strings a payload holds (empty for the variants without one). */
  function Texts(d: NodeData): seq<string>
  {
    match d
    case Text(ts) => ts
    case Composite(ts, _) => ts
    case _ => []
  }

  /** The list of byte strings a payload holds (empty for the variants without one). */
  function Blobs(d: NodeData): seq<seq<Byte>>
  {
    match d
    case Binary(bs) => bs
    case Composite(_, bs) => bs
    case _ => []
  }

  predicate SameVariant(a: NodeData, b: NodeData)
  {
    a.Text? == b.Text? && a.Binary? == b.Binary? && a.Composite? == b.Composite? && a.None? == b.None?
  }

  /** A payload is determined by its variant and its two lists. */
  lemma PayloadDeterminedByLists(a: NodeData, b: NodeData)
    requires SameVariant(a, b) && Texts(a) == Texts(b) && Blobs(a) == Blobs(b)
    ensures a == b
  {
  }

  /** Which values a payload variant takes: a text list takes strings, a
      binary list takes byte strings, a composite takes both, and an empty
      payload takes nothing. */
  predicate Accepts(d: NodeData, v: DataValue)
  {
    (v.TextValue? && (d.Text? || d.Composite?)) ||
    (v.BinaryValue? && (d.Binary? || d.Composite?))
  }

  /** `add_data`: appends an accepted value at the end of the matching list
      and leaves everything else alone; a refused value leaves the node
      unchanged.  The payload variant never changes. */
  function AddData(n: Node, v: DataValue): (r: Node)
    ensures r.(data := n.data) == n
    ensures SameVariant(r.data, n.data)
    ensures Accepts(n.data, v) && v.TextValue? ==>
              Texts(r.data) == Texts(n.data) + [v.text] && Blobs(r.data) == Blobs(n.data)
    ensures Accepts(n.data, v) && v.BinaryValue? ==>
              Blobs(r.data) == Blobs(n.data) + [v.bytes] && Texts(r.data) == Texts(n.data)
    ensures !Accepts(n.data, v) ==> r == n
  {
    match n.data
    case Text(ts) =>
      if v.TextValue? then n.(data := NodeData.Text(ts + [v.text])) else n
    case Binary(bs) =>
      if v.BinaryValue? then n.(data := NodeData.Binary(bs + [v.bytes])) else n
    case Composite(ts, bs) =>
      if v.TextValue? then n.(data := Composite(ts + [v.text], bs))
      else if v.BinaryValue? then n.(data := Composite(ts, bs + [v.bytes]))
      else n
    case None => n
  }

  /** `add_data` changes the node exactly when the value is accepted. */
  lemma AddDataChangesIffAccepted(n: Node, v: DataValue)
    ensures AddData(n, v) != n <==> Accepts(n.data, v)
  {
    if Accepts(n.data, v) {
      var r := AddData(n, v);
      assert |Texts(r.data)| + |Blobs(r.data)| == |Texts(n.data)| + |Blobs(n.data)| + 1;
    }
  }

  /** The strings among `vs`, in order. */
  function TextsOf(vs: seq<DataValue>): seq<string>
  {
    if vs == [] then []
    else (if vs[0].TextValue? then [vs[0].text] else []) + TextsOf(vs[1..])
  }

  /** The byte strings among `vs`, in order. */
  function BlobsOf(vs: seq<DataValue>): seq<seq<Byte>>
  {
    if vs == [] then []
    else (if vs[0].BinaryValue? then [vs[0].bytes] else []) + BlobsOf(vs[1..])
  }

  /** Calls `add_data` with each of `vs` in turn. */
  function AddAll(n: Node, vs: seq<DataValue>): Node
    decreases |vs|
  {
    if vs == [] then n else AddAll(AddData(n, vs[0]), vs[1..])
  }

  /** Over any sequence of appends, nothing but the payload's lists
      changes, the payload keeps its variant, and an empty payload takes
      nothing. */
  lemma {:induction false} AddAllKeepsShape(n: Node, vs: seq<DataValue>)
    ensures AddAll(n, vs).(data := n.data) == n
    ensures SameVariant(AddAll(n, vs).data, n.data)
    ensures n.data.None? ==> AddAll(n, vs) == n
    decreases |vs|
  {
    if vs != [] {
      AddAllKeepsShape(AddData(n, vs[0]), vs[1..]);
    }
  }

  /** Over any sequence of appends, a text or composite payload's string
      list collects exactly the strings offered, in order; a binary payload
      never holds strings. */
  lemma {:induction false} AddAllCollectsTexts(n: Node, vs: seq<DataValue>)
    ensures n.data.Text? || n.data.Composite? ==> Texts(AddAll(n, vs).data) == Texts(n.data) + TextsOf(vs)
    ensures n.data.Binary? ==> Texts(AddAll(n, vs).data) == []
    decreases |vs|
  {
    AddAllKeepsShape(n, vs);
    if vs != [] {
      var n' := AddData(n, vs[0]);
      assert AddAll(n, vs) == AddAll(n', vs[1..]);
      AddAllCollectsTexts(n', vs[1..]);
      var ts := if vs[0].TextValue? then [vs[0].text] else [];
      assert TextsOf(vs) == ts + TextsOf(vs[1..]);
      if n.data.Text? || n.data.Composite? {
        assert Texts(n'.data) == Texts(n.data) + ts;
      }
    } else {
      assert Texts(n.data) + [] == Texts(n.data);
    }
  }

  /** Over any sequence of appends, a binary or composite payload's byte
      string list collects exactly the byte strings offered, in order; a
      text payload never holds byte strings. */
  lemma {:induction false} AddAllCollectsBlobs(n: Node, vs: seq<DataValue>)
    ensures n.data.Binary? || n.data.Composite? ==> Blobs(AddAll(n, vs).data) == Blobs(n.data) + BlobsOf(vs)
    ensures n.data.Text? ==> Blobs(AddAll(n, vs).data) == []
    decreases |vs|
  {
    AddAllKeepsShape(n, vs);
    if vs != [] {
      var n' := AddData(n, vs[0]);
      assert AddAll(n, vs) == AddAll(n', vs[1..]);
      AddAllCollectsBlobs(n', vs[1..]);
      var bs := if vs[0].BinaryValue? then [vs[0].bytes] else [];
      assert BlobsOf(vs) == bs + BlobsOf(vs[1..]);
      if n.data.Binary? || n.data.Composite? {
        assert Blobs(n'.data) == Blobs(n.data) + bs;
      }
    } else {
      assert Blobs(n.data) + [] == Blobs(n.data);
    }
  }

  /** `get_edge`: the edge stored under `edgeId`, if any. */
  function GetEdge(n: Node, edgeId: string): (r: Option<Edge>)
    ensures r.Some? <==> edgeId in n.edges
    ensures r.Some? ==> r.value == n.edges[edgeId]
  {
    if edgeId in n.edges then Some(n.edges[edgeId]) else Option.None
  }

  /** `get_all_edges`: nothing for an empty edge map, otherwise exactly the
      stored edge records (in no particular order). */
  function GetAllEdges(n: Node): (r: Option<set<Edge>>)
    ensures r.None? <==> n.edges == map[]
    ensures r.Some? ==> forall e :: e in r.value <==> exists k :: k in n.edges && n.edges[k] == e
  {
    if |n.edges| == 0 then Option.None else Some(n.edges.Values)
  }

  /** `add_edge`: stores `e` under its own id, replacing any earlier record
      with that id; other entries and all other fields are unchanged. */
  function AddEdge(n: Node, e: Edge): (r: Node)
    ensures r.(edges := n.edges) == n
    ensures r.edges.Keys == n.edges.Keys + {e.id}
    ensures r.edges[e.id] == e
    ensures forall k :: k in n.edges && k != e.id ==> r.edges[k] == n.edges[k]
  {
    n.(edges := n.edges[e.id := e])
  }

  /** `remove_edge`: `edgeId` is absent afterwards; other entries and all
      other fields are unchanged. */
  function RemoveEdge(n: Node, edgeId: string): (r: Node)
    ensures r.(edges := n.edges) == n
    ensures r.edges.Keys == n.edges.Keys - {edgeId}
    ensures forall k :: k in r.edges ==> r.edges[k] == n.edges[k]
  {
    n.(edges := n.edges - {edgeId})
  }

  /** Removing an absent id is a no-op, so removal is idempotent. */
  lemma RemoveEdgeIdempotent(n: Node, edgeId: string)
    ensures edgeId !in n.edges ==> RemoveEdge(n, edgeId) == n
    ensures RemoveEdge(RemoveEdge(n, edgeId), edgeId) == RemoveEdge(n, edgeId)
  {
    var r := RemoveEdge(n, edgeId);
    assert RemoveEdge(r, edgeId).edges == r.edges;
    if edgeId !in n.edges {
      assert r.edges == n.edges;
    }
  }

  // The setters of the node interface; each writes one field.

  function SetType(n: Node, t: NodeType): (r: Node)
    ensures r.nodeType == t && r.(nodeType := n.nodeType) == n
  {
    n.(nodeType := t)
  }

  function SetId(n: Node, id: string): (r: Node)
    ensures r.id == id && r.(id := n.id) == n
  {
    n.(id := id)
  }

  function SetData(n: Node, d: NodeData): (r: Node)
    ensures r.data == d && r.(data := n.data) == n
  {
    n.(data := d)
  }

  /** The modification time is whatever the caller supplies; the creation
      time has no setter. */
  function SetModificationTime(n: Node, t: nat): (r: Node)
    ensures r.modificationTime == t && r.(modificationTime := n.modificationTime) == n
  {
    n.(modificationTime := t)
  }

}
