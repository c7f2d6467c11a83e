/**
 * The edge record of src/graph/edge.rs.  Edges are stored by value inside
 * the nodes' edge maps, so every in-place setter of the source becomes a
 * function returning the updated record.  Clock reads are parameters.
 */
module Edges {
  import opened Wrappers
  import opened EdgeTraits

  /** The source's `f64` weight: only ever stored and returned. */
  type Weight = real

  datatype Edge = Edge(
    id: string,
    edgeType: EdgeType,
    weight: Option<Weight>,
    startNodeId: string,
    endNodeId: string,
    edgeLabel: Option<string>,
    createdAt: nat,
    updatedAt: nat,
    blocked: bool)

  /** `Edge::new`: the given id and endpoints, tagged Undirected, no weight,
      no label, not blocked.  The two timestamps come from two separate
      clock reads, so they are two parameters. */
  function New(id: string, start: string, end: string, createdAt: nat, updatedAt: nat): (e: Edge)
    ensures e.id == id && e.startNodeId == start && e.endNodeId == end
    ensures e.edgeType == Undirected
    ensures e.weight.None? && e.edgeLabel.None? && !e.blocked
    ensures e.createdAt == createdAt && e.updatedAt == updatedAt
  {
    Edge(id, Undirected, Option.None, start, end, Option.None, createdAt, updatedAt, false)
  }

  /** `Edge::reverse`: copies every field.  Start and end are copied as they
      are, not swapped, so the "reverse" is the edge itself. */
  function Reverse(e: Edge): (r: Edge)
    ensures r == e
    ensures r.startNodeId == e.startNodeId && r.endNodeId == e.endNodeId
  {
    Edge(e.id, e.edgeType, e.weight, e.startNodeId, e.endNodeId, e.edgeLabel,
         e.createdAt, e.updatedAt, e.blocked)
  }

  lemma ReverseIdempotent(e: Edge)
    ensures Reverse(Reverse(e)) == Reverse(e) == e
  {
  }

  // The setters of the edge interface.  Each one writes one field;
  // `r.(f := e.f) == e` says that every other field, both timestamps
  // included, is left as it was.

  function SetStartNodeId(e: Edge, start: string): (r: Edge)
    ensures r.startNodeId == start && r.(startNodeId := e.startNodeId) == e
  {
    e.(startNodeId := start)
  }

  function SetEndNodeId(e: Edge, end: string): (r: Edge)
    ensures r.endNodeId == end && r.(endNodeId := e.endNodeId) == e
  {
    e.(endNodeId := end)
  }

  function SetType(e: Edge, t: EdgeType): (r: Edge)
    ensures r.edgeType == t && r.(edgeType := e.edgeType) == e
  {
    e.(edgeType := t)
  }

  /** Takes a plain weight: a weight once present can be overwritten but
      never made absent again. */
  function SetWeight(e: Edge, w: Weight): (r: Edge)
    ensures r.weight == Some(w) && r.(weight := e.weight) == e
  {
    e.(weight := Some(w))
  }

  function SetId(e: Edge, id: string): (r: Edge)
    ensures r.id == id && r.(id := e.id) == e
  {
    e.(id := id)
  }

  /** Takes a plain label: a label once present can be overwritten but
      never made absent again. */
  function SetLabel(e: Edge, l: string): (r: Edge)
    ensures r.edgeLabel == Some(l) && r.(edgeLabel := e.edgeLabel) == e
  {
    e.(edgeLabel := Some(l))
  }

  function SetBlocked(e: Edge, b: bool): (r: Edge)
    ensures r.blocked == b && r.(blocked := e.blocked) == e
  {
    e.(blocked := b)
  }

  /** Refreshes `updatedAt` from the clock reading `now`; `createdAt` has no
      setter at all. */
  function SetModificationTime(e: Edge, now: nat): (r: Edge)
    ensures r.updatedAt == now && r.(updatedAt := e.updatedAt) == e
  {
    e.(updatedAt := now)
  }

  /** One call of a setter of the edge interface, with its argument. */
  datatype EdgeUpdate =
    | StartTo(start: string)
    | EndTo(end: string)
    | TypeTo(edgeType: EdgeType)
    | WeightTo(weight: Weight)
    | IdTo(id: string)
    | LabelTo(text: string)
    | BlockedTo(blocked: bool)
    | TouchedAt(now: nat)

  /** The settable fields; `createdAt` is not among them. */
  datatype Field =
    | StartField | EndField | TypeField | WeightField
    | IdField | LabelField | BlockedField | UpdatedField

  /** The field a setter writes. */
  function Target(u: EdgeUpdate): Field
  {
    match u
    case StartTo(_) => StartField
    case EndTo(_) => EndField
    case TypeTo(_) => TypeField
    case WeightTo(_) => WeightField
    case IdTo(_) => IdField
    case LabelTo(_) => LabelField
    case BlockedTo(_) => BlockedField
    case TouchedAt(_) => UpdatedField
  }

  /** `a` and `b` hold the same value in field `f`. */
  predicate AgreeOn(a: Edge, b: Edge, f: Field)
  {
    match f
    case StartField => a.startNodeId == b.startNodeId
    case EndField => a.endNodeId == b.endNodeId
    case TypeField => a.edgeType == b.edgeType
    case WeightField => a.weight == b.weight
    case IdField => a.id == b.id
    case LabelField => a.edgeLabel == b.edgeLabel
    case BlockedField => a.blocked == b.blocked
    case UpdatedField => a.updatedAt == b.updatedAt
  }

  /** The getter paired with `u`'s setter returns the value `u` set. */
  predicate Reflects(e: Edge, u: EdgeUpdate)
  {
    match u
    case StartTo(s) => e.startNodeId == s
    case EndTo(s) => e.endNodeId == s
    case TypeTo(t) => e.edgeType == t
    case WeightTo(w) => e.weight == Some(w)
    case IdTo(id) => e.id == id
    case LabelTo(l) => e.edgeLabel == Some(l)
    case BlockedTo(b) => e.blocked == b
    case TouchedAt(now) => e.updatedAt == now
  }

  /** Calls the setter `u` names.  Set-then-get returns the set value, and
      every other field, `createdAt` included, is unchanged. */
  function Apply(e: Edge, u: EdgeUpdate): (r: Edge)
    ensures Reflects(r, u)
    ensures forall f :: f != Target(u) ==> AgreeOn(e, r, f)
    ensures r.createdAt == e.createdAt
  {
    match u
    case StartTo(s) => SetStartNodeId(e, s)
    case EndTo(s) => SetEndNodeId(e, s)
    case TypeTo(t) => SetType(e, t)
    case WeightTo(w) => SetWeight(e, w)
    case IdTo(id) => SetId(e, id)
    case LabelTo(l) => SetLabel(e, l)
    case BlockedTo(b) => SetBlocked(e, b)
    case TouchedAt(now) => SetModificationTime(e, now)
  }

  /** Calls the setters `us` in order. */
  function ApplyAll(e: Edge, us: seq<EdgeUpdate>): Edge
    decreases |us|
  {
    if us == [] then e else ApplyAll(Apply(e, us[0]), us[1..])
  }

  lemma {:induction false} ApplyAllAppend(e: Edge, us: seq<EdgeUpdate>, vs: seq<EdgeUpdate>)
    ensures ApplyAll(e, us + vs) == ApplyAll(ApplyAll(e, us), vs)
    decreases |us|
  {
    if us == [] {
      assert us + vs == vs;
    } else {
      assert (us + vs)[1..] == us[1..] + vs;
      ApplyAllAppend(Apply(e, us[0]), us[1..], vs);
    }
  }

  /** No setter sequence changes the creation time. */
  lemma {:induction false} CreatedAtNeverChanges(e: Edge, us: seq<EdgeUpdate>)
    ensures ApplyAll(e, us).createdAt == e.createdAt
    decreases |us|
  {
    if us != [] {
      CreatedAtNeverChanges(Apply(e, us[0]), us[1..]);
    }
  }

  /** Once present, weight and label stay present under any setter sequence. */
  lemma {:induction false} OptionalFieldsNeverCleared(e: Edge, us: seq<EdgeUpdate>)
    ensures e.weight.Some? ==> ApplyAll(e, us).weight.Some?
    ensures e.edgeLabel.Some? ==> ApplyAll(e, us).edgeLabel.Some?
    decreases |us|
  {
    if us != [] {
      var e' := Apply(e, us[0]);
      assert e.weight.Some? ==> e'.weight.Some? by {
        if us[0].WeightTo? {
        } else {
          assert AgreeOn(e, e', WeightField);
        }
      }
      assert e.edgeLabel.Some? ==> e'.edgeLabel.Some? by {
        if us[0].LabelTo? {
        } else {
          assert AgreeOn(e, e', LabelField);
        }
      }
      OptionalFieldsNeverCleared(e', us[1..]);
    }
  }

  /** A field no setter of `us` writes keeps its value. */
  lemma {:induction false} UntouchedFieldKept(e: Edge, us: seq<EdgeUpdate>, f: Field)
    requires forall j :: 0 <= j < |us| ==> Target(us[j]) != f
    ensures AgreeOn(e, ApplyAll(e, us), f)
    decreases |us|
  {
    if us != [] {
      var e' := Apply(e, us[0]);
      assert AgreeOn(e, e', f);
      UntouchedFieldKept(e', us[1..], f);
    }
  }

  /** An edge fresh from `New` reports no weight and no label until the
      corresponding setter is called. */
  lemma OptionalFieldsAbsentUntilSet(id: string, start: string, end: string,
                                     createdAt: nat, updatedAt: nat, us: seq<EdgeUpdate>)
    ensures (forall j :: 0 <= j < |us| ==> !us[j].WeightTo?) ==>
              ApplyAll(New(id, start, end, createdAt, updatedAt), us).weight.None?
    ensures (forall j :: 0 <= j < |us| ==> !us[j].LabelTo?) ==>
              ApplyAll(New(id, start, end, createdAt, updatedAt), us).edgeLabel.None?
  {
    var e := New(id, start, end, createdAt, updatedAt);
    if forall j :: 0 <= j < |us| ==> !us[j].WeightTo? {
      UntouchedFieldKept(e, us, WeightField);
    }
    if forall j :: 0 <= j < |us| ==> !us[j].LabelTo? {
      UntouchedFieldKept(e, us, LabelField);
    }
  }

  /** After any sequence of setter calls, each getter reports the value of
      the last call that wrote its field. */
  lemma LastWriteWins(e: Edge, us: seq<EdgeUpdate>, i: nat)
    requires i < |us|
    requires forall j :: i < j < |us| ==> Target(us[j]) != Target(us[i])
    ensures Reflects(ApplyAll(e, us), us[i])
  {
    var front, back := us[..i + 1], us[i + 1..];
    assert us == front + back;
    ApplyAllAppend(e, front, back);
    assert front == us[..i] + [us[i]];
    ApplyAllAppend(e, us[..i], [us[i]]);
    var mid := ApplyAll(e, front);
    assert mid == Apply(ApplyAll(e, us[..i]), us[i]);
    UntouchedFieldKept(mid, back, Target(us[i]));
  }

}
