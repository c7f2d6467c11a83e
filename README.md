# Graph data model, in Dafny

This project models the in-memory graph of the Graph repository
(`src/graph`). The graph stores nodes by identifier. Each node owns the
edges that leave it, and an undirected connection is stored once on each
endpoint under one shared edge id. It proves properties of how that graph
mints identifiers, stores node payloads, and creates, changes, finds and
deletes edges.

One Dafny file per source file, one module per file, plus two files with no source counterpart (`ids.dfy` and `wrappers.dfy`):

- `edge_traits.dfy` (`EdgeTraits`): the edge type tag Directed, Undirected or None.
- `node_traits.dfy` (`NodeTraits`): node types, their default and display names, and the node payload union.
- `ids.dfy` (`Ids`): how `create_node` prints the counter and type into a node id, the reserved root id, and the two edge-id formats. It proves that node ids can be parsed back into their counter and type, that two minted node ids differ whenever their counters or types differ, and that no minted id is the root id. For edge ids it proves that an undirected id never equals a directed one, and that, between endpoints minted by `create_node`, equal edge ids of one kind have equal ordered endpoint pairs. Edge ids between arbitrary strings may collide and are not claimed to parse back.
- `edge.dfy` (`Edges`): the edge record. `new` and `reverse` are functions. Each setter is a field-update function. `EdgeUpdate`, `Apply` and `ApplyAll` describe any sequence of setter calls.
- `node.dfy` (`Nodes`): the node record. `new` picks the payload from the type. `add_data` is a function over a closed union of the values it can be handed. The edge-map and field setters are functions too.
- `graph.dfy` (`Graphs`): every graph state change first as a function on the node map, with its lemmas. Then the class `Graph`, whose fields `nodes` and `baseId` are updated in place; `root` is set once, by the constructor, and no method changes it. Each method's postcondition ties the new node map to that function.
- `wrappers.dfy` (`Wrappers`): `Option`.

Where the code and its documented intent differ, the model follows the
code:

- `Edge::reverse` copies every field and does not swap start and end (src/graph/edge.rs:31-44). The record `add_undirected_edge` stores on the second endpoint is therefore identical to the first.
- `add_directed_edge` builds its record with `Edge::new`, which always sets the type tag to Undirected (src/graph/edge.rs:22). So `delete_edge` on a directed id takes the undirected deletion path. That path also removes the id from the record's end node. The two paths agree whenever the end node holds no record under that id or is the start node (`DeleteUndirectedMatchesDirected`). Between nodes minted by `create_node` a directed id is held by its start node only, by `DirectedEdgeIdsInjective` and `EdgeIdKindsDisjoint`. Between arbitrary ids the paths can differ: the end node may hold its own edge under the same id.
- `delete_node` does not cascade. A peer's record naming the deleted node stays stored and can still be found (`MirrorOutlivesDeletedNode`).
- The `set_edge_*` operations change only the one record the scan finds. The mirror record on the other endpoint stays as it was (`ReplaceEdgeLeavesMirror`).

Inputs from outside are parameters:

- Clock readings: `now`, or two separate `createdAt` and `updatedAt` values for `Edge::new`, which reads the clock twice.
- The nodes' iteration order: the scan behind `get_edge_by_id` picks any node that holds the id. It is written as a loop over the key set that chooses keys without fixing an order.

## Model

| member | source | states |
|---|---|---|
| NodeTraits.Default | src/graph/traits/node_traits.rs:19-24 | the default node type is None |
| NodeTraits.Display | src/graph/traits/node_traits.rs:26-37 | every display name is a non-empty run of letters, so it holds no digit and no '_' |
| NodeTraits.DisplayInjective | src/graph/traits/node_traits.rs:26-37 | two types display the same exactly when they are the same type |
| Ids.Decimal | src/graph/graph.rs:27 | the printed counter is a canonical numeral (digits only, no leading zero) and starts with '0' only for 0 |
| Ids.DecimalRoundTrip | src/graph/graph.rs:27 | reading a printed counter back gives the counter |
| Ids.CanonicalRoundTrip | src/graph/graph.rs:27 | every canonical numeral is the printed form of its own value |
| Ids.DecimalInjective | src/graph/graph.rs:27 | two counters print the same exactly when they are equal |
| Ids.MintedId | src/graph/graph.rs:27 | the id is the printed counter, one '_', then the type's display name; its first '_' ends the counter |
| Ids.RootId | src/graph/graph.rs:15 | the root id is "0_root" |
| Ids.TypeNamed | src/graph/traits/node_traits.rs:26-37 | inverts the display name: a result names a type that displays as the input, and no result means that no type displays so |
| Ids.MintedIdRoundTrip | src/graph/graph.rs:27 | the counter and the type can be parsed back out of every minted id |
| Ids.ParseMintedIdSound | src/graph/graph.rs:27 | a parse that succeeds yields a counter and type that mint exactly the parsed id |
| Ids.MintedIdInjective | src/graph/graph.rs:26-31 | two minted ids are equal exactly when their counters and their types are equal |
| Ids.RootIdNeverMinted | src/graph/graph.rs:15-16 | no id `create_node` mints equals the root's reserved id |
| Ids.UndirectedEdgeId | src/graph/graph.rs:89 | the id is the first endpoint, '_', the second endpoint, then the suffix "_undirected"; its length is the endpoints' lengths plus 12 |
| Ids.DirectedEdgeId | src/graph/graph.rs:104 | the id is the start id, '_', the end id, then the suffix "_directed"; its length is the endpoints' lengths plus 10 |
| Ids.EdgeIdKindsDisjoint | src/graph/graph.rs:87-111 | an undirected edge id never equals a directed one, whatever the endpoints |
| Ids.UndirectedEdgeIdsInjective | src/graph/graph.rs:89 | between minted nodes, equal undirected edge ids have equal ordered endpoint pairs |
| Ids.DirectedEdgeIdsInjective | src/graph/graph.rs:104 | between minted nodes, equal directed edge ids have equal ordered endpoint pairs |
| Edges.New | src/graph/edge.rs:17-29 | a new edge has the given id and endpoints, type Undirected, no weight, no label, is not blocked, and carries the two clock readings |
| Edges.Reverse | src/graph/edge.rs:31-44 | `reverse` returns the edge unchanged: start and end are not swapped |
| Edges.ReverseIdempotent | src/graph/edge.rs:31-44 | reversing twice equals reversing once, which equals the edge |
| Edges.SetStartNodeId | src/graph/edge.rs:51-54 | the start id becomes the argument; every other field, both timestamps included, is unchanged |
| Edges.SetEndNodeId | src/graph/edge.rs:55-58 | the end id becomes the argument; every other field is unchanged |
| Edges.SetType | src/graph/edge.rs:71-74 | the type tag becomes the argument; every other field is unchanged |
| Edges.SetWeight | src/graph/edge.rs:79-82 | the weight becomes present with the argument; every other field is unchanged |
| Edges.SetId | src/graph/edge.rs:87-90 | the id becomes the argument; every other field is unchanged |
| Edges.SetLabel | src/graph/edge.rs:91-94 | the label becomes present with the argument; every other field is unchanged |
| Edges.SetBlocked | src/graph/edge.rs:103-106 | the blocked flag becomes the argument; every other field is unchanged |
| Edges.SetModificationTime | src/graph/edge.rs:115-118 | only the update time changes, to the clock reading |
| Edges.Apply | src/graph/edge.rs:51-118 | after any one setter, its getter returns the value set, and every other field, creation time included, is unchanged |
| Edges.ApplyAllAppend | src/graph/edge.rs:51-118 | running two setter sequences one after the other is the same as running their concatenation |
| Edges.CreatedAtNeverChanges | src/graph/edge.rs:107-118 | no setter sequence changes the creation time |
| Edges.OptionalFieldsNeverCleared | src/graph/edge.rs:79-94 | once present, weight and label stay present under every setter sequence |
| Edges.UntouchedFieldKept | src/graph/edge.rs:51-118 | a field that no setter in the sequence writes keeps its value |
| Edges.OptionalFieldsAbsentUntilSet | src/graph/edge.rs:17-29 | a new edge reports no weight (no label) after any setter sequence that never sets the weight (the label) |
| Edges.LastWriteWins | src/graph/edge.rs:51-118 | after a setter sequence, each getter reports the value of the last setter that wrote its field |
| Nodes.NewNode | src/graph/node.rs:21-40 | the payload follows the type (Primary and None get no payload, Data an empty composite, Text an empty text list, Binary an empty byte list); no edges; both timestamps equal the one clock reading |
| Nodes.PayloadDeterminedByLists | src/graph/traits/node_traits.rs:39-53 | a payload is fixed by its variant and its two lists |
| Nodes.AddData | src/graph/node.rs:44-77 | an accepted string (bytes) is appended at the end of the text (byte) list and the other list is kept; a refused value leaves the node unchanged; variant, id, type, edges and timestamps never change |
| Nodes.AddDataChangesIffAccepted | src/graph/node.rs:44-77 | `add_data` changes the node exactly when the payload variant accepts the value |
| Nodes.AddAllKeepsShape | src/graph/node.rs:44-77 | over any sequence of appends, only the payload lists change, the variant stays, and a None payload never changes |
| Nodes.AddAllCollectsTexts | src/graph/node.rs:44-77 | over any sequence of appends, a text or composite payload's string list gains exactly the strings offered, in order; a binary payload never holds strings |
| Nodes.AddAllCollectsBlobs | src/graph/node.rs:44-77 | over any sequence of appends, a binary or composite payload's byte list gains exactly the byte strings offered, in order; a text payload never holds bytes |
| Nodes.GetEdge | src/graph/node.rs:88 | present exactly when the id is a key of the edge map, and then it is the stored record |
| Nodes.GetAllEdges | src/graph/node.rs:90-97 | absent exactly when the edge map is empty; otherwise it holds exactly the stored records |
| Nodes.AddEdge | src/graph/node.rs:98-101 | the record is stored under its own id, overwriting any earlier record; other keys and all other fields are unchanged |
| Nodes.RemoveEdge | src/graph/node.rs:102-104 | the id is absent afterwards; other keys, their records and all other fields are unchanged |
| Nodes.RemoveEdgeIdempotent | src/graph/node.rs:102-104 | removing an absent id changes nothing, and removing twice equals removing once |
| Nodes.SetType | src/graph/node.rs:111-113 | the type becomes the argument; every other field is unchanged |
| Nodes.SetId | src/graph/node.rs:114-116 | the id becomes the argument; every other field is unchanged |
| Nodes.SetData | src/graph/node.rs:108-110 | the payload becomes the argument; every other field is unchanged |
| Nodes.SetModificationTime | src/graph/node.rs:125-128 | the modification time becomes the caller's value; creation time and every other field are unchanged |
| Graphs.Records | src/graph/graph.rs:67-70 | the set of records stored under an id is empty exactly when no stored node holds that id |
| Graphs.AppendData | src/graph/graph.rs:44-58 | an absent node changes nothing; otherwise that node, and only it, becomes the result of `add_data` |
| Graphs.LinkUndirected | src/graph/graph.rs:87-101 | the first endpoint gains the new edge and the second gains its `reverse`, both under the undirected id; an absent side is skipped; no other node changes |
| Graphs.LinkDirected | src/graph/graph.rs:102-111 | only the start node changes: it gains the new edge under the directed id, and that record's type tag is Undirected |
| Graphs.LinkUndirectedRecords | src/graph/graph.rs:87-101 | after an undirected link both present endpoints hold the identical record; if the id was new, only they hold it and it is the only record under that id |
| Graphs.LinkDirectedRecords | src/graph/graph.rs:102-111 | after a directed link the start node holds the new record; if the id was new, no other node holds it and it is the only record |
| Graphs.LinkDirectedKeepsOtherIds | src/graph/graph.rs:102-111 | a directed link leaves the records under every other id, and which nodes hold them, unchanged |
| Graphs.ReplaceEdge | src/graph/graph.rs:113-141 | only the one record on the chosen node changes; every other record on every node and the node's other fields stay as they were |
| Graphs.ReplaceEdgeLeavesMirror | src/graph/graph.rs:113-141 | changing an undirected edge through one endpoint leaves the record on the other endpoint unchanged |
| Graphs.RemoveEdgeAt | src/graph/graph.rs:161-166 | `remove_edge` runs on the named node if it is stored; no other node changes |
| Graphs.DeleteUndirected | src/graph/graph.rs:155-168 | the id is removed from exactly the start and end nodes the found record names; every other node is unchanged |
| Graphs.DeleteDirected | src/graph/graph.rs:169-177 | the id is removed from exactly the start node the found record names |
| Graphs.DeleteEdgeWith | src/graph/graph.rs:143-154 | the found record's type tag chooses the undirected or directed deletion; the tag None deletes nothing |
| Graphs.DeleteUndirectedClears | src/graph/graph.rs:155-168 | if only the record's endpoints hold the id, no node holds it after the undirected deletion |
| Graphs.DeleteDirectedClears | src/graph/graph.rs:169-177 | if only the record's start node holds the id, no node holds it after the directed deletion |
| Graphs.DeleteUndirectedMatchesDirected | src/graph/graph.rs:143-177 | when the record's end node is its start node or holds nothing under the id, the undirected and the directed deletion give the same node map |
| Graphs.DeleteKeepsOtherIds | src/graph/graph.rs:143-177 | deleting one id leaves the records under every other id unchanged |
| Graphs.ConnectBoth | src/graph/graph.rs:232-244 | after connecting n1–n2 and n1→n3 between stored nodes, each new id has exactly one record, held only by its endpoints |
| Graphs.DeleteBoth | src/graph/graph.rs:246-255 | deleting the undirected id and then the directed id leaves neither id on any node |
| Graphs.ConnectThenDeleteBoth | src/graph/graph.rs:216-255 | in the connect-then-delete scenario each deletion's scan has exactly one record to find, and afterwards neither id is found on any node |
| Graphs.MirrorOutlivesDeletedNode | src/graph/graph.rs:60-62 | deleting a node leaves its peer's record of their undirected edge stored and findable by id |
| Graphs.Graph.constructor | src/graph/graph.rs:14-22 | no stored nodes, counter 1, and a Primary root node with id "0_root" held outside the node map |
| Graphs.Graph.CreateNode | src/graph/graph.rs:26-31 | the id is the counter and the type's name; the new node carries that id; the counter goes up by one; the node map is unchanged; the id was never issued before |
| Graphs.Graph.AddNode | src/graph/graph.rs:32-34 | the node is stored under its own id, overwriting any earlier entry; other entries are unchanged |
| Graphs.Graph.GetNodeById | src/graph/graph.rs:36-38 | present exactly when the id is stored, and then it is the stored node |
| Graphs.Graph.AddTextData | src/graph/graph.rs:44-50 | the node map becomes `AppendData` with the string |
| Graphs.Graph.AddBinaryData | src/graph/graph.rs:52-58 | the node map becomes `AppendData` with the bytes |
| Graphs.Graph.DeleteNode | src/graph/graph.rs:60-62 | exactly that key is removed; every other node, with its edges, is unchanged |
| Graphs.Graph.FindEdgeOwner | src/graph/graph.rs:67-75 | the scan finds a node exactly when some stored node holds the id, and the node it names holds it |
| Graphs.Graph.GetEdgeById | src/graph/graph.rs:67-70 | present exactly when some stored node holds the id, and then it is one of the records stored under it |
| Graphs.Graph.GetAllEdgesOfNode | src/graph/graph.rs:77-80 | present exactly when the node is stored and has an edge; it then holds exactly that node's records |
| Graphs.Graph.AddUndirectedEdge | src/graph/graph.rs:87-101 | the node map becomes `LinkUndirected` of the old map |
| Graphs.Graph.AddDirectedEdge | src/graph/graph.rs:102-111 | the node map becomes `LinkDirected` of the old map |
| Graphs.Graph.ModifyEdge | src/graph/graph.rs:113-141 | with no holder nothing changes; otherwise the one record found on a holder becomes the setter's result, through `ReplaceEdge` |
| Graphs.Graph.SetEdgeType | src/graph/graph.rs:113-119 | as `ModifyEdge` with the type setter |
| Graphs.Graph.SetEdgeWeight | src/graph/graph.rs:121-127 | as `ModifyEdge` with the weight setter |
| Graphs.Graph.SetEdgeLabel | src/graph/graph.rs:128-134 | as `ModifyEdge` with the label setter |
| Graphs.Graph.SetEdgeBlocked | src/graph/graph.rs:135-141 | as `ModifyEdge` with the blocked setter |
| Graphs.Graph.RemoveUndirectedFound | src/graph/graph.rs:161-166 | removing the id from the found record's start node and then its end node, each only if stored, gives `DeleteUndirected` of the old map |
| Graphs.Graph.RemoveDirectedFound | src/graph/graph.rs:173-175 | removing the id from the found record's start node, if stored, gives `DeleteDirected` of the old map |
| Graphs.Graph.DeleteUndirectedEdge | src/graph/graph.rs:155-168 | with no holder nothing changes; otherwise the map becomes `DeleteUndirected` of a record stored under the id |
| Graphs.Graph.DeleteDirectedEdge | src/graph/graph.rs:169-177 | with no holder nothing changes; otherwise the map becomes `DeleteDirected` of a record stored under the id |
| Graphs.Graph.DeleteEdge | src/graph/graph.rs:143-154 | a record is found exactly when some node holds the id; with none, nothing changes; otherwise the found record is stored under the id and the map becomes `DeleteEdgeWith` of that same record, whose tag chooses the deletion (None deletes nothing) |
| Graphs.AddGetDeleteNodes | src/graph/graph.rs:186-213 | after minting and storing two Primary nodes and deleting the first, the two ids differ, the first is not found and the second is found with its own id |
| Graphs.AddPrimaryNode | src/graph/graph.rs:218-228 | the id is the one minted from the old counter with type Primary and was never issued before; exactly the new Primary node is added under it; the counter goes up by one, the id joins the issued set, the root is unchanged |
| Graphs.ThreeNodes | src/graph/graph.rs:217-228 | a fresh graph stores exactly the three new Primary nodes, under the distinct ids minted from counters 1, 2 and 3, and nothing else; the counter ends at 4 and no node holds an edge |
| Graphs.ConnectEdges | src/graph/graph.rs:217-244 | the setup then the two connections, with one clock reading for the nodes and two for each `Edge::new`: the three nodes stay stored; after the two connections, each edge id has exactly one record, the one `Edge::new` built, held only by its endpoints; so both lookups return that record |
| Graphs.ConnectStored | src/graph/graph.rs:232-244 | on a graph that stores the three nodes and holds neither id, connecting n1–n2 and n1→n3 gives each id exactly the record `Edge::new` built, held only by its endpoints; both lookups return it |
| Graphs.DeleteConnectedEdges | src/graph/graph.rs:246-255 | after `delete_edge` on both ids, the same node ids are stored and no node holds either id, so neither lookup succeeds |
| Graphs.ConnectAndDeleteEdges | src/graph/graph.rs:216-256 | the whole edge scenario: after connecting and deleting, no node holds either edge id, and the second node reports no edge under the undirected id |

Every `Graph` method that changes state also keeps `Valid()`: the counter
stays at least 1 and every issued id carries a counter below it. Each such
method states which fields it leaves unchanged.

## Left out

- Clock reads (`SystemTime::now`) are not modelled. Every timestamp is a parameter, and `Edge::new` takes two, one for each clock read.
- The `f64` weight is a `real`: it is only stored and returned, never computed with.
- The `eprintln!` diagnostics of `add_data` are left out. A refusal is visible only as an unchanged node (`AddDataChangesIffAccepted`).
- `add_data` accepts any value and inspects its runtime type. The model passes a closed union instead: a string, a byte string, or any other value.
- `base_id` is a `u64` that could overflow; the model's counter is an unbounded `nat`.
- The `&mut` twins (`get_node_by_id_mut`, `get_edge_by_id_mut`, `get_all_edges_of_node_mut`, `get_edge_mut`) are modelled once. Their read-only partners are modelled, and the mutations go through the map updates of the methods that use them.
- The plain field getters of the node and edge interfaces (`get_id`, `get_type`, `get_weight`, `get_label`, `is_blocked`, `get_data`, the time getters) are field accesses on the datatypes.
- Graphs.Graph.GetEdgeById: the source scans the hash map in a fixed but unspecified order. The model lets each scan pick any holder, so two scans of an unchanged map may pick different records. The same holds after a `set_edge_*` call: the source's lookup walks the map in the same order as the update did, so it returns the record just updated, while the model may return the stale mirror on the other endpoint. Its contract therefore promises only "one of the records under the id".
- Graphs.Graph.FindEdgeOwner: same unspecified scan order as `GetEdgeById`.
- Graphs.Graph.DeleteEdge: the source scans twice, once in `delete_edge` and once in the chosen `delete_*_edge`. The map is unchanged between the two scans and the order is the same, so both find the same record. The model scans once and passes that record on.
- Nodes.GetAllEdges: the source returns a vector with one entry per stored record. The model returns the set of records, so two equal records stored under different ids show up once.
- Graphs.Graph.GetAllEdgesOfNode: returns a set, as `GetAllEdges` does.
- The crate's other modules (a planned command line, logging, serialization) are not part of this model.
