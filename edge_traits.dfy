/**
 * The edge type tag of src/graph/traits/edge_traits.rs.  The getter/setter
 * interface that file declares is implemented in module Edges, where each
 * setter is a field-update function on the Edge record.
 */
module EdgeTraits {

  /** A closed three-way choice.  `None` is the "unset" tag that edge
      deletion ignores; no construction path produces it. */
  datatype EdgeType = Directed | Undirected | None

}
