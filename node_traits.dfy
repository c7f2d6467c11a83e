/**
 * Node type tags, their default and display form, and the node payload
 * union of src/graph/traits/node_traits.rs.
 */
module NodeTraits {

  datatype NodeType = Primary | Data | Text | Binary | None

  /** One byte of binary payload. */
  type Byte = bv8

  /** Exactly one of: a list of strings, a list of byte strings, both lists,
      or no payload at all. */
  datatype NodeData =
    | Text(texts: seq<string>)
    | Binary(blobs: seq<seq<Byte>>)
    | Composite(text: seq<string>, binary: seq<seq<Byte>>)
    | None

  predicate IsLetter(c: char)
  {
    'A' <= c <= 'Z' || 'a' <= c <= 'z'
  }

  /** `NodeType::default()`: the uncategorised type. */
  function Default(): (t: NodeType)
    ensures t.None?
  {
    NodeType.None
  }

  /** The display form of a node type: the variant's own name.  Every display
      string is a non-empty word of letters, so it holds neither a digit nor
      the '_' that separates the parts of a minted node id. */
  function Display(t: NodeType): (s: string)
    ensures |s| > 0
    ensures forall i :: 0 <= i < |s| ==> IsLetter(s[i])
  {
    match t
    case Primary => "Primary"
    case Data => "Data"
    case Text => "Text"
    case Binary => "Binary"
    case None => "None"
  }

  /** Different node types display differently. */
  lemma DisplayInjective(a: NodeType, b: NodeType)
    ensures Display(a) == Display(b) <==> a == b
  {
  }

}
