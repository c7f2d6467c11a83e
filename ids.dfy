/**
 * Identifier formats used by src/graph/graph.rs: the node ids minted by
 * `create_node` (the counter, '_', the type's display name), the root id
 * ("0_root") and the edge ids built by the two edge constructors.  The
 * counter is printed as Rust prints an unsigned integer: decimal digits,
 * most significant first, no leading zero.
 */
module Ids {
  import opened Wrappers
  import opened NodeTraits

  predicate IsDigit(c: char)
  {
    '0' <= c <= '9'
  }

  predicate AllDigits(s: string)
  {
    forall i :: 0 <= i < |s| ==> IsDigit(s[i])
  }

  /** A canonical decimal numeral: non-empty, digits only, no leading zero. */
  predicate Canonical(s: string)
  {
    |s| > 0 && AllDigits(s) && (s[0] == '0' ==> |s| == 1)
  }

  /** Holds no '_', the separator between the parts of an id. */
  predicate NoSeparator(s: string)
  {
    forall i :: 0 <= i < |s| ==> s[i] != '_'
  }

  function DigitChar(d: nat): (c: char)
    requires d < 10
    ensures IsDigit(c) && c as int - '0' as int == d
  {
    ('0' as int + d) as char
  }

  /** The decimal numeral of `n`, as `{}` prints an unsigned integer. */
  function Decimal(n: nat): (s: string)
    ensures Canonical(s)
    ensures s[0] == '0' ==> n == 0
    decreases n
  {
    if n < 10 then [DigitChar(n)] else Decimal(n / 10) + [DigitChar(n % 10)]
  }

  /** The number a string of digits denotes. */
  function DecimalValue(s: string): nat
    requires AllDigits(s)
  {
    if s == [] then 0 else DecimalValue(s[..|s| - 1]) * 10 + (s[|s| - 1] as int - '0' as int)
  }

  /** Reading back a printed counter gives the counter. */
  lemma {:induction false} DecimalRoundTrip(n: nat)
    ensures DecimalValue(Decimal(n)) == n
    decreases n
  {
    if n >= 10 {
      var s := Decimal(n);
      assert s[..|s| - 1] == Decimal(n / 10);
      DecimalRoundTrip(n / 10);
    }
  }

  /** Printing the value of a canonical numeral gives the numeral back. */
  lemma {:induction false} CanonicalRoundTrip(s: string)
    requires Canonical(s)
    ensures Decimal(DecimalValue(s)) == s
    decreases |s|
  {
    if |s| > 1 {
      var p := s[..|s| - 1];
      assert Canonical(p);
      CanonicalRoundTrip(p);
      var v := DecimalValue(p);
      assert v != 0 by {
        if v == 0 {
          assert false;
        }
      }
      var d := s[|s| - 1] as int - '0' as int;
      assert (v * 10 + d) / 10 == v && (v * 10 + d) % 10 == d;
      assert Decimal(DecimalValue(s)) == p + [DigitChar(d)];
    }
  }

  /** Distinct counters print differently. */
  lemma DecimalInjective(a: nat, b: nat)
    ensures Decimal(a) == Decimal(b) <==> a == b
  {
    if Decimal(a) == Decimal(b) {
      DecimalRoundTrip(a);
      DecimalRoundTrip(b);
    }
  }

  /** Index of the first '_' in `s`, or `|s|` when there is none. */
  function FirstSeparator(s: string): (i: nat)
    ensures i <= |s|
    ensures NoSeparator(s[..i])
    ensures i < |s| ==> s[i] == '_'
  {
    if s == [] then 0
    else if s[0] == '_' then 0
    else 1 + FirstSeparator(s[1..])
  }

  /** In `p + "_" + r` with no '_' in `p`, the first separator ends `p`. */
  lemma SeparatorAfterPrefix(p: string, r: string)
    requires NoSeparator(p)
    ensures FirstSeparator(p + "_" + r) == |p|
  {
    var x := p + "_" + r;
    var i := FirstSeparator(x);
    assert x[|p|] == '_';
    assert forall j :: 0 <= j < |p| ==> x[j] == p[j];
  }

  /** A prefix without '_' is recovered, with the rest, from `p + "_" + r`. */
  lemma SplitAtFirstSeparator(p: string, r: string, p': string, r': string)
    requires NoSeparator(p) && NoSeparator(p')
    requires p + "_" + r == p' + "_" + r'
    ensures p == p' && r == r'
  {
    var x := p + "_" + r;
    SeparatorAfterPrefix(p, r);
    SeparatorAfterPrefix(p', r');
    assert p == x[..|p|] && r == x[|p| + 1..];
    assert p' == x[..|p'|] && r' == x[|p'| + 1..];
  }

  lemma LettersHaveNoSeparator(s: string)
    requires forall i :: 0 <= i < |s| ==> IsLetter(s[i])
    ensures NoSeparator(s)
  {
  }

  lemma CanonicalHasNoSeparator(s: string)
    requires Canonical(s)
    ensures NoSeparator(s)
  {
  }

  /** The id `create_node` gives the node it mints with counter value `counter`. */
  function MintedId(counter: nat, t: NodeType): (id: string)
    ensures |id| == |Decimal(counter)| + 1 + |Display(t)|
    ensures FirstSeparator(id) == |Decimal(counter)|
  {
    CanonicalHasNoSeparator(Decimal(counter));
    SeparatorAfterPrefix(Decimal(counter), Display(t));
    Decimal(counter) + "_" + Display(t)
  }

  /** The reserved id of the root node: the numeral 0 followed by "_root". */
  function RootId(): (id: string)
    ensures id == "0_root"
  {
    Decimal(0) + "_root"
  }

  /** The node type whose display string is `name`, if any. */
  function TypeNamed(name: string): (r: Option<NodeType>)
    ensures r.Some? ==> Display(r.value) == name
    ensures r.None? ==> forall t :: Display(t) != name
  {
    if name == "Primary" then Some(NodeType.Primary)
    else if name == "Data" then Some(NodeType.Data)
    else if name == "Text" then Some(NodeType.Text)
    else if name == "Binary" then Some(NodeType.Binary)
    else if name == "None" then Some(NodeType.None)
    else Option.None
  }

  /** Splits an id of the form `"<n>_<Type>"` back into counter and type. */
  function ParseMintedId(id: string): (r: Option<(nat, NodeType)>)
  {
    var i := FirstSeparator(id);
    if i == |id| || !Canonical(id[..i]) then Option.None
    else match TypeNamed(id[i + 1..])
      case Some(t) => Some((DecimalValue(id[..i]), t))
      case None => Option.None
  }

  /** Counter and type part are recoverable from every minted id. */
  lemma MintedIdRoundTrip(counter: nat, t: NodeType)
    ensures ParseMintedId(MintedId(counter, t)) == Some((counter, t))
  {
    var d := Decimal(counter);
    var id := MintedId(counter, t);
    SeparatorAfterPrefix(d, Display(t));
    assert id[..|d|] == d && id[|d| + 1..] == Display(t);
    DecimalRoundTrip(counter);
  }

  /** Exactly the minted ids parse: a successful parse names the pair that mints the id. */
  lemma ParseMintedIdSound(id: string)
    ensures ParseMintedId(id).Some? ==> MintedId(ParseMintedId(id).value.0, ParseMintedId(id).value.1) == id
  {
    var i := FirstSeparator(id);
    if ParseMintedId(id).Some? {
      var digits := id[..i];
      CanonicalRoundTrip(digits);
      assert id == digits + "_" + id[i + 1..];
    }
  }

  /** Minted ids never repeat: distinct counters (or types) give distinct ids. */
  lemma MintedIdInjective(a: nat, ta: NodeType, b: nat, tb: NodeType)
    ensures MintedId(a, ta) == MintedId(b, tb) <==> a == b && ta == tb
  {
    MintedIdRoundTrip(a, ta);
    MintedIdRoundTrip(b, tb);
  }

  /** No minted id collides with the root's reserved id. */
  lemma RootIdNeverMinted(counter: nat, t: NodeType)
    ensures MintedId(counter, t) != RootId()
  {
    if MintedId(counter, t) == RootId() {
      CanonicalHasNoSeparator(Decimal(counter));
      SplitAtFirstSeparator(Decimal(counter), Display(t), "0", "root");
    }
  }

  /** The id `add_undirected_edge` gives the edge from `a` to `b`. */
  function UndirectedEdgeId(a: string, b: string): (id: string)
    ensures |id| == |a| + |b| + 12
    ensures id[..|a|] == a && id[|a|] == '_'
    ensures id[|a| + 1..|a| + 1 + |b|] == b
    ensures id[|a| + 1 + |b|..] == "_undirected"
  {
    a + "_" + b + "_undirected"
  }

  /** The id `add_directed_edge` gives the edge from `a` to `b`. */
  function DirectedEdgeId(a: string, b: string): (id: string)
    ensures |id| == |a| + |b| + 10
    ensures id[..|a|] == a && id[|a|] == '_'
    ensures id[|a| + 1..|a| + 1 + |b|] == b
    ensures id[|a| + 1 + |b|..] == "_directed"
  {
    a + "_" + b + "_directed"
  }

  /** An undirected id never equals a directed one, whatever the endpoints:
      nine characters from the end, one holds 'n' and the other '_'. */
  lemma EdgeIdKindsDisjoint(a: string, b: string, c: string, d: string)
    ensures UndirectedEdgeId(a, b) != DirectedEdgeId(c, d)
  {
    var u := UndirectedEdgeId(a, b);
    var v := DirectedEdgeId(c, d);
    assert u[|u| - 9] == 'n';
    assert v[|v| - 9] == '_';
  }

  /** `Display(t) + tail` determines `t` when `tail` starts with '_'. */
  lemma TypeBeforeSeparator(t: NodeType, r: string, t': NodeType, r': string)
    requires Display(t) + "_" + r == Display(t') + "_" + r'
    ensures t == t' && r == r'
  {
    LettersHaveNoSeparator(Display(t));
    LettersHaveNoSeparator(Display(t'));
    SplitAtFirstSeparator(Display(t), r, Display(t'), r');
    DisplayInjective(t, t');
  }

  /** Moves the second separator of `p_q_r` into the tail. */
  lemma Regroup(p: string, q: string, r: string)
    ensures p + "_" + q + "_" + r == p + "_" + (q + "_" + r)
  {
  }

  /** `MintedId(n, t) + "_" + r` determines `n`, `t` and `r`. */
  lemma MintedBeforeSeparator(n: nat, t: NodeType, r: string, n': nat, t': NodeType, r': string)
    requires MintedId(n, t) + "_" + r == MintedId(n', t') + "_" + r'
    ensures n == n' && t == t' && r == r'
  {
    CanonicalHasNoSeparator(Decimal(n));
    CanonicalHasNoSeparator(Decimal(n'));
    Regroup(Decimal(n), Display(t), r);
    Regroup(Decimal(n'), Display(t'), r');
    SplitAtFirstSeparator(Decimal(n), Display(t) + "_" + r, Decimal(n'), Display(t') + "_" + r');
    DecimalInjective(n, n');
    TypeBeforeSeparator(t, r, t', r');
  }

  /** Two strings with the same suffix appended are equal. */
  lemma CancelSuffix(x: string, y: string, s: string)
    requires x + s == y + s
    ensures x == y
  {
    assert x == (x + s)[..|x|];
    assert y == (y + s)[..|y|];
  }

  /** Between minted nodes, an undirected edge id names its ordered endpoint pair. */
  lemma UndirectedEdgeIdsInjective(n1: nat, t1: NodeType, n2: nat, t2: NodeType,
                                   m1: nat, s1: NodeType, m2: nat, s2: NodeType)
    requires UndirectedEdgeId(MintedId(n1, t1), MintedId(n2, t2)) == UndirectedEdgeId(MintedId(m1, s1), MintedId(m2, s2))
    ensures n1 == m1 && t1 == s1 && n2 == m2 && t2 == s2
  {
    var b, b' := MintedId(n2, t2), MintedId(m2, s2);
    CancelSuffix(MintedId(n1, t1) + "_" + b, MintedId(m1, s1) + "_" + b', "_undirected");
    MintedBeforeSeparator(n1, t1, b, m1, s1, b');
    MintedIdInjective(n2, t2, m2, s2);
  }

  /** Between minted nodes, a directed edge id names its ordered endpoint pair. */
  lemma DirectedEdgeIdsInjective(n1: nat, t1: NodeType, n2: nat, t2: NodeType,
                                 m1: nat, s1: NodeType, m2: nat, s2: NodeType)
    requires DirectedEdgeId(MintedId(n1, t1), MintedId(n2, t2)) == DirectedEdgeId(MintedId(m1, s1), MintedId(m2, s2))
    ensures n1 == m1 && t1 == s1 && n2 == m2 && t2 == s2
  {
    var b, b' := MintedId(n2, t2), MintedId(m2, s2);
    CancelSuffix(MintedId(n1, t1) + "_" + b, MintedId(m1, s1) + "_" + b', "_directed");
    MintedBeforeSeparator(n1, t1, b, m1, s1, b');
    MintedIdInjective(n2, t2, m2, s2);
  }

}
