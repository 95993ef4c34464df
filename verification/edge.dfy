/**
 * graph/Edge.java: an outgoing edge of a node, a (child, label) pair.
 * The Java class is immutable (both fields are set once by the constructor),
 * so it is a datatype here; its getters are the destructors `child` and
 * `label`, and its non-null rep invariant holds of every Dafny value.
 */
module Edges {
  import opened Wrappers
  import JavaStrings

  /** `child` is getChild(); `lbl` is getLabel() (`label` is a Dafny keyword). */
  datatype Edge<N, L> = Edge(child: N, lbl: L)

  /**
   * toString: the child, then the label in parentheses. `showN` and `showL`
   * stand for the node's and the label's own toString.
   */
  function ToString<N, L>(e: Edge<N, L>, showN: N -> string, showL: L -> string): (s: string)
    ensures |s| == |showN(e.child)| + |showL(e.lbl)| + 2
    ensures s[..|showN(e.child)|] == showN(e.child)
    ensures s[|showN(e.child)|] == '(' && s[|s| - 1] == ')'
    ensures s[|showN(e.child)| + 1..|s| - 1] == showL(e.lbl)
  {
    var c, l := showN(e.child), showL(e.lbl);
    assert (c + "(" + l + ")")[|c| + 1..|c| + 1 + |l|] == l;
    c + "(" + l + ")"
  }

  /** hashCode: the sum of the child's and the label's hash codes, in `int` arithmetic. */
  function HashCode<N, L>(e: Edge<N, L>, hashN: N -> int, hashL: L -> int): (h: int)
    ensures -JavaStrings.TWO_31 <= h < JavaStrings.TWO_31
    ensures (hashN(e.child) + hashL(e.lbl) - h) % JavaStrings.TWO_32 == 0
  {
    JavaStrings.Wrap32(hashN(e.child) + hashL(e.lbl))
  }

  /**
   * equals AS WRITTEN: `other` is `None` for an object that is not an Edge;
   * for an Edge, it compares the hash codes of the children and of the
   * labels, not the values themselves.
   */
  function EqualsAsWritten<N, L>(e: Edge<N, L>, other: Option<Edge<N, L>>,
                                 hashN: N -> int, hashL: L -> int): (b: bool)
    ensures b <==> other.Some? && hashN(other.value.child) == hashN(e.child)
                                && hashL(other.value.lbl) == hashL(e.lbl)
  {
    match other
    case None => false
    case Some(o) => hashN(e.child) == hashN(o.child) && hashL(e.lbl) == hashL(o.lbl)
  }

  /**
   * Two different string edges that the as-written equals calls equal:
   * "Aa" and "BB" collide under String.hashCode, so a HashSet holding the
   * edge to "Aa" refuses the edge to "BB" with the same label.
   */
  lemma EqualsAsWrittenCollision()
    ensures Edge("Aa", "e") != Edge("BB", "e")
    ensures EqualsAsWritten(Edge("Aa", "e"), Some(Edge("BB", "e")), JavaStrings.Hash, JavaStrings.Hash)
  {
    JavaStrings.HashAaBB();
  }

  /**
   * equals as documented: same child and same label. This is the equality the
   * rest of the model uses (Dafny's structural equality on the datatype).
   */
  function Equals<N(==), L(==)>(e: Edge<N, L>, other: Option<Edge<N, L>>): (b: bool)
    ensures b <==> other == Some(e)
  {
    match other
    case None => false
    case Some(o) => e.child == o.child && e.lbl == o.lbl
  }

  /** Equal edges have equal hash codes, for any hash functions of nodes and labels. */
  lemma EqualsImpliesSameHashCode<N, L>(e: Edge<N, L>, o: Edge<N, L>,
                                     hashN: N -> int, hashL: L -> int)
    requires Equals(e, Some(o))
    ensures HashCode(e, hashN, hashL) == HashCode(o, hashN, hashL)
    ensures EqualsAsWritten(e, Some(o), hashN, hashL)
  {
  }
}
