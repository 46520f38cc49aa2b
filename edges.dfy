/** Directed labelled edges (graphStructure/Edge.java). */
module Edges {

  /** The value of an edge: the triple (label, start, end), the label in `lbl`. Two edges are
      equal exactly when the triples are, which is what gives a graph's
      edge sets their set semantics. */
  datatype Edge<T, E> = Edge(lbl: E, start: T, end: T)

  /** The argument of Java's `equals(Object)`: either another edge, given
      by its fields, or anything that is not an edge (including null). */
  datatype AnyObject<T, E> = AnEdge(edge: Edge<T, E>) | NotAnEdge

  /** Java's 32-bit `int`. */
  type Int32 = x: int | -0x8000_0000 <= x < 0x8000_0000

  /** Two's-complement wrap-around of Java `int` arithmetic. */
  function WrapInt32(x: int): (r: Int32)
    ensures (r - x) % 0x1_0000_0000 == 0
  {
    (x + 0x8000_0000) % 0x1_0000_0000 - 0x8000_0000
  }

  /** An edge object: the label can be replaced in place, the end points
      are final. */
  class MutableEdge<T(==), E(==)> {
    var lbl: E
    const start: T
    const end: T

    constructor (lbl: E, start: T, end: T)
      ensures GetLabel() == lbl && GetStart() == start && GetEnd() == end
    {
      this.lbl := lbl;
      this.start := start;
      this.end := end;
    }

    /** `getLabel`: the current label, the last one set. */
    function GetLabel(): (l: E)
      reads this
      ensures l == lbl
    {
      lbl
    }

    /** `getStart`: the start node, fixed at construction. */
    function GetStart(): (s: T)
      ensures s == start
    {
      start
    }

    /** `getEnd`: the end node, fixed at construction. */
    function GetEnd(): (t: T)
      ensures t == end
    {
      end
    }

    /** The triple this object currently stands for. */
    function Value(): (v: Edge<T, E>)
      reads this
      ensures v.lbl == GetLabel() && v.start == GetStart() && v.end == GetEnd()
    {
      Edge(lbl, start, end)
    }

    /** Replaces the label; start and end stay as they were. */
    method SetLabel(lbl: E)
      modifies this
      ensures GetLabel() == lbl
      ensures Value() == old(Value()).(lbl := lbl)
    {
      this.lbl := lbl;
    }

    /** `equals`: true exactly for an edge with the same label, start and end. */
    function Equals(obj: AnyObject<T, E>): (r: bool)
      reads this
      ensures r <==> obj == AnEdge(Value())
      ensures obj.NotAnEdge? ==> !r
    {
      match obj
      case NotAnEdge => false
      case AnEdge(other) =>
        other.lbl == lbl && other.start == start && other.end == end
    }

    /** `hashCode`: 3 * label + 7 * start + 11 * end in Java `int`
        arithmetic, given the element types' own hash functions. */
    function HashCode(hashLabel: E -> Int32, hashNode: T -> Int32): (h: Int32)
      reads this
      ensures (h - (3 * hashLabel(lbl) + 7 * hashNode(start) + 11 * hashNode(end))) % 0x1_0000_0000 == 0
    {
      WrapInt32(3 * hashLabel(lbl) + 7 * hashNode(start) + 11 * hashNode(end))
    }
  }

  /** Equal edges have equal hash codes, whatever the element hashes are. */
  lemma EqualEdgesHashEqually<T, E>(a: MutableEdge<T, E>, b: MutableEdge<T, E>,
                                    hashLabel: E -> Int32, hashNode: T -> Int32)
    requires a.Equals(AnEdge(b.Value()))
    ensures a.HashCode(hashLabel, hashNode) == b.HashCode(hashLabel, hashNode)
  {
  }

  /** `equals` is symmetric on edges. */
  lemma EqualsSymmetric<T, E>(a: MutableEdge<T, E>, b: MutableEdge<T, E>)
    ensures a.Equals(AnEdge(b.Value())) <==> b.Equals(AnEdge(a.Value()))
  {
  }

  /** Two separately constructed edges with the same fields are equal. */
  method SeparatelyConstructedEdgesAreEqual<T(==), E(==)>(lbl: E, start: T, end: T)
    returns (equal: bool)
    ensures equal
  {
    var a := new MutableEdge(lbl, start, end);
    var b := new MutableEdge(lbl, start, end);
    equal := a.Equals(AnEdge(b.Value()));
  }
}
