/** A cell of the navigation grid together with its A* bookkeeping
    (Shared/Node.hpp). */
module Nodes {
  import opened Util

  /** INT_MAX of a 32-bit C++ `int`. */
  const IntMax: int := 0x7FFF_FFFF
  /** Initial value of `g` and `h`: "practically infinite". */
  const Unreached: int := IntMax / 3
  /** The f reported by every wall node, whatever its g and h. */
  const WallF: int := 3 * (IntMax / 4)

  class Node {
    const x: int
    const y: int
    var g: int
    var h: int
    var parent: Node?
    var isWall: bool

    /** A fresh open cell at (x, y) with unreached costs and no parent. */
    constructor (x: int, y: int)
      ensures this.x == x && this.y == y
      ensures g == Unreached && h == Unreached
      ensures parent == null && !isWall
    {
      this.x := x;
      this.y := y;
      g := Unreached;
      h := Unreached;
      parent := null;
      isWall := false;
    }

    /** Total estimated cost; a wall reports the constant WallF.  For costs
        no larger than the initial value, g + h cannot overflow a 32-bit int
        and stays strictly below WallF. */
    function F(): (f: int)
      reads this
      ensures isWall ==> f == WallF
      ensures !isWall && 0 <= g <= Unreached && 0 <= h <= Unreached ==> f == g + h < WallF
    {
      if isWall then WallF else Wrap32(g + h)
    }

    method SetG(newG: int)
      modifies this`g
      ensures g == newG
    {
      g := newG;
    }

    method SetH(newH: int)
      modifies this`h
      ensures h == newH
    {
      h := newH;
    }

    method SetWall(newIsWall: bool)
      modifies this`isWall
      ensures isWall == newIsWall
    {
      isWall := newIsWall;
    }

    method SetParent(newParent: Node?)
      modifies this`parent
      ensures parent == newParent
    {
      parent := newParent;
    }

    /** Restores the search fields to their initial values; position and
        wall flag are kept. */
    method Reset()
      modifies this`g, this`h, this`parent
      ensures g == Unreached && h == Unreached && parent == null
    {
      g := Unreached;
      h := Unreached;
      parent := null;
    }
  }

  /** The ordering the open list is sorted by. */
  predicate NodeComparison(a: Node, b: Node)
    reads a, b
  {
    a.F() < b.F()
  }

  /** NodeComparison is a strict weak order: irreflexive, transitive, and
      incomparability is transitive. */
  lemma NodeComparisonIsStrictWeakOrder(a: Node, b: Node, c: Node)
    ensures !NodeComparison(a, a)
    ensures NodeComparison(a, b) && NodeComparison(b, c) ==> NodeComparison(a, c)
    ensures NodeComparison(a, b) ==> !NodeComparison(b, a)
    ensures !NodeComparison(a, b) && !NodeComparison(b, a) && !NodeComparison(b, c) && !NodeComparison(c, b)
            ==> !NodeComparison(a, c) && !NodeComparison(c, a)
  {
  }

  /** An open node whose costs are at most their initial value always sorts
      strictly before any wall. */
  lemma OpenNodeSortsBeforeWall(a: Node, w: Node)
    requires !a.isWall && 0 <= a.g <= Unreached && 0 <= a.h <= Unreached
    requires w.isWall
    ensures NodeComparison(a, w) && !NodeComparison(w, a)
  {
  }
}
