/** The open list of the A* search: a vector of nodes kept ordered by f
    (Shared/Map.hpp, struct NodeQueue). */
module Queue {
  import opened Nodes

  /** Non-decreasing f along the sequence. */
  ghost predicate SortedByF(s: seq<Node>)
    reads set i | 0 <= i < |s| :: s[i]
  {
    forall i, j :: 0 <= i < j < |s| ==> s[i].F() <= s[j].F()
  }

  /** The position std::upper_bound finds in a sequence sorted by f: every
      node before it has f no larger than n's, every node from it on has a
      strictly larger f. */
  method UpperBound(s: seq<Node>, n: Node) returns (pos: nat)
    requires SortedByF(s)
    ensures pos <= |s|
    ensures forall i :: 0 <= i < pos ==> s[i].F() <= n.F()
    ensures forall i :: pos <= i < |s| ==> n.F() < s[i].F()
  {
    var lo, hi := 0, |s|;
    while lo < hi
      invariant 0 <= lo <= hi <= |s|
      invariant forall i :: 0 <= i < lo ==> s[i].F() <= n.F()
      invariant forall i :: hi <= i < |s| ==> n.F() < s[i].F()
    {
      var mid := (lo + hi) / 2;
      if n.F() < s[mid].F() {
        hi := mid;
      } else {
        lo := mid + 1;
      }
    }
    pos := lo;
  }

  /** Inserting at the upper bound keeps a sorted sequence sorted. */
  lemma {:induction false} InsertAtUpperBoundSorted(s: seq<Node>, n: Node, pos: nat)
    requires SortedByF(s) && pos <= |s|
    requires forall i :: 0 <= i < pos ==> s[i].F() <= n.F()
    requires forall i :: pos <= i < |s| ==> n.F() < s[i].F()
    ensures SortedByF(s[..pos] + [n] + s[pos..])
  {
    var t := s[..pos] + [n] + s[pos..];
    forall i, j | 0 <= i < j < |t|
      ensures t[i].F() <= t[j].F()
    {
      if j < pos || i > pos {
        assert t[i] == s[if i < pos then i else i - 1];
        assert t[j] == s[if j < pos then j else j - 1];
      }
    }
  }

  /** Inserting one element anywhere adds exactly that element. */
  lemma InsertAddsOne(s: seq<Node>, n: Node, pos: nat)
    requires pos <= |s|
    ensures multiset(s[..pos] + [n] + s[pos..]) == multiset(s) + multiset{n}
  {
    assert s == s[..pos] + s[pos..];
  }

  /** A copy of s ordered by f, built by repeated upper-bound insertion. */
  method SortedCopy(s: seq<Node>) returns (sorted: seq<Node>)
    ensures SortedByF(sorted)
    ensures multiset(sorted) == multiset(s)
  {
    sorted := [];
    var i := 0;
    while i < |s|
      invariant 0 <= i <= |s|
      invariant SortedByF(sorted)
      invariant multiset(sorted) == multiset(s[..i])
    {
      var p := UpperBound(sorted, s[i]);
      InsertAtUpperBoundSorted(sorted, s[i], p);
      InsertAddsOne(sorted, s[i], p);
      assert s[..i + 1] == s[..i] + [s[i]];
      sorted := sorted[..p] + [s[i]] + sorted[p..];
      i := i + 1;
    }
    assert s[..i] == s;
  }

  class NodeQueue {
    var items: seq<Node>

    /** A queue holding exactly the given node. */
    constructor (n: Node)
      ensures items == [n]
    {
      items := [n];
    }

    /** Inserts n after every node whose f is not larger than n's, so equal
        keys keep their arrival order. */
    method SortInsert(n: Node) returns (ghost pos: nat)
      requires SortedByF(items)
      modifies this
      ensures pos <= |old(items)| && items == old(items)[..pos] + [n] + old(items)[pos..]
      ensures forall i :: 0 <= i < pos ==> items[i].F() <= n.F()
      ensures forall i :: pos < i < |items| ==> n.F() < items[i].F()
      ensures SortedByF(items)
      ensures multiset(items) == multiset(old(items)) + multiset{n}
    {
      var p := UpperBound(items, n);
      InsertAtUpperBoundSorted(items, n, p);
      InsertAddsOne(items, n, p);
      items := items[..p] + [n] + items[p..];
      pos := p;
    }

    /** Orders the whole queue by f.  Like std::sort, equal keys may end up
        in any order; only sortedness and the permutation are promised. */
    method ManualSort()
      modifies this
      ensures SortedByF(items)
      ensures multiset(items) == multiset(old(items))
    {
      items := SortedCopy(items);
    }
  }
}
