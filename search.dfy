/** The bookkeeping of the A* search (Shared/Map.cpp, a_star_pathfind) as
    values: a snapshot of each node's g, parent and wall flag, and the
    invariant the search keeps over the open list and the closed set. */
module SearchState {
  import opened Nodes

  /** Two cells share a side: same column and consecutive rows, or same row
      and consecutive columns. */
  predicate IndexAdjacent(p: (nat, nat), q: (nat, nat))
  {
    (p.0 == q.0 && (p.1 + 1 == q.1 || q.1 + 1 == p.1)) ||
    (p.1 == q.1 && (p.0 + 1 == q.0 || q.0 + 1 == p.0))
  }

  /** Removes every occurrence of x (std::remove followed by erase). */
  function Without(s: seq<Node>, x: Node): (r: seq<Node>)
    ensures multiset(r) == multiset(s)[x := 0]
    ensures forall i :: 0 <= i < |r| ==> r[i] in s && r[i] != x
    ensures forall i :: 0 <= i < |s| && s[i] != x ==> s[i] in r
  {
    if |s| == 0 then []
    else
      assert s == s[..|s| - 1] + [s[|s| - 1]];
      if s[|s| - 1] == x then Without(s[..|s| - 1], x)
      else Without(s[..|s| - 1], x) + [s[|s| - 1]]
  }

  /** No node is on the list twice. */
  predicate Distinct(s: seq<Node>) {
    forall i, j | 0 <= i < j < |s| :: s[i] != s[j]
  }

  /** A list has no repeats exactly when no node counts twice in it. */
  lemma {:induction false} DistinctCounts(s: seq<Node>)
    ensures Distinct(s) <==> forall x :: multiset(s)[x] <= 1
  {
    if s != [] {
      var t, l := s[..|s| - 1], s[|s| - 1];
      DistinctCounts(t);
      assert s == t + [l];
      assert multiset(s) == multiset(t) + multiset{l};
      if Distinct(s) {
        assert Distinct(t) by {
          forall i, j | 0 <= i < j < |t| ensures t[i] != t[j] {
            assert t[i] == s[i] && t[j] == s[j];
          }
        }
        assert l !in t by {
          forall i | 0 <= i < |t| ensures t[i] != l {
            assert t[i] == s[i];
          }
        }
      }
      if forall x :: multiset(s)[x] <= 1 {
        assert forall x :: multiset(t)[x] <= multiset(s)[x];
        assert l !in t by {
          assert multiset(s)[l] == multiset(t)[l] + 1;
        }
        forall i, j | 0 <= i < j < |s| ensures s[i] != s[j] {
          if j < |t| {
            assert s[i] == t[i] && s[j] == t[j];
          } else {
            assert s[i] == t[i] && t[i] in t;
          }
        }
      }
    }
  }

  /** A list that holds each node at most as often as a list without
      repeats has no repeats either. */
  lemma DistinctSub(s: seq<Node>, r: seq<Node>)
    requires Distinct(s) && forall x :: multiset(r)[x] <= multiset(s)[x]
    ensures Distinct(r)
  {
    DistinctCounts(s);
    DistinctCounts(r);
  }

  /** The search-relevant fields of every node, as values. */
  datatype Fields = Fields(g: map<Node, int>, parent: map<Node, Node?>, isWall: map<Node, bool>)

  /** n's parent link is sound: the parent is a closed, open-cell,
      side-adjacent node whose g is one less. */
  ghost predicate ParentOk(loc: map<Node, (nat, nat)>, f: Fields, closed: set<Node>, n: Node)
  {
    && n in loc && n in f.g && n in f.parent && 0 <= f.g[n]
    && (f.parent[n] != null ==>
          var p := f.parent[n];
          p in closed && p in loc && p in f.g && p in f.isWall && !f.isWall[p]
          && f.g[n] == f.g[p] + 1 && IndexAdjacent(loc[p], loc[n]))
  }

  /** Every grid node's parent link is sound. */
  ghost predicate ParentsSound(loc: map<Node, (nat, nat)>, f: Fields, closed: set<Node>)
  {
    forall n {:trigger ParentOk(loc, f, closed, n)} :: n in loc ==> ParentOk(loc, f, closed, n)
  }

  /** Where n stands in the search: a node never reached is parentless and
      unreached; a reached one other than start has a parent, and its g is
      at most the number of closed nodes. */
  ghost predicate FrontierOk(f: Fields, start: Node, open: seq<Node>, closed: set<Node>, n: Node)
  {
    && n in f.g && n in f.parent
    && (n !in open && n !in closed ==> f.parent[n] == null && f.g[n] == Unreached)
    && (n in open || n in closed ==> f.g[n] <= |closed| && (n != start ==> f.parent[n] != null))
  }

  /** Every side neighbour of n has been reached (put on the open list or
      closed); a wall is never expanded, so nothing is asked of it. */
  ghost predicate Expanded(loc: map<Node, (nat, nat)>, walls: map<Node, bool>, open: seq<Node>, closed: set<Node>, n: Node)
  {
    && n in loc && n in walls
    && (!walls[n] ==> forall m :: m in loc && IndexAdjacent(loc[n], loc[m]) ==> m in open || m in closed)
  }

  /** Grid node n's share of the loop invariant of A*:
      - it is never open and closed at once;
      - its parent link and its g agree with how far the search has got;
      - its wall flag is the one of the grid;
      - start is the root of the parent links, at cost 0, and reached;
      - the goal is an open cell that is not closed before it is popped;
      - a node of done (the closed nodes already expanded) has all its side
        neighbours reached;
      - it is closed exactly when it is on the closed list. */
  ghost predicate NodeOk(loc: map<Node, (nat, nat)>, walls: map<Node, bool>, start: Node, goal: Node,
                         open: seq<Node>, closedList: seq<Node>, closed: set<Node>, done: set<Node>, f: Fields, n: Node)
  {
    && !(n in open && n in closed)
    && ParentOk(loc, f, closed, n) && FrontierOk(f, start, open, closed, n)
    && n in f.isWall && n in walls && f.isWall[n] == walls[n]
    && (n == start ==> f.parent[n] == null && f.g[n] == 0 && (n in open || n in closed))
    && (n == goal ==> !walls[n] && n !in closed)
    && (n in done ==> n in closed && Expanded(loc, walls, open, closed, n))
    && (n in closed <==> n in closedList)
  }

  /** The loop invariant of A*: start, goal and every open or closed node
      are grid nodes, no node is open twice, and every grid node is in
      order. */
  ghost predicate LoopInv(loc: map<Node, (nat, nat)>, walls: map<Node, bool>, start: Node, goal: Node,
                          open: seq<Node>, closedList: seq<Node>, closed: set<Node>, done: set<Node>, f: Fields)
  {
    && start in loc && goal in loc
    && (forall n :: n in open ==> n in loc) && Distinct(open)
    && closed <= loc.Keys
    && forall n {:trigger NodeOk(loc, walls, start, goal, open, closedList, closed, done, f, n)} :: n in loc ==>
         NodeOk(loc, walls, start, goal, open, closedList, closed, done, f, n)
  }

  lemma SubsetCardinality(a: set<Node>, b: set<Node>)
    requires a <= b
    ensures |a| <= |b|
  {
    assert b == a + (b - a);
  }

  /** After the reset, with only the start costed, the invariant holds for
      the open list [start] and nothing closed. */
  lemma InitialLoopInv(loc: map<Node, (nat, nat)>, walls: map<Node, bool>, start: Node, goal: Node, f: Fields)
    requires start in loc && goal in loc && goal in walls && !walls[goal]
    requires forall n :: n in loc ==>
               && n in f.g && n in f.parent && n in f.isWall && n in walls && f.isWall[n] == walls[n]
               && f.parent[n] == null && f.g[n] == (if n == start then 0 else Unreached)
    ensures LoopInv(loc, walls, start, goal, [start], [], {}, {}, f)
  {
    forall n | n in loc
      ensures NodeOk(loc, walls, start, goal, [start], [], {}, {}, f, n)
    {
    }
  }

  /** Reordering the open list does not affect the invariant. */
  lemma PermutedLoopInv(loc: map<Node, (nat, nat)>, walls: map<Node, bool>, start: Node, goal: Node,
                        open: seq<Node>, open2: seq<Node>, closedList: seq<Node>, closed: set<Node>, f: Fields)
    requires LoopInv(loc, walls, start, goal, open, closedList, closed, closed, f)
    requires multiset(open2) == multiset(open)
    ensures LoopInv(loc, walls, start, goal, open2, closedList, closed, closed, f)
  {
    DistinctSub(open, open2);
    forall n
      ensures n in open <==> n in open2
    {
      assert n in open <==> n in multiset(open);
      assert n in open2 <==> n in multiset(open2);
    }
    forall n | n in loc
      ensures NodeOk(loc, walls, start, goal, open2, closedList, closed, closed, f, n)
    {
      assert NodeOk(loc, walls, start, goal, open, closedList, closed, closed, f, n);
      if n in closed {
        assert Expanded(loc, walls, open, closed, n);
      }
    }
  }

  /** Moving an open node c to the closed list keeps the invariant, with c
      not yet expanded; the closed set grows by one and leaves room for one
      more step from c. */
  lemma CloseLoopInv(loc: map<Node, (nat, nat)>, walls: map<Node, bool>, start: Node, goal: Node,
                     open: seq<Node>, closedList: seq<Node>, closed: set<Node>, f: Fields, c: Node)
    requires LoopInv(loc, walls, start, goal, open, closedList, closed, closed, f)
    requires c in open && c != goal
    ensures LoopInv(loc, walls, start, goal, Without(open, c), closedList + [c], closed + {c}, closed, f)
    ensures c in loc && c !in closed && |closed + {c}| <= |loc|
    ensures c in f.g && f.g[c] + 1 <= |closed + {c}| && c in walls
  {
    var rest, closed2 := Without(open, c), closed + {c};
    DistinctSub(open, rest);
    assert forall n :: n in rest <==> n in open && n != c;
    assert NodeOk(loc, walls, start, goal, open, closedList, closed, closed, f, c);
    forall n | n in loc
      ensures NodeOk(loc, walls, start, goal, rest, closedList + [c], closed2, closed, f, n)
    {
      assert NodeOk(loc, walls, start, goal, open, closedList, closed, closed, f, n);
      if n in closed {
        assert Expanded(loc, walls, open, closed, n);
      }
    }
    forall n | n in closed2
      ensures n in loc
    {
      assert NodeOk(loc, walls, start, goal, open, closedList, closed, closed, f, n);
    }
    SubsetCardinality(closed2, loc.Keys);
  }

  /** Giving nb the parent current and cost g[current] + 1 keeps every
      parent link sound. */
  lemma RelinkKeepsParentsSound(loc: map<Node, (nat, nat)>, f: Fields, closed: set<Node>, current: Node, nb: Node)
    requires ParentsSound(loc, f, closed)
    requires current in closed && ParentOk(loc, f, closed, current) && current in f.isWall && !f.isWall[current]
    requires ParentOk(loc, f, closed, nb) && nb !in closed && IndexAdjacent(loc[current], loc[nb])
    ensures ParentsSound(loc, Fields(f.g[nb := f.g[current] + 1], f.parent[nb := current], f.isWall), closed)
  {
    var f2 := Fields(f.g[nb := f.g[current] + 1], f.parent[nb := current], f.isWall);
    assert ParentOk(loc, f, closed, current);
    forall n | n in loc
      ensures ParentOk(loc, f2, closed, n)
    {
      assert ParentOk(loc, f, closed, n);
    }
  }

  /** The loop invariant gives sound parent links. */
  lemma LoopInvParents(loc: map<Node, (nat, nat)>, walls: map<Node, bool>, start: Node, goal: Node,
                       open: seq<Node>, closedList: seq<Node>, closed: set<Node>, done: set<Node>, f: Fields)
    requires LoopInv(loc, walls, start, goal, open, closedList, closed, done, f)
    ensures ParentsSound(loc, f, closed)
  {
    forall n | n in loc
      ensures ParentOk(loc, f, closed, n)
    {
      assert NodeOk(loc, walls, start, goal, open, closedList, closed, done, f, n);
    }
  }

  /** Relaxing one neighbour nb of the node current under expansion: a
      neighbour not yet open joins the open list; a cheaper route through
      current becomes its parent link.  The invariant survives both. */
  lemma RelaxLoopInv(loc: map<Node, (nat, nat)>, walls: map<Node, bool>, start: Node, goal: Node,
                     open: seq<Node>, closedList: seq<Node>, closed: set<Node>, done: set<Node>, f: Fields,
                     current: Node, nb: Node, open2: seq<Node>, f2: Fields)
    requires LoopInv(loc, walls, start, goal, open, closedList, closed, done, f) && |closed| < Unreached
    requires current in closed && current in f.g && current in f.isWall && !f.isWall[current]
    requires f.g[current] + 1 <= |closed|
    requires nb in loc && nb in f.g && nb !in closed && IndexAdjacent(loc[current], loc[nb])
    requires open2 == if nb in open then open else open + [nb]
    requires f2 == if f.g[current] + 1 < f.g[nb]
                   then Fields(f.g[nb := f.g[current] + 1], f.parent[nb := current], f.isWall)
                   else f
    ensures LoopInv(loc, walls, start, goal, open2, closedList, closed, done, f2)
  {
    assert NodeOk(loc, walls, start, goal, open, closedList, closed, done, f, current);
    assert NodeOk(loc, walls, start, goal, open, closedList, closed, done, f, nb);
    if f.g[current] + 1 < f.g[nb] {
      LoopInvParents(loc, walls, start, goal, open, closedList, closed, done, f);
      RelinkKeepsParentsSound(loc, f, closed, current, nb);
    }
    forall n | n in loc
      ensures NodeOk(loc, walls, start, goal, open2, closedList, closed, done, f2, n)
    {
      assert NodeOk(loc, walls, start, goal, open, closedList, closed, done, f, n);
      if n in loc {
        assert ParentOk(loc, f2, closed, n);
      }
      if n in done {
        assert Expanded(loc, walls, open, closed, n);
      }
    }
  }

  /** Once every side neighbour of the closed node c is reached (or c is a
      wall), c counts as expanded. */
  lemma ExpandedLoopInv(loc: map<Node, (nat, nat)>, walls: map<Node, bool>, start: Node, goal: Node,
                        open: seq<Node>, closedList: seq<Node>, closed: set<Node>, done: set<Node>, f: Fields, c: Node)
    requires LoopInv(loc, walls, start, goal, open, closedList, closed, done, f)
    requires c in closed && c in walls
    requires !walls[c] ==> forall m :: m in loc && IndexAdjacent(loc[c], loc[m]) ==> m in open || m in closed
    ensures LoopInv(loc, walls, start, goal, open, closedList, closed, done + {c}, f)
  {
    forall n | n in loc
      ensures NodeOk(loc, walls, start, goal, open, closedList, closed, done + {c}, f, n)
    {
      assert NodeOk(loc, walls, start, goal, open, closedList, closed, done, f, n);
    }
  }

  /** A walk from a to b over side-adjacent grid cells, none of them a wall. */
  ghost predicate Route(loc: map<Node, (nat, nat)>, walls: map<Node, bool>, p: seq<Node>, a: Node, b: Node)
  {
    && |p| > 0 && p[0] == a && p[|p| - 1] == b
    && (forall k :: 0 <= k < |p| ==> p[k] in loc && p[k] in walls && !walls[p[k]])
    && (forall k :: 0 <= k < |p| - 1 ==> IndexAdjacent(loc[p[k]], loc[p[k + 1]]))
  }

  /** Along a walkable walk that starts in a closed set whose every node is
      expanded with nothing left open, every node is closed. */
  lemma {:induction false} RouteStaysClosed(loc: map<Node, (nat, nat)>, walls: map<Node, bool>, closed: set<Node>,
                                            p: seq<Node>, a: Node, b: Node, k: nat)
    requires forall n :: n in closed ==> Expanded(loc, walls, [], closed, n)
    requires Route(loc, walls, p, a, b) && a in closed && k < |p|
    ensures p[k] in closed
  {
    if k > 0 {
      RouteStaysClosed(loc, walls, closed, p, a, b, k - 1);
      assert Expanded(loc, walls, [], closed, p[k - 1]);
      assert IndexAdjacent(loc[p[k - 1]], loc[p[k + 0]]);
    }
  }

  /** When the open list runs dry, no walkable walk joins start to goal:
      the reached region is closed under side steps, holds start, and
      does not hold the goal. */
  lemma ExhaustedLoopInv(loc: map<Node, (nat, nat)>, walls: map<Node, bool>, start: Node, goal: Node,
                         closedList: seq<Node>, closed: set<Node>, f: Fields)
    requires LoopInv(loc, walls, start, goal, [], closedList, closed, closed, f)
    ensures forall p :: !Route(loc, walls, p, start, goal)
    ensures start != goal
  {
    assert NodeOk(loc, walls, start, goal, [], closedList, closed, closed, f, start);
    assert NodeOk(loc, walls, start, goal, [], closedList, closed, closed, f, goal);
    forall n | n in closed
      ensures Expanded(loc, walls, [], closed, n)
    {
      assert NodeOk(loc, walls, start, goal, [], closedList, closed, closed, f, n);
    }
    forall p | Route(loc, walls, p, start, goal)
      ensures false
    {
      RouteStaysClosed(loc, walls, closed, p, start, goal, |p| - 1);
    }
  }
}
