/** The navigation grid and the A* search over it (Shared/Map.hpp,
    Shared/Map.cpp).  The grid is a vector of columns; a node's index pair
    (column, row) is its location in the map. */
module Navigation {
  import opened Util
  import opened Nodes
  import opened Queue
  import opened SearchState

  /** Every column has the height of the first one. */
  ghost predicate Rectangular(g: seq<seq<Node>>)
  {
    forall i :: 0 <= i < |g| ==> |g[i]| == |g[0]|
  }

  /** No node object occupies two cells. */
  ghost predicate DistinctCells(g: seq<seq<Node>>)
  {
    forall i, j, k, l ::
      0 <= i < |g| && 0 <= j < |g[i]| && 0 <= k < |g| && 0 <= l < |g[k]| && (i, j) != (k, l)
      ==> g[i][j] != g[k][l]
  }

  /** The node held by an optional lookup, as a list of length 0 or 1. */
  function Cell(o: Option<Node>): (r: seq<Node>)
    ensures |r| <= 1
  {
    if o.Some? then [o.value] else []
  }

  /** p comes strictly before q when the grid is read column by column. */
  predicate ColumnMajorBefore(p: (nat, nat), q: (nat, nat))
  {
    p.0 < q.0 || (p.0 == q.0 && p.1 < q.1)
  }

  /** All nodes of the grid, column by column. */
  function Flatten(g: seq<seq<Node>>): (r: seq<Node>)
    ensures |g| == 0 ==> r == []
  {
    if |g| == 0 then [] else Flatten(g[..|g| - 1]) + g[|g| - 1]
  }

  /** A node appears in the flattened grid exactly when it occupies a cell. */
  lemma {:induction false} FlattenMembers(g: seq<seq<Node>>, n: Node)
    ensures n in Flatten(g) <==> exists i, j :: 0 <= i < |g| && 0 <= j < |g[i]| && g[i][j] == n
  {
    if |g| > 0 {
      var front := g[..|g| - 1];
      FlattenMembers(front, n);
      if n in Flatten(g) && n !in Flatten(front) {
        var j :| 0 <= j < |g[|g| - 1]| && g[|g| - 1][j] == n;
        assert g[|g| - 1][j] == n;
      }
      if exists i, j :: 0 <= i < |g| && 0 <= j < |g[i]| && g[i][j] == n {
        var i, j :| 0 <= i < |g| && 0 <= j < |g[i]| && g[i][j] == n;
        if i < |g| - 1 {
          assert front[i][j] == n;
        } else {
          assert n in g[|g| - 1];
        }
      }
    }
  }

  /** A list holds at most as many distinct nodes as it is long. */
  lemma {:induction false} ElemsBound(s: seq<Node>)
    ensures |set n | n in s| <= |s|
  {
    if s != [] {
      var t := s[..|s| - 1];
      ElemsBound(t);
      assert s == t + [s[|s| - 1]];
      assert (set n | n in s) == (set n | n in t) + {s[|s| - 1]};
    }
  }

  lemma {:induction false} SubsetCard(a: set<Node>, b: set<Node>)
    requires a <= b
    ensures |a| <= |b|
    decreases a
  {
    if a != {} {
      var x :| x in a;
      SubsetCard(a - {x}, b - {x});
    }
  }

  /** In a rectangular grid of height h, cell (i, j) sits at position
      i * h + j of the flattened grid. */
  lemma {:induction false} FlattenIndex(g: seq<seq<Node>>, i: nat, j: nat)
    requires Rectangular(g) && i < |g| && j < |g[i]|
    ensures |Flatten(g)| == |g| * |g[0]|
    ensures i * |g[0]| + j < |Flatten(g)| && Flatten(g)[i * |g[0]| + j] == g[i][j]
  {
    var front := g[..|g| - 1];
    var h := |g[0]|;
    if |g| == 1 {
      assert Flatten(g) == Flatten(front) + g[0];
    } else {
      assert Rectangular(front) && |front[0]| == h;
      if i < |g| - 1 {
        FlattenIndex(front, i, j);
      } else {
        FlattenIndex(front, 0, j);
      }
      assert |Flatten(g)| == (|g| - 1) * h + h;
    }
  }

  /** Integer square root: the largest r with r * r <= n. */
  function Isqrt(n: nat): (r: nat)
    ensures r * r <= n < (r + 1) * (r + 1)
  {
    IsqrtFrom(n, 0)
  }

  function IsqrtFrom(n: nat, r: nat): (s: nat)
    requires r * r <= n
    ensures s * s <= n < (s + 1) * (s + 1)
    decreases n - r
  {
    if (r + 1) * (r + 1) > n then r
    else
      assert r + 1 <= (r + 1) * (r + 1);
      IsqrtFrom(n, r + 1)
  }

  /** Step cost between neighbouring nodes: every step costs one. */
  function MovementCost(a: Node, b: Node): (c: int)
    ensures c == 1
  {
    1
  }

  /** Straight-line distance between the node coordinates, truncated to an
      integer. */
  function HeuristicEstimate(a: Node, b: Node): (h: nat)
    ensures var d := (b.x - a.x) * (b.x - a.x) + (b.y - a.y) * (b.y - a.y);
            h * h <= d < (h + 1) * (h + 1)
  {
    Isqrt((b.x - a.x) * (b.x - a.x) + (b.y - a.y) * (b.y - a.y))
  }

  /** Squared planar distance from a node's coordinates to (px, pz). */
  function SquaredDistance(n: Node, px: real, pz: real): real
  {
    (n.x as real - px) * (n.x as real - px) + (n.y as real - pz) * (n.y as real - pz)
  }

  /** Position k of f holds a node at the least squared distance from
      (px, pz), and every earlier node is strictly farther. */
  ghost predicate FirstMinimum(f: seq<Node>, k: int, px: real, pz: real)
  {
    && 0 <= k < |f|
    && (forall m | 0 <= m < |f| :: SquaredDistance(f[k], px, pz) <= SquaredDistance(f[m], px, pz))
    && (forall l | 0 <= l < k :: SquaredDistance(f[k], px, pz) < SquaredDistance(f[l], px, pz))
  }

  /** The node a scan of f keeps when it replaces its pick only on a
      strictly smaller distance. */
  function ClosestIn(f: seq<Node>, px: real, pz: real): (c: Node)
    requires f != []
    decreases |f|
  {
    if |f| == 1 then f[0]
    else
      var c := ClosestIn(f[..|f| - 1], px, pz);
      if SquaredDistance(f[|f| - 1], px, pz) < SquaredDistance(c, px, pz) then f[|f| - 1] else c
  }

  /** The grid's closest node to (px, pz) in column-major order, or null
      for an empty grid. */
  function ClosestNode(grid: seq<seq<Node>>, px: real, pz: real): Node? {
    if Flatten(grid) == [] then null else ClosestIn(Flatten(grid), px, pz)
  }

  /** The scan's pick is the first nearest node of the list. */
  lemma {:induction false} ClosestInAt(f: seq<Node>, px: real, pz: real) returns (k: nat)
    requires f != []
    ensures FirstMinimum(f, k, px, pz) && f[k] == ClosestIn(f, px, pz)
    decreases |f|
  {
    if |f| == 1 {
      k := 0;
    } else {
      var front := f[..|f| - 1];
      var j := ClosestInAt(front, px, pz);
      var c := ClosestIn(front, px, pz);
      assert forall m | 0 <= m < |front| :: front[m] == f[m];
      if SquaredDistance(f[|f| - 1], px, pz) < SquaredDistance(c, px, pz) {
        k := |f| - 1;
      } else {
        k := j;
      }
    }
  }

  /** There is only one first nearest node, so the closest node is
      determined by the grid and the point. */
  lemma FirstMinimumUnique(f: seq<Node>, k: int, px: real, pz: real)
    requires FirstMinimum(f, k, px, pz)
    ensures f[k] == ClosestIn(f, px, pz)
  {
    var j := ClosestInAt(f, px, pz);
    assert f[k] in f && f[j] in f;
    assert k == j;
  }

  /** std::reverse: swaps from both ends towards the middle. */
  method Reverse(s: seq<Node>) returns (r: seq<Node>)
    ensures |r| == |s|
    ensures forall k :: 0 <= k < |s| ==> r[k] == s[|s| - 1 - k]
  {
    r := s;
    var lo, hi := 0, |s| - 1;
    while lo < hi
      invariant 0 <= lo && lo + hi == |s| - 1 && |r| == |s|
      invariant forall k :: 0 <= k < |s| && (k < lo || k > hi) ==> r[k] == s[|s| - 1 - k]
      invariant forall k :: lo <= k <= hi ==> r[k] == s[k]
    {
      r := r[lo := r[hi]][hi := r[lo]];
      lo, hi := lo + 1, hi - 1;
    }
  }

  /** One more element of s is reached, and the reached set only grew. */
  lemma CoverStep(s: seq<Node>, i: nat, open: seq<Node>, open2: seq<Node>, closed: set<Node>)
    requires i < |s|
    requires forall k :: 0 <= k < i ==> s[k] in open || s[k] in closed
    requires forall m :: m in open ==> m in open2
    requires s[i] in open2 || s[i] in closed
    ensures forall k :: 0 <= k < i + 1 ==> s[k] in open2 || s[k] in closed
  {
  }

  class Map {
    var nodeMap: seq<seq<Node>>
    /** Where each node of the grid sits; it makes "each node once" and
        the cell/node correspondence explicit. */
    ghost var loc: map<Node, (nat, nat)>

    ghost predicate Valid()
      reads this
    {
      && Rectangular(nodeMap)
      && (forall i, j :: 0 <= i < |nodeMap| && 0 <= j < |nodeMap[i]| ==>
            nodeMap[i][j] in loc && loc[nodeMap[i][j]] == (i, j))
      && (forall n :: n in loc ==>
            loc[n].0 < |nodeMap| && loc[n].1 < |nodeMap[loc[n].0]| && nodeMap[loc[n].0][loc[n].1] == n)
    }

    /** Takes a rectangular grid of distinct nodes. */
    constructor (grid: seq<seq<Node>>)
      requires Rectangular(grid) && DistinctCells(grid)
      ensures nodeMap == grid && Valid()
    {
      nodeMap := grid;
      loc := map i: nat, j: nat | i < |grid| && j < |grid[i]| :: grid[i][j] := (i, j);
    }

    function NodeMapSize(): nat
      reads this
    {
      |nodeMap|
    }

    /** Height of column x; std::vector::at throws outside the map. */
    function ColumnSize(x: int): (r: Option<nat>)
      reads this
      ensures r.Some? <==> 0 <= x < |nodeMap|
      ensures r.Some? ==> r.value == |nodeMap[x]|
      ensures Valid() && r.Some? && |nodeMap| > 0 ==> r.value == |nodeMap[0]|
    {
      if 0 <= x < |nodeMap| then Some(|nodeMap[x]|) else None
    }

    /** The node at (x, y); out-of-range indices throw. */
    function GetNode(x: int, y: int): (r: Option<Node>)
      reads this
      ensures r.Some? <==> 0 <= x < |nodeMap| && 0 <= y < |nodeMap[x]|
      ensures Valid() && r.Some? ==> r.value in loc && loc[r.value] == (x, y)
    {
      if 0 <= x < |nodeMap| && 0 <= y < |nodeMap[x]| then Some(nodeMap[x][y]) else None
    }

    /** The cells left of, right of, above and below (x, y) that exist,
        in that order. */
    ghost function SideCells(x: int, y: int): (r: seq<Node>)
      reads this
      ensures |r| <= 4
    {
      Cell(GetNode(x - 1, y)) + Cell(GetNode(x + 1, y)) + Cell(GetNode(x, y - 1)) + Cell(GetNode(x, y + 1))
    }

    /** The side cells of a grid position are exactly the nodes whose
        location is side-adjacent to it. */
    lemma SideCellsAreAdjacent(x: nat, y: nat)
      requires Valid() && x < |nodeMap| && y < |nodeMap[x]|
      ensures forall m :: m in SideCells(x, y) ==> m in loc && IndexAdjacent((x, y), loc[m])
      ensures forall m {:trigger IndexAdjacent((x, y), loc[m])} ::
                m in loc && IndexAdjacent((x, y), loc[m]) ==> m in SideCells(x, y)
    {
      forall m: Node | m in loc && IndexAdjacent((x, y), loc[m])
        ensures m in SideCells(x, y)
      {
        assert GetNode(loc[m].0, loc[m].1) == Some(m);
      }
    }

    /** Column-major search for n; None where the source throws. */
    method GetLocationOfNodeInMap(n: Node) returns (r: Option<(nat, nat)>)
      ensures r.Some? ==> r.value.0 < |nodeMap| && r.value.1 < |nodeMap[r.value.0]|
                          && nodeMap[r.value.0][r.value.1] == n
      ensures r.Some? ==> forall i, j ::
                0 <= i < |nodeMap| && 0 <= j < |nodeMap[i]| && ColumnMajorBefore((i, j), r.value)
                ==> nodeMap[i][j] != n
      ensures r.None? <==> forall i, j :: 0 <= i < |nodeMap| && 0 <= j < |nodeMap[i]| ==> nodeMap[i][j] != n
      ensures Valid() ==> (r.Some? <==> n in loc) && (r.Some? ==> r.value == loc[n])
    {
      var i := 0;
      while i < |nodeMap|
        invariant 0 <= i <= |nodeMap|
        invariant forall a, b :: 0 <= a < i && 0 <= b < |nodeMap[a]| ==> nodeMap[a][b] != n
      {
        var j := 0;
        while j < |nodeMap[i]|
          invariant 0 <= j <= |nodeMap[i]|
          invariant forall b :: 0 <= b < j ==> nodeMap[i][b] != n
        {
          if nodeMap[i][j] == n {
            return Some((i, j));
          }
          j := j + 1;
        }
        i := i + 1;
      }
      r := None;
    }

    /** The grid cells that share a side with n, in the order left, right,
        up, down; None when n is not in the map. */
    method GetNodeNeighbours(n: Node) returns (r: Option<seq<Node>>)
      requires Valid()
      ensures r.None? <==> n !in loc
      ensures r.Some? ==> r.value == SideCells(loc[n].0, loc[n].1)
    {
      var location := GetLocationOfNodeInMap(n);
      if location.None? {
        return None;
      }
      var neighbours := NeighboursAt(location.value.0, location.value.1);
      r := Some(neighbours);
    }

    /** The side cells of (x, y) that exist, pushed in the order left,
        right, up, down. */
    method NeighboursAt(x: nat, y: nat) returns (neighbours: seq<Node>)
      requires Rectangular(nodeMap) && x < |nodeMap| && y < |nodeMap[x]|
      ensures neighbours == SideCells(x, y)
    {
      neighbours := [];
      if x > 0 {
        neighbours := neighbours + [nodeMap[x - 1][y]];
      }
      assert neighbours == Cell(GetNode(x - 1, y));
      ghost var upToLeft := neighbours;
      if x < |nodeMap| - 1 {
        neighbours := neighbours + [nodeMap[x + 1][y]];
      }
      assert neighbours == upToLeft + Cell(GetNode(x + 1, y));
      ghost var upToRight := neighbours;
      if y > 0 {
        neighbours := neighbours + [nodeMap[x][y - 1]];
      }
      assert neighbours == upToRight + Cell(GetNode(x, y - 1));
      ghost var upToUp := neighbours;
      if y < |nodeMap[x]| - 1 {
        neighbours := neighbours + [nodeMap[x][y + 1]];
      }
      assert neighbours == upToUp + Cell(GetNode(x, y + 1));
    }

    /** Every node gets its initial costs and loses its parent. */
    method Reset()
      requires Valid()
      modifies loc.Keys
      ensures forall n :: n in loc ==> n.g == Unreached && n.h == Unreached && n.parent == null
      ensures forall n :: n in loc ==> n.isWall == old(n.isWall)
    {
      var i := 0;
      while i < |nodeMap|
        invariant 0 <= i <= |nodeMap|
        invariant forall n :: n in loc ==> n.isWall == old(n.isWall)
        invariant forall n :: n in loc && loc[n].0 < i ==> n.g == Unreached && n.h == Unreached && n.parent == null
      {
        var j := 0;
        while j < |nodeMap[i]|
          invariant 0 <= j <= |nodeMap[i]|
          invariant forall n :: n in loc ==> n.isWall == old(n.isWall)
          invariant forall n :: n in loc && ColumnMajorBefore(loc[n], (i, j)) ==>
                      n.g == Unreached && n.h == Unreached && n.parent == null
        {
          nodeMap[i][j].Reset();
          j := j + 1;
        }
        i := i + 1;
      }
    }

    /** All nodes, column by column. */
    method GetAllNodes() returns (r: seq<Node>)
      ensures r == Flatten(nodeMap)
      ensures Valid() ==> forall m :: m in r <==> m in loc
    {
      r := [];
      var i := 0;
      while i < |nodeMap|
        invariant 0 <= i <= |nodeMap|
        invariant r == Flatten(nodeMap[..i])
      {
        var j := 0;
        var column: seq<Node> := [];
        while j < |nodeMap[i]|
          invariant 0 <= j <= |nodeMap[i]|
          invariant column == nodeMap[i][..j]
        {
          column := column + [nodeMap[i][j]];
          j := j + 1;
        }
        assert nodeMap[..i + 1][..i] == nodeMap[..i];
        assert column == nodeMap[i];
        r := r + column;
        i := i + 1;
      }
      assert nodeMap[..i] == nodeMap;
      if Valid() {
        forall m
          ensures m in r <==> m in loc
        {
          FlattenMembers(nodeMap, m);
          if m in loc {
            assert nodeMap[loc[m].0][loc[m].1] == m;
          }
        }
      }
    }

    /** Every node of the map occupies its own cell, so the map holds no
        more nodes than the grid has cells. */
    lemma LocBound()
      requires Valid()
      ensures |loc| <= |Flatten(nodeMap)|
    {
      var cells := set n | n in Flatten(nodeMap);
      forall n | n in loc
        ensures n in cells
      {
        FlattenMembers(nodeMap, n);
        assert nodeMap[loc[n].0][loc[n].1] == n;
      }
      ElemsBound(Flatten(nodeMap));
      SubsetCard(loc.Keys, cells);
    }

    /** The node nearest to (px, pz); the first one in column-major order
        wins a tie, and an empty map gives null. */
    method GetClosestNode(px: real, pz: real) returns (r: Node?, ghost k: nat)
      ensures r == null <==> |Flatten(nodeMap)| == 0
      ensures r != null ==> k < |Flatten(nodeMap)| && Flatten(nodeMap)[k] == r
      ensures r != null ==> forall m :: 0 <= m < |Flatten(nodeMap)| ==>
                SquaredDistance(r, px, pz) <= SquaredDistance(Flatten(nodeMap)[m], px, pz)
      ensures r != null ==> forall m :: 0 <= m < k ==>
                SquaredDistance(r, px, pz) < SquaredDistance(Flatten(nodeMap)[m], px, pz)
      ensures r == ClosestNode(nodeMap, px, pz)
      ensures Valid() && r != null ==> r in loc
    {
      r := null;
      k := 0;
      ghost var seen: seq<Node> := [];
      var i := 0;
      while i < |nodeMap|
        invariant 0 <= i <= |nodeMap|
        invariant seen == Flatten(nodeMap[..i])
        invariant r == null <==> |seen| == 0
        invariant r != null ==> k < |seen| && seen[k] == r
        invariant r != null ==> forall m :: 0 <= m < |seen| ==>
                    SquaredDistance(r, px, pz) <= SquaredDistance(seen[m], px, pz)
        invariant r != null ==> forall m :: 0 <= m < k ==>
                    SquaredDistance(r, px, pz) < SquaredDistance(seen[m], px, pz)
      {
        var j := 0;
        ghost var before := seen;
        while j < |nodeMap[i]|
          invariant 0 <= j <= |nodeMap[i]|
          invariant seen == before + nodeMap[i][..j]
          invariant r == null <==> |seen| == 0
          invariant r != null ==> k < |seen| && seen[k] == r
          invariant r != null ==> forall m :: 0 <= m < |seen| ==>
                      SquaredDistance(r, px, pz) <= SquaredDistance(seen[m], px, pz)
          invariant r != null ==> forall m :: 0 <= m < k ==>
                      SquaredDistance(r, px, pz) < SquaredDistance(seen[m], px, pz)
        {
          var candidate := nodeMap[i][j];
          if r == null || SquaredDistance(candidate, px, pz) < SquaredDistance(r, px, pz) {
            r := candidate;
            k := |seen|;
          }
          assert nodeMap[i][..j + 1] == nodeMap[i][..j] + [candidate];
          seen := seen + [candidate];
          j := j + 1;
        }
        assert nodeMap[i][..j] == nodeMap[i];
        assert nodeMap[..i + 1][..i] == nodeMap[..i];
        i := i + 1;
      }
      assert nodeMap[..i] == nodeMap;
      if r != null {
        FirstMinimumUnique(Flatten(nodeMap), k, px, pz);
      }
      if Valid() && r != null {
        FlattenMembers(nodeMap, r);
      }
    }

    /** The set-up before the main loop: every node reset, the open list
        holding start alone, start costed at zero with its heuristic. */
    method BeginSearch(start: Node, goal: Node, ghost walls: map<Node, bool>) returns (open: NodeQueue, ghost f: Fields)
      requires Valid() && start in loc && goal in loc && walls == Walls() && !goal.isWall
      modifies loc.Keys
      ensures fresh(open) && open.items == [start]
      ensures start.h == HeuristicEstimate(start, goal)
      ensures forall n :: n in loc && n != start ==> n.h == Unreached
      ensures Mirrors(f) && LoopInv(loc, walls, start, goal, [start], [], {}, {}, f)
    {
      Reset();
      open := new NodeQueue(start);
      start.g := 0;
      start.h := HeuristicEstimate(start, goal);
      f := Snapshot();
      InitialLoopInv(loc, walls, start, goal, f);
    }

    /** Sorts the open list by f and takes its front node. */
    method SortedFront(open: NodeQueue, ghost start: Node, ghost goal: Node, ghost closedList: seq<Node>,
                       ghost closed: set<Node>, ghost f: Fields, ghost walls: map<Node, bool>)
      returns (current: Node)
      requires LoopInv(loc, walls, start, goal, open.items, closedList, closed, closed, f) && |open.items| > 0
      modifies open
      ensures SortedByF(open.items) && multiset(open.items) == multiset(old(open.items))
      ensures current == open.items[0]
      ensures LoopInv(loc, walls, start, goal, open.items, closedList, closed, closed, f)
    {
      ghost var unsorted := open.items;
      open.ManualSort();
      PermutedLoopInv(loc, walls, start, goal, unsorted, open.items, closedList, closed, f);
      current := open.items[0];
    }

    /** A wall taken from the open list is moved to the closed list and
        not expanded. */
    method CloseWall(open: NodeQueue, closedList: seq<Node>, current: Node, ghost start: Node, ghost goal: Node,
                     ghost closed: set<Node>, ghost f: Fields, ghost walls: map<Node, bool>)
      returns (closedList2: seq<Node>, ghost closed2: set<Node>)
      requires Mirrors(f) && LoopInv(loc, walls, start, goal, open.items, closedList, closed, closed, f)
      requires current in open.items && current.isWall
      modifies open
      ensures open.items == Without(old(open.items), current)
      ensures closedList2 == closedList + [current] && closed2 == closed + {current}
      ensures current in loc && current !in closed
      ensures LoopInv(loc, walls, start, goal, open.items, closedList2, closed2, closed2, f)
    {
      assert MirrorsAt(f, current);
      assert NodeOk(loc, walls, start, goal, open.items, closedList, closed, closed, f, current);
      assert NodeOk(loc, walls, start, goal, open.items, closedList, closed, closed, f, goal);
      CloseLoopInv(loc, walls, start, goal, open.items, closedList, closed, f, current);
      open.items := Without(open.items, current);
      closedList2 := closedList + [current];
      closed2 := closed + {current};
      ExpandedLoopInv(loc, walls, start, goal, open.items, closedList2, closed2, closed, f, current);
    }

    /** An open cell other than the goal leaves the open list for the
        closed list, and then its neighbours are relaxed. */
    method CloseAndExpand(open: NodeQueue, goal: Node, closedList: seq<Node>, current: Node, ghost start: Node,
                          ghost closed: set<Node>, ghost f: Fields, ghost walls: map<Node, bool>)
      returns (closedList2: seq<Node>, ghost closed2: set<Node>, ghost f2: Fields)
      requires Valid() && |loc| < Unreached
      requires Mirrors(f) && LoopInv(loc, walls, start, goal, open.items, closedList, closed, closed, f)
      requires current in open.items && !current.isWall && current != goal
      modifies open, loc.Keys
      ensures closedList2 == closedList + [current] && closed2 == closed + {current}
      ensures current in loc && current !in closed
      ensures Mirrors(f2) && LoopInv(loc, walls, start, goal, open.items, closedList2, closed2, closed2, f2)
    {
      assert MirrorsAt(f, current);
      CloseLoopInv(loc, walls, start, goal, open.items, closedList, closed, f, current);
      open.items := Without(open.items, current);
      closedList2 := closedList + [current];
      closed2 := closed + {current};
      f2 := ExpandNeighbours(open, goal, current, closedList2, start, closed2, closed, f, walls);
      ExpandedLoopInv(loc, walls, start, goal, open.items, closedList2, closed2, closed, f2, current);
    }

    /** The wall flag of every grid node. */
    ghost function Walls(): (w: map<Node, bool>)
      reads this, loc.Keys
      ensures w.Keys == loc.Keys
    {
      map n | n in loc :: n.isWall
    }

    /** f holds n's current g, parent and wall flag. */
    ghost predicate MirrorsAt(f: Fields, n: Node)
      reads n
    {
      n in f.g && n in f.parent && n in f.isWall
      && n.g == f.g[n] && n.parent == f.parent[n] && n.isWall == f.isWall[n]
    }

    /** f holds the current g, parent and wall flag of every grid node. */
    ghost predicate Mirrors(f: Fields)
      reads this, loc.Keys
    {
      forall n {:trigger MirrorsAt(f, n)} :: n in loc ==> MirrorsAt(f, n)
    }

    ghost function Snapshot(): (f: Fields)
      reads this, loc.Keys
      ensures Mirrors(f)
    {
      Fields(map n | n in loc :: n.g, map n | n in loc :: n.parent, map n | n in loc :: n.isWall)
    }

    /** A* from start to goal.  A non-empty result is a walk of open cells
        from start to goal along which g counts the steps; an empty result
        means that no such walk exists (in particular when either end is a
        wall).  Walls are never changed. */
    method AStarPathfind(start: Node, goal: Node) returns (path: seq<Node>)
      requires Valid() && start in loc && goal in loc && |loc| < Unreached
      modifies loc.Keys
      ensures Walls() == old(Walls())
      ensures start.isWall || goal.isWall ==>
                path == [] && forall n :: n in loc ==> n.g == old(n.g) && n.h == old(n.h) && n.parent == old(n.parent)
      ensures path != [] ==> Route(loc, Walls(), path, start, goal)
      ensures path == [] ==> forall p :: !Route(loc, Walls(), p, start, goal)
      ensures forall k :: 0 <= k < |path| ==> path[k].g == k
      ensures start == goal && !start.isWall ==> path == [start]
    {
      if start.isWall || goal.isWall {
        path := [];
      } else {
        path := Search(start, goal);
      }
    }

    /** The main loop of A* for two open cells. */
    method Search(start: Node, goal: Node) returns (path: seq<Node>)
      requires Valid() && start in loc && goal in loc && |loc| < Unreached
      requires !start.isWall && !goal.isWall
      modifies loc.Keys
      ensures Walls() == old(Walls())
      ensures path != [] ==> Route(loc, Walls(), path, start, goal)
      ensures path == [] ==> forall p :: !Route(loc, Walls(), p, start, goal)
      ensures forall k :: 0 <= k < |path| ==> path[k].g == k
      ensures start == goal ==> path == [start]
    {
      ghost var walls := Walls();
      var open: NodeQueue;
      ghost var f: Fields;
      open, f := BeginSearch(start, goal, walls);
      var closedList: seq<Node> := [];
      ghost var closed: set<Node> := {};
      while |open.items| > 0
        invariant fresh(open) && Valid() && Mirrors(f)
        invariant LoopInv(loc, walls, start, goal, open.items, closedList, closed, closed, f)
        decreases loc.Keys - closed
      {
        var current := SortedFront(open, start, goal, closedList, closed, f, walls);
        if current.isWall {
          closedList, closed := CloseWall(open, closedList, current, start, goal, closed, f, walls);
        } else if current == goal {
          path := FinishPath(start, goal, open.items, closedList, closed, f, walls);
          return;
        } else {
          closedList, closed, f := CloseAndExpand(open, goal, closedList, current, start, closed, f, walls);
        }
      }
      ExhaustedLoopInv(loc, walls, start, goal, closedList, closed, f);
      KeepsWalls(start, goal, [], closedList, closed, f, walls);
      path := [];
    }

    /** The wall flags recorded in a faithful snapshot are the current ones. */
    lemma KeepsWalls(start: Node, goal: Node, open: seq<Node>, closedList: seq<Node>, closed: set<Node>,
                     f: Fields, walls: map<Node, bool>)
      requires Mirrors(f) && LoopInv(loc, walls, start, goal, open, closedList, closed, closed, f)
      requires walls.Keys == loc.Keys
      ensures Walls() == walls
    {
      forall n | n in loc
        ensures n.isWall == walls[n]
      {
        assert MirrorsAt(f, n);
        assert NodeOk(loc, walls, start, goal, open, closedList, closed, closed, f, n);
      }
    }

    /** The goal has come off the open list: its parent chain is the path. */
    method FinishPath(start: Node, goal: Node, ghost open: seq<Node>, ghost closedList: seq<Node>,
                      ghost closed: set<Node>, ghost f: Fields, ghost walls: map<Node, bool>)
      returns (path: seq<Node>)
      requires Valid() && Mirrors(f) && LoopInv(loc, walls, start, goal, open, closedList, closed, closed, f)
      requires goal in open && walls.Keys == loc.Keys
      ensures Walls() == walls && Route(loc, walls, path, start, goal)
      ensures forall k :: 0 <= k < |path| ==> path[k].g == k
      ensures start == goal ==> path == [start]
    {
      LoopInvParents(loc, walls, start, goal, open, closedList, closed, closed, f);
      path := ReconstructPath(goal, closed, f);
      assert NodeOk(loc, walls, start, goal, open, closedList, closed, closed, f, path[0]);
      assert MirrorsAt(f, path[0]) && MirrorsAt(f, start);
      forall k | 0 <= k < |path|
        ensures !walls[path[k]]
      {
        assert NodeOk(loc, walls, start, goal, open, closedList, closed, closed, f, path[k]);
      }
      KeepsWalls(start, goal, open, closedList, closed, f, walls);
    }

    /** Puts every neighbour of current that is not closed through the
        relaxation step. */
    method ExpandNeighbours(open: NodeQueue, goal: Node, current: Node, closedList: seq<Node>, ghost start: Node,
                            ghost closed: set<Node>, ghost done: set<Node>, ghost f: Fields, ghost walls: map<Node, bool>)
      returns (ghost f2: Fields)
      requires Valid() && Mirrors(f) && LoopInv(loc, walls, start, goal, open.items, closedList, closed, done, f)
      requires |closed| < Unreached && current in closed && current in f.g && current in f.isWall
      requires !f.isWall[current] && f.g[current] + 1 <= |closed|
      modifies open, loc.Keys
      ensures Mirrors(f2) && LoopInv(loc, walls, start, goal, open.items, closedList, closed, done, f2)
      ensures forall m :: m in loc && IndexAdjacent(loc[current], loc[m]) ==> m in open.items || m in closed
    {
      var neighbours := GetNodeNeighbours(current);
      var ns := neighbours.value;
      SideCellsAreAdjacent(loc[current].0, loc[current].1);
      f2 := f;
      var i := 0;
      while i < |ns|
        invariant 0 <= i <= |ns|
        invariant Mirrors(f2) && LoopInv(loc, walls, start, goal, open.items, closedList, closed, done, f2)
        invariant f2.isWall == f.isWall && current in f2.g && f2.g[current] == f.g[current]
        invariant forall m :: m in old(open.items) ==> m in open.items
        invariant forall k :: 0 <= k < i ==> ns[k] in open.items || ns[k] in closed
      {
        var nb := ns[i];
        ghost var seen := open.items;
        assert NodeOk(loc, walls, start, goal, open.items, closedList, closed, done, f2, nb);
        if nb !in closedList {
          f2 := RelaxNeighbour(open, goal, current, nb, start, closedList, closed, done, f2, walls);
        }
        CoverStep(ns, i, seen, open.items, closed);
        i := i + 1;
      }
    }

    /** One pass of the neighbour loop: a neighbour not yet on the open list
        gets its heuristic and joins it; a cheaper route through current
        replaces its parent and g. */
    method RelaxNeighbour(open: NodeQueue, goal: Node, current: Node, nb: Node, ghost start: Node,
                          ghost closedList: seq<Node>, ghost closed: set<Node>, ghost done: set<Node>,
                          ghost f: Fields, ghost walls: map<Node, bool>)
      returns (ghost f2: Fields)
      requires Mirrors(f) && LoopInv(loc, walls, start, goal, open.items, closedList, closed, done, f)
      requires |closed| < Unreached && current in closed && current in f.g && current in f.isWall
      requires !f.isWall[current] && f.g[current] + 1 <= |closed|
      requires nb in loc && nb !in closed && IndexAdjacent(loc[current], loc[nb])
      modifies open, nb`g, nb`h, nb`parent
      ensures open.items == if nb in old(open.items) then old(open.items) else old(open.items) + [nb]
      ensures nb !in old(open.items) ==> nb.h == HeuristicEstimate(nb, goal)
      ensures current.g + 1 < old(nb.g) ==> nb.g == current.g + 1 && nb.parent == current
      ensures current.g + 1 >= old(nb.g) ==> nb.g == old(nb.g) && nb.parent == old(nb.parent)
      ensures Mirrors(f2) && LoopInv(loc, walls, start, goal, open.items, closedList, closed, done, f2)
      ensures f2.isWall == f.isWall && current in f2.g && f2.g[current] == f.g[current]
      ensures nb in open.items && forall m :: m in old(open.items) ==> m in open.items
    {
      assert MirrorsAt(f, current) && MirrorsAt(f, nb);
      ghost var before := open.items;
      if nb !in open.items {
        nb.h := HeuristicEstimate(nb, goal);
        open.items := open.items + [nb];
      }
      var testG := current.g + MovementCost(current, nb);
      f2 := f;
      if testG < nb.g {
        nb.parent := current;
        nb.g := testG;
        f2 := Fields(f.g[nb := testG], f.parent[nb := current], f.isWall);
      }
      RelaxLoopInv(loc, walls, start, goal, before, closedList, closed, done, f, current, nb, open.items, f2);
      forall n | n in loc
        ensures MirrorsAt(f2, n)
      {
        if n != nb {
          assert old(MirrorsAt(f, n));
        }
      }
    }

    /** Follows parent links back from current and returns the walk in
        start-to-current order. */
    method ReconstructPath(current: Node, ghost closed: set<Node>, ghost f: Fields) returns (path: seq<Node>)
      requires Valid() && Mirrors(f) && ParentsSound(loc, f, closed) && current in loc
      ensures |path| >= 1 && path[|path| - 1] == current && path[0].parent == null
      ensures forall k :: 0 <= k < |path| ==> path[k] in loc && path[k].g == path[0].g + k
      ensures forall k :: 0 <= k < |path| - 1 ==>
                path[k] in closed && path[k] in f.isWall && !f.isWall[path[k]] && IndexAdjacent(loc[path[k]], loc[path[k + 1]])
    {
      var finished: seq<Node> := [current];
      var iter: Node := current;
      while iter.parent != null
        invariant |finished| >= 1 && finished[0] == current && finished[|finished| - 1] == iter
        invariant forall k :: 0 <= k < |finished| ==> finished[k] in loc && finished[k].g == current.g - k
        invariant forall k :: 1 <= k < |finished| ==> finished[k] in closed && finished[k] in f.isWall && !f.isWall[finished[k]]
        invariant forall k :: 0 <= k < |finished| - 1 ==> IndexAdjacent(loc[finished[k + 1]], loc[finished[k]])
        decreases iter.g
      {
        assert ParentOk(loc, f, closed, iter) && MirrorsAt(f, iter) && MirrorsAt(f, iter.parent);
        iter := iter.parent;
        finished := finished + [iter];
      }
      path := Reverse(finished);
    }
  }
}
