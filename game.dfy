/** The game scene's rules: the navigation grid it builds, the pause menu
    and the enemy waves (Shared/GameScene.hpp, Shared/GameScene.cpp). */
module Game {
  import opened Nodes
  import opened SearchState
  import opened Navigation
  import opened Enemies
  import Collision

  /** Inclusive bounds of the node grid in world units; nodes sit two
      units apart. */
  const XLowerBound: int := -90
  const XUpperIncluding: int := 94
  const ZLowerBound: int := -90
  const ZUpperIncluding: int := 92
  const Spacing: int := 2
  /** Grid columns (x values -90, -88, ..., 94) and rows (z values -90, ...,
      92). */
  const Columns: nat := 93
  const Rows: nat := 92

  const Resume: int := 0
  const MainMenu: int := 1
  const ExitGame: int := 2
  const First: int := Resume
  const Last: int := ExitGame

  const DefaultCode: int := 0
  const ExitGameCode: int := 1
  const MainMenuCode: int := 4

  /** The grid border, where the list of extra wall blocks is empty. */
  predicate OnBorder(x: int, z: int) {
    x <= XLowerBound || x >= XUpperIncluding || z <= ZLowerBound || z >= ZUpperIncluding
  }

  /** Node n is the fresh node built for column i, row j. */
  ghost predicate PlacedAt(n: Node, i: nat, j: nat)
    reads n
  {
    && n.x == XLowerBound + Spacing * i
    && n.y == ZLowerBound + Spacing * j
    && n.g == Unreached && n.h == Unreached && n.parent == null
    && (n.isWall <==> OnBorder(n.x, n.y))
  }

  /** Builds the navigation grid column by column: one new node per grid
      point, walls exactly on the border.  The grid is rectangular and
      every cell holds its own node, which is what the map requires. */
  method GetNodes() returns (grid: seq<seq<Node>>)
    ensures |grid| == Columns && forall i | 0 <= i < |grid| :: |grid[i]| == Rows
    ensures forall i, j | 0 <= i < |grid| && 0 <= j < |grid[i]| :: PlacedAt(grid[i][j], i, j)
    ensures forall i, j | 0 <= i < |grid| && 0 <= j < |grid[i]| :: fresh(grid[i][j])
    ensures Rectangular(grid) && DistinctCells(grid)
  {
    grid := [];
    ghost var loc: map<Node, (nat, nat)> := map[];
    var x := XLowerBound;
    while x <= XUpperIncluding
      invariant x == XLowerBound + Spacing * |grid| && |grid| <= Columns
      invariant forall i | 0 <= i < |grid| :: |grid[i]| == Rows
      invariant forall i, j | 0 <= i < |grid| && 0 <= j < |grid[i]| ::
                  grid[i][j] in loc && loc[grid[i][j]] == (i, j)
      invariant forall i, j | 0 <= i < |grid| && 0 <= j < |grid[i]| ::
                  fresh(grid[i][j]) && PlacedAt(grid[i][j], i, j)
      invariant forall n | n in loc :: fresh(n)
    {
      var column: seq<Node> := [];
      var z := ZLowerBound;
      while z <= ZUpperIncluding
        invariant z == ZLowerBound + Spacing * |column| && |column| <= Rows
        invariant forall i, j | 0 <= i < |grid| && 0 <= j < |grid[i]| ::
                    grid[i][j] in loc && loc[grid[i][j]] == (i, j)
        invariant forall i, j | 0 <= i < |grid| && 0 <= j < |grid[i]| ::
                    fresh(grid[i][j]) && PlacedAt(grid[i][j], i, j)
        invariant forall j | 0 <= j < |column| ::
                    column[j] in loc && loc[column[j]] == (|grid|, j)
        invariant forall j | 0 <= j < |column| :: fresh(column[j]) && PlacedAt(column[j], |grid|, j)
        invariant forall n | n in loc :: fresh(n)
      {
        var node := new Node(x, z);
        if OnBorder(x, z) {
          node.SetWall(true);
        }
        loc := loc[node := (|grid|, |column|)];
        column := column + [node];
        z := z + Spacing;
      }
      grid := grid + [column];
      x := x + Spacing;
    }
    DistinctByLocation(grid, loc);
  }

  lemma DistinctByLocation(grid: seq<seq<Node>>, loc: map<Node, (nat, nat)>)
    requires forall i, j | 0 <= i < |grid| && 0 <= j < |grid[i]| ::
               grid[i][j] in loc && loc[grid[i][j]] == (i, j)
    ensures DistinctCells(grid)
  {
  }

  /** The pause-menu entry after one press: up moves back and wraps the
      first entry to the last, down moves forward and wraps the last to the
      first; a value outside the menu stays. */
  function Step(option: int, up: bool): (r: int)
    ensures First <= option <= Last ==> First <= r <= Last
    ensures First <= option <= Last ==> r == (option + (if up then 2 else 1)) % 3
    ensures !(First <= option <= Last) ==> r == option
  {
    if option == Resume then (if up then Last else option + 1)
    else if option == MainMenu then (if up then option - 1 else option + 1)
    else if option == ExitGame then (if up then option - 1 else First)
    else option
  }

  /** Up and down undo each other. */
  lemma StepInverse(option: int, up: bool)
    requires First <= option <= Last
    ensures Step(Step(option, up), !up) == option
  {
  }

  class GameScene {
    const nodeMap: Map
    var enemies: seq<Enemy>
    var pauseActivated: bool
    var selectedOption: int
    var returnCode: int
    var waveNumber: nat

    ghost predicate Valid()
      reads this, nodeMap
    {
      && First <= selectedOption <= Last
      && nodeMap.Valid() && |nodeMap.nodeMap| == Columns
      && (forall i | 0 <= i < Columns :: |nodeMap.nodeMap[i]| == Rows)
      && |Flatten(nodeMap.nodeMap)| == Columns * Rows
    }

    /** The scene's navigation map is the grid `get_nodes` builds; play
        starts unpaused at wave 1 with no enemies. */
    constructor ()
      ensures fresh(nodeMap) && Valid()
      ensures forall i, j | 0 <= i < Columns && 0 <= j < Rows :: PlacedAt(nodeMap.nodeMap[i][j], i, j)
      ensures enemies == [] && !pauseActivated && selectedOption == First
      ensures returnCode == DefaultCode && waveNumber == 1
    {
      var grid := GetNodes();
      FlattenIndex(grid, 0, 0);
      nodeMap := new Map(grid);
      enemies := [];
      pauseActivated := false;
      selectedOption := First;
      returnCode := DefaultCode;
      waveNumber := 1;
    }

    /** The grid's 93 * 92 cells are few enough for the search. */
    lemma GridSize()
      requires Valid()
      ensures |nodeMap.loc| < Unreached
    {
      nodeMap.LocBound();
    }

    method ChangeSelection(up: bool)
      requires Valid()
      modifies this`selectedOption
      ensures Valid() && selectedOption == Step(old(selectedOption), up)
    {
      if selectedOption == Resume {
        if up {
          selectedOption := Last;
        } else {
          selectedOption := selectedOption + 1;
        }
      } else if selectedOption == MainMenu {
        if up {
          selectedOption := selectedOption - 1;
        } else {
          selectedOption := selectedOption + 1;
        }
      } else if selectedOption == ExitGame {
        if up {
          selectedOption := selectedOption - 1;
        } else {
          selectedOption := First;
        }
      }
    }

    /** Resume unpauses; the other two entries end the scene with their
        code. */
    method SelectMenuItem()
      requires Valid()
      modifies this`pauseActivated, this`returnCode
      ensures selectedOption == Resume ==> !pauseActivated && returnCode == old(returnCode)
      ensures selectedOption == MainMenu ==> returnCode == MainMenuCode && pauseActivated == old(pauseActivated)
      ensures selectedOption == ExitGame ==> returnCode == ExitGameCode && pauseActivated == old(pauseActivated)
    {
      if selectedOption == Resume {
        pauseActivated := false;
      } else if selectedOption == MainMenu {
        returnCode := MainMenuCode;
      } else if selectedOption == ExitGame {
        returnCode := ExitGameCode;
      }
    }

    /** The A* path from the node closest to `from` to the node closest
        to `to`: a walkable route when non-empty, and empty only when there
        is none.  The search leaves every wall as it was. */
    method PathBetween(from: Collision.Vec3, to: Collision.Vec3) returns (path: seq<Node>)
      requires Valid()
      modifies nodeMap.loc.Keys
      ensures Valid() && nodeMap.Walls() == old(nodeMap.Walls())
      ensures var start, goal := ClosestIn(Flatten(nodeMap.nodeMap), from.x, from.z),
                                 ClosestIn(Flatten(nodeMap.nodeMap), to.x, to.z);
              && (path != [] ==> Route(nodeMap.loc, nodeMap.Walls(), path, start, goal))
              && (path == [] ==> forall p :: !Route(nodeMap.loc, nodeMap.Walls(), p, start, goal))
    {
      GridSize();
      var start, _ := nodeMap.GetClosestNode(from.x, from.z);
      var goal, _ := nodeMap.GetClosestNode(to.x, to.z);
      path := nodeMap.AStarPathfind(start, goal);
    }

    /** Adds one new enemy at the given spawn position and gives it the A*
        path from the node closest to it to the node closest to the
        player. */
    method SpawnEnemy(position: Collision.Vec3, playerPosition: Collision.Vec3) returns (ghost enemy: Enemy)
      requires Valid()
      modifies this`enemies, nodeMap.loc.Keys
      ensures Valid() && nodeMap.Walls() == old(nodeMap.Walls())
      ensures enemies == old(enemies) + [enemy]
      ensures fresh(enemy) && enemy.position == position && enemy.health == 100 && !enemy.doExplode
      ensures var start, goal := ClosestIn(Flatten(nodeMap.nodeMap), position.x, position.z),
                                 ClosestIn(Flatten(nodeMap.nodeMap), playerPosition.x, playerPosition.z);
              && (enemy.path != [] ==> Route(nodeMap.loc, nodeMap.Walls(), enemy.path, start, goal))
              && (enemy.path == [] ==> forall p :: !Route(nodeMap.loc, nodeMap.Walls(), p, start, goal))
    {
      var path := PathBetween(position, playerPosition);
      var e := AddEnemy(position, path);
      enemy := e;
    }

    /** Appends a new enemy standing at `position` with the given path. */
    method AddEnemy(position: Collision.Vec3, path: seq<Node>) returns (enemy: Enemy)
      modifies this`enemies
      ensures enemies == old(enemies) + [enemy]
      ensures fresh(enemy) && enemy.position == position && enemy.health == 100 && !enemy.doExplode
      ensures enemy.path == path
    {
      enemy := new Enemy(position);
      enemy.SetShortestPath(path);
      enemies := enemies + [enemy];
    }

    /** Spawns as many enemies as the wave number, one per spawn position
        drawn, then moves on to the next wave.  Each enemy gets its path as
        `SpawnEnemy` states. */
    method SpawnWave(positions: seq<Collision.Vec3>, playerPosition: Collision.Vec3) returns (ghost spawned: seq<Enemy>)
      requires Valid() && |positions| == waveNumber
      modifies this`enemies, this`waveNumber, nodeMap.loc.Keys
      ensures Valid()
      ensures waveNumber == old(waveNumber) + 1
      ensures enemies == old(enemies) + spawned && |spawned| == old(waveNumber)
      ensures forall k | 0 <= k < |spawned| ::
                fresh(spawned[k]) && spawned[k].position == positions[k] && spawned[k].health == 100
    {
      spawned := [];
      var i := 0;
      while i < waveNumber
        invariant 0 <= i <= waveNumber && waveNumber == old(waveNumber) && Valid()
        invariant enemies == old(enemies) + spawned && |spawned| == i
        invariant forall k | 0 <= k < i ::
                    fresh(spawned[k]) && spawned[k].position == positions[k] && spawned[k].health == 100
      {
        var enemy := SpawnEnemy(positions[i], playerPosition);
        spawned := spawned + [enemy];
        i := i + 1;
      }
      waveNumber := waveNumber + 1;
    }
  }
}
