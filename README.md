# A-Level CS Project: a verified model of the game's core

The game is a first-person wave shooter built on a small OpenGL engine.
The player fires four kinds of projectile (potato, fireball, iceball,
magic). Each costs mana, which regenerates over time. Enemies walk towards
the player along paths found by A* search over a 93 × 92 grid of nodes.
Collisions are decided by a sphere pre-test and then a separating-axis
test on oriented bounding boxes. Between games the player moves through
four scenes:

- a main menu;
- an options menu, whose settings persist in a `key:value` attribute file;
- the game itself, with a pause menu;
- a death scene, where the player types a name and the score goes into a
  leaderboard attribute file, of which the top five are shown.

This project models that core in Dafny and proves what each part promises.

| file | module | models |
|---|---|---|
| `util.dfy` | `Util` | signed 32-bit arithmetic, read as two's-complement wrap-around |
| `node.dfy` | `Nodes` | the grid node (`Node.hpp`) and its priority comparison |
| `nodequeue.dfy` | `Queue` | the open list kept ordered by `f` (`Map.hpp`) |
| `search.dfy` | `SearchState` | the A* loop invariant and what it implies |
| `map.dfy` | `Navigation` | the node map: lookups, neighbours, reset, closest node, A* (`Map.cpp`) |
| `collision.dfy` | `Collision` | bounding boxes and the collision tests (`SAT_OBB.cpp`) |
| `attributes.dfy` | `Attributes` | the attribute file parser and writer (`AttributeParser.cpp`) |
| `decimal.dfy` | `Decimal` | `std::to_string` and `std::stoi` on `int` |
| `projectile.dfy` | `Projectiles` | the ability kinds, their costs and damage |
| `player.dfy` | `Players` | mana, casting, the projectile cap, health and score (`Player.cpp`) |
| `enemy.dfy` | `Enemies` | enemy damage, timers, explosion and path following (`Enemy.cpp`) |
| `menu.dfy` | `MainMenu` | the main menu cursor and return codes (`MenuScene.cpp`) |
| `options.dfy` | `OptionsMenu` | the options menu and its persisted settings (`OptionsScene.cpp`) |
| `game.dfy` | `Game` | grid construction, pause menu and waves (`GameScene.cpp`) |
| `death.dfy` | `Death` | name entry, leaderboard update and the top-five table (`DeathScene.cpp`) |

Notes on how the model is built:

- **Nodes are objects.** A `Node` is a class whose fields the search
  updates in place.
- **A* is an imperative method** (`Navigation.Map.AStarPathfind`).
  - It is proved against ghost snapshots of the node fields.
  - The invariant `SearchState.LoopInv` is preserved by every step.
- **What the search promises.** A non-empty result is a walkable route of
  side-adjacent open nodes from start to goal. An empty result means no
  such route exists.
- **Attribute files** are `Option<string>`:
  - `None` is a missing file;
  - the parser's list of entries is modelled as the sorted key/value
    sequence that C++ `std::map` iterates in.
  - Parsing the text that `save` writes gives back the same entries.
- **Numbers in files.** `std::stoi` and `std::to_string` are modelled
  exactly on 32-bit `int`. A failing `stoi` is `None`.

## Model

| member | source | states |
|---|---|---|
| `Util.Wrap32` | Shared/Player.cpp:161-163 | the result is the 32-bit two's-complement value congruent to the input modulo 2^32, and equals the input when it already fits |
| `Nodes.Node.constructor` | Shared/Node.hpp:12-38 | a new node has its coordinates, `g` and `h` at the unreached value, no parent, and is not a wall |
| `Nodes.Node.F` | Shared/Node.hpp:17 | a wall's `f` is the wall sentinel; an open node with `g`, `h` in range has `f = g + h`, strictly below the sentinel |
| `Nodes.Node.SetG` | Shared/Node.hpp:19 | sets `g` and nothing else |
| `Nodes.Node.SetH` | Shared/Node.hpp:20 | sets `h` and nothing else |
| `Nodes.Node.SetWall` | Shared/Node.hpp:22 | sets the wall flag and nothing else |
| `Nodes.Node.SetParent` | Shared/Node.hpp:24 | sets the parent and nothing else |
| `Nodes.Node.Reset` | Shared/Node.hpp:30 | `g` and `h` go back to unreached, the parent to null; coordinates and wall flag stay |
| `Nodes.NodeComparisonIsStrictWeakOrder` | Shared/Node.hpp:41-43 | ordering nodes by `f` is irreflexive, transitive, asymmetric and has transitive incomparability, as `std::sort` requires |
| `Nodes.OpenNodeSortsBeforeWall` | Shared/Node.hpp:41-43 | an open node with in-range costs always sorts before a wall |
| `Queue.UpperBound` | Shared/Map.hpp:9-12 | the returned position is the `std::upper_bound` point: every earlier node has `f` ≤ the new one's, every later node a larger `f` |
| `Queue.InsertAtUpperBoundSorted` | Shared/Map.hpp:9-12 | inserting at the upper-bound position keeps the queue ordered by `f` |
| `Queue.InsertAddsOne` | Shared/Map.hpp:9-12 | inserting adds exactly the new node to the queue's multiset |
| `Queue.SortedCopy` | Shared/Map.hpp:14-16 | the result is ordered by `f` and is a permutation of the input |
| `Queue.NodeQueue.constructor` | Shared/Map.hpp:7 | a new queue holds exactly the given node |
| `Queue.NodeQueue.SortInsert` | Shared/Map.hpp:9-12 | inserts the node after all nodes with `f` ≤ its own and before all larger ones; the queue stays ordered and gains exactly that node |
| `Queue.NodeQueue.ManualSort` | Shared/Map.hpp:14-16 | after sorting the queue is ordered by `f` and holds the same nodes |
| `SearchState.Without` | Shared/Map.cpp:43 | removing a node from the open list deletes every copy of it and keeps all other nodes |
| `SearchState.InitialLoopInv` | Shared/Map.cpp:21-27 | the state right after the open list is seeded with the start node satisfies the search invariant |
| `SearchState.PermutedLoopInv` | Shared/Map.cpp:30 | re-sorting the open list preserves the invariant, including that no node is open twice |
| `SearchState.CloseLoopInv` | Shared/Map.cpp:43-44 | moving the front node from the open list to the closed list preserves the invariant; removing it keeps the open list free of repeats |
| `SearchState.RelinkKeepsParentsSound` | Shared/Map.cpp:60-66 | giving a neighbour a better `g` and the current node as parent keeps every parent chain a chain of adjacent open nodes whose `g` drops by one per step |
| `SearchState.LoopInvParents` | Shared/Map.cpp:86-99 | under the invariant every parent link is sound, so walking back from any node is a valid path |
| `SearchState.RelaxLoopInv` | Shared/Map.cpp:50-66 | relaxing one neighbour preserves the invariant; a neighbour joins the open list only when it is not on it, so no node is open twice |
| `SearchState.DistinctCounts` | Shared/Map.cpp:50-66 | a list has no repeated node exactly when no node counts twice in its multiset, which is how re-sorting and removal keep the open list free of repeats |
| `SearchState.ExpandedLoopInv` | Shared/Map.cpp:46-67 | once every neighbour of the closed node is in the open or closed list, that node counts as expanded and the invariant holds |
| `SearchState.RouteStaysClosed` | Shared/Map.cpp:29-68 | when the closed set is closed under expansion and contains a route's first node, it contains the whole route |
| `SearchState.ExhaustedLoopInv` | Shared/Map.cpp:29-70 | when the open list runs empty there is no route from start to goal |
| `Navigation.FlattenMembers` | Shared/Map.cpp:167-177 | a node is in the flattened map iff it is at some cell of the grid |
| `Navigation.FlattenIndex` | Shared/Map.cpp:167-177 | in a rectangular grid, cell (i, j) sits at index i·rows + j of the flattened list, whose length is columns·rows |
| `Navigation.Isqrt` | Shared/Map.cpp:79-84 | the result is the integer square root: r² ≤ n < (r+1)² |
| `Navigation.MovementCost` | Shared/Map.cpp:73-77 | every step between neighbours costs 1 |
| `Navigation.HeuristicEstimate` | Shared/Map.cpp:79-84 | the estimate is the truncated Euclidean distance between the two nodes' coordinates |
| `Navigation.Reverse` | Shared/Map.cpp:96 | the result is the input in reverse order |
| `Navigation.Map.constructor` | Shared/Map.hpp:23 | a map built from a rectangular grid with one node per cell is valid and holds that grid |
| `Navigation.Map.ColumnSize` | Shared/Map.hpp:42 | the size of column x is defined iff x is a column index, and then every column has the first column's size |
| `Navigation.Map.GetNode` | Shared/Map.hpp:40 | the lookup succeeds iff (x, y) is inside the grid, and the node found lives at (x, y) |
| `Navigation.Map.SideCellsAreAdjacent` | Shared/Map.cpp:101-131 | the side cells of (x, y) are exactly the grid nodes one step away along an axis |
| `Navigation.Map.GetLocationOfNodeInMap` | Shared/Map.cpp:133-157 | gives the first cell holding the node in column-major order; `None` (the thrown error) iff the node is in no cell |
| `Navigation.Map.GetNodeNeighbours` | Shared/Map.cpp:101-131 | `None` iff the node is not in the map; otherwise exactly its in-grid side neighbours, in the source's order |
| `Navigation.Map.NeighboursAt` | Shared/Map.cpp:106-128 | the neighbours gathered at (x, y) are the in-grid cells left, right, below and above |
| `Navigation.Map.Reset` | Shared/Map.cpp:159-165 | every node's costs return to unreached and its parent to null; wall flags are unchanged |
| `Navigation.Map.GetAllNodes` | Shared/Map.cpp:167-177 | the result is the grid flattened column by column and contains exactly the map's nodes |
| `Navigation.Map.GetClosestNode` | Shared/Map.cpp:179-197 | null iff the map is empty; otherwise a node of minimal squared distance to the point, the first such in column-major order, which is `ClosestNode` of the grid |
| `Navigation.ClosestInAt` | Shared/Map.cpp:179-197 | the reference closest node of a non-empty list sits at an index of minimal squared distance with every earlier node strictly farther, as the strict `<` of the loop keeps the first minimum |
| `Navigation.FirstMinimumUnique` | Shared/Map.cpp:179-197 | any index that is a first minimum holds the reference closest node, so the node the loop picks is determined by the grid and the point |
| `Navigation.Map.LocBound` | Shared/Map.cpp:167-177 | a valid map indexes no more nodes than its flattened grid holds |
| `Navigation.Map.BeginSearch` | Shared/Map.cpp:21-27 | after the reset and seeding, the open list is [start], only start has a heuristic, and the search invariant holds |
| `Navigation.Map.SortedFront` | Shared/Map.cpp:30-31 | the open list is re-sorted by `f`, its front is taken, and the invariant still holds |
| `Navigation.Map.CloseWall` | Shared/Map.cpp:33-37 | a wall at the front is removed from the open list and closed without expansion, keeping the invariant |
| `Navigation.Map.CloseAndExpand` | Shared/Map.cpp:43-67 | closing an open non-goal node and relaxing its neighbours keeps the invariant |
| `Navigation.Map.AStarPathfind` | Shared/Map.cpp:18-71 | wall flags never change; a wall at either end gives [] and leaves nodes unchanged; a non-empty path is a walkable side-adjacent route from start to goal with `g` equal to its index; [] means no route exists; start = goal gives [start] |
| `Navigation.Map.Search` | Shared/Map.cpp:23-70 | the search loop from two open endpoints returns a route, or [] exactly when no route exists |
| `Navigation.Map.KeepsWalls` | Shared/Map.cpp:18-71 | the nodes' wall flags still agree with the snapshot taken at the start |
| `Navigation.Map.FinishPath` | Shared/Map.cpp:39-41 | when the goal is reached, the reconstructed path is a route from start to goal with `g` equal to the index |
| `Navigation.Map.ExpandNeighbours` | Shared/Map.cpp:46-67 | after the loop over the neighbours each of them is in the open or closed list, and the invariant holds |
| `Navigation.Map.RelaxNeighbour` | Shared/Map.cpp:48-66 | a new neighbour is appended with its heuristic set; its `g` and parent improve iff going through the current node is cheaper |
| `Navigation.Map.ReconstructPath` | Shared/Map.cpp:86-99 | following parents back gives a path ending at the node, starting at a parentless node, with `g` rising by one per step between adjacent nodes |
| `Collision.MinElement` | GeometryEngine/Shared/SAT_OBB.cpp:12-26 | the result is an element of the list and no element is smaller |
| `Collision.MaxElement` | GeometryEngine/Shared/SAT_OBB.cpp:12-26 | the result is an element of the list and no element is larger |
| `Collision.FromVertices` | GeometryEngine/Shared/SAT_OBB.cpp:4-29 | fails iff fewer than 3 vertices; otherwise the box encloses every vertex and each face touches one |
| `Collision.BoxIgnoresOrder` | GeometryEngine/Shared/SAT_OBB.cpp:4-29 | the box built from a vertex list does not depend on the vertices' order |
| `Collision.CandidateAxes` | GeometryEngine/Shared/SAT_OBB.cpp:67-79 | the 15 axes are A's three, B's three, then the nine cross products Aᵢ × Bⱼ in order |
| `Collision.Extent` | GeometryEngine/Shared/SAT_OBB.cpp:85-91 | a box's projected half-width on an axis is never negative |
| `Collision.DoesCollide` | GeometryEngine/Shared/SAT_OBB.cpp:36-101 | true iff the bounding spheres meet and none of the 15 axes separates the boxes; no sphere contact means no collision |
| `Collision.DoesSphereCollide` | GeometryEngine/Shared/SAT_OBB.cpp:103-108 | decides the sphere test on squared lengths |
| `Collision.SphereCollideMeaning` | GeometryEngine/Shared/SAT_OBB.cpp:103-108 | the squared-length test holds iff the centre distance is at most the sum of the two half-diagonals |
| `Collision.RadiusTest` | GeometryEngine/Shared/SAT_OBB.cpp:104-107 | with exact square roots, d ≤ la/2 + lb/2 is equivalent to the squared test used by the model |
| `Collision.SphereCollideSymmetric` | GeometryEngine/Shared/SAT_OBB.cpp:103-108 | the sphere test gives the same answer with the boxes swapped |
| `Collision.ZeroAxisNeverSeparates` | GeometryEngine/Shared/SAT_OBB.cpp:83-97 | a zero axis (a cross product of parallel box axes) never separates |
| `Collision.ParallelCrossIsZero` | GeometryEngine/Shared/SAT_OBB.cpp:70-78 | the cross product of parallel axes is the zero vector |
| `Collision.NegatedAxis` | GeometryEngine/Shared/SAT_OBB.cpp:83-91 | flipping an axis changes neither extent nor centre projection, so separation is unchanged |
| `Collision.SeparatesSwapped` | GeometryEngine/Shared/SAT_OBB.cpp:83-97 | whether an axis separates does not depend on which box comes first |
| `Collision.SwapIndex` | GeometryEngine/Shared/SAT_OBB.cpp:67-79 | maps a face axis to a face axis and a cross axis to a cross axis of the swapped pair |
| `Collision.SwapIndexInvolution` | GeometryEngine/Shared/SAT_OBB.cpp:67-79 | swapping twice gives back the original axis index |
| `Collision.SwappedAxis` | GeometryEngine/Shared/SAT_OBB.cpp:67-79 | each axis for (A, B) is an axis or a negated axis for (B, A) |
| `Collision.CollidesSymmetric` | GeometryEngine/Shared/SAT_OBB.cpp:36-101 | the collision test is symmetric: A hits B iff B hits A |
| `Collision.SeparatingAxisSound` | GeometryEngine/Shared/SAT_OBB.cpp:81-97 | if the two boxes spanned by each centre ± its half-deltas along its local axes share a point, no candidate axis separates them; so a reported separation means those boxes are disjoint |
| `Collision.OffsetProjection` | GeometryEngine/Shared/SAT_OBB.cpp:85-88 | any point of the box projects onto the axis within the box's extent around the centre |
| `Collision.WeightedSum` | GeometryEngine/Shared/SAT_OBB.cpp:85-88 | a sum of terms scaled by factors in [−1, 1] is bounded by the sum of the terms' magnitudes |
| `Collision.OffsetDot` | GeometryEngine/Shared/SAT_OBB.cpp:85-88 | the projection of a box point splits into one term per box axis |
| `Attributes.LexLessIrreflexive` | GeometryEngine/Shared/AttributeParser.hpp:27 | the key order of the attribute map is irreflexive |
| `Attributes.LexLessTransitive` | GeometryEngine/Shared/AttributeParser.hpp:27 | the key order is transitive |
| `Attributes.LexLessTotal` | GeometryEngine/Shared/AttributeParser.hpp:27 | any two different keys are ordered one way or the other |
| `Attributes.ToMapKeys` | GeometryEngine/Shared/AttributeParser.hpp:27 | the map's keys are exactly the keys of the entry list |
| `Attributes.ToMapAt` | GeometryEngine/Shared/AttributeParser.hpp:27 | in a sorted entry list each entry's key maps to that entry's value |
| `Attributes.InsertSorted` | GeometryEngine/Shared/AttributeParser.cpp:38-39 | inserting into the sorted entries keeps them sorted, and the keys become the old keys plus the new one |
| `Attributes.InsertMap` | GeometryEngine/Shared/AttributeParser.cpp:38-39 | inserting a present key changes nothing; inserting a new key adds exactly that pair |
| `Attributes.FirstIndex` | GeometryEngine/Shared/AttributeParser.cpp:28-37 | the index found is the first occurrence of the character, or the length when it is absent |
| `Attributes.Lines` | GeometryEngine/Shared/AttributeParser.cpp:26-27 | no line produced contains a newline |
| `Attributes.SplitLine` | GeometryEngine/Shared/AttributeParser.cpp:28-37 | the key has no colon; a line with a colon is key, colon, value; a line without one gives the whole line as key and an empty value |
| `Attributes.ParseLinesValid` | GeometryEngine/Shared/AttributeParser.cpp:16-42 | parsing keeps the entries sorted with colon-free keys and newline-free values |
| `Attributes.InsertWellFormed` | GeometryEngine/Shared/AttributeParser.cpp:38-39 | inserting a colon-free key with a newline-free value keeps the entries well formed |
| `Attributes.ParseLinesFirstWins` | GeometryEngine/Shared/AttributeParser.cpp:38-39 | after parsing, a key's value is the one on its first line, or the earlier value if there was one |
| `Attributes.ParseFirstWins` | GeometryEngine/Shared/AttributeParser.cpp:16-42 | a missing file parses to no entries; otherwise each key gets the value of its first line in the file |
| `Attributes.StoredValueGood` | GeometryEngine/Shared/AttributeParser.cpp:16-42 | every stored value of well-formed entries is free of newlines |
| `Attributes.SerializeLines` | GeometryEngine/Shared/AttributeParser.cpp:54-65 | the saved text splits back into exactly one `key:value` line per entry |
| `Attributes.SerializeAt` | GeometryEngine/Shared/AttributeParser.cpp:60-62 | the text saved from entry i on is entry i's line followed by the rest |
| `Attributes.SplitSavedLine` | GeometryEngine/Shared/AttributeParser.cpp:28-37 | a saved line splits back into its key and value |
| `Attributes.ParseSavedLines` | GeometryEngine/Shared/AttributeParser.cpp:16-65 | parsing the saved lines appends the entries back unchanged |
| `Attributes.InsertAtEnd` | GeometryEngine/Shared/AttributeParser.cpp:38-39 | a key larger than every present one is inserted at the end |
| `Attributes.RoundTrip` | GeometryEngine/Shared/AttributeParser.cpp:16-65 | parsing the file that `save` writes gives back exactly the saved entries |
| `Attributes.KeyIndex` | GeometryEngine/Shared/AttributeParser.cpp:76-80 | the index is the first entry with the key, or the length when there is none |
| `Attributes.AddNeverOverwrites` | GeometryEngine/Shared/AttributeParser.cpp:67-71 | adding an existing key leaves the entries unchanged; adding a new well-formed key adds exactly that pair |
| `Attributes.InsertPresent` | GeometryEngine/Shared/AttributeParser.cpp:67-71 | inserting a key that is present leaves the entries unchanged |
| `Attributes.ChangeSetsValue` | GeometryEngine/Shared/AttributeParser.cpp:73-86 | after a change the key maps to the new value and every other key keeps its value |
| `Attributes.ReplaceValue` | GeometryEngine/Shared/AttributeParser.cpp:76-80 | overwriting an entry's value keeps the entries sorted and well formed and updates only that key |
| `Attributes.FindValue` | GeometryEngine/Shared/AttributeParser.cpp:88-95 | the value found by the scan is the map's value for the key, or `None` when the key is absent |
| `Attributes.FindKey` | GeometryEngine/Shared/AttributeParser.cpp:76-80 | the loop stops at the first entry with the key, or at the end |
| `Attributes.ParseLine` | GeometryEngine/Shared/AttributeParser.cpp:28-37 | the character loop splits the line as `SplitLine` does |
| `Attributes.AttributeParser.constructor` | GeometryEngine/Shared/AttributeParser.cpp:3-5 | a new parser holds the file's parsed entries |
| `Attributes.AttributeParser.ParseAllAttributes` | GeometryEngine/Shared/AttributeParser.cpp:16-42 | the entries become the parse of the current file, sorted and well formed |
| `Attributes.AttributeParser.MakeFile` | GeometryEngine/Shared/AttributeParser.cpp:44-52 | a missing file is created empty; an existing file is left alone |
| `Attributes.AttributeParser.Save` | GeometryEngine/Shared/AttributeParser.cpp:54-65 | the file becomes one `key:value` line per entry, in key order |
| `Attributes.AttributeParser.AddAttribute` | GeometryEngine/Shared/AttributeParser.cpp:67-71 | the file is saved with the pair inserted, and the entries are re-read from it; an existing key keeps its value |
| `Attributes.AttributeParser.ChangeAttribute` | GeometryEngine/Shared/AttributeParser.cpp:73-86 | the file is saved with the first matching entry's value replaced, or with the pair inserted when the key is new, and the entries are re-read |
| `Attributes.AttributeParser.GetAttribute` | GeometryEngine/Shared/AttributeParser.cpp:88-95 | the stored value for the key, or the empty string when it is absent |
| `Decimal.DigitChar` | Shared/DeathScene.cpp:309 | a digit below ten becomes a decimal digit character |
| `Decimal.DigitValue` | Shared/DeathScene.cpp:360 | a digit character's value is below ten and maps back to the same character |
| `Decimal.NatDigits` | Shared/DeathScene.cpp:306-311 | the digits are all decimal digits, with no leading zero unless the number is 0 |
| `Decimal.IntToString` | Shared/DeathScene.cpp:306-311 | the text is non-empty and free of `:` and newlines (so it is storable), and is "0" iff the number is 0 |
| `Decimal.NatDigitsValue` | Shared/DeathScene.cpp:306-311 | reading back the digits of n gives n |
| `Decimal.DigitRun` | Shared/OptionsScene.cpp:153 | the run is the longest prefix of digits |
| `Decimal.SpaceRun` | Shared/OptionsScene.cpp:153 | the run is the longest prefix of white space |
| `Decimal.Stoi` | Shared/OptionsScene.cpp:153 | a value read is always a 32-bit `int` |
| `Decimal.StoiIntToString` | Shared/DeathScene.cpp:521-529 | reading back the text written for any `int` gives that `int` |
| `Projectiles.Ordinal` | Shared/Projectile.hpp:7-16 | each ability has one of the four positions of the enumeration |
| `Projectiles.FromOrdinal` | Shared/Projectile.hpp:7-16 | each position 0..3 names the ability at that position |
| `Projectiles.ManaCost` | Shared/Projectile.cpp:5-19 | one projectile costs 0, 20, 30 or 3 mana: only the potato is free and the iceball is the dearest |
| `Projectiles.Damage` | Shared/Projectile.cpp:6-20 | impact damage is 5, 0, 40 or 4: only the fireball deals none on impact (it burns instead) and the iceball hits hardest |
| `Projectiles.Successor` | Shared/Player.cpp:314-319 | the next ability is the following position, wrapping from the last to the first |
| `Projectiles.SuccessorCycle` | Shared/Player.cpp:314-319 | cycling abilities visits all four and comes back after exactly four presses |
| `Players.HasEnoughForCast` | Shared/Player.cpp:357-377 | potato is always castable; fireball needs 20 mana, iceball 30, a magic volley 15; in each case iff mana covers the cast's cost |
| `Players.Volley` | Shared/Player.cpp:264-301 | one cast fires five magic projectiles, or one of any other kind, all of the current ability |
| `Players.Trimmed` | Shared/Player.cpp:306-311 | eviction leaves fewer than 20 projectiles, drops only the oldest, and changes nothing when there were fewer than 20 |
| `Players.SubU32` | Shared/Player.cpp:276 | unsigned subtraction stays below 2^32 and is exact when it does not go below zero |
| `Players.ChargedModular` | Shared/Player.cpp:290-299 | n unsigned subtractions of a cost in a row equal one subtraction of n times the cost, modulo 2^32 |
| `Players.CastWrapsUnlessCovered` | Shared/Player.cpp:258-301 | the mana check is exactly the no-wrap condition: when it passes, the cast's unsigned subtractions take exactly its cost; when it fails, they would wrap below zero and leave more mana than before |
| `Players.TrimOnlyOnOverflow` | Shared/Player.cpp:258-311 | the newest projectile always survives the eviction, and nothing is evicted while the cap is not reached |
| `Players.Player.constructor` | Shared/Player.cpp:108-109 | the player starts with full mana, 100 health, score 0, no projectiles and the potato selected |
| `Players.Player.NextAbility` | Shared/Player.cpp:314-319 | the selected ability moves to its successor |
| `Players.Player.FireAbility` | Shared/Player.cpp:258-312 | without enough mana nothing changes; otherwise the cost is paid, the volley appended, and the oldest projectiles evicted to stay below 20 |
| `Players.Player.CastVolley` | Shared/Player.cpp:264-304 | the mana is what the switch's unsigned subtractions leave (one per paid projectile) and the volley is appended |
| `Players.Player.EvictOldest` | Shared/Player.cpp:306-311 | the projectile list becomes its trimmed form |
| `Players.Player.Update` | Shared/Player.cpp:203-211 | a full second of counter adds 5 mana unless that would pass 100; the counter keeps the remainder; mana never rises past the cap |
| `Players.Player.EnemyHit` | Shared/Player.cpp:161-163 | health drops by 10 with 32-bit wrap-around |
| `Players.Player.IncrementScore` | Shared/Player.cpp:352-355 | the unsigned score rises by one modulo 2^32 |
| `Enemies.FirstOccurrence` | Shared/Enemy.cpp:203-221 | the index is the first position of the node in the path, or the length if it is absent |
| `Enemies.NextWaypoint` | Shared/Enemy.cpp:203-221 | the next node is a node of the path or the closest node itself, and the closest node when it is not on the path |
| `Enemies.NextWaypointCases` | Shared/Enemy.cpp:203-221 | the next node is the one after the first occurrence of the closest node, or the closest node itself at the path's end |
| `Enemies.Enemy.constructor` | Shared/Enemy.hpp:44-59 | a new enemy stands at the spawn position with 100 health, both timers expired, no explosion, waypoint 1 and an empty path |
| `Enemies.Enemy.SetShortestPath` | Shared/Enemy.hpp:32 | the path is replaced and the waypoint counter goes back to 1 |
| `Enemies.Enemy.Hit` | Shared/Enemy.cpp:129-187 | health drops by the ability's damage with wrap-around; fireball restarts the burn timer, iceball the freeze timer, and the others touch neither |
| `Enemies.Enemy.Update` | Shared/Enemy.cpp:41-67 | advances explosion, path, burn and freeze timers; a burning enemy loses 1 health; it moves unless exploding, slowed while the ice lasts; it starts exploding once health is ≤ 0 |
| `Enemies.Enemy.TickExplosion` | Shared/Enemy.cpp:42-46 | an exploding enemy's explosion time advances and it is done after the explosion time |
| `Enemies.Enemy.TickTimers` | Shared/Enemy.cpp:48-59 | path, burn and freeze timers advance; burning costs 1 health |
| `Enemies.Enemy.Move` | Shared/Enemy.cpp:60-61 | unless exploding, the enemy moves along its direction at speed 1 while slowed by ice and at speed 5 otherwise |
| `Enemies.Enemy.GetNextNode` | Shared/Enemy.cpp:203-221 | the result is `NextWaypoint` of the path and the map's closest node to the enemy (the first closest in column-major order): the path node after its first occurrence, itself at the path's end, itself when off the path |
| `Enemies.Enemy.MoveTowardsClosestNode` | Shared/Enemy.cpp:189-201 | with a path of at most one node the target is the origin; otherwise it is the normalised direction to the next waypoint after the map's closest node |
| `MainMenu.Step` | Shared/MenuScene.cpp:199-228 | the cursor moves one entry forward or back, wrapping round the three entries; an out-of-range value stays |
| `MainMenu.CodeFor` | Shared/MenuScene.cpp:230-236 | every entry has a code other than the default |
| `MainMenu.StepInverse` | Shared/MenuScene.cpp:199-228 | a press one way is undone by a press the other way, and three presses one way come back |
| `MainMenu.CodesDistinct` | Shared/MenuScene.cpp:230-236 | different entries hand back different codes |
| `MainMenu.MenuScene.constructor` | Shared/MenuScene.hpp:69 | the menu starts on Play with the default code |
| `MainMenu.MenuScene.ChangeChoice` | Shared/MenuScene.cpp:199-228 | the cursor moves as `Step` says and stays on the menu |
| `MainMenu.MenuScene.SelectChoice` | Shared/MenuScene.cpp:230-236 | the scene hands back the chosen entry's code, which ends its loop |
| `OptionsMenu.Step` | Shared/OptionsScene.cpp:255-292 | the cursor moves one of four entries forward or back with wrap-around; an out-of-range value stays |
| `OptionsMenu.StepInverse` | Shared/OptionsScene.cpp:255-292 | opposite presses cancel, and four presses one way come back |
| `OptionsMenu.NextRateClosed` | Shared/OptionsScene.cpp:314-325 | from off or any power of two up to the maximum, the next multisampling rate is again off or such a power |
| `OptionsMenu.NextRateSteps` | Shared/OptionsScene.cpp:314-325 | for `NextRate`, off goes to 1, the highest rate to off, and any other rate doubles, exactly when the double fits in an `int`; the result is always an `int` value |
| `OptionsMenu.RateCycles` | Shared/OptionsScene.cpp:317-325 | the rates cycle 0, 1, 2, 4, 8, back to 0 with maximum 8, and 8, 16, back to 0 with maximum 16 |
| `OptionsMenu.OptionsScene.constructor` | Shared/OptionsScene.cpp:10-38 | the scene reads the options file, starts on the last entry, and its status texts show the stored settings; the multisampling text shows the stored rate ("Off" for 0) and the restart notice is raised iff a readable stored rate differs from the window's |
| `OptionsMenu.OptionsScene.ChangeChoice` | Shared/OptionsScene.cpp:255-292 | the cursor moves as `Step` says |
| `OptionsMenu.OptionsScene.UpdateFullscreenStatus` | Shared/OptionsScene.cpp:144-147 | the text shows "On" iff the window is fullscreen |
| `OptionsMenu.OptionsScene.UpdateShadowsValue` | Shared/OptionsScene.cpp:156-161 | the text shows the stored shadows setting |
| `OptionsMenu.OptionsScene.UpdateMultisampleValue` | Shared/OptionsScene.cpp:149-154 | the text shows "Off" for a stored 0 and the stored value otherwise; the render effect is shown iff the stored rate differs from the one in use |
| `OptionsMenu.OptionsScene.ReadShadowSetting` | Shared/OptionsScene.cpp:97-98 | shadows are used iff the file stores "On" for them |
| `OptionsMenu.OptionsScene.SelectChoice` | Shared/OptionsScene.cpp:294-333 | "Main Menu" hands back its code and changes nothing else; shadows and fullscreen toggle and persist "On"/"Off"; multisampling persists the next rate and shows it, or changes nothing when the stored rate is unreadable; each entry touches only its own flag, text and file key, and the file's other keys keep their values |
| `OptionsMenu.OptionsScene.ToggleShadows` | Shared/OptionsScene.cpp:298-304 | the flag flips and the file afterwards stores the matching "On" or "Off", every other key keeping its value |
| `OptionsMenu.OptionsScene.ToggleFullscreen` | Shared/OptionsScene.cpp:306-311 | the flag flips and the file afterwards stores the matching "On" or "Off", every other key keeping its value |
| `OptionsMenu.OptionsScene.CycleMultisampling` | Shared/OptionsScene.cpp:313-331 | a readable stored rate is replaced by the next rate in the file (other keys unchanged) and shown; an unreadable one leaves everything as it was |
| `OptionsMenu.OptionsScene.StoreNextRate` | Shared/OptionsScene.cpp:314-327 | the file afterwards stores the next rate's decimal text, every other key keeping its value |
| `OptionsMenu.OptionsScene.StoreSetting` | GeometryEngine/Shared/AttributeParser.cpp:73-86 | after the change the file stores the given value for the key, no other key changes, and the parser's entries are the file's parse |
| `Game.GetNodes` | Shared/GameScene.cpp:366-401 | builds a 93 × 92 grid of fresh nodes two units apart from (−90, −90), walls exactly on the border, one node per cell |
| `Game.DistinctByLocation` | Shared/GameScene.cpp:366-401 | nodes placed at different cells are different objects |
| `Game.Step` | Shared/GameScene.cpp:322-350 | the pause cursor moves one of three entries with wrap-around; an out-of-range value stays |
| `Game.StepInverse` | Shared/GameScene.cpp:322-350 | a press up is undone by a press down |
| `Game.GameScene.constructor` | Shared/GameScene.cpp:12-37 | the scene's map holds the built grid, every cell (i, j) holding the node placed at (i, j); play starts unpaused at wave 1 with no enemies |
| `Game.GameScene.GridSize` | Shared/GameScene.cpp:366-401 | the grid holds fewer nodes than the unreached cost, as the A* search needs |
| `Game.GameScene.ChangeSelection` | Shared/GameScene.cpp:322-350 | the pause cursor moves as `Step` says |
| `Game.GameScene.SelectMenuItem` | Shared/GameScene.cpp:572-578 | Resume unpauses; the other entries hand back the main-menu or exit code |
| `Game.GameScene.PathBetween` | Shared/GameScene.cpp:421 | the A* path between the nodes closest to two points is a walkable route between them when non-empty and empty only when none exists; walls stay as they were |
| `Game.GameScene.AddEnemy` | Shared/GameScene.cpp:417-422 | one new full-health enemy at the position, carrying the given path, is appended to the others |
| `Game.GameScene.SpawnEnemy` | Shared/GameScene.cpp:412-423 | appends one new full-health enemy at the given position and keeps the others; its path is a walkable route from the node closest to it to the node closest to the player, or empty only when there is none |
| `Game.GameScene.SpawnWave` | Shared/GameScene.cpp:403-410 | appends as many new enemies as the wave number, one per position, then moves to the next wave |
| `Death.Toggle` | Shared/DeathScene.cpp:500-517 | up or down always switches between the name field and "Continue" |
| `Death.KeyChar` | GeometryEngine/Shared/EngineHeader.hpp:148-175 | letter and digit keys type themselves, and no key types `:`, a newline or the placeholder |
| `Death.KeyCharInjective` | GeometryEngine/Shared/EngineHeader.hpp:148-175 | different keys type different characters |
| `Death.Typed` | Shared/DeathScene.cpp:459-466 | typing on the placeholder replaces it; otherwise the character is appended |
| `Death.Erased` | Shared/DeathScene.cpp:486-498 | backspace drops the last character, leaving the placeholder when nothing would remain |
| `Death.EditedGood` | Shared/DeathScene.cpp:484-547 | editing keeps the name non-empty, at most six characters, and storable as a key |
| `Death.Edited` | Shared/DeathScene.cpp:484-547 | up, down and enter leave the name; it changes only on backspace or on a mapped key while shorter than the limit, and a typed key adds one character (or replaces the placeholder) |
| `Death.EraseUndoesType` | Shared/DeathScene.cpp:459-498 | backspace after typing a character gives back the name |
| `Death.ScoreList` | Shared/DeathScene.cpp:356-361 | one (name, score) pair per leaderboard entry, in key order, with the value read by `stoi` |
| `Death.ScoreListFaithful` | Shared/DeathScene.cpp:356-361 | every pair listed is a stored name with its stored score |
| `Death.InsertByScore` | Shared/GameHelpers.hpp:94-100 | inserting adds exactly the pair |
| `Death.InsertByScoreSorted` | Shared/GameHelpers.hpp:94-100 | inserting into a list ordered by descending score keeps it ordered |
| `Death.SortByScore` | Shared/DeathScene.cpp:363-364 | the result is ordered by descending score and is a permutation of the input, of the same length |
| `Death.TopRows` | Shared/DeathScene.cpp:375-413 | the table shows the first five pairs, or all of them when there are fewer |
| `Death.TopRowsBest` | Shared/DeathScene.cpp:363-413 | no score left out of the table beats a score shown |
| `Death.TopRowsTaken` | Shared/DeathScene.cpp:375-413 | every shown pair comes from the sorted list |
| `Death.ReadScores` | Shared/DeathScene.cpp:359-361 | succeeds iff every stored value is a readable number, and then gives the score list |
| `Death.EmptyFileBoard` | GeometryEngine/Shared/AttributeParser.cpp:44-52 | creating the missing leaderboard file changes neither the parsed entries nor the board |
| `Death.ShownFromBoard` | Shared/DeathScene.cpp:349-414 | the top rows of a descending rearrangement of the board's scores are `ShowsTopOf` the board: at most five, ordered, taken from the board with their stored scores, and no omitted score beats a shown one |
| `Death.DeathScene.constructor` | Shared/DeathScene.cpp:10-45 | name entry starts with the placeholder name selected, typing on, score 0 and an empty table |
| `Death.DeathScene.SetScore` | Shared/DeathScene.cpp:306-311 | the score is stored and the text reads "You scored: " followed by its decimal digits |
| `Death.DeathScene.UpdateUsername` | Shared/DeathScene.cpp:459-466 | the name becomes the typed form |
| `Death.DeathScene.SubmitScore` | Shared/DeathScene.cpp:525-530 | afterwards the leaderboard maps the name to the score and keeps every other entry |
| `Death.DeathScene.LoadStats` | Shared/DeathScene.cpp:349-414 | creates the file if missing; with readable scores the table is `ShowsTopOf` the board (the best five in descending order with the board's scores); otherwise the table is unchanged |
| `Death.DeathScene.KeyCallback` | Shared/DeathScene.cpp:474-563 | states each key's effect: 2 leaves the scene; while typing, backspace erases, up/down toggle, enter on "Continue" submits, and other mapped keys type while the name is short; after typing, enter returns to the main menu; enter on "Continue" also shows the updated board's best five when its scores are readable, and every other key leaves the table and the score text as they were |
| `Death.DeathScene.FinishEntry` | Shared/DeathScene.cpp:519-533 | typing ends, the text reads "name scored: n", the leaderboard maps the name to the score, and the table shows the updated board's best five when its scores are readable (else stays) |

## Left out

- Rendering, shaders, textures, text layout, lights, framebuffers, the camera and the window's GL calls are not modelled. Neither are mouse movement and held-key polling (`handle_held_keys`), the static wireframe toggle (key 1) and its `held_keys` bookkeeping.
- Floating point is modelled as exact reals. `float` rounding, `std::sqrt` and `std::abs` on floats are not captured.
- `Collision.DoesSphereCollide`: compares squared lengths rather than computing `distance`. `Collision.RadiusTest` and `Collision.SphereCollideMeaning` show this is equivalent with exact square roots.
- `Collision.DoesCollide`: the transformation matrices, the box centres and the three axes are passed in as a `Placement`. Matrix multiplication (`Matrix4x4.hpp`) and the engine's `get_center` are not part of this model.
- `Collision.FromVertices`: works on a list of vertices. Loading a mesh file is not part of this model.
- The copy constructor and `operator=` of `SAT_OBB` and `AttributeParser` are not modelled; the model passes values instead.
- `Navigation.Map.AStarPathfind`: requires the start and goal nodes to be in the grid and the grid to hold fewer nodes than the unreached cost. The source assumes both.
- `Navigation.Map.AStarPathfind`: does not claim the path is a shortest one. The heuristic (truncated Euclidean distance) can overestimate the number of 4-neighbour steps left, so the search is not admissible. What it states is soundness (a route), completeness ([] only when no route exists) and that `g` counts the steps.
- `Nodes.Node.Reset`: `Node.hpp` declares `reset`; its definition (`Node.cpp`) is not part of this model. It is modelled as restoring the constructor's values for `g`, `h` and the parent, which is what `Map::reset` relies on.
- `Game.GameScene.SpawnEnemy`: the random spawn position and the player's position are parameters.
- `Game.GameScene.SpawnWave`: the random spawn positions are parameters. Its contract states how many enemies appear, where, and at what health; the path each one gets is what `Game.GameScene.SpawnEnemy` states, and is not repeated per enemy in the wave's contract.
- `Util.Wrap32`: signed overflow is undefined behaviour in C++. The model gives it two's-complement wrap-around, which is what mainstream compilers produce for it without overflow checks. The same reading applies to `Enemies.Enemy.Hit`, `Enemies.Enemy.TickTimers`, `Players.Player.EnemyHit`, `Nodes.Node.F` and the `rate * 2` of `OptionsMenu.NextRate`.
- Enemy–projectile and enemy–player collision handling in `GameScene.cpp` (`evaluate_enemy_collisions`, `evaluate_player_collisions`, `update_enemies`, `set_enemy_pathfind`) is not modelled as scene methods. Its parts are: `Collision.DoesCollide`, `Enemies.Enemy.Hit`, `Players.Player.EnemyHit` and `Players.Player.IncrementScore`.
- Projectile flight (`Projectile::update`) and the erasing of projectiles that leave the arena (Player.cpp lines 215-233) are not modelled. Projectiles are modelled by their kind only.
- Player movement, jumping and the camera are not modelled; nor are the enemy's colour, text rotation and direction normalisation. `normalise` is a parameter of `Enemies.Enemy.MoveTowardsClosestNode`.
- `OptionsMenu.OptionsScene.ToggleFullscreen`: switching the real window to or from fullscreen is modelled as the `fullscreen` flag.
- `OptionsMenu.OptionsScene.UpdateMultisampleValue`, `OptionsMenu.OptionsScene.constructor`: when `std::stoi` throws on the stored text, the model leaves the render-effect flag unchanged (unset, in the constructor) instead of ending the program.
- `OptionsMenu.OptionsScene.CycleMultisampling`, `OptionsMenu.OptionsScene.SelectChoice`: when `std::stoi` throws on the stored text, the model leaves the state unchanged instead of ending the program.
- `Death.DeathScene.LoadStats`, `Death.DeathScene.FinishEntry`, `Death.DeathScene.KeyCallback`: when `std::stoi` throws on a stored score, the model leaves the table unchanged instead of ending the program.
- `Collision.SeparatingAxisSound`: soundness is proved for the boxes the test measures, each centre ± its world-frame half-deltas (`(M·max − M·min)/2`) along its local axes. This is the transformed model box only while the box is not rotated. For a rotated box the half-deltas are not its local half-extents, and a separation the test reports need not mean the real boxes are apart.
- `Enemies.Enemy.constructor`, `Game.GameScene.AddEnemy`, `Game.GameScene.SpawnEnemy`, `Game.GameScene.SpawnWave`: the constructor takes the spawn position, standing for `Enemy()` followed by the scene's relative `move(position)`. The lift of `(0, 2·aabb_max.y, 0)` that `Enemy()` applies first is dropped, because the mesh's bounding box is not part of this model. The enemy's height is therefore not captured; the closest-node lookup and A* use only x and z.
- `Death.DeathScene.LoadStats`: the model replaces the whole shown table. The source rewrites only the first min(5, n) rows and leaves any later row's text as it was.
- `Death.DeathScene.SetScore`: scores are `UInt`. A score of 2^31 or more is written by `std::to_string` but `std::stoi` cannot read it back; `Death.ReadScores` then reports `None`.
- Creating the resource directory and choosing file paths is not modelled. Files are `Option<string>` values held by the scenes.
- The key map in `EngineHeader.hpp` gives the slash key the backslash character and the reverse. `Death.KeyChar` keeps that as written; neither character affects what is proved.
- The other scenes (`LoadingScene`, `InstructionsScene`), `Application`'s scene loop and `main` are not part of this model.
