# MultiAgent-Research grid pathfinding core, in Dafny

This project models the deterministic core of the MultiAgent-Research pathfinding engine. In that engine agents walk a grid map of `GridType` cells, which are bit flags: Road 1, Obstacle 2, Path 4, Circle 8. The model covers the following parts:

- **Map storage** (`MapText`, `MapLoad`, `MainMaps`, `EditorMaps`). Each of the two `MapDataManager` classes (the main module's and the map editor's) stores a map as text: one line per row, `.` for Road and `*` for anything else. Save writes a grid into a buffer of `width·height + height` characters, and ParseMapData reads it back. Load either parses the stored text or takes a default grid, then counts the Road cells.
- **Grid → graph mediator** (`RowMajor`, `Mediator`, `Graph`). Every cell that is exactly Road gets a dense node number in row-major order. Two lookup tables map dense nodes to flat cell indices and back. The four-neighbour graph links Road cells. The start cells are checked for duplicates (`PathMapData`, `Common`).
- **Goal-set A\*** (`AStar`, `NodeList`). This is a best-first search keyed by `Time + H`, where H is the squared distance to a target and is scaled by 0.01 for neighbours. A node is closed when it is first discovered. The path is rebuilt from Parent links.
- **Range goals** (`Circle`, `RangeGoalFinding`, `RangeGoals`, `Rounding`). An integer midpoint circle of radius `round(√d²·0.5)` is drawn around the goal and split into connected clusters by flood fill. A cluster is correct when the search from the goal into it stays inside the disc. The agent then searches into the union of the correct clusters.
- **Half goal** (`HalfGoal`, `NearestGoal`). The agent heads for the midpoint of its start and its goal, rounded half to even. If that cell is blocked, a breadth-first search finds the nearest free cell instead.
- **Batch drivers and agents** (`Batch`, `Agents`). One search runs per agent context, and the results come back in input order. Each agent has a waypoint cursor.
- **Scene driver** (`Painting`). The driver paints the Path and Circle bits onto the map array and picks the enemy's half goal. The arrow-key rule moves the player's goal.

State that the source updates in place is modelled as classes: the mediator, the search with its node fields, the finder, algorithm and driver objects, the agent and both map managers. These classes have `modifies` clauses. Cell arrays stay `array2`. Each method is proved against a specification: a function on values (`Common.Snapshot` gives an array's value) for the painters, the map text, the loaders and the tables; predicates over the graph for the searches and the clustering (walks, reachability, the search invariants, the clustering properties). The properties the source promises are lemmas about those functions and predicates.

## Model

| member | source | states |
|---|---|---|
| Common.SqDist | MultiAgent-Research/Assets/Scripts/MainModule/PathFinding/Algorithm/ConstrainedAStar.cs:78-79 | the squared distance is never negative and is zero exactly when the two cells coincide |
| Common.AdjacentIffMove | MultiAgent-Research/Assets/Scripts/MainModule/GridGraphMediator.cs:22-34 | the four direction vectors reach exactly the orthogonal neighbours of a cell, never a diagonal |
| Common.IsUniqueStarts | MultiAgent-Research/Assets/Scripts/MainModule/PathFinding/MapData.cs:38 | the GroupBy/SelectMany(Skip(1))/Any test yields true exactly when the start cells are pairwise distinct |
| Common.RepeatsEmptyIffDistinct | MultiAgent-Research/Assets/Scripts/MainModule/GridGraphMediator.cs:116 | the sequence of "all but the first of each group" is empty exactly when no element repeats |
| Common.DistinctIffSingleOccurrences | MultiAgent-Research/Assets/Scripts/MainModule/PathFinding/MapData.cs:38 | distinctness is a property of the multiset of start cells: no cell occurs twice |
| Common.Snapshot | MultiAgent-Research/Assets/Scripts/MainModule/MapDataManager.cs:99 | the row-by-row value of a two-dimensional cell array, rectangular with the array's dimensions and equal to it cell by cell |
| Graph.NewGraph | MultiAgent-Research/Assets/Scripts/MainModule/GridGraphMediator.cs:51 | a graph of nodeCount nodes with no edges |
| Graph.AddEdge | MultiAgent-Research/Assets/Scripts/MainModule/GridGraphMediator.cs:82 | appends v to u's neighbour list and changes no other list |
| Graph.ReachableInClosed | MultiAgent-Research/Assets/Scripts/MainModule/PathFinding/Algorithm/ConstrainedAStar.cs:70-73 | a set holding start and closed under neighbours holds every node reachable from start |
| Graph.DistinctNodesBound | MultiAgent-Research/Assets/Scripts/MainModule/PathFinding/Algorithm/ConstrainedAStar.cs:57-60 | a walk that never repeats a node has at most node-count entries |
| PathMapData.IsValid | MultiAgent-Research/Assets/Scripts/MainModule/PathFinding/MapData.cs:35-46 | Ok(true) exactly when the start cells are pairwise distinct, the ArgumentException otherwise, and never Ok(false) |
| PathMapData.IsValidIgnoresOrder | MultiAgent-Research/Assets/Scripts/MainModule/PathFinding/MapData.cs:38 | two maps whose agent lists hold the same start cells the same number of times get the same verdict |
| NodeList.CreateNodes | MultiAgent-Research/Assets/Scripts/MainModule/PathFinding/Algorithm/NormalAStar.cs:35-47 | node i of the list is placed at the cell of dense node i (a Road cell), one node per graph node, no two at the same cell |
| Mediator.CreateNodeIndexList | MultiAgent-Research/Assets/Scripts/MainModule/GridGraphMediator.cs:126-145 | the table maps exactly the keys 0..k-1, key n to the flat index y·width+x of the n-th cell that is exactly Road in a row-major scan, k being the number of such cells |
| Mediator.InvertNodeIndexList | MultiAgent-Research/Assets/Scripts/MainModule/GridGraphMediator.cs:40 | the inverted table has exactly the flat indices of the Road cells as keys and maps each back to its dense node |
| Mediator.GridGraphMediator.Initialize | MultiAgent-Research/Assets/Scripts/MainModule/GridGraphMediator.cs:36-42 | afterwards both tables are built over the given map, one the exact inverse of the other, and the result is true exactly when no two agents start on the same cell |
| Mediator.GridGraphMediator.ValidateEndPoints | MultiAgent-Research/Assets/Scripts/MainModule/GridGraphMediator.cs:113-124 | true exactly when the agents' start cells are pairwise distinct |
| Mediator.GridGraphMediator.GetNode | MultiAgent-Research/Assets/Scripts/MainModule/GridGraphMediator.cs:91-95 | the node of a cell is below the node count and the dense table maps it back to the cell's flat index |
| Mediator.GridGraphMediator.GetPos | MultiAgent-Research/Assets/Scripts/MainModule/GridGraphMediator.cs:97-101 | the cell of a node is inside the map, exactly Road, and its flat index is the node's table entry |
| Mediator.GridGraphMediator.HasNodeIffRoad | MultiAgent-Research/Assets/Scripts/MainModule/GridGraphMediator.cs:126-145 | a cell inside the map has a dense node exactly when it is exactly Road, so Obstacle and annotated cells have none |
| Mediator.GridGraphMediator.GetPosOfGetNode | MultiAgent-Research/Assets/Scripts/MainModule/GridGraphMediator.cs:91-101 | GetPos(GetNode(p)) == p for every Road cell p |
| Mediator.GridGraphMediator.GetNodeOfGetPos | MultiAgent-Research/Assets/Scripts/MainModule/GridGraphMediator.cs:91-101 | GetNode(GetPos(n)) == n for every node n |
| Mediator.GridGraphMediator.NodeOrderIsScanOrder | MultiAgent-Research/Assets/Scripts/MainModule/GridGraphMediator.cs:126-145 | a higher node has a higher flat index: the dense-to-flat map is strictly increasing |
| Mediator.GridGraphMediator.ConstructGraph | MultiAgent-Research/Assets/Scripts/MainModule/GridGraphMediator.cs:49-89 | the graph has one list per node, and node u's list is the nodes of its in-bounds Road neighbours in the order +x, +y, -x, -y |
| Mediator.GridGraphMediator.ConnectNeighbours | MultiAgent-Research/Assets/Scripts/MainModule/GridGraphMediator.cs:66-84 | the direction loop for one Road cell appends exactly that cell's Road-neighbour nodes to its own list and leaves every other list as it was |
| Mediator.GridGraphMediator.RoadNeighboursMembers | MultiAgent-Research/Assets/Scripts/MainModule/GridGraphMediator.cs:66-84 | v is in the list built from the first d directions exactly when v is a node whose cell is one of those d moves away |
| Mediator.GridGraphMediator.EdgeIffAdjacent | MultiAgent-Research/Assets/Scripts/MainModule/GridGraphMediator.cs:66-84 | ConstructGraph lists v for u exactly when v is a node whose cell is orthogonally adjacent to u's cell |
| Mediator.GridGraphMediator.ConstructedGraphIsSymmetric | MultiAgent-Research/Assets/Scripts/MainModule/GridGraphMediator.cs:53-85 | every listed node is a node, every edge joins orthogonal neighbours (no diagonals), and every edge u→v has its reverse v→u |
| AStar.Heuristic | MultiAgent-Research/Assets/Scripts/MainModule/PathFinding/Algorithm/ConstrainedAStar.cs:76-81 | the squared Euclidean distance, never negative and zero exactly when the node stands on the target (no square root) |
| AStar.Dequeue | MultiAgent-Research/Assets/Scripts/MainModule/PathFinding/Algorithm/ConstrainedAStar.cs:42 | the entry taken is in the queue with a key no larger than any other, and the rest is the queue without exactly that one entry |
| AStar.DiscoverKeepsSearchState | MultiAgent-Research/Assets/Scripts/MainModule/PathFinding/Algorithm/ConstrainedAStar.cs:57-68 | discovering an unclosed neighbour of a closed node (H scaled by 0.01, Time = parent's + 1, Parent set) and enqueueing it under Time + H keeps the search tree, heuristic and queue invariants |
| AStar.SettledStep | MultiAgent-Research/Assets/Scripts/MainModule/PathFinding/Algorithm/ConstrainedAStar.cs:40-70 | one loop iteration that expands a non-goal node keeps every closed node either still queued or expanded with all its neighbours closed |
| AStar.ExhaustedSearch | MultiAgent-Research/Assets/Scripts/MainModule/PathFinding/Algorithm/ConstrainedAStar.cs:70-73 | a search whose queue runs dry with every closed node expanded has no goal reachable from start |
| AStar.TimesDistinct | MultiAgent-Research/Assets/Scripts/MainModule/PathFinding/Algorithm/ConstrainedAStar.cs:33-65 | Times 0, 1, 2, ... along a path mean no node occurs twice on it |
| AStar.ConstrainedAStar.constructor | MultiAgent-Research/Assets/Scripts/MainModule/PathFinding/Algorithm/ConstrainedAStar.cs:15-19 | keeps the graph and the node positions; every node starts in its reset state |
| AStar.ConstrainedAStar.ResetNodes | MultiAgent-Research/Assets/Scripts/MainModule/PathFinding/Algorithm/ConstrainedAStar.cs:97-103 | afterwards every node has Time 0, H 0 and no Parent |
| AStar.ConstrainedAStar.RetracePath | MultiAgent-Research/Assets/Scripts/MainModule/PathFinding/Algorithm/ConstrainedAStar.cs:83-95 | the result is a walk along graph edges from the root of the search tree to current, with Time i at position i and each node's Parent its predecessor |
| AStar.ConstrainedAStar.FindPath | MultiAgent-Research/Assets/Scripts/MainModule/PathFinding/Algorithm/ConstrainedAStar.cs:21-74 | a non-empty result is a walk from start along graph edges ending in end; it is empty exactly when no node of end is reachable; it is [start] when start is in end; Time rises by 1 per step, no node repeats, the length is at most the node count, and Parent links chain the path |
| AStar.ConstrainedAStar.SeedStart | MultiAgent-Research/Assets/Scripts/MainModule/PathFinding/Algorithm/ConstrainedAStar.cs:31-37 | the start node gets Time 0 and its unscaled H, and is the one closed and queued node, under key 0 |
| AStar.ConstrainedAStar.Search | MultiAgent-Research/Assets/Scripts/MainModule/PathFinding/Algorithm/ConstrainedAStar.cs:40-73 | the goal node dequeued first if any (closed and in end), none only when no goal is reachable, start itself when start is a goal; the search invariants hold throughout and the loop ends because each node is closed once |
| AStar.ConstrainedAStar.ExpandNeighbours | MultiAgent-Research/Assets/Scripts/MainModule/PathFinding/Algorithm/ConstrainedAStar.cs:53-69 | every neighbour of the node is closed afterwards, exactly the newly closed ones are enqueued, and the search invariants are kept |
| AStar.ConstrainedAStar.Visit | MultiAgent-Research/Assets/Scripts/MainModule/PathFinding/Algorithm/ConstrainedAStar.cs:57-68 | a neighbour already closed is skipped with nothing changed; any other becomes closed and is enqueued once |
| AStar.ConstrainedAStar.SetDiscovered | MultiAgent-Research/Assets/Scripts/MainModule/PathFinding/Algorithm/ConstrainedAStar.cs:64-66 | the node's H, Time (parent's + 1) and Parent are set and every other field of every node is unchanged |
| AStar.ConstrainedAStar.FindPathTo | MultiAgent-Research/Assets/Scripts/MainModule/PathFinding/Algorithm/ConstrainedAStar.cs:21-74 | the two-argument overload as the goal-set search on {goal}: a walk from start to goal, empty exactly when goal is unreachable, [start] when start == goal, no node repeated |
| Batch.BatchSplit | MultiAgent-Research/Assets/Scripts/MainModule/PathFinding/Algorithm/NormalAStar.cs:23-30 | the entries do not depend on one another: a result for a batch is a result for its first part followed by a result for the rest |
| Batch.SolveEach | MultiAgent-Research/Assets/Scripts/MainModule/PathFinding/Algorithm/NormalAStar.cs:23-30 | one entry per context, in input order; entry i is context i's agent index with a path from its position to its goal: a walk along graph edges, empty exactly when the goal is unreachable, [position] when position == goal, no node repeated, no longer than the node count |
| Batch.NormalAStar.constructor | MultiAgent-Research/Assets/Scripts/MainModule/PathFinding/Algorithm/NormalAStar.cs:12-17 | keeps the mediator and builds one search object over the graph, node i at the cell of dense node i |
| Batch.NormalAStar.Solve | MultiAgent-Research/Assets/Scripts/MainModule/PathFinding/Algorithm/NormalAStar.cs:19-33 | the batch result of SolveEach for the given contexts |
| Batch.NormalAStar.SolvePair | MultiAgent-Research/Assets/Scripts/MainModule/PathFinding/Algorithm/NormalAStar.cs:49-52 | always the NotImplementedException |
| Batch.SampleAlgorithm.constructor | MultiAgent-Research/Assets/Scripts/MainModule/SampleAlgorithm.cs:11-14 | one search object built from exactly the given graph and node list |
| Batch.SampleAlgorithm.Solve | MultiAgent-Research/Assets/Scripts/MainModule/SampleAlgorithm.cs:16-26 | the batch result of SolveEach, all contexts served by the one search object |
| Agents.CountAfterFromStart | MultiAgent-Research/Assets/Scripts/MainModule/Agent.cs:52-68 | from waypoint k of count, n advance steps reach waypoint min(k + n, count - 1); from the first, min(n, count - 1) |
| Agents.Agent.constructor | MultiAgent-Research/Assets/Scripts/MainModule/Agent.cs:20-26 | after Initialize the only waypoint is the start cell, so Position is the start |
| Agents.Agent.SetWaypoints | MultiAgent-Research/Assets/Scripts/MainModule/Agent.cs:38-43 | needs a non-empty list; keeps the list, moveCount 0, Position the first waypoint, the index unchanged |
| Agents.Agent.Advance | MultiAgent-Research/Assets/Scripts/MainModule/Agent.cs:60-68 | moves to the next waypoint unless on the last one, where nothing changes; 0 <= moveCount < count is kept, so Position stays defined |
| Rounding.RoundHalfNearest | MultiAgent-Research/Assets/Scripts/MainModule/PathFinding/Algorithm/SampleAlgorithm.cs:57-60 | the rounded half of s is within one half of s/2, exact when s is even, and even on a tie (Math.Round's default) |
| Rounding.RoundHalfBetween | MultiAgent-Research/Assets/Scripts/MainModule/PathFinding/Algorithm/SampleAlgorithm.cs:57-60 | the rounded midpoint of a and b lies between a and b |
| Rounding.HalfRootRoundedCorrect | MultiAgent-Research/Assets/Scripts/MainModule/PathFinding/Algorithm/RangeGoalAlgorithm.cs:30-35 | the computed radius r is round(sqrt(n)·0.5): (2r-1)² <= n <= (2r+1)², even on either tie |
| Rounding.HalfRootRoundedUnique | MultiAgent-Research/Assets/Scripts/MainModule/PathFinding/Algorithm/RangeGoalAlgorithm.cs:30-35 | at most one radius meets that specification, so it determines the radius |
| HalfGoal.Midpoint | MultiAgent-Research/Assets/Scripts/MainModule/PathFinding/Algorithm/SampleAlgorithm.cs:54-60 | each coordinate of the rounded midpoint lies between the agent's and the goal's, and it is the agent's cell when the goal is |
| HalfGoal.SampleAlgorithm.constructor | MultiAgent-Research/Assets/Scripts/MainModule/PathFinding/Algorithm/SampleAlgorithm.cs:14-20 | keeps the array and the mediator and builds the search over the graph, node i at the cell of dense node i |
| HalfGoal.SampleAlgorithm.CalculateHalfGoal | MultiAgent-Research/Assets/Scripts/MainModule/PathFinding/Algorithm/SampleAlgorithm.cs:49-83 | the sub-goal is the midpoint when it has no Obstacle bit; otherwise the nearest free cell found by the corrected search, replaced by the goal when it is the agent's own cell, and the goal when no free cell exists (every cell then blocked) |
| HalfGoal.SampleAlgorithm.Solve | MultiAgent-Research/Assets/Scripts/MainModule/PathFinding/Algorithm/SampleAlgorithm.cs:23-33 | the search from start to the sub-goal CalculateHalfGoal computes: a walk, empty exactly when the sub-goal is unreachable, no node repeated |
| NearestGoal.Expand | MultiAgent-Research/Assets/Scripts/MainModule/PathFinding/Algorithm/SampleAlgorithm.cs:120-130 | the direction loop appends, in the order +x, +y, -x, -y, exactly the neighbours that pass the bounds test and are unvisited, and marks them visited |
| NearestGoal.FrontierFacts | MultiAgent-Research/Assets/Scripts/MainModule/PathFinding/Algorithm/SampleAlgorithm.cs:120-130 | the appended cells are distinct, unvisited, in bounds and adjacent, and every in-bounds neighbour is visited afterwards |
| NearestGoal.BfsStep | MultiAgent-Research/Assets/Scripts/MainModule/PathFinding/Algorithm/SampleAlgorithm.cs:109-131 | one dequeue-and-expand of a blocked cell keeps the breadth-first invariant: queue ordered by distance in two layers, nothing nearer unvisited, visited cells closed under neighbours |
| NearestGoal.ClosedHoldsBox | MultiAgent-Research/Assets/Scripts/MainModule/PathFinding/Algorithm/SampleAlgorithm.cs:109-131 | a set holding the start and closed under in-bound moves holds every cell of the box |
| NearestGoal.Search | MultiAgent-Research/Assets/Scripts/MainModule/PathFinding/Algorithm/SampleAlgorithm.cs:86-135 | the search with given bounds: a returned cell is free, and nearest to the start in Manhattan distance among the cells of the box; none means every cell of the box is blocked; an error means a dequeued cell lies outside the array; at most limitX·limitY dequeues |
| NearestGoal.StepBound | MultiAgent-Research/Assets/Scripts/MainModule/PathFinding/Algorithm/SampleAlgorithm.cs:93-97 | each cell is visited at most once, so the number of dequeues is at most the number of cells in the box |
| NearestGoal.FindNearestGoal | MultiAgent-Research/Assets/Scripts/MainModule/PathFinding/Algorithm/SampleAlgorithm.cs:86-135 | as written (x against GetLength(0), y against GetLength(1)): any returned cell is free; on a square array with the start inside, it never faults and returns a nearest free cell, or none only when all cells are blocked |
| NearestGoal.FindNearestGoalFixed | MultiAgent-Research/Assets/Scripts/MainModule/PathFinding/Algorithm/SampleAlgorithm.cs:86-135 | with the bounds the right way round: a nearest free cell, none only when every cell of the array is blocked, and at most rows·cols dequeues |
| NearestGoal.SwappedBoundsExample | MultiAgent-Research/Assets/Scripts/MainModule/PathFinding/Algorithm/SampleAlgorithm.cs:86-134 | on the one-row array [Obstacle, Road] from (0, 0) the as-written search reads below the array and faults |
| NearestGoal.FixedBoundsExample | MultiAgent-Research/Assets/Scripts/MainModule/PathFinding/Algorithm/SampleAlgorithm.cs:86-134 | on the same array the corrected search returns the free cell (1, 0) |
| Circle.CirclePointsMembers | MultiAgent-Research/Assets/Scripts/MainModule/PathFinding/Algorithm/RangeGoalFinder.cs:61-85 | the points in the order the calls plot them are exactly the points of the raw circle, the four axis points plus the eight reflections of every loop pair |
| Circle.RawCircleSymmetric | MultiAgent-Research/Assets/Scripts/MainModule/PathFinding/Algorithm/RangeGoalFinder.cs:61-84 | the plotted points are closed under all eight reflections about the centre (swap of offsets, negation of either) |
| Circle.OctantsOfSymmetric | MultiAgent-Research/Assets/Scripts/MainModule/PathFinding/Algorithm/RangeGoalFinder.cs:77-84 | the eight points plotted for any run of loop pairs are closed under those reflections |
| Circle.MidpointPairsBounded | MultiAgent-Research/Assets/Scripts/MainModule/PathFinding/Algorithm/RangeGoalFinder.cs:66-75 | along the loop x never goes negative, y never rises above the radius, and each plotted pair has x <= y + 1 |
| Circle.StepPairs | MultiAgent-Research/Assets/Scripts/MainModule/PathFinding/Algorithm/RangeGoalFinder.cs:66-85 | one loop iteration (step of d, y lowered after being read, eight points) moves its pair from the pairs still to plot to those plotted |
| Circle.RadiusZero | MultiAgent-Research/Assets/Scripts/MainModule/PathFinding/Algorithm/RangeGoalFinder.cs:58-84 | for radius 0 the plotted set is the centre and its four orthogonal neighbours |
| Circle.RadiusOne | MultiAgent-Research/Assets/Scripts/MainModule/PathFinding/Algorithm/RangeGoalFinder.cs:58-84 | for radius 1 the plotted set is the same five points |
| Mediator.GridGraphMediator.TryGetNode | MultiAgent-Research/Assets/Scripts/MainModule/PathFinding/Algorithm/RangeGoalFinder.cs:94 | a node exactly for in-bounds Road cells, and that node's cell is the point |
| RangeGoalFinding.GrownConnected | MultiAgent-Research/Assets/Scripts/MainModule/PathFinding/Algorithm/RangeGoalFinder.cs:32-44 | each node of a cluster is reached from the cluster's first node by a walk along graph edges that never leaves the cluster |
| RangeGoalFinding.ClustersSeparated | MultiAgent-Research/Assets/Scripts/MainModule/PathFinding/Algorithm/RangeGoalFinder.cs:23-46 | on a symmetric graph no edge joins two different clusters in either direction, so clusters are maximal |
| RangeGoalFinding.LiveNeighboursMembers | MultiAgent-Research/Assets/Scripts/MainModule/PathFinding/Algorithm/RangeGoalFinder.cs:37-44 | the neighbours added are exactly the listed neighbours still in circleNodes, in list order |
| RangeGoalFinding.RangeGoalFinder.constructor | MultiAgent-Research/Assets/Scripts/MainModule/PathFinding/Algorithm/RangeGoalFinder.cs:12-16 | keeps the graph and the mediator |
| RangeGoalFinding.RangeGoalFinder.ClipUnion | MultiAgent-Research/Assets/Scripts/MainModule/PathFinding/Algorithm/RangeGoalFinder.cs:90-98 | clipping distributes over union, so the points may be clipped one at a time |
| RangeGoalFinding.RangeGoalFinder.SetCirclePoint | MultiAgent-Research/Assets/Scripts/MainModule/PathFinding/Algorithm/RangeGoalFinder.cs:90-98 | adds the node of the point when the point is an in-bounds Road cell and drops it silently otherwise |
| RangeGoalFinding.RangeGoalFinder.PlotAxes | MultiAgent-Research/Assets/Scripts/MainModule/PathFinding/Algorithm/RangeGoalFinder.cs:61-64 | the nodes of the four axis points at distance radius |
| RangeGoalFinding.RangeGoalFinder.PlotStep | MultiAgent-Research/Assets/Scripts/MainModule/PathFinding/Algorithm/RangeGoalFinder.cs:77-84 | adds the nodes of the eight reflections of the current pair |
| RangeGoalFinding.RangeGoalFinder.CircleStep | MultiAgent-Research/Assets/Scripts/MainModule/PathFinding/Algorithm/RangeGoalFinder.cs:68-84 | one loop iteration: the new (y, d) by the decision rule, y lowered after being read, then the eight points plotted with the new y |
| RangeGoalFinding.RangeGoalFinder.CalculateCircleNodes | MultiAgent-Research/Assets/Scripts/MainModule/PathFinding/Algorithm/RangeGoalFinder.cs:51-88 | exactly the dense nodes whose cells are points of the raw midpoint circle; the loop ends because y - x falls each pass |
| RangeGoalFinding.RangeGoalFinder.EnqueueNeighbours | MultiAgent-Research/Assets/Scripts/MainModule/PathFinding/Algorithm/RangeGoalFinder.cs:37-44 | the cluster and the queue both get exactly the current node's neighbours still in circleNodes, in list order |
| RangeGoalFinding.RangeGoalFinder.GrowCluster | MultiAgent-Research/Assets/Scripts/MainModule/PathFinding/Algorithm/RangeGoalFinder.cs:25-45 | the cluster starts at first, is grown along edges, holds only ring nodes, leaves circleNodes less exactly its nodes, and no edge leads from it to a node still left |
| RangeGoalFinding.RangeGoalFinder.FloodStep | MultiAgent-Research/Assets/Scripts/MainModule/PathFinding/Algorithm/RangeGoalFinder.cs:32-44 | one dequeue keeps the flood-fill invariant and shrinks circleNodes or the count of queue entries already removed |
| RangeGoalFinding.RangeGoalFinder.GetRangeGoals | MultiAgent-Research/Assets/Scripts/MainModule/PathFinding/Algorithm/RangeGoalFinder.cs:18-49 | the clusters are non-empty, grown along edges, pairwise disjoint, no edge leads to a later cluster, and their union is the set of circle nodes exactly |
| RangeGoalFinding.RangeGoalFinder.AddCluster | MultiAgent-Research/Assets/Scripts/MainModule/PathFinding/Algorithm/RangeGoalFinder.cs:23-46 | appending a grown cluster with no edge to the remaining nodes keeps the list a clustering of the nodes removed so far |
| RangeGoals.PosSumRemove | MultiAgent-Research/Assets/Scripts/MainModule/PathFinding/Algorithm/RangeGoalAlgorithm.cs:47-50 | any member of a cluster may be added first: the sum does not depend on HashSet enumeration order |
| RangeGoals.IsCorrectPath | MultiAgent-Research/Assets/Scripts/MainModule/PathFinding/Algorithm/RangeGoalAlgorithm.cs:56-59 | true exactly when every node of the path lies within squared distance radius² of the goal, and true for the empty path |
| RangeGoals.NoGoalsNoPath | MultiAgent-Research/Assets/Scripts/MainModule/PathFinding/Algorithm/RangeGoalAlgorithm.cs:75 | a search into an empty CorrectGoals returns the empty path |
| RangeGoals.UnreachableIsCorrect | MultiAgent-Research/Assets/Scripts/MainModule/PathFinding/Algorithm/RangeGoalAlgorithm.cs:53-62 | a cluster the goal cannot reach has an empty path and is judged correct |
| RangeGoals.ChosenInUnion | MultiAgent-Research/Assets/Scripts/MainModule/PathFinding/Algorithm/RangeGoalAlgorithm.cs:64-70 | the union of the correct clusters is part of the union of all clusters |
| RangeGoals.ChosenExact | MultiAgent-Research/Assets/Scripts/MainModule/PathFinding/Algorithm/RangeGoalAlgorithm.cs:62-65 | for disjoint clusters, a correct cluster is wholly inside CorrectGoals and an incorrect one wholly outside |
| RangeGoals.Classification | MultiAgent-Research/Assets/Scripts/MainModule/PathFinding/Algorithm/RangeGoalAlgorithm.cs:68-72 | a cluster is wholly in CorrectGoals exactly when its verdict is true and wholly in IncorrectGoals exactly when it is false |
| RangeGoals.RangeGoalAlgorithm.constructor | MultiAgent-Research/Assets/Scripts/MainModule/PathFinding/Algorithm/RangeGoalAlgorithm.cs:17-23 | builds the search and the finder over the same graph and mediator, node i at the cell of dense node i, both goal sets empty |
| RangeGoals.RangeGoalAlgorithm.ClusterTarget | MultiAgent-Research/Assets/Scripts/MainModule/PathFinding/Algorithm/RangeGoalAlgorithm.cs:46-50 | the steering target is the unnormalised sum of the cluster's cell positions |
| RangeGoals.RangeGoalAlgorithm.ClassifyCluster | MultiAgent-Research/Assets/Scripts/MainModule/PathFinding/Algorithm/RangeGoalAlgorithm.cs:46-59 | the search result from the goal into the cluster, and a verdict true exactly when that path stays within the radius |
| RangeGoals.RangeGoalAlgorithm.ClassifyAll | MultiAgent-Research/Assets/Scripts/MainModule/PathFinding/Algorithm/RangeGoalAlgorithm.cs:41-66 | every cluster gets its search result and verdict, and the result is the union of the clusters judged correct |
| RangeGoals.RangeGoalAlgorithm.Solve | MultiAgent-Research/Assets/Scripts/MainModule/PathFinding/Algorithm/RangeGoalAlgorithm.cs:25-79 | the radius is half the start-to-goal distance, rounded; the clusters partition the clipped ring; CorrectGoals is the union of the correct clusters and IncorrectGoals the rest of the ring; the result is a search from start into CorrectGoals (empty when it is empty, otherwise ending on one of its nodes) |
| RangeGoals.RangeGoalAlgorithm.RankClusters | MultiAgent-Research/Assets/Scripts/MainModule/PathFinding/Algorithm/RangeGoalAlgorithm.cs:27-70 | the radius, the clusters, each cluster's verdict, the union of the correct clusters and the union of all of them |
| RangeGoals.RangeGoalAlgorithm.SearchInto | MultiAgent-Research/Assets/Scripts/MainModule/PathFinding/Algorithm/RangeGoalAlgorithm.cs:53-78 | a walk from the start node ending in the goal set, empty exactly when no goal is reachable, no node repeated |
| RangeGoals.RangeGoalSet | MultiAgent-Research/Assets/Scripts/MainModule/PathFinding/Algorithm/RangeGoalAlgorithm.cs:70 | the flattened set is exactly the union of the clusters |
| Painting.ClearKeepsOthers | MultiAgent-Research/Assets/Scripts/MainModule/Starter.cs:243 | after `c &= ~bit` the bit is clear and every other bit is what it was |
| Painting.KeepsOthersIsClear | MultiAgent-Research/Assets/Scripts/MainModule/Starter.cs:243 | clearing is the only update with that property |
| Painting.PaintMeaning | MultiAgent-Research/Assets/Scripts/MainModule/Starter.cs:180-188 | a cell cleared and then plotted or not carries the bit exactly when it was plotted, and every other bit is what it was |
| Painting.ClearAll | MultiAgent-Research/Assets/Scripts/MainModule/Starter.cs:237-246 | every cell of the result is the old cell with the bit cleared, dimensions unchanged |
| Painting.PlotAllConcat | MultiAgent-Research/Assets/Scripts/MainModule/Starter.cs:200-223 | plotting one run of points and then another is plotting the two runs together |
| Painting.PlotAllAt | MultiAgent-Research/Assets/Scripts/MainModule/Starter.cs:184-187 | a cell after a run of plots has the bit ORed in exactly when the run visits it, visiting twice being visiting once, and is unchanged otherwise |
| Painting.PaintedAt | MultiAgent-Research/Assets/Scripts/MainModule/Starter.cs:180-188 | RemoveBitData followed by the plots leaves each cell its old value with the bit set exactly when the run visits it |
| Painting.RemoveBitData | MultiAgent-Research/Assets/Scripts/MainModule/Starter.cs:237-246 | the array afterwards is the old array with the bit cleared on every cell |
| Painting.ClearRow | MultiAgent-Research/Assets/Scripts/MainModule/Starter.cs:241-244 | the inner loop clears the bit on row y and keeps every other row |
| Painting.SetBit | MultiAgent-Research/Assets/Scripts/MainModule/Starter.cs:234 | the bit ORed into one in-bounds cell, every other cell unchanged |
| Painting.Starter.constructor | MultiAgent-Research/Assets/Scripts/MainModule/Starter.cs:164-173 | the current goal (set in Start at line 44) and the half goal are the player's start cell, and each agent stands on its own start cell |
| Painting.Starter.PathPositions | MultiAgent-Research/Assets/Scripts/MainModule/Starter.cs:184 | the cells of the result's nodes, in order |
| Painting.Starter.PaintPath | MultiAgent-Research/Assets/Scripts/MainModule/Starter.cs:180-188 | the array afterwards is the old one with Path cleared everywhere and then set on the cell of each node of the result |
| Painting.Starter.PaintNode | MultiAgent-Research/Assets/Scripts/MainModule/Starter.cs:184-187 | one pass of the loop: the Path bit on the cell of node result[i] |
| Painting.Starter.PaintPathMeaning | MultiAgent-Research/Assets/Scripts/MainModule/Starter.cs:180-188 | after PaintPath a cell carries Path exactly when it is the cell of a node of the result, and keeps every other bit |
| Painting.Starter.SetCirclePoint | MultiAgent-Research/Assets/Scripts/MainModule/Starter.cs:227-235 | a point outside the array leaves it unchanged; one inside gets the Circle bit ORed in |
| Painting.Starter.PaintAxes | MultiAgent-Research/Assets/Scripts/MainModule/Starter.cs:200-203 | the four SetCirclePoint calls at distance radius along the axes |
| Painting.Starter.PaintOctants | MultiAgent-Research/Assets/Scripts/MainModule/Starter.cs:216-223 | the eight SetCirclePoint calls of one loop pass, in the source's order |
| Painting.Starter.PaintCircle | MultiAgent-Research/Assets/Scripts/MainModule/Starter.cs:190-225 | the array afterwards is the old one with Circle cleared everywhere and then set on every in-bounds point of the midpoint circle, in plotting order |
| Painting.Starter.PaintStep | MultiAgent-Research/Assets/Scripts/MainModule/Starter.cs:207-223 | one loop pass: the decision-variable update with y lowered after being read, then the eight points of the new pair |
| Painting.Starter.PaintCircleMeaning | MultiAgent-Research/Assets/Scripts/MainModule/Starter.cs:190-225 | after PaintCircle a cell carries Circle exactly when it is a point of the raw midpoint circle, and keeps every other bit |
| Painting.Starter.AssignHalfGoal | MultiAgent-Research/Assets/Scripts/MainModule/Starter.cs:103-134 | the half goal is the rounded midpoint of the enemy and the current goal when that cell has no Obstacle bit; otherwise the nearest free cell of the corrected search, replaced by the current goal when it is the player's cell, and the current goal when there is none |
| Painting.Starter.MoveGoal | MultiAgent-Research/Assets/Scripts/MainModule/Starter.cs:274-285 | a target cell with the Obstacle bit is refused and nothing changes; otherwise the current goal moves by the input, so a zero input leaves it unchanged; a target outside the array is the out-of-range read |
| MapText.LineEnd | MultiAgent-Research/Assets/Scripts/MainModule/MapDataManager.cs:60 | the index of the first '\n', or the length when there is none; no earlier character is '\n' |
| MapText.Lines | MultiAgent-Research/Assets/Scripts/MainModule/MapDataManager.cs:60 | `Split('\n', RemoveEmptyEntries)`: every line is non-empty and holds no '\n' |
| MapText.LinesCons | MultiAgent-Research/Assets/Scripts/MainModule/MapDataManager.cs:60 | splitting a non-empty line, a '\n' and more text gives that line and then the lines of the rest |
| MapText.ParseCell | MultiAgent-Research/Assets/Scripts/MainModule/MapDataManager.cs:99 | the cell is Road exactly when the character is '.', and Obstacle otherwise |
| MapText.ParseRow | MultiAgent-Research/Assets/Scripts/MainModule/MapDataManager.cs:97-100 | the first `width` characters of a line, each parsed |
| MapText.Parse | MultiAgent-Research/Assets/Scripts/MainModule/MapDataManager.cs:84-104 | the height is the number of lines and the width that of the first, or the defaults when there is none; a negative one is the allocation's exception; on success the grid has exactly those dimensions |
| MapText.ParseFailsOnShortLine | MultiAgent-Research/Assets/Scripts/MainModule/MapDataManager.cs:93-101 | with at least one line, parsing succeeds exactly when no line is shorter than the first |
| MapText.ParsedCell | MultiAgent-Research/Assets/Scripts/MainModule/MapDataManager.cs:93-101 | parsed cell (i, j) is Road exactly when character j of line i is '.', and Obstacle otherwise; lines longer than the first are cut to its length |
| MapText.ParseMapData | MultiAgent-Research/Assets/Scripts/MainModule/MapDataManager.cs:84-104 | the loops fill a fresh array equal to Parse's grid, with Parse's dimensions, or return Parse's exception |
| MapText.SaveChar | MultiAgent-Research/Assets/Scripts/MainModule/MapDataManager.cs:74 | the character Save writes is '.' or '*': '*' for the Obstacle bit (main) or for anything other than exactly Road (editor) |
| MapText.RowText | MultiAgent-Research/Assets/Scripts/MainModule/MapDataManager.cs:70-75 | a row's text has one character per cell, the one SaveChar gives |
| MapText.Texts | MultiAgent-Research/Assets/Scripts/MainModule/MapDataManager.cs:67-78 | one row text per grid row |
| MapText.LayoutLength | MultiAgent-Research/Assets/Scripts/MainModule/MapDataManager.cs:64 | a saved layout of h rows of width w has w·h + h characters |
| MapText.LayoutConcat | MultiAgent-Research/Assets/Scripts/MainModule/MapDataManager.cs:67-78 | the layout of two runs of rows is the layout of the first followed by that of the second |
| MapText.LayoutAt | MultiAgent-Research/Assets/Scripts/MainModule/MapDataManager.cs:73-77 | character j of row i is at offset i·w + j + i, and row i's '\n' at i·w + w + i |
| MapText.LinesOfLayout | MultiAgent-Research/Assets/Scripts/MainModule/MapDataManager.cs:86 | splitting a layout of non-empty rows gives back exactly those rows |
| MapText.CellWrites | MultiAgent-Research/Assets/Scripts/MainModule/MapDataManager.cs:70-75 | the inner loop writes character j of the row at index o + j |
| MapText.Step | MultiAgent-Research/Assets/Scripts/MainModule/MapDataManager.cs:74-77 | a write outside the buffer is the IndexOutOfRangeException, and the buffer keeps its length |
| MapText.Apply | MultiAgent-Research/Assets/Scripts/MainModule/MapDataManager.cs:67-78 | a run of writes keeps the buffer's length, and its only failure is IndexOutOfRange |
| MapText.Dots | MultiAgent-Research/Assets/Scripts/MainModule/MapDataManager.cs:64-65 | `new char[n]` filled with '.' |
| MapText.SaveUpTo | MultiAgent-Research/Assets/Scripts/MainModule/MapDataManager.cs:67-78 | after n rows of writes the buffer is the layout of the first n rows followed by the dots not yet overwritten |
| MapText.SaveTextIsLayout | MultiAgent-Research/Assets/Scripts/MainModule/MapDataManager.cs:58-82 | when the stored text has the grid's dimensions and the rows are not empty, Save stores exactly the layout of the grid's rows |
| MapText.BuildSaveText | MultiAgent-Research/Assets/Scripts/MainModule/MapDataManager.cs:58-82 | the buffer the loops fill is SaveText's result, including its exception for a negative size or a write out of range |
| MapText.SaveRows | MultiAgent-Research/Assets/Scripts/MainModule/MapDataManager.cs:67-78 | the outer loop applies every row's writes in order, or reports the first that fell outside the buffer |
| MapText.SaveRow | MultiAgent-Research/Assets/Scripts/MainModule/MapDataManager.cs:69-77 | one row's writes, then the '\n' at the index after the last, which is 1 for an empty row |
| MapText.SaveCells | MultiAgent-Research/Assets/Scripts/MainModule/MapDataManager.cs:69-75 | the inner loop writes the row's characters, and `index` ends as the last index written |
| MapText.SaveCell | MultiAgent-Research/Assets/Scripts/MainModule/MapDataManager.cs:72-74 | one write, at index i·width + j + i |
| MapText.ReloadRow | MultiAgent-Research/Assets/Scripts/MainModule/MapDataManager.cs:74-99 | a row read back after a save and a parse is each cell's saved character parsed |
| MapText.Reloaded | MultiAgent-Research/Assets/Scripts/MainModule/MapDataManager.cs:74-99 | a grid read back after a save and a parse, row by row |
| MapText.ReloadObstacleBit | MultiAgent-Research/Assets/Scripts/MainModule/MapDataManager.cs:74-99 | the main Save then a parse turn a cell into Obstacle exactly when it has the Obstacle bit, and Road otherwise |
| MapText.ReloadExactRoad | MultiAgent-Research/Assets/Scripts/Visualizer/MapEditor/MapDataManager.cs:109-134 | the editor's Save then a parse turn a cell into Road exactly when it is exactly Road, so Road plus Path comes back as Obstacle |
| MapText.ReloadedPure | MultiAgent-Research/Assets/Scripts/MainModule/MapDataManager.cs:74-99 | a grid of cells that are exactly Road or exactly Obstacle comes back unchanged under either rule |
| MapText.SaveThenParse | MultiAgent-Research/Assets/Scripts/MainModule/MapDataManager.cs:58-104 | saving a grid of at least one row and column into a store of its dimensions succeeds; its lines are the row texts and parsing them gives the grid reloaded, or the grid itself when its cells are pure |
| MapText.CountPassable | MultiAgent-Research/Assets/Scripts/MainModule/MapDataManager.cs:38-51 | the count is the number of cells exactly equal to Road |
| MapText.AllRoad | MultiAgent-Research/Assets/Scripts/Visualizer/MapEditor/MapDataManager.cs:141-154 | a height-by-width grid all of whose cells are Road |
| MapText.AllRoadCount | MultiAgent-Research/Assets/Scripts/Visualizer/MapEditor/MapDataManager.cs:72-85 | an all-Road grid has height·width passable cells |
| MapLoad.LoadOf | MultiAgent-Research/Assets/Scripts/MainModule/MapDataManager.cs:19-56 | an empty store takes the generated grid, saves it and keeps its default dimensions; any other store is parsed; a successful Load has a grid of its recorded dimensions |
| MapLoad.AsMapData | MultiAgent-Research/Assets/Scripts/MainModule/MapDataManager.cs:53 | the record Load is evidently meant to build: height, width and passable count in their own fields, start and goal from the store |
| MapLoad.AsMapDataAsWritten | MultiAgent-Research/Assets/Scripts/MainModule/MapDataManager.cs:53 | the call as written stores the width as the height and the height as the width |
| MapLoad.LoadedIsWellFormed | MultiAgent-Research/Assets/Scripts/MainModule/MapDataManager.cs:19-56 | every record the corrected Load returns is one the mediator accepts: the grid has the recorded dimensions and the recorded count is its number of Road cells |
| MapLoad.AsWrittenIllFormed | MultiAgent-Research/Assets/Scripts/MainModule/MapDataManager.cs:53 | the record as written is rejected by the mediator for every map that is not square |
| MapLoad.AsWrittenExample | MultiAgent-Research/Assets/Scripts/MainModule/MapDataManager.cs:53 | the 1×2 map stored as "..\n" loads as one row of two Road cells; the corrected record is well formed and the record as written is not |
| MapLoad.LoadAfterFirstLoad | MultiAgent-Research/Assets/Scripts/MainModule/MapDataManager.cs:24-36 | the first Load of an empty store keeps the generated grid and stores a non-empty text; a second Load reads back the same dimensions and the grid reloaded, the same result when its cells are pure |
| MapLoad.BlankTextFails | MultiAgent-Research/Assets/Scripts/MainModule/MapDataManager.cs:86-95 | a store of only '\n' has no line, so the default height is used and reading line 0 raises IndexOutOfRange |
| MapLoad.ZeroWidthSaveFails | MultiAgent-Research/Assets/Scripts/MainModule/MapDataManager.cs:64-77 | a default map of one row and no column cannot be saved: its '\n' goes to index 1 of a one-character buffer |
| MainMaps.MapDataManager.constructor | MultiAgent-Research/Assets/Scripts/MainModule/MapDataManager.cs:10-17 | the configured defaults, store, start and goal, with no current map |
| MainMaps.MapDataManager.Save | MultiAgent-Research/Assets/Scripts/MainModule/MapDataManager.cs:58-82 | the store becomes SaveText's result with the Obstacle-bit rule; after an exception it is unchanged; the current map is not touched |
| MainMaps.MapDataManager.Load | MultiAgent-Research/Assets/Scripts/MainModule/MapDataManager.cs:19-56 | the result agrees with LoadOf on the old store and the generated grid; on success the record is the corrected AsMapData of it, the store is updated and the record becomes the current map; on an exception store and current map are unchanged |
| EditorMaps.NewMapData | MultiAgent-Research/Assets/Scripts/Visualizer/MapEditor/MapDataManager.cs:26-41 | start becomes Player and goal becomes Enemy; every other argument goes to the field of its name |
| EditorMaps.FromLoaded | MultiAgent-Research/Assets/Scripts/Visualizer/MapEditor/MapDataManager.cs:87 | the record with the height first: start and goal become Player and Enemy, count and grid are kept, and a grid of the loaded dimensions is a grid of the recorded ones |
| EditorMaps.FromLoadedAsWritten | MultiAgent-Research/Assets/Scripts/Visualizer/MapEditor/MapDataManager.cs:87 | the call as written records the width as the height and the height as the width, so on a grid that is not square the record does not match its grid |
| EditorMaps.RecordedHeight | MultiAgent-Research/Assets/Scripts/Visualizer/MapEditor/MapDataManager.cs:87 | the corrected record's height is the grid's row count; the record as written has it only when the map is square |
| EditorMaps.DefaultGrid | MultiAgent-Research/Assets/Scripts/Visualizer/MapEditor/MapDataManager.cs:141-154 | a negative dimension is the allocation's exception; otherwise a grid of exactly those dimensions, every cell Road |
| EditorMaps.DefaultGridFits | MultiAgent-Research/Assets/Scripts/Visualizer/MapEditor/MapDataManager.cs:60 | the default grid has the size Load relies on |
| EditorMaps.DefaultMapCount | MultiAgent-Research/Assets/Scripts/Visualizer/MapEditor/MapDataManager.cs:58-85 | the first Load of an empty store keeps the all-Road default map, with passable count height·width |
| EditorMaps.MapDataManager.constructor | MultiAgent-Research/Assets/Scripts/Visualizer/MapEditor/MapDataManager.cs:46-51 | the configured defaults, store, player and enemy cells, with no current map |
| EditorMaps.MapDataManager.GetDefaultMapData | MultiAgent-Research/Assets/Scripts/Visualizer/MapEditor/MapDataManager.cs:141-154 | the loops fill a fresh array equal to DefaultGrid, or the allocation's exception |
| EditorMaps.MapDataManager.Save | MultiAgent-Research/Assets/Scripts/Visualizer/MapEditor/MapDataManager.cs:93-117 | the store becomes SaveText's result with the exact-Road rule; after an exception it is unchanged; the current map is not touched |
| EditorMaps.MapDataManager.Load | MultiAgent-Research/Assets/Scripts/Visualizer/MapEditor/MapDataManager.cs:53-91 | the result agrees with LoadOf on the old store and the default grid; on success the record is the corrected FromLoaded of it and becomes the current map, with the store updated; on an exception nothing changes |

## Left out

- Unity lifecycle and presentation are left out: `Start`, `Update`, `FixedUpdate`, input polling, `Instantiate`, logging, transforms, the float motion of `Agent.FixedUpdate` and `GetAgentPos`, renderer colours, and the visualizer calls. The advance step of `Agent.Update` and the goal update of `Starter.MovePlayerAgent` are kept as step methods; the key pressed becomes a parameter.
- Starter's glue (`Start`, `CreateSolver`, `Solve`, `UpdateContexts`) only wires the modelled parts together and is not modelled. Only the part of `CreateAgents` that places the agents is modelled, in the Starter constructor.
- AgentFactory.cs is prefab instantiation and is not part of this model. AgentContext is a plain datatype.
- Graph, Node and PriorityQueue are not part of this model. Their use is modelled on stated assumptions:
  - the graph is an adjacency list where `AddEdge` appends in one direction;
  - node fields are arrays indexed by node, with F = Time + H and Reset setting Time 0, H 0 and no Parent;
  - Dequeue takes the first entry of smallest key.
- The path properties hold for any choice among equal keys. The order in which nodes are expanded, and so which of several equally short paths comes back, depends on the queue and is not stated.
- The two-argument `FindPath(start, goal)` overload is not part of this model. It is modelled as the goal-set search on `{goal}` (`AStar.ConstrainedAStar.FindPathTo`).
- `TryGetNode` is not part of this model. It is modelled as a bounds check followed by the dense lookup (`Mediator.GridGraphMediator.TryGetNode`).
- `GridGraphMediator.GetMapData` is the mediator's `mapData` field.
- HalfGoal.SampleAlgorithm.CalculateHalfGoal: calls the corrected nearest-cell search (`NearestGoal.FindNearestGoalFixed`), where `SampleAlgorithm.cs:69` calls the swapped-bounds copy of line 125 (first row of the Findings). On a square array the two agree. On other arrays the half goal can differ. Take one row `Road Road Obstacle Road Road`, agent at (0, 0) and goal at (4, 0): the source's test admits no neighbour of the blocked midpoint (2, 0), so it keeps the goal, while the model takes the free cell (1, 0) or (3, 0) next to the midpoint.
- HalfGoal.SampleAlgorithm.Solve: searches to the half goal of `CalculateHalfGoal`, so it differs from the source on non-square arrays in the same way.
- Painting.Starter.AssignHalfGoal: calls the corrected search where `Starter.cs:117` calls the swapped-bounds copy of line 91 (second row of the Findings), with the same divergence on non-square arrays.
- MainMaps.MapDataManager.Load: returns the corrected record `MapLoad.AsMapData`, height first. `MapDataManager.cs:53` builds `MapLoad.AsMapDataAsWritten`, which differs on every map that is not square (third row of the Findings).
- EditorMaps.MapDataManager.Load: returns the corrected record `EditorMaps.FromLoaded`. The editor's `MapDataManager.cs:87` builds `EditorMaps.FromLoadedAsWritten`, which differs on every map that is not square (fourth row of the Findings).
- Mediator.GridGraphMediator.ConstructGraph (and its row loop `ConnectRow`): requires every cell to be exactly Road or exactly Obstacle. The source accepts any cell, and the model does not cover the other cases:
  - a from-cell that is neither, such as Road with the Path bit, is not skipped at `GridGraphMediator.cs:60`. When it has a Road neighbour, `GetNode(fromIndex)` at lines 82 and 103-106 throws KeyNotFoundException, because the cell has no node;
  - an annotated to-cell is skipped silently by the test at line 78.
  Maps read by `ParseMapData` are always pure (`MapText.ParseCell`), and `Starter.Start` builds the graph straight after Load; the maze generators are not part of this model, so their maps being pure is an assumption.
- Characters are Dafny `char`s, which are Unicode scalar values, while C# `string` and `char` are UTF-16 code units. For the only characters the format uses ('.', '*' and '\n') the two agree, and a stored line with a character outside the basic multilingual plane is not modelled (its length in code units would differ).
- Floating point is not modelled:
  - the radius's `Math.Sqrt` is stated as the integer relation `(2r-1)² <= d² <= (2r+1)²` (`Rounding.HalfRootRounded`);
  - the `Vector2` midpoint is exact half-to-even rounding of integers;
  - H is a `real`, with 0.01 exact.
- The maze generators of the main `MapDataManager.GetDefaultMapData` are not part of this model. `MainMaps.MapDataManager.Load` takes the generated array as a parameter and requires it to have the default dimensions, which Load relies on. The editor's own all-Road generator is modelled.
- `MapSaveData` storage (`Data`/`SetData`) is the `data` field of each manager, and `Start`/`Goal` are constant fields.
- The shown files come from different revisions, which disagree in three places:
  - `Agent.Initialize` takes an index while `Starter.CreateAgents` passes a bool. The Starter constructor passes -1 and 0 for the two agents, and the unused `index` field is only stored;
  - `AgentContext` has no `AgentIndex`, which the batch drivers read. The datatype includes it;
  - `RangeGoalFinder.GetRangeGoals` returns lists while `RangeGoalAlgorithm` expects sets. Clusters are sequences, their properties are stated on their sets, and `RangeGoals.RangeGoalSet` converts one to the other.
- 32-bit overflow is not modelled. This covers `width * height + height` in Save and the flat index `y * width + x`. Integers are unbounded, and only negative sizes raise an exception.
- Arrays passed between components are copied to `Grid` values where a value is stored, such as the map record's grid. Aliasing between the stored record and later writes to the same array (Starter's painters write on the loaded map's array) is not modelled.
- NearestGoal.Search: the contract states that the returned cell is a nearest free cell in Manhattan distance. It does not say which one comes back when several are equally near; the direction order +x, +y, -x, -y is stated only by `NearestGoal.Expand`.
- NearestGoal.FindNearestGoal: the as-written search is specified only for square arrays and for any returned cell being free. On other arrays it is characterised by `NearestGoal.SwappedBoundsExample`.
- RangeGoalFinding.RangeGoalFinder.GetRangeGoals: a cluster list may hold one node twice, as in the source. The contract states the clusters' sets, not how many times a node appears.

## Findings

| source | as written | input that shows it | evidently intended | confidence | as-written member | corrected member |
|---|---|---|---|---|---|---|
| MultiAgent-Research/Assets/Scripts/MainModule/PathFinding/Algorithm/SampleAlgorithm.cs:125 | the BFS bounds test compares x with `GetLength(0)` (rows) and y with `GetLength(1)` (columns), while the array is indexed `[y, x]` | the 1×2 array [Obstacle, Road] searched from (0, 0): the neighbour (0, 1) passes the test and is read below the array, which faults | x bounded by the column count and y by the row count, so the search returns (1, 0) | not executed | NearestGoal.FindNearestGoal, NearestGoal.SwappedBoundsExample | NearestGoal.FindNearestGoalFixed, NearestGoal.FixedBoundsExample |
| MultiAgent-Research/Assets/Scripts/MainModule/Starter.cs:91 | the same swapped bounds test in Starter's copy of FindNearestGoal | the same 1×2 array from (0, 0) | the same, as used by `Painting.Starter.AssignHalfGoal` | not executed | NearestGoal.FindNearestGoal, NearestGoal.SwappedBoundsExample | NearestGoal.FindNearestGoalFixed, NearestGoal.FixedBoundsExample |
| MultiAgent-Research/Assets/Scripts/MainModule/MapDataManager.cs:53 | `new MapData(width, height, ...)` against the constructor's `(height, width, ...)` | the store "..\n", a map of one row of two Road cells: the record claims two rows of one cell, which the mediator's row scan reads out of bounds | the height passed first, so the record matches its grid | not executed | MapLoad.AsMapDataAsWritten, MapLoad.AsWrittenExample | MapLoad.AsMapData, MapLoad.LoadedIsWellFormed |
| MultiAgent-Research/Assets/Scripts/Visualizer/MapEditor/MapDataManager.cs:87 | the same swapped arguments in the editor's Load | the same store "..\n" | the height passed first | not executed | EditorMaps.FromLoadedAsWritten, EditorMaps.RecordedHeight | EditorMaps.FromLoaded, EditorMaps.RecordedHeight |
