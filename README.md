# Maze generator and player: a verified model

The repository generates large pixel mazes and plays them in a browser. A maze is a grid of
cell codes:

- 0 = wall (black)
- 1 = passage (white)
- 2 = start (red)
- 3 = goal (green)

The grid is stored row-major, so position (x, y) sits at offset `y * width + x`. Width and
height are odd. The carvable cells are the odd/odd positions. The positions between two
carvable cells (one odd, one even coordinate) are the links.

This project models three parts of the repository:

- **The browser generator** (`scripts/gen.js`):
  - all eleven generators: recursive backtracker, Prim, Kruskal, Wilson, Aldous-Broder,
    binary tree, sidewinder, hunt-and-kill, growing tree (last / random / mix), and recursive
    division;
  - the two breadth-first searches, `findFarthest` and `checkSolvability`;
  - the colour mapping of `renderMaze`;
  - the Generate click handler. It bumps the size to odd, draws a start cell, runs the selected
    generator, marks the start, puts the goal at a farthest passage, and checks the maze.
- **The stand-alone generator** (`main.py`): the iterative depth-first carve, the start and
  goal marks, and the `COLOR_MAP` image.
- **The browser player** (`scripts/main.js`): the pixel classifier of `loadMaze` and the
  `isWall` collision test.

Layout, one module per file:

- `grid.dfy` (`Grid`): codes, addressing, the lattice footprint `CarvedOnly`, and the
  counting of carved cells and links.
- `chance.dfy` (`Chance`): the random draws, modelled as arbitrary choices within their
  ranges.
- `carving.dfy` (`Carving`) and `scan.dfy` (`Scan`): the invariants the generators share.
- `reach.dfy` (`Reach`): reachability over passages, with the moves of `findFarthest`.
- One file per generator.
- `search.dfy` (`Search`): the two searches.
- `colours.dfy` (`Colours`): the colour table and `renderMaze`.
- `viewer.dfy` (`Viewer`): the player.
- `generate.dfy` (`Generate`): the click handler.
- `script.dfy` (`Script`): `main.py`.

What the generators are proved to do:

- **Every generator that carves by passages** (all but division) writes only passages. It
  writes them only on cells and links inside the border; this is `CarvedOnly`.
- **When it finishes, every carvable cell is a passage.**
- **Every passage can be reached** from the start through passages, by the unit steps that
  `findFarthest` takes. The start is the seeded cell, or (1, 1) for the generators that
  ignore it. Wilson's generator leaves its passages in one region.
- **Kruskal, binary tree and sidewinder** also open exactly one link fewer than there are
  cells.
- **Kruskal's** union-find ends with one set, and any two cells of one set reach each other.
- **Division** closes every even/even position and opens every cell.
- **Searches:** `findFarthest` returns a position at the largest shortest distance from the
  start, and `checkSolvability` reports the exact shortest distance or proves the goal
  unreachable.
- **Generate handler:** the goal it places is always found by the check, no farther than
  `findFarthest` reached it.

## Model

| member | source | states |
|---|---|---|
| Grid.IdxValue | scripts/gen.js:132 | the recursive address Idx(x, y, w) is the source's `y * width + x` |
| Grid.IdxInjective | scripts/gen.js:132 | two in-row positions with the same address are the same position |
| Grid.AtUpdate | scripts/gen.js:243 | writing one address changes the code at that position only |
| Grid.CarvedBound | scripts/gen.js:245 | the carved count never exceeds `floor(w/2) * floor(h/2)`, and reaching it means every cell is a passage |
| Grid.Open | scripts/gen.js:257-258 | carving a link and a cell changes exactly those two positions to passages |
| Grid.CellOpened | scripts/gen.js:257-259 | carving a link and a cell keeps the footprint and adds one to the carved count exactly when the cell was a wall |
| Chance.Pick | scripts/gen.js:141 | `Math.floor(Math.random() * n)` lies in [0, n), and is 0 when n is 0 |
| Chance.Shuffle | scripts/gen.js:140-143 | the Fisher-Yates shuffle returns a permutation of its input |
| Chance.AnyOrder | scripts/gen.js:337 | the comparator-based `sort` returns a permutation of the directions |
| Carving.FirstOpening | scripts/gen.js:60-72 | the first shuffled direction that reaches a wall cell inside the border, and no earlier direction does |
| Carving.StuckIsFinished | scripts/gen.js:74 | a cell none of whose four directions opens a wall is finished: all its in-border neighbours are passages |
| Carving.AllFinishedCarvesAll | scripts/gen.js:49-81 | when every passage cell is finished, every carvable cell is a passage (the lattice is connected) |
| Carving.GrowAppend | scripts/gen.js:396-405 | carving a neighbour and appending it keeps the working-list invariant with one more carved cell |
| Carving.GrowRemove | scripts/gen.js:407 | removing a list entry none of whose directions opens a wall keeps the invariant |
| Carving.WalkCarve | scripts/gen.js:255-260 | a walker step onto a wall cell keeps the footprint and counts one more visited cell |
| Carving.Extend | scripts/gen.js:396-405 | opens the link and the wall cell two steps from a passage cell, appends that cell, and keeps the working-list invariant, reachability from the start included |
| Carving.WalkOn | scripts/gen.js:255-262 | opens the link and the wall cell two steps away, moves there, and keeps the walk invariant, reachability from the start included |
| Carving.WalkMove | scripts/gen.js:261-262 | a walker step onto a passage keeps the walk state |
| Backtracker.Push | scripts/gen.js:64-68 | pushing the carved neighbour keeps the stack a chain of open links and counts the new cell |
| Backtracker.PopStep | scripts/gen.js:74 | popping a finished top keeps the stack invariant |
| Backtracker.RecursiveBacktracker | scripts/gen.js:44-82 | carves only the lattice, ends with every carvable cell a passage, and leaves every passage reachable from the start |
| Prim.AddWalls | scripts/gen.js:89-98 | the new list is the old one followed by the cell's in-border entries in direction order, which are exactly the in-border steps from the cell |
| Prim.InsideEntriesFrom | scripts/gen.js:89-98 | the entries listed for a cell are exactly the steps from it that stay inside the border |
| Prim.OpenReach | scripts/gen.js:110-113 | opening a drawn entry keeps every passage reachable from the start and every listed entry anchored at a reached passage |
| Prim.DrawStep | scripts/gen.js:105-114 | one draw: keeps the frontier invariant and reachability; either one more cell is carved, or the list is shorter and the grid unchanged |
| Prim.OpenStep | scripts/gen.js:106-114 | opening a drawn entry whose cell is a wall keeps the frontier invariant and counts one more cell |
| Prim.SkipStep | scripts/gen.js:106-110 | dropping a drawn entry whose cell is already open keeps the invariant |
| Prim.DrainedIsFinished | scripts/gen.js:105 | with no entry left, every passage cell is finished |
| Prim.PrimsAlgorithm | scripts/gen.js:85-123 | carves only the lattice, ends with every carvable cell a passage, and leaves every passage reachable from the start |
| Kruskal.RootOf | scripts/gen.js:145-150 | the root of a key is a fixed point of the parent map, reached through strictly rising ranks |
| Kruskal.Compress | scripts/gen.js:147 | path compression keeps the forest, every key's root and the set of roots |
| Kruskal.Link | scripts/gen.js:156 | linking one root under another keeps a forest, merges the two sets and leaves one root fewer |
| Kruskal.Find | scripts/gen.js:145-150 | returns the root of the cell, with the cell repointed at it, and changes no key's root |
| Kruskal.Union | scripts/gen.js:152-160 | merges exactly when the two roots differ; the root set loses one root then and is unchanged otherwise |
| Kruskal.LinkAddress | scripts/gen.js:168 | the source's link address is the midpoint of the two cells of a wall entry, a link inside the border |
| Kruskal.LayRow | scripts/gen.js:131-137 | lays one row: opens each of its cells, gives each its own set, and lists its east and south wall entries |
| Kruskal.LayCells | scripts/gen.js:130-138 | opens every cell, gives each its own set, and lists the east and south wall entries of every cell |
| Kruskal.ConnectRegions | scripts/gen.js:162-176 | after the walls are processed, the two cells of every wall are in one set, the links opened equal the merges, and any two cells of one set reach each other |
| Kruskal.SetsReachedStart | scripts/gen.js:130-138 | while every cell is a set of its own, two cells of one set reach each other |
| Kruskal.JoinReached | scripts/gen.js:166-168 | after a merge and the opening of the wall's link, any two cells of one set reach each other over passages |
| Kruskal.OneSet | scripts/gen.js:162-176 | when every wall joins its cells, the forest has exactly one root |
| Kruskal.KruskalsAlgorithm | scripts/gen.js:126-177 | carves only the lattice, opens every cell, opens exactly cells - 1 links, and leaves every passage reachable from (1, 1) |
| Wilson.CellList | scripts/gen.js:181-186 | lists exactly the carvable cells, `floor(w/2) * floor(h/2)` of them |
| Wilson.RowCells | scripts/gen.js:183-185 | appends exactly the carvable cells of one row, `floor(w/2)` of them |
| Wilson.FindIndex | scripts/gen.js:212 | `findIndex`: the first index holding the position, or -1 exactly when it is absent |
| Wilson.ErasedWalk | scripts/gen.js:204-219 | the walk is a chain of adjacent cells without repeats, outside the maze but for its last entry, which is in the maze exactly when the walk reached it |
| Wilson.Commit | scripts/gen.js:221-230 | opens every cell of the path and every link between consecutive entries, and adds the path's cells to the maze set |
| Wilson.ChainReached | scripts/gen.js:221-230 | when the last entry of a committed path is reached, so is every entry of the path |
| Wilson.CommitConnected | scripts/gen.js:221-230 | committing a path that ends on the maze keeps every passage reachable from the start |
| Wilson.WilsonsAlgorithm | scripts/gen.js:180-237 | carves only the lattice; finished exactly when every carvable cell is a passage; every passage reaches every other |
| AldousBroder.AldousBroder | scripts/gen.js:240-271 | carves only the lattice; finished exactly when every carvable cell is a passage; every passage is reachable from the start |
| BinaryTree.ChooseLink | scripts/gen.js:282-289 | a cell gets a north or east link inside the border, and only the top-right cell gets none |
| BinaryTree.CarveCell | scripts/gen.js:280-289 | carving one cell extends the scanned prefix in which every cell but the top-right one owns one open link |
| BinaryTree.TreeReached | scripts/gen.js:280-289 | every cell is reached from the top-right cell, following each cell's one north or east link |
| BinaryTree.TreeConnected | scripts/gen.js:274-298 | a grid whose every cell is open with its one own link has every passage reachable from (1, 1) |
| BinaryTree.BinaryTree | scripts/gen.js:274-298 | carves only the lattice, opens every cell with one own link, opens exactly cells - 1 links, and leaves every passage reachable from (1, 1) |
| Sidewinder.WindCell | scripts/gen.js:305-318 | one cell of the scan: opens it; at the last column the run closes, in the top row before it the cell joins east; otherwise it joins east and extends the run, or closes the run through one of its cells; passages stay reachable from (1, 1) |
| Sidewinder.StretchReached | scripts/gen.js:316 | along an open stretch of a row, every position is reached once one of them is |
| Sidewinder.ThreadEast | scripts/gen.js:316 | opening a cell and its east link extends the open run, and the passages outside the run stay reachable from (1, 1) |
| Sidewinder.ThreadClose | scripts/gen.js:311-314 | closing the run through one of its cells leaves every passage reachable from (1, 1) |
| Sidewinder.Sidewinder | scripts/gen.js:301-323 | carves only the lattice, opens every cell, joins the whole top row east, opens exactly cells - 1 links, and leaves every passage reachable from (1, 1) |
| Scan.OpenLink | scripts/gen.js:288 | opening a cell's own link keeps the footprint and the carved count, and adds one link |
| HuntAndKill.RawRead | scripts/gen.js:357 | an unchecked array read is defined exactly at in-range addresses |
| HuntAndKill.Neighbours | scripts/gen.js:356-358 | the filter keeps exactly the directions whose unchecked read is a passage |
| HuntAndKill.RawReadIsCell | scripts/gen.js:356-358 | from a carvable cell of a lattice grid, an unchecked read is a passage exactly when the neighbour is a carvable passage cell |
| HuntAndKill.Hunt | scripts/gen.js:352-369 | returns the first wall cell in scan order that has a passage neighbour, or none |
| HuntAndKill.HuntSucceeds | scripts/gen.js:352-369 | while a cell is still a wall, the hunt has a target |
| HuntAndKill.HuntCarve | scripts/gen.js:360-362 | opening a hunted cell and its link to a passage neighbour counts one more cell and keeps every passage reachable from the start |
| HuntAndKill.HuntAndOpen | scripts/gen.js:352-369 | the hunt branch always finds a target while cells remain, opens it, and keeps the walk invariant with one more visited cell |
| HuntAndKill.HuntAndKill | scripts/gen.js:326-376 | carves only the lattice, ends with every carvable cell a passage, and leaves every passage reachable from (1, 1) |
| GrowingTree.Select | scripts/gen.js:387-390 | the selected index is within the list, and is the last one under `last` |
| GrowingTree.GrowingTree | scripts/gen.js:379-414 | carves only the lattice, ends with every carvable cell a passage, and leaves every passage reachable from the start, for every selection |
| Division.WallAt | scripts/gen.js:432 | the wall line is even and strictly inside the span |
| Division.GapAt | scripts/gen.js:433 | the gap is odd and within the span |
| Division.Frame | scripts/gen.js:418-428 | every position is a passage, except the border ring, which is walls |
| Division.Close | scripts/gen.js:435 | closing one position changes that position to a wall and nothing else |
| Division.AddWall | scripts/gen.js:430-446 | closes the line across the rectangle except at the gap, and changes nothing else |
| Division.Divide | scripts/gen.js:448-467 | writes only walls inside the rectangle, never on a cell; closes every even/even position; leaves a thin rectangle alone; fixes the 3 by 3 result |
| Division.DivideRows | scripts/gen.js:457-460 | a horizontal split followed by dividing the parts above and below is a division of the rectangle |
| Division.DivideColumns | scripts/gen.js:461-464 | a vertical split followed by dividing the parts left and right is a division of the rectangle |
| Division.DivisionMaze | scripts/gen.js:416-470 | the border and every even/even position are walls, every cell is a passage, and the 5 by 5 result is draw-independent |
| Search.WithinRoute | scripts/gen.js:479-497 | reachability within d steps gives a route of at most d unit steps onto enterable positions |
| Search.RouteWithin | scripts/gen.js:479-497 | a route of at most d steps gives reachability within d steps |
| Search.WithinMono | scripts/gen.js:479-497 | reachable within d steps means reachable within any larger bound |
| Search.ShortestUnique | scripts/gen.js:479-497 | no route is shorter than the shortest distance |
| Search.WithinEnd | scripts/gen.js:491-492 | every reachable position is the start or an enterable position |
| Search.WithinWiden | scripts/gen.js:520-521 | a search that may enter more positions reaches everything the narrower one reaches |
| Search.Alone | scripts/gen.js:476-477 | with no enterable neighbour, only the start is reachable |
| Search.AloneFarthest | scripts/gen.js:476-477 | with no enterable neighbour, the farthest position is the start at distance 0 |
| Search.FindFarthest | scripts/gen.js:472-500 | the result is at shortest distance `far` over in-border passages, and everything reachable is within `far` |
| Search.Visit | scripts/gen.js:487-495 | testing one neighbour keeps the search invariant, only adds marks, queues every new mark behind the old queue, and leaves the neighbour marked if it can be entered |
| Search.Expand | scripts/gen.js:486-496 | the neighbour loop leaves the position expanded, keeps the invariant, and queues every new mark behind the old queue |
| Search.CheckSolvability | scripts/gen.js:502-530 | solvable gives the exact shortest distance to the goal; otherwise the length is 0 and the goal is unreachable |
| Search.TryDirection | scripts/gen.js:487-495 | one direction of an expansion: keeps the search invariant, only adds marks, queues every new mark, and leaves the neighbour in that direction marked if it can be entered |
| Reach.ReachedReverse | scripts/gen.js:487-495 | between two passages a route of unit steps can be walked backwards |
| Reach.ReachedTrans | scripts/gen.js:487-495 | a route from a to b followed by one from b to c is a route from a to c |
| Reach.ConnectedMove | scripts/gen.js:487-495 | a grid whose passages are all reachable from one passage has them all reachable from any other |
| Reach.CarveFrom | scripts/gen.js:64-67 | opening the link and cell two steps from a passage cell keeps every passage reachable from the start |
| Reach.CellsConnect | scripts/gen.js:487-495 | when every carvable cell is a reached passage and only the lattice is carved, every passage is reached |
| Colours.ColourInjective | scripts/gen.js:541-546 | distinct codes get distinct colours |
| Colours.RenderMaze | scripts/gen.js:532-551 | four bytes per cell; pixel i carries the colour of cell i at full opacity |
| Viewer.BandsDisjoint | scripts/main.js:179-189 | the red, green and white bands of the classifier never overlap |
| Viewer.ClassifyColour | scripts/main.js:179-193 | each generator colour is read back as its own code |
| Viewer.ClassifyNear | scripts/main.js:179-193 | a pixel within 45 of a generator colour on every channel is read as that colour's code |
| Viewer.Decode | scripts/main.js:173-193 | one code per four bytes; code i is the classification of pixel i's red, green and blue |
| Viewer.DecodePainted | scripts/main.js:173-193 | decoding a buffer rendered from a grid gives back that grid |
| Viewer.LastIndex | scripts/main.js:179-188 | the last index holding a code, or -1 exactly when none does |
| Viewer.AddressCoords | scripts/main.js:181-182 | `idx % width` and `floor(idx / width)` are in-bounds coordinates of address idx |
| Viewer.Viewer.constructor | scripts/main.js:10-19 | the player starts with an empty maze at the origin, not won |
| Viewer.Viewer.IsWall | scripts/main.js:206-211 | out of bounds is a wall; in bounds, a wall exactly when the floored position holds code 0 |
| Viewer.Viewer.CentreWall | scripts/main.js:181-182 | the centre of a grid position is a wall exactly when its code is 0 |
| Viewer.Viewer.PlacedClear | scripts/main.js:181-187 | a start or goal placed by the loader is not inside a wall |
| Viewer.ReadStep | scripts/main.js:179-193 | storing one more pixel and moving the start or goal to it keeps the start and goal at the last red and green entries read |
| Viewer.Viewer.ReadPixel | scripts/main.js:174-193 | one pixel: stores its code and moves the start or goal to it when it is red or green |
| Viewer.Viewer.ReadAll | scripts/main.js:174-194 | after the loop, the maze is the decoded image and the start and goal stand at the last red and green pixels, or where they were |
| Viewer.Viewer.LoadMaze | scripts/main.js:155-204 | stores the decoded grid; start and goal are at the centres of the last red and green pixels; started exactly when both exist; and then neither is in a wall |
| Generate.OddSize | scripts/gen.js:564-565 | the size is odd and at most one more than requested |
| Generate.SeedCarvable | scripts/gen.js:571-572 | the drawn start coordinate is odd and inside the border |
| Generate.Carve | scripts/gen.js:574-623 | runs the selected generator; the start is (1, 1) for those that ignore it; every passage is reachable from that start for all but division; an unknown selector leaves all walls |
| Generate.GoalMarkWidens | scripts/gen.js:627 | after the goal mark, every position findFarthest could enter is enterable for checkSolvability |
| Generate.GoalReachable | scripts/gen.js:626-634 | the goal findFarthest found is reachable by checkSolvability within the same distance |
| Generate.GenerateMaze | scripts/gen.js:553-634 | odd size, carved lattice with every passage reachable from the start (all but division), start and goal marks, goal at a farthest passage, always solvable at the shortest distance |
| Script.ColorMapAgrees | main.py:17-22 | `COLOR_MAP` agrees with the browser's colours |
| Script.RandRangeOdd | main.py:78-79 | `randrange(1, stop, 2)` is odd and in [1, stop) |
| Script.SeedInside | main.py:78-79 | a drawn seed of an odd size is inside the border |
| Script.CarveMazeIterative | main.py:28-53 | carves only the lattice, ends with every carvable cell a passage, and leaves every passage reachable from the start |
| Script.ColourImage | main.py:88 | one colour per grid entry, the browser's colour of its code, which the player reads back as that code |
| Script.RunScript | main.py:12-88 | odd size, carved lattice with every passage reachable from the start, start and goal marks, goal at a farthest passage, and an image the player decodes to the grid |

## Left out

- Page work is not modelled: the DOM, progress bars, `await` yields, timing and the
  downloads. This covers the canvas, PNG encoding, clipboard and base64 in `scripts/gen.js`,
  and PIL, tqdm and the printing in `main.py`.
- Random draws are arbitrary choices within the source's ranges. Their distribution is not
  modelled, so nothing is claimed about the shape or bias of the mazes.
- AldousBroder.AldousBroder: the walk ends only with probability one. The model takes a
  `maxSteps` bound, and promises every cell only when it reports `finished`.
- Wilson.WilsonsAlgorithm: the same for the draws and walks, bounded by `fuel`.
- Generate.Carve and Generate.GenerateMaze promise every cell under Wilson and Aldous-Broder
  only when `finished`, for the same reason.
- Wilson's `pathSet` (`scripts/gen.js:202`) is built and never read, so it is left out.
- Kruskal's union-find is modelled on a map value. Each call returns the new map instead of
  updating one shared map. A ghost rank map, which the source does not have, proves that
  `find` terminates.
- Search.FindFarthest: the contract does not say which farthest position is returned when
  several tie. The body keeps the source's rule: the first one dequeued, in the source's
  direction order.
- Division's 5 by 5 example is modelled as the code is written. The `w < h` test splits a
  square with a vertical wall, at column 2 with its gap at row 1.
- Division.DivisionMaze: reachability of every passage is not stated. The contract gives the
  closed border and even/even positions and the open cells, not how the chambers connect.
- Kruskal.KruskalsAlgorithm: that the links close no cycle is not stated as such. The contract
  gives connectivity and a link count of cells - 1; the graph-theory step from those two to
  a tree is not proved.
- Generate.GenerateMaze and Script.RunScript require sizes of at least 2. `parseInt` yielding
  NaN or a size below 2 is not modelled.
- `main.py` fixes its sizes at 10000; here they are parameters.
- `main.py`'s numpy array of shape (HEIGHT, WIDTH) is held flat in row-major order.
- In `main.py`, Python's `ny - dy//2` is the same position as `y + dy/2`, because every step
  is even.
- In `scripts/main.js`, `Math.floor(idx / mazeWidth)` is integer division, because the
  operands are never negative.
- Viewer.Viewer.LoadMaze: the pixel data comes in as a parameter. Image loading and drawing,
  the error message, and starting the game loop are left out.
- The rest of the player is left out: ray casting, rendering, dithering, movement and
  `checkGoal`.
- Generators are given odd sizes of at least 3, which the handler guarantees.
