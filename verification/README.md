# connectgrid router, modelled in Dafny

This project models the routing core of `emergent_circuits`. That core is a greedy router on an integer grid that works in lock-step:

- Each connection of a circuit gets a **walker**. A walker starts on the connection's source terminal, heads for its destination terminal, and keeps the list of cells it has visited.
- A shared **board** records the claimed cells (`tiles`). It also records the corner pairs that an earlier diagonal step blocked (`diagonals`), so that two wires never cross diagonally inside one unit square.
- The **game** advances the walkers one after another. Each walker asks a caller-supplied evaluator for a ranking of the eight compass **directions**, then takes the first direction the board accepts.
  - If some walker can take none, the step stops and reports `Stuck` with that walker's index.
  - Otherwise the walkers standing on their destination retire: their routes are appended, in order, to the finished routes. The step reports `Finished` when no walker is left and `Running` otherwise.

The crate root also has a placeholder `layout`. It places the components at four fixed spots and joins each connection's two terminals with a two-point route.

Files:

- `geometry.dfy`, module `Geometry`, models `src/lib.rs`:
  - points, circuits and `point_add`;
  - terminal resolution;
  - the placeholder layout, as a method with the source's loop.
- `routing.dfy`, module `Routing`, models `src/walker.rs`:
  - `Direction` and `Walker` are datatypes.
  - `Board` is a class with `set` fields. `TryInsert` and `InitPoint` update those fields in place.
  - `Game` is a class with the board, a `seq<Walker>` field and a `seq<Route>` field. `Step` updates these the way the source does.
  - Every method is proved against a pure specification:
    - `Accepts` and `Claim` specify a board step;
    - `FirstAccepted` gives a walker's chosen direction;
    - `AdvanceFrom` is the advancing pass;
    - `Unfinished` and `FinishedRoutes` are the retirement;
    - `StepOutcome` is a whole step.
  - Lemmas prove the promised properties about those specification functions.
  - The game's invariant `Game.Valid` is `Ready` on its board, walkers and routes: the walkers are well formed, and the routes are `Consistent` with the board and `Exclusive`. `Consistent` says the board holds exactly the cells of all routes and walker histories. It also says the diagonal ledger is exactly what their diagonal steps block, that no recorded step crosses a blocked diagonal, and that every step is a move to one of the eight neighbouring cells. `Exclusive` says that a cell a route moved onto appears nowhere else in any route. The constructor establishes both and `Step` preserves them.

## Model

| member | source | states |
|---|---|---|
| Geometry.PointAdd | src/lib.rs:40-42 | the result is `p` moved by exactly `d` in each coordinate |
| Geometry.Layout | src/lib.rs:19-38 | always `Some`; placements are exactly `[(5,5),(12,11),(22,21),(22,8)]`; one route per connection, in order, each `[source terminal + its placement, destination terminal + its placement]`; the size is not consulted |
| Routing.Direction.Vector | src/walker.rs:153-164 | every offset is non-zero with both components in {-1,0,1} |
| Routing.Direction.Diagonal | src/walker.rs:166-171 | a direction is diagonal exactly when both components of its offset are non-zero |
| Routing.DirectionsCoverMoves | src/walker.rs:141-164 | each of the eight neighbouring cells is reached by exactly one direction |
| Routing.Walker.New | src/walker.rs:11-28 | a new walker's route is `[position]`, its position is `position`, its destination is `dest`, and it is finished exactly when `position == dest` |
| Routing.Walker.Extend | src/walker.rs:109 | the `history.push(next)` of a step: the route is extended by `next`, which becomes the position (as `position()` at lines 18-20 reads it); the destination is kept; finished exactly when `next` is the destination (lines 22-24) |
| Routing.Board.constructor | src/walker.rs:38-40 | a new board has no tiles and no blocked diagonals |
| Routing.Board.TryInsert | src/walker.rs:42-61 | returns whether the step is accepted (target cell free, and for a diagonal step `(src, dest)` not blocked). If accepted, it claims the target and, for a diagonal, blocks both orientations of the crossing diagonal. If refused, nothing changes. Both sets only grow |
| Routing.CrossingRefused | src/walker.rs:48-57 | after a diagonal claim from A to B, a step between `(A.x, B.y)` and `(B.x, A.y)`, in either direction, is diagonal and refused, whatever the tiles |
| Routing.CrossPairsSymmetric | src/walker.rs:52-56 | the two blocked pairs are diagonal steps distinct from A→B, and each of them blocks A→B in turn |
| Routing.Board.InitPoint | src/walker.rs:63-65 | claims the cell; reports whether it was unclaimed; the diagonals are untouched |
| Routing.FirstAccepted | src/walker.rs:106-112 | the index of the first ranked direction the board accepts: every earlier one is refused; `None` exactly when all are refused |
| Routing.Board.ClaimFirst | src/walker.rs:106-112 | tries the ranking in order through `TryInsert`; returns `FirstAccepted` of the old board, and the board afterwards is that direction's `Claim`, or unchanged on `None` |
| Routing.NoCrossingDiagonals | src/walker.rs:48-57 | on a consistent board no recorded step crosses a diagonal step of any route |
| Routing.ClaimPreserves | src/walker.rs:42-61 | an accepted claim at the end of a route keeps the board consistent with the routes once the cell is appended |
| Routing.ClaimExclusive | src/walker.rs:44-46 | appending to a route a cell no route holds (which a refused-if-claimed target guarantees) keeps the routes exclusive |
| Routing.StartsExclusive | src/walker.rs:86-91 | routes that have not moved yet are exclusive |
| Routing.SeedPreserves | src/walker.rs:63-65 | seeding a start cell keeps the board consistent with the routes plus the one-cell route |
| Routing.SeedWalker | src/walker.rs:86-91 | seeding one more walker keeps the board consistent with the walkers' histories |
| Routing.InitialWalkers | src/walker.rs:86-91 | one walker per connection, in connection order; walker i's route is `[source terminal i]` and its destination is terminal i's resolved destination |
| Routing.Game.Seed | src/walker.rs:84-92 | the connection loop yields `InitialWalkers` and a fresh board with no blocked diagonals, consistent with their histories |
| Routing.SharedSource | src/walker.rs:86-91 | two connections from the same source terminal put two walkers on one cell, so start cells are exempt from exclusivity |
| Routing.SeededExclusive | src/walker.rs:83-98 | the freshly seeded walkers with no retired routes are exclusive |
| Routing.Seeded | src/walker.rs:83-98 | after seeding, the walkers are well formed; the board holds exactly their start cells and is consistent with no retired routes |
| Routing.SeededReady | src/walker.rs:83-98 | freshly seeded walkers with no retired routes satisfy the router's invariant `Ready`, and the board holds exactly their start cells |
| Routing.Game.constructor | src/walker.rs:83-98 | `Valid()` (consistent and exclusive); walkers are `InitialWalkers`; routes are empty; tiles are exactly the sources; so destinations are not seeded, and no diagonal is blocked |
| Routing.Game.UnfinishedRoutes | src/walker.rs:130-134 | the retired routes followed by each active walker's route, in order |
| Routing.AdvanceFrame | src/walker.rs:102-115 | a pass keeps walkers well formed, only grows the board, stops (if at all) at an existing walker, and leaves walkers before its start and from the stuck one on unchanged |
| Routing.AdvanceGains | src/walker.rs:106-110 | each walker the pass moves gains exactly one cell, next to its old position, that was free on the board the pass started from, and now holds it |
| Routing.AdvanceDistinct | src/walker.rs:106-110 | no two walkers moved by a pass end on the same cell |
| Routing.AdvancePreserves | src/walker.rs:102-115 | a pass keeps the board consistent with the retired routes plus the walkers' histories |
| Routing.ExtendExclusive | src/walker.rs:107-109 | moving a walker onto a cell no route holds keeps the routes exclusive and adds exactly that cell to their cells |
| Routing.MoveExclusive | src/walker.rs:106-110 | one accepted move keeps the walkers well formed, all route cells on the claimed board, and the routes exclusive |
| Routing.AdvanceExclusive | src/walker.rs:102-115 | a pass keeps the retired routes plus the walkers' histories exclusive, given that the board holds all their cells |
| Routing.Game.Advance | src/walker.rs:102-115 | the walker loop leaves board and walkers as `AdvanceFrom` from the old state, reports the stuck index as it does, and keeps the routes |
| Routing.Unfinished | src/walker.rs:117-121 | the walkers kept after retirement are well formed when the input is; none of them is finished |
| Routing.KeptMembers | src/walker.rs:117-121 | a walker is kept exactly when it occurs among the walkers and is not finished |
| Routing.Marked | src/walker.rs:119 | indices (from a start index on) of walkers with the given `finished()` value, and no others |
| Routing.MarkedAll | src/walker.rs:119 | every walker from the start index on with that `finished()` value has its index listed |
| Routing.MarkedIncreasing | src/walker.rs:117-121 | the listed indices are strictly increasing, so they follow the walkers' order |
| Routing.KeptInOrder | src/walker.rs:117-121 | the kept walkers are, one for one and in order, the walkers at the increasing indices of the unfinished ones |
| Routing.RetiredInOrder | src/walker.rs:117-121 | the retired routes are, one for one and in order, the histories of the walkers at the increasing indices of the finished ones |
| Routing.FinishedRoutes | src/walker.rs:117-121 | retired plus kept walkers number exactly the walkers before retirement |
| Routing.RetirePartition | src/walker.rs:117-121 | retirement is a partition: retired routes plus kept histories are, as a multiset, exactly the histories before |
| Routing.RetireRoutes | src/walker.rs:117-121 | retirement keeps the earlier routes as a prefix and loses or duplicates no history |
| Routing.RetireKeepsConsistent | src/walker.rs:117-121 | retirement keeps the board consistent with all routes |
| Routing.ZeroLengthConnectionLeavesStart | src/walker.rs:102-121 | a walker standing on its destination before a step that is not stuck gains one cell, is then not finished, stays among the active walkers, and its index is not among the retired ones |
| Routing.StepKeepsConsistent | src/walker.rs:101-128 | a step keeps all walkers well formed and the board consistent with all routes, retired or in progress |
| Routing.StepKeepsExclusive | src/walker.rs:101-128 | a step keeps all routes, retired or in progress, exclusive: no cell after the start of a route occurs anywhere else |
| Routing.StepKeepsReady | src/walker.rs:101-128 | a step keeps the router's invariant `Ready`: walkers well formed, all routes consistent with the board and exclusive |
| Routing.AdvanceStuckRefused | src/walker.rs:106-114 | a pass stops only at a walker whose every ranked direction the board it ends with (the board that walker saw) refuses |
| Routing.StepStuck | src/walker.rs:102-115 | on `Stuck(idx)`: idx is a walker, and the board refuses every direction of its ranking (the only cause of `Stuck`, line 77); each walker before it gained one fresh neighbouring cell; it and all later ones are unchanged; routes are unchanged; the board only grew |
| Routing.BoxedInStuck | src/walker.rs:102-115 | when all eight cells around the first walker are claimed, the step reports `Stuck(0)` whatever the ranking |
| Routing.StepAdvances | src/walker.rs:102-115 | otherwise every walker gained one fresh neighbouring cell, no two the same, and the board only grew |
| Routing.StepRetiresInOrder | src/walker.rs:117-121 | otherwise the active walkers are exactly the moved walkers at the increasing indices of the unfinished ones, and the routes appended after the old ones are the histories of the finished ones at their increasing indices |
| Routing.StepRetires | src/walker.rs:117-127 | otherwise no kept walker is finished; old routes are a prefix of the new; routes plus kept histories are a permutation of old routes plus the moved histories; the result is `Finished` exactly when no walker remains |
| Routing.Game.Step | src/walker.rs:101-128 | keeps `Valid()` (well formed, consistent and exclusive); the new board, walkers, routes and status are exactly `StepOutcome` of the old state |

## Left out

- `src/main.rs` is not part of this model. It holds windowing and rendering and placeholder functions, and it does no routing.
- The evaluator is a total function of the walker's position, its destination and the board. Any internal state a caller's closure keeps between calls is not modelled.
- Coordinates are unbounded integers. The `i32` overflow of `point_add` is not modelled.
- Out-of-range component or terminal indices in `Game::new` and `layout` make the source panic. Here they are `requires` clauses (`ValidConnections`). `layout`'s placements have only four entries, so every component a connection refers to must be among the first four.
- The hash sets are mathematical sets. The nightly `drain_filter` is modelled as the order-preserving split `Unfinished` / `FinishedRoutes`.
- Game.Advance and Board.ClaimFirst: these are the outer and inner loops of `step`, written as separate methods. The early `continue 'outer` and `return Stuck` become their returns.
- `Walker::position`, `finished` and `route` have no ensures of their own. Their behaviour is stated through `Walker.New` and `Walker.Extend`.
- StepAdvances: says each walker gained a free neighbouring cell. Which direction it took is not restated there: it is the first one the board accepted as the earlier walkers left it. That choice is defined by `AdvanceFrom`, which `Game.Step` is proved against.
- `step` moves every walker before it checks `finished()`, so a walker whose source equals its destination is first pushed off its start and is not retired by that step; see `ZeroLengthConnectionLeavesStart`.
- No double occupancy holds for every cell a walker moves onto (`Exclusive`), but not for starting cells: `init_point` claims a source cell without checking it, so two connections from the same terminal start two walkers on one cell (`SharedSource`).
