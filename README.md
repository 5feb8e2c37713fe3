# Minesweeper board, modelled in Dafny

This project models the board logic of a browser minesweeper game in two variants and
proves properties of both.

- **The module board** of `js/MinesweeperBoard.js` (`MinesweeperBoard.Board`). A
  `height x width` grid of tiles, where each tile has an adjacency label, a mine, a flag
  and a revealed mark. Beside the grid it keeps:
  - the counters `numMines_`, `numFlags_` and `tilesLeftToReveal_`;
  - the clue set `clues_`.

  Its operations:
  - mine placement from a shuffled boolean mask;
  - labelling, which also rebuilds clues for tiles that are already revealed;
  - the recursive flood fill `aNewCavernHasBeenDiscovered_`;
  - the first-move mine relocation `swapMine_`;
  - `flag` and `reveal`;
  - the two one-pass deduction routines `aiFlagLocations` and `aiFindSaturatedLocations`.
- **The older board** of `main.js` (`LegacyBoard.Board`) and its page-level `reveal`/`flag`
  handlers (`LegacyBoard.Game`).
  - It places `Math.ceil(density * numTiles)` mines by rejection sampling, which avoids
    an optional safe tile.
  - A first-move mine re-randomises the whole board.
  - The flood fill leaves flags alone.
  - It keeps no flag counter and no clue set.
- **`rand` and the in-place Fisher-Yates `shuffle`** of `js/util.js` (`Util`).

`Grid` holds what both boards share:
- tiles and locations;
- the bounded 8-neighbour iteration `forEachNeighbor_`;
- counting over the grid and adjacency labels;
- the relation between a grid before and after a flood-fill sweep.

`Solver` states the two deduction passes as functions of the grid and the clue set. It
proves both passes sound on a correctly labelled board:
- every tile the flag pass collects holds a mine;
- every tile the saturation pass collects is safe.

## How the model is built

- **Randomness.** Every value `Math.random()` returns is a parameter: a real `r` with
  `0 <= r < 1`. So `rand(n)` of `js/util.js` is `floor((n + 1) * r)`, and `rand(n)` of
  `main.js` is `floor(n * r)`. `shuffle` and `placeMines_` take the sequence of draws they
  consume. The rejection loop of `randomize` takes a finite sequence of draw pairs.
- **Grid and classes.** Both grids are `seq<seq<Tile>>` fields that the class methods
  reassign. Tiles are values, so aliasing between tiles does not arise.
- **State and specifications.** Each method states its new state:
  - as a function of the old state, or
  - through a named relation, such as `Sweep`, `Filled`, `Cavern`, `SwapOutcome`,
    `MovedMine`, `DealtGrid` or `Randomized`.

  Where a method runs several steps, ghost out-parameters name the grid between them and
  the tiles the fill swept, so that its contract can relate each step to the next: the
  grid after `swapMine_` or the re-deal (`dealt`), and the fill from it (`swept`).
  `MinesweeperBoard.Board.Init` states the mines it places for any board, and the whole
  new state only for a board fresh from the constructor.

  The lemmas prove what those relations imply:
  - counters that match the grid;
  - correct labels;
  - no mine shown;
  - each tile revealed once;
  - the win condition.
- **The game-in-progress invariant.** `InPlay` says the labels are correct, the counter
  of tiles left to reveal equals the concealed open tiles, and no mine is revealed.
  `Playing()` is `InPlay` on a board's own state. The proofs show which operations keep it.

The model follows the code where it reads differently from its evident intent. In
`labelTiles_` the neighbour test is `!neighbor.isRevealed && !neighbor.hasFlag`
(js/MinesweeperBoard.js:137). Tiles have no `hasFlag` field, only `isFlagged`, so the flag
test is always true and every unrevealed neighbour counts, flagged or not
(`MinesweeperBoard.RebuiltClue`). The deduction passes test `isFlagged`
(js/MinesweeperBoard.js:292-297 and 330-337), so there a flagged neighbour is not unknown.

## Model

| member | source | states |
|---|---|---|
| Util.Rand | js/util.js:20-23 | `rand(n)` lies in `[0, n]` for `n >= 0`; for `n == -1` it is 0 |
| Util.SwapAt | js/util.js:29-31 | the three assignments exchange entries `i` and `j` and leave every other entry alone |
| Util.ShuffleFrom | js/util.js:27-32 | definition of the loop from index `i` down to 1, each iteration swapping `arr[i]` with `arr[rand(i)]`; it keeps the length, and `Util.ShuffleFromPermutes` and `Util.ShuffleFromKeepsAbove` state what it does |
| Util.Shuffled | js/util.js:26-34 | definition of `shuffle(arr)` as the sequence it leaves; it keeps the length, and `Util.ShuffledPermutes` proves it a permutation |
| Util.Shuffle | js/util.js:26-34 | the loop from `arr.length - 1` down to 1 leaves in the array exactly the sequence `Shuffled` defines, and returns the same array |
| Util.ShuffledPermutes | js/util.js:26-34 | the shuffle keeps the length and permutes the elements (their multiset is unchanged) |
| Util.ShuffleFromPermutes | js/util.js:27-32 | every remaining iteration only exchanges two elements, so the multiset is kept |
| Util.ShuffledKeepsTrues | js/MinesweeperBoard.js:109-113 | the number of `true` entries (mines) of the mask survives the shuffle |
| Util.ShuffleFromKeepsAbove | js/util.js:27-32 | once the iteration for `i` has begun, every position above `i` is final |
| Util.StepTouchesTwo | js/util.js:28-31 | the iteration for `i` writes only position `i` and one position `j` with `0 <= j <= i` |
| Util.ShortUnchanged | js/util.js:27 | arrays of length 0 or 1 come back unchanged |
| Grid.Neighbors | js/MinesweeperBoard.js:150-170 | every location the neighbour iteration yields is in bounds and adjacent to `(y, x)` |
| Grid.NeighborsExact | js/MinesweeperBoard.js:150-170 | the iteration yields exactly the in-bounds adjacent locations, never `(y, x)`, without repeats, at most eight |
| Grid.NeighborsComplete | main.js:126-146 | every in-bounds adjacent location is visited (the `!= null` tests of main.js find the same rows and columns) |
| Grid.OffsetsAreTheEightDirections | js/MinesweeperBoard.js:155-169 | the eight offsets tried are distinct and are exactly the eight steps to a surrounding tile |
| Grid.NeighborsSymmetric | js/MinesweeperBoard.js:150-170 | `b` is a neighbour of `a` exactly when `a` is a neighbour of `b` |
| Grid.NeighborsWithin | main.js:126-146 | no neighbour falls outside the grid, so no wrap-around and no out-of-range access |
| Grid.Blank | main.js:47-50 | definition: the grid `randomize` starts from, `height x width` fresh tiles (its ensures restates the body); `Grid.NewCells` proves the constructor loops build it and `Grid.BlankCount` that it has no mine or flag |
| Grid.NewCells | js/MinesweeperBoard.js:54-60 | the constructor's nested loops build exactly the blank grid |
| Grid.BlankCount | main.js:47-50 | a blank grid has no tile with a mine (or a flag) |
| Grid.AddAround | js/MinesweeperBoard.js:130-132 | `forEachNeighbor_` with `adjacentMines++` (or `--`) changes the label of exactly the adjacent tiles by the step and leaves every other tile alone |
| Grid.AddAll | js/MinesweeperBoard.js:130-132 | the loop over the neighbours applying the label callback leaves exactly `BumpAll`: each listed tile shifted by the step |
| Grid.CountAround | js/MinesweeperBoard.js:134-140 | a neighbour tally is the number of neighbours satisfying the test |
| Grid.CountAll | js/MinesweeperBoard.js:134-140 | the loop over the neighbours applying a counting callback counts exactly the listed tiles satisfying the test |
| Grid.CountSplit | js/MinesweeperBoard.js:223 | mined and open tiles together are `height * width`, so `numOpenTiles` is the number of open tiles |
| Grid.CountMask | js/MinesweeperBoard.js:115-119 | a grid whose tile `(y, x)` holds mask entry `y * width + x` has as many mines as the mask has `true` entries |
| Grid.ZeroLabelSafeNeighbors | js/MinesweeperBoard.js:212-216 | a correctly labelled zero tile has no mined neighbour |
| Grid.SpreadAvoidsMines | js/MinesweeperBoard.js:212-216 | on a correctly labelled grid, a fill that starts on an open tile and expands only from zero tiles never reaches a mine |
| Grid.LabelledSameMines | js/MinesweeperBoard.js:122-147 | labels depend only on where the mines are, so a change that keeps mines and labels keeps the labels correct |
| Grid.SweepTrans | js/MinesweeperBoard.js:195-219 | two sweeps in a row are one sweep of the concatenated locations, each revealed once |
| Grid.SweepCount | js/MinesweeperBoard.js:205-206 | a sweep lowers the number of tiles with a property by one for every swept tile that loses it |
| Grid.SweepShowsNoMine | js/MinesweeperBoard.js:205 | a sweep over open tiles reveals no mine |
| Grid.SweepKeepsLabels | js/MinesweeperBoard.js:195-219 | revealing tiles changes no mine and no label |
| Solver.CountFlagsUnknown | js/MinesweeperBoard.js:289-300 | the tallies are the numbers of flagged and of unflagged concealed neighbours |
| Solver.UnknownAround | js/MinesweeperBoard.js:304-309 | the locations collected are exactly the unrevealed, unflagged neighbours |
| Solver.VisitClue | js/MinesweeperBoard.js:284-311 | the clue is kept exactly when its label is positive and it has an unknown neighbour; what it adds is its unknown neighbours when its condition holds, else nothing |
| Solver.ScanClues | js/MinesweeperBoard.js:283-312 | the clues kept are exactly the live ones; the locations collected are exactly the union, over all clues, of what each contributes |
| Solver.TargetsAdd | js/MinesweeperBoard.js:283-312 | the collected set over `d + {l}` is the set over `d` plus what `l` contributes, in whatever order the set is visited |
| Solver.TargetsUnknown | js/MinesweeperBoard.js:304-309 | every collected location is an in-bounds unknown tile |
| Solver.FlagEachAdds | js/MinesweeperBoard.js:313-315 | flagging distinct unknown tiles one after the other adds a flag on exactly those tiles |
| Solver.VisitedEnd | js/MinesweeperBoard.js:313 | the `for ... of` over the collected set visits each of its elements exactly once |
| Solver.FlagsAddedRight | js/MinesweeperBoard.js:313-315 | adding flags only on mines keeps every flag on a mine |
| Solver.FiresFlagSound | js/MinesweeperBoard.js:303-309 | when a correct label equals its flagged plus unknown neighbours and no mine is shown, every concealed neighbour holds a mine |
| Solver.FiresSaturatedSound | js/MinesweeperBoard.js:341-347 | when a correct label equals its flagged neighbours and every flag is on a mine, no unknown neighbour holds a mine |
| Solver.FlagTargetsAreMines | js/MinesweeperBoard.js:281-317 | every location the flag pass collects is an unknown tile with a mine |
| Solver.SaturatedTargetsAreSafe | js/MinesweeperBoard.js:319-352 | every location the saturation pass collects is an unknown tile without a mine |
| MinesweeperBoard.FirstTrue | js/MinesweeperBoard.js:109-112 | definition of the unshuffled mask (its ensures restates the body); `MinesweeperBoard.FirstTrueCount` proves it has `numMines` `true` entries and `MinesweeperBoard.MinePositions` that the loop builds it |
| MinesweeperBoard.FirstTrueCount | js/MinesweeperBoard.js:109-112 | that mask has exactly `numMines` `true` entries |
| MinesweeperBoard.MinePositions | js/MinesweeperBoard.js:108-113 | the mine mask is the shuffled prefix mask and holds exactly `numMines` `true` entries |
| MinesweeperBoard.MapMask | js/MinesweeperBoard.js:115-119 | tile `(y, x)` takes mask entry `y * width + x`, and nothing else about it changes |
| MinesweeperBoard.RebuiltClue | js/MinesweeperBoard.js:133-143 | definition: an open revealed tile with an unrevealed neighbour, the misspelt `hasFlag` test counting flagged neighbours too; `MinesweeperBoard.LabelScan` and `MinesweeperBoard.Board.LabelTiles` state the clues against it |
| MinesweeperBoard.LabelScan | js/MinesweeperBoard.js:123-147 | each label rises by the number of mined neighbours; a location joins the clues exactly when it is an open, revealed tile with an unrevealed neighbour |
| MinesweeperBoard.LabelScanRow | js/MinesweeperBoard.js:127-145 | one row of the scan extends the labelled and clue-rebuilt prefix by that row |
| MinesweeperBoard.LabelAt | js/MinesweeperBoard.js:128-144 | one tile of the scan: a mine bumps its neighbours; an open revealed tile reports whether it is a clue |
| MinesweeperBoard.LabelBump | js/MinesweeperBoard.js:129-132 | bumping the neighbours of a mine extends the labelled prefix by that tile |
| MinesweeperBoard.LabelEnds | js/MinesweeperBoard.js:126-146 | after the whole scan every label is its old value plus the number of mined neighbours |
| MinesweeperBoard.LabelsFromZero | js/MinesweeperBoard.js:123-132 | starting from zero labels, the scan leaves every label equal to the number of mined neighbours |
| MinesweeperBoard.InitFacts | js/MinesweeperBoard.js:63-67 | placing and labelling leaves exactly the mask's mines; from a fresh board it starts a game with nothing revealed and no clue |
| MinesweeperBoard.InitPlay | js/MinesweeperBoard.js:63-67 | labelling a freshly mined board gives correct labels, reveal counter `numTiles - numMines` and no clue |
| MinesweeperBoard.FlagKeeps | js/MinesweeperBoard.js:247-254 | toggling a concealed tile's flag with `numFlags_ += +1 / -1` keeps the flag counter equal to the number of flags |
| MinesweeperBoard.FlagInPlay | js/MinesweeperBoard.js:247-254 | toggling a flag keeps a game in progress |
| MinesweeperBoard.FlagTargetsPlay | js/MinesweeperBoard.js:281-317 | the flags the flag pass adds keep a game in progress and keep every flag on a mine |
| MinesweeperBoard.ShowMine | js/MinesweeperBoard.js:268-271 | revealing the exploded mine keeps the counters consistent |
| MinesweeperBoard.FillCounts | js/MinesweeperBoard.js:205-206 | a fill over open tiles lowers the concealed-open count by the number swept and shows no mine |
| MinesweeperBoard.FillKeepsPlay | js/MinesweeperBoard.js:195-219 | a fill from an open tile keeps a game in progress with the reveal counter lowered by the number swept |
| MinesweeperBoard.UncoverConsistent | js/MinesweeperBoard.js:196-210 | revealing one tile clears its flag with `numFlags_--`, adds it to the clues when its label is positive, and keeps the counters consistent |
| MinesweeperBoard.AroundStep | js/MinesweeperBoard.js:212-216 | one neighbour's recursive call extends the fill relation, and that neighbour ends up revealed |
| MinesweeperBoard.DiscoverJoin | js/MinesweeperBoard.js:195-219 | revealing a zero tile and then filling around it is one fill starting at that tile |
| MinesweeperBoard.FindOpen | js/MinesweeperBoard.js:225-243 | the row-major scan finds a tile exactly when `indexToSwap` is below the number of open tiles, and the tile it finds is the `(indexToSwap + 1)`-th open one |
| MinesweeperBoard.OpenBeforeOrder | js/MinesweeperBoard.js:225-230 | row-major order and the open-tile index agree |
| MinesweeperBoard.SwapTargetUnique | js/MinesweeperBoard.js:225-230 | at most one tile is the `(indexToSwap + 1)`-th open tile |
| MinesweeperBoard.MoveMine | js/MinesweeperBoard.js:231-238 | the mine moves from the original tile to the target, with the target's neighbours +1 and the original's neighbours -1 |
| MinesweeperBoard.MovedLabels | js/MinesweeperBoard.js:231-238 | moving one mine with those label updates keeps every label correct |
| MinesweeperBoard.MovedCount | js/MinesweeperBoard.js:231-238 | the counts after the move are the counts before, corrected for the two tiles changed |
| MinesweeperBoard.SwapSettles | js/MinesweeperBoard.js:222-244 | either the mine moved to the chosen open tile or, with no open tile, nothing changed |
| MinesweeperBoard.SwapKeeps | js/MinesweeperBoard.js:222-244 | the swap keeps the mine count, the counters and an untouched game in progress, and clears the original tile |
| MinesweeperBoard.NewBoard | js/MinesweeperBoard.js:39-42 | construction fails exactly when `height < 1` or `width < 1`, otherwise gives a fresh board |
| MinesweeperBoard.Board.constructor | js/MinesweeperBoard.js:39-61 | `height x width` fresh tiles, zero counters, no clue |
| MinesweeperBoard.Board.Init | js/MinesweeperBoard.js:63-67 | `numMines_ = m`, `tilesLeftToReveal_ = numTiles - m`, tile `(y, x)` holds shuffled mask entry `y * width + x`, and a fresh board starts a game |
| MinesweeperBoard.Board.PlaceMines | js/MinesweeperBoard.js:101-120 | the counters are set and every tile takes its mask entry; exactly `m` mines result |
| MinesweeperBoard.Board.LabelTiles | js/MinesweeperBoard.js:123-147 | every label rises by its mined-neighbour count; the clues gain exactly the open revealed tiles with an unrevealed neighbour |
| MinesweeperBoard.Board.Discover | js/MinesweeperBoard.js:195-219 | the fill sweeps distinct concealed tiles starting at `(y, x)`, each swept tile once. Each swept tile after the first is next to an earlier zero tile. It clears the flags of swept tiles and adds the positive-label tiles to the clues. It lowers `tilesLeftToReveal_` by the number swept, and leaves every swept zero tile with all neighbours revealed |
| MinesweeperBoard.Board.DiscoverAround | js/MinesweeperBoard.js:212-216 | the recursion over the neighbours of a zero tile extends the fill and leaves every neighbour revealed |
| MinesweeperBoard.Board.Flag | js/MinesweeperBoard.js:247-254 | nothing changes on a revealed tile; otherwise exactly that tile's flag toggles and `numFlags_` moves by +1 / -1; a game in progress stays in progress |
| MinesweeperBoard.Board.SwapMine | js/MinesweeperBoard.js:222-244 | with `indexToSwap = rand(numOpenTiles - 1)` the mine moves to the `(indexToSwap + 1)`-th open tile, or nothing happens when there is none; the game invariant is kept |
| MinesweeperBoard.Board.Reveal | js/MinesweeperBoard.js:257-279 | a revealed or flagged tile gives `{gameOver: false}` and no change. A later-move mine reveals only that tile and gives `{gameOver: true, win: false}`. Otherwise the grid `dealt` is the old grid, or on a first-move mine the outcome of `swapMine_` with `rand(numOpenTiles - 1)`, and the fill from it is `Filled`, lowering `tilesLeftToReveal_` by the number swept; the result is `gameOver = win = (tilesLeftToReveal_ === 0)`. A first move on a board without open tiles keeps the mine. A game in progress stays in progress, with `gameOver` exactly when every open tile is revealed |
| MinesweeperBoard.Board.RevealFill | js/MinesweeperBoard.js:274-278 | the fill from the tile is `Filled`, starting at the tile and lowering `tilesLeftToReveal_` by the number swept, and the win test follows; from an open tile it keeps the game invariant, and the game is won exactly when all open tiles are revealed |
| MinesweeperBoard.Board.AiFlagLocations | js/MinesweeperBoard.js:281-317 | the clues kept are exactly the live ones. Exactly the collected tiles get a flag, each once. The result is their number, and `numFlags_` rises by it |
| MinesweeperBoard.Board.FlagAll | js/MinesweeperBoard.js:313-315 | flagging every location of the set adds exactly those flags and raises `numFlags_` by its size |
| MinesweeperBoard.Board.AiFindSaturatedLocations | js/MinesweeperBoard.js:319-352 | only the dead clues are dropped and no tile changes. The result is the unknown neighbours of the saturated clues, and during a game whose flags are right none of them holds a mine |
| LegacyBoard.TileEquals | main.js:23-28 | `equals` holds exactly when the four fields agree, that is, when the tiles are equal (hence reflexive and symmetric) |
| LegacyBoard.RandBelow | main.js:149-152 | `rand(n)` of main.js lies in `[0, n)` for `n >= 1` |
| LegacyBoard.Ceil | main.js:52 | `Math.ceil(x)` is the least integer not below `x` |
| LegacyBoard.MineCount | main.js:52 | `Math.ceil(density * numTiles)` is the least integer not below `density * numTiles` |
| LegacyBoard.Drawn | main.js:56-57 | the tile a pair of draws names is in bounds |
| LegacyBoard.IsSafe | main.js:58 | definition of `y === safeY && x === safeX`, never true when no safe tile (`null`) is given |
| LegacyBoard.Room | main.js:55-63 | definition of the tiles the loop may mine, all but an in-bounds safe tile; `LegacyBoard.ScatterBlocked`, `LegacyBoard.ScatterFinishes` and `LegacyBoard.Board.CappedMines` are stated against it |
| LegacyBoard.Scatter | main.js:55-66 | definition of the rejection loop as a fold over the draw pairs, returning the grid and the mines still to place; it keeps the grid shape, and `LegacyBoard.ScatterCount`, `LegacyBoard.ScatterAt`, `LegacyBoard.ScatterBlocked` and `LegacyBoard.ScatterFinishes` state what it does |
| LegacyBoard.ScatterCount | main.js:55-67 | each accepted draw places exactly one mine: the mines added equal the mines asked for minus those still left |
| LegacyBoard.ScatterAt | main.js:58-66 | the loop only ever sets `hasMine`, never removes a mine, and never mines the safe tile |
| LegacyBoard.ScatterBlocked | main.js:55-67 | when more mines are asked for than tiles remain free outside the safe tile, no sequence of draws finishes the loop |
| LegacyBoard.FullBoardRedealHangs | main.js:52-67 | concrete case: a 2x2 board of density 0.95 asks for 4 mines with room for 3 beside the safe tile, and no draws finish the re-deal |
| LegacyBoard.ScatterFinishes | main.js:55-67 | when the mines asked for fit and the draws name every free tile, the loop finishes |
| LegacyBoard.FullyMined | main.js:55-67 | once every open tile is the safe tile, the mine count has reached the room available |
| LegacyBoard.DrawOf | main.js:149-152 | every index in `[0, n)` is `rand(n)` of some draw |
| LegacyBoard.TileDrawsCover | main.js:56-57 | the row-by-row draw sequence names every tile of the board |
| LegacyBoard.CappedDealFinishes | main.js:55-67 | with the mine count capped at the room available, the row-by-row draws finish the deal |
| LegacyBoard.WithLabels | main.js:114-124 | definition of the labelled grid (its ensures restates the body); `LegacyBoard.LabelMines` proves the nested loops compute it and `LegacyBoard.LabelledDeal` that its labels count the mined neighbours |
| LegacyBoard.LabelMines | main.js:114-124 | the nested loops of `labelTiles_` leave exactly the grid `WithLabels` describes |
| LegacyBoard.LabelMinesRow | main.js:116-122 | one row of that scan extends the labelled prefix by the row |
| LegacyBoard.Settled | main.js:46-69 | a finished deal is fresh (nothing revealed or flagged, safe tile open), has exactly the mines asked for, correct labels, and `numLeftToReveal_` the number of open tiles |
| LegacyBoard.ScatterDeals | main.js:47-67 | the finished loop leaves exactly the asked-for mines on otherwise fresh tiles, none on the safe tile |
| LegacyBoard.LabelledDeal | main.js:68 | labelling that grid gives correct labels and starts a game |
| LegacyBoard.ScatterFresh | main.js:47-50 | every tile of the loop's grid is still unlabelled, concealed and unflagged |
| LegacyBoard.DealtGrid | main.js:46-68 | definition of the grid `randomize` leaves, the loop's grid labelled once the loop is done; `LegacyBoard.Settled` states what a finished one holds |
| LegacyBoard.CavernKeepsFlags | main.js:97-108 | unlike the module version, the fill leaves every flag as it was; it also keeps the number of mines |
| LegacyBoard.UncoverOne | main.js:98-101 | revealing one tile lowers the concealed count by one and keeps its flag |
| LegacyBoard.CavernStep | main.js:103-107 | one neighbour's recursive call extends the fill relation, and that neighbour ends up revealed |
| LegacyBoard.CavernJoin | main.js:97-108 | revealing a zero tile and then filling around it is one fill starting at that tile |
| LegacyBoard.CavernKeepsPlay | main.js:97-108 | a fill from an open tile keeps a game in progress with `numLeftToReveal_` lowered by the number swept |
| LegacyBoard.PlaceMines | main.js:54-67 | the rejection loop over the draws computes exactly `Scatter`: the grid and the mines still to place |
| LegacyBoard.NewLegacyBoard | main.js:32-40 | construction fails exactly when `height < 1` or `width < 1`. Otherwise the closing `randomize()` deals the board as `Randomized` with no safe tile, and `done` reports whether the loop finished; it never does when `ceil(density * numTiles) > numTiles`, and a finished deal starts a game |
| LegacyBoard.Board.constructor | main.js:32-38 | stores size and density on a `height x width` grid of fresh tiles, before `randomize()` runs |
| LegacyBoard.Board.Randomize | main.js:46-69 | a fresh grid, `numLeftToReveal_ = numTiles - ceil(density * numTiles)`, the loop as `Scatter`. It never finishes when the mines do not fit. A finished deal is fresh, keeps the safe tile open, holds exactly `ceil(density * numTiles)` mines and starts a game |
| LegacyBoard.Board.NumMines | main.js:52 | definition: the board's `MineCount` of its size and density |
| LegacyBoard.Board.CappedMines | main.js:52 | the capped count never exceeds the room available and equals `ceil(density * numTiles)` whenever that fits |
| LegacyBoard.Board.RandomizeCapped | main.js:46-69 | `randomize` with the capped count: the row-by-row draws always finish it, and a finished deal holds exactly the capped number of mines and starts a game with the safe tile open |
| LegacyBoard.Board.RandomizeWith | main.js:46-69 | `randomize` for a given mine count: state as `Randomized`, fresh deal with exactly that many mines, game started when it finishes |
| LegacyBoard.Board.LabelTiles | main.js:114-124 | every label rises by the number of mined neighbours |
| LegacyBoard.Board.Discover | main.js:97-108 | the fill sweeps distinct concealed tiles starting at `(y, x)`, each once, and keeps their flags. Each swept tile after the first is next to an earlier zero tile. It lowers `numLeftToReveal_` by the number swept, and leaves every swept zero tile with all neighbours revealed |
| LegacyBoard.Board.DiscoverAround | main.js:103-107 | the recursion over the neighbours of a zero tile extends the fill and leaves every neighbour revealed |
| LegacyBoard.Board.Redeal | main.js:189-207 | a first-move mine, with the capped mine count of `RandomizeCapped` instead of the code's uncapped one (see Left out): the grid is re-dealt around the clicked tile as `DealtGrid`. When the draws run out the result is `Unfinished` with the dealt grid; otherwise the fill runs from the tile as `Cavern` and the tile is revealed without a mine, no tile is flagged, and a game starts with exactly the capped number of mines, won exactly when all open tiles are revealed |
| LegacyBoard.Board.Press | main.js:189-207 | a later-move mine reveals only that tile (Boom) and nothing else changes. A first move is never Boom; a first-move mine goes through `Redeal`, so its re-deal is capped. An open tile is filled from the old grid as `Cavern`, with its flags kept and `numLeftToReveal_` lowered by the number swept, and the result reports `isWinner()`. A game in progress stays in progress, and is won exactly when all open tiles are revealed |
| LegacyBoard.Board.Open | main.js:202-207 | the fill from an open tile sweeps it and its cavern as `Cavern`, lowering `numLeftToReveal_` by the number swept. The winner test is `numLeftToReveal_ === 0`, and flags and mines are kept. A game in progress stays in progress, and is won exactly when all open tiles are revealed |
| LegacyBoard.Board.IsWinner | main.js:110-112 | during a game, `isWinner()` holds exactly when every open tile is revealed |
| LegacyBoard.Restart | main.js:169-177 | a new board is built and dealt, with `firstMove` and `gameInProgress` set; there is no new game when the size is bad or the deal does not finish on the draws given, and a finished deal starts a game |
| LegacyBoard.Game.constructor | main.js:173-176 | a new game starts with `firstMove` and `gameInProgress` set |
| LegacyBoard.Game.Reveal | main.js:179-208 | with no game in progress, or on a revealed or flagged tile, nothing changes (`Ignored`); a live click on a concealed, unflagged tile is never `Ignored`. A later-move mine is always `Boom`: it reveals only that tile and ends the game. A tile without a mine is always `Opened`. A first move never loses; its mine re-deals the grid as `DealtGrid` (capped, see Left out) and is `Unfinished` exactly when that deal does not finish. An opened tile is filled as `Cavern` from the dealt or old grid, `numLeftToReveal_` drops by the number swept, flags are kept on an open tile and absent after a re-deal, the result reports `isWinner()`, and `firstMove` becomes false. A reveal that runs the fill keeps a game in progress, won exactly when all open tiles are revealed |
| LegacyBoard.Game.Flag | main.js:210-219 | the flag toggles only when a game is in progress and the tile is unrevealed; otherwise nothing changes; the game invariant is kept |

## Left out

- Rendering and the page are not modelled:
  - `Tile.render`, `render_`, `update_`, `mapGridToDom_`, `updateCounters` and `modifyDom` in `js/MinesweeperBoard.js`;
  - `Board.render`, `createDiv`, `getCoordinates`, `getElementIndex`, the `BOOM`/`WINNER` banners and the event wiring in `main.js`;
  - `js/resize.js` and the DOM helpers of `js/util.js`.

  They only draw the state the model describes.
- `getHeight`, `getWidth` and `getTile` are plain field reads: the model uses `height`, `width` and `grid` directly.
- `asLocation`/`asCoordinates` are not among the files modelled. Locations are plain `(y, x)` pairs, and `clues_` is a `set` of them.
- `Math.random` is not modelled, and neither is the uniformity of the shuffle or of the mine placement. Every draw is a parameter in `[0, 1)`.
- Saving and restoring a board is not modelled: none of the files modelled implements it.
- Floating-point arithmetic is not modelled.
  - The module board takes its mine count as a parameter `m` (`Math.floor(density * numTiles)`).
  - The older board computes `Math.ceil(density * numTiles)` on an exact real density. Rounding of `density * numTiles` in binary floating point is not modelled.
  - `parseInt` of the page inputs is not modelled: `Restart` takes the size and the density as numbers.
- Iteration order of a JavaScript `Set` is not modelled. Both deduction passes are stated as functions of the clue set. This is order-independent because reading the grid does not depend on which clues were scanned earlier.
- The module board's `tilesLeftToReveal_` is `null` until `placeMines_` runs; the model starts it at 0.
- `restart` keeps the previous game when the `Board` constructor throws. `Restart` returns `None` and leaves the caller's game alone.
- The recursion depth of both flood fills is unbounded, as in the code. The model has no stack limit.
- MinesweeperBoard.Board.Init: requires `0 <= m <= numTiles`, so densities outside `[0, 1]` are not modelled. With `m > numTiles` the code's mask array grows past `numTiles`. With `m < 0` the code leaves `tilesLeftToReveal_` above `numTiles`.
- MinesweeperBoard.Board.PlaceMines: requires `0 <= m <= numTiles`, for the same reason.
- LegacyBoard.Board.Randomize: the rejection loop draws from an infinite supply of random values. The model runs it over a finite sequence `ds` and reports `done == false` when the draws run out first. Termination on random input is stated only through `ScatterFinishes` and `ScatterBlocked`: the loop finishes once every free tile has been drawn, and never finishes when the mines do not fit.
- LegacyBoard.Game.Reveal: a first-move mine is re-dealt through `Press` and `Redeal` with the capped count; the game invariant is proved for densities that give a non-negative mine count.
- LegacyBoard.Board.Press: main.js:192 calls `board.randomize(y, x)` with the uncapped count `Math.ceil(density * numTiles)`; the model's `Redeal` uses the corrected, capped count of `RandomizeCapped` (see Findings). On the Findings input the code never returns, while the model deals the capped number of mines and opens the tile. The code as written is `LegacyBoard.Board.Randomize`, which ensures `!done` exactly there. The game-invariant clause also assumes a non-negative mine count (`NumMines() >= 0`).
- LegacyBoard.Board.Redeal: uses `RandomizeCapped` where main.js:192 calls the uncapped `randomize(y, x)`, for the reason above. When the draws given run out before the deal finishes, it ends as `Unfinished`; the code would keep drawing.
- LegacyBoard.Restart: when the deal of the `Board` constructor does not finish on the draws given, it returns `None`. The code would keep drawing, and with `density > 1` it never returns.
- MinesweeperBoard.Board.Reveal: on a first move over a board with no open tile, `swapMine_` finds nothing and the mine stays. The fill then reveals it and drives `tilesLeftToReveal_` to -1. The model states this behaviour as written, and proves the game invariant only when an open tile exists and nothing is revealed yet.

## Findings

| source | as written | input that shows it | evidently intended | confidence | as-written member | corrected member |
|---|---|---|---|---|---|---|
| main.js:52-67 (called from main.js:189-192) | `randomize(y, x)` asks for `Math.ceil(density * numTiles)` mines but never mines the safe tile. When that count exceeds `numTiles - 1`, no drawn tile is accepted once the others are mined, and the `while` loop never ends | a 2x2 board with density 0.95 (4 mines wanted, 3 tiles free), first click on a mine at (0, 0) | the re-deal around the first click always finishes, placing at most as many mines as tiles remain beside the safe tile | not executed | LegacyBoard.FullBoardRedealHangs | LegacyBoard.Board.RandomizeCapped |

- **As written.** `LegacyBoard.ScatterBlocked` proves the general case: no sequence of draws finishes the loop when the mines do not fit. `LegacyBoard.Board.Randomize` models the code as written and ensures `!done` in that case.
- **Corrected.** `LegacyBoard.Board.CappedMines` caps the mine count at the room available. `LegacyBoard.CappedDealFinishes` proves that the capped deal finishes on draws that name every tile. `LegacyBoard.Board.Redeal`, and with it `LegacyBoard.Board.Press` and `LegacyBoard.Game.Reveal`, uses the corrected re-deal.
