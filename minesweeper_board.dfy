/** The board of js/MinesweeperBoard.js: a `height x width` grid of tiles, the counters
    `numMines_`, `numFlags_` and `tilesLeftToReveal_`, and the clue set `clues_`. */
module MinesweeperBoard {
  import opened Grid
  import opened Util
  import opened Solver

  datatype Option<T> = None | Some(value: T)

  /** The object `reveal` returns: `{gameOver: false}` has no `win` field. */
  datatype RevealResult = RevealResult(gameOver: bool, win: Option<bool>)

  /** `new Array(n).fill(false)` with the first `m` entries set to `true`. */
  function FirstTrue(n: nat, m: int): (s: seq<bool>)
    ensures |s| == n && forall i :: 0 <= i < n ==> s[i] == (i < m)
  {
    seq(n, i => i < m)
  }

  /** The mask holds exactly the requested number of mines. */
  lemma {:induction false} FirstTrueCount(n: nat, m: int)
    requires 0 <= m <= n
    ensures multiset(FirstTrue(n, m))[true] == m
  {
    if n > 0 {
      var k := if m == n then m - 1 else m;
      FirstTrueCount(n - 1, k);
      assert FirstTrue(n, m) == FirstTrue(n - 1, k) + [n - 1 < m];
    }
  }

  /** `minePositions` of `placeMines_`: `n` entries, the first `m` of them `true`, shuffled
      in place with the draws `rs`. */
  method MinePositions(n: nat, m: int, rs: seq<real>) returns (mask: seq<bool>)
    requires 0 <= m <= n && |rs| == n && AreDraws(rs)
    ensures mask == Shuffled(FirstTrue(n, m), rs)
    ensures |mask| == n && multiset(mask)[true] == m
  {
    var a := new bool[n](_ => false);
    for i := 0 to m
      invariant forall k :: 0 <= k < n ==> a[k] == (k < i)
    {
      a[i] := true;
    }
    assert a[..] == FirstTrue(n, m);
    a := Shuffle(a, rs);
    mask := a[..];
    ShuffledKeepsTrues(FirstTrue(n, m), rs);
    FirstTrueCount(n, m);
  }

  /** The nested loops of `placeMines_` that copy `minePositions[y * width + x]` into
      `grid_[y][x].hasMine`. */
  method MapMask(g: Cells, h: int, w: int, mask: seq<bool>) returns (r: Cells)
    requires IsGrid(g, h, w) && |mask| == h * w
    ensures MaskOf(r, h, w, mask)
    ensures forall i, j :: 0 <= i < h && 0 <= j < w ==> r[i][j] == g[i][j].(hasMine := Cell(mask, h, w, i, j))
  {
    r := g;
    for y := 0 to h
      invariant IsGrid(r, h, w)
      invariant forall i, j :: 0 <= i < h && 0 <= j < w ==>
        r[i][j] == if i < y then g[i][j].(hasMine := Cell(mask, h, w, i, j)) else g[i][j]
    {
      for x := 0 to w
        invariant IsGrid(r, h, w)
        invariant forall i, j :: 0 <= i < h && 0 <= j < w ==>
          r[i][j] == if Before((i, j), y, x) then g[i][j].(hasMine := Cell(mask, h, w, i, j)) else g[i][j]
      {
        FlatIndex(y, x, h, w);
        r := Put(r, (y, x), r[y][x].(hasMine := mask[y * w + x]));
      }
    }
  }

  /** A revealed non-mine tile with an unrevealed neighbour, as `labelTiles_` tests it: its
      `!neighbor.hasFlag` reads a field no tile has, so flagged neighbours count too. */
  ghost predicate RebuiltClue(g: Cells, h: int, w: int, l: Loc)
    requires IsGrid(g, h, w) && InBounds(h, w, l)
  {
    !At(g, l).hasMine && At(g, l).isRevealed &&
    exists n :: n in Neighbors(h, w, l.0, l.1) && !At(g, n).isRevealed
  }

  /** The labels of `labelTiles_` part-way through its scan: each tile's label has grown by
      the number of mined neighbours passed so far. */
  ghost predicate LabelledBefore(g0: Cells, g: Cells, h: int, w: int, y: int, x: int)
  {
    IsGrid(g0, h, w) && IsGrid(g, h, w) &&
    forall i, j {:trigger g[i][j]} :: 0 <= i < h && 0 <= j < w ==>
      g[i][j] == Shift(g0[i][j], MinedBefore(g0, Neighbors(h, w, i, j), y, x))
  }

  /** Passing tile `(y, x)` of the scan: the mined-neighbour count of `(i, j)` grows by one
      exactly when `(y, x)` is a mined neighbour. */
  lemma MinedStep(g0: Cells, h: int, w: int, y: int, x: int, i: int, j: int)
    requires IsGrid(g0, h, w) && InBounds(h, w, (y, x)) && InBounds(h, w, (i, j))
    ensures MinedBefore(g0, Neighbors(h, w, i, j), y, x + 1) ==
      MinedBefore(g0, Neighbors(h, w, i, j), y, x) + if g0[y][x].hasMine && Adjacent((i, j), (y, x)) then 1 else 0
  {
    NeighborsWithin(g0, h, w, i, j);
    NeighborsExact(h, w, i, j);
    MinedBeforeStep(g0, Neighbors(h, w, i, j), y, x);
    NeighborsSymmetric(h, w, (i, j), (y, x));
  }

  /** Passing an open tile of the scan changes no label. */
  lemma LabelSkip(g0: Cells, g: Cells, h: int, w: int, y: int, x: int)
    requires LabelledBefore(g0, g, h, w, y, x) && InBounds(h, w, (y, x)) && !g0[y][x].hasMine
    ensures LabelledBefore(g0, g, h, w, y, x + 1)
  {
    forall i, j | 0 <= i < h && 0 <= j < w
      ensures MinedBefore(g0, Neighbors(h, w, i, j), y, x + 1) == MinedBefore(g0, Neighbors(h, w, i, j), y, x)
    {
      MinedStep(g0, h, w, y, x, i, j);
    }
  }

  /** Passing a mine of the scan adds one to the label of each of its neighbours. */
  lemma LabelBump(g0: Cells, g: Cells, g1: Cells, h: int, w: int, y: int, x: int)
    requires LabelledBefore(g0, g, h, w, y, x) && InBounds(h, w, (y, x)) && g0[y][x].hasMine
    requires IsGrid(g1, h, w) && forall i, j :: 0 <= i < h && 0 <= j < w ==>
      g1[i][j] == if Adjacent((i, j), (y, x)) then Shift(g[i][j], 1) else g[i][j]
    ensures LabelledBefore(g0, g1, h, w, y, x + 1)
  {
    forall i, j | 0 <= i < h && 0 <= j < w
      ensures g1[i][j] == Shift(g0[i][j], MinedBefore(g0, Neighbors(h, w, i, j), y, x + 1))
    {
      BumpTile(g0, g[i][j], g1[i][j], h, w, y, x, i, j);
    }
  }

  /** `LabelBump` at one tile `(i, j)`: `t` is its label before `(y, x)`, `t1` after. */
  lemma BumpTile(g0: Cells, t: Tile, t1: Tile, h: int, w: int, y: int, x: int, i: int, j: int)
    requires IsGrid(g0, h, w) && InBounds(h, w, (y, x)) && InBounds(h, w, (i, j)) && g0[y][x].hasMine
    requires AllWithin(g0, Neighbors(h, w, i, j))
    requires t == Shift(g0[i][j], MinedBefore(g0, Neighbors(h, w, i, j), y, x))
    requires t1 == if Adjacent((i, j), (y, x)) then Shift(t, 1) else t
    ensures t1 == Shift(g0[i][j], MinedBefore(g0, Neighbors(h, w, i, j), y, x + 1))
  {
    MinedStep(g0, h, w, y, x, i, j);
  }

  /** The end of a row is the start of the next. */
  lemma LabelRow(g0: Cells, g: Cells, h: int, w: int, y: int)
    requires LabelledBefore(g0, g, h, w, y, w)
    ensures LabelledBefore(g0, g, h, w, y + 1, 0)
  {
    forall i, j | 0 <= i < h && 0 <= j < w
      ensures MinedBefore(g0, Neighbors(h, w, i, j), y, w) == MinedBefore(g0, Neighbors(h, w, i, j), y + 1, 0)
    {
      MinedBeforeRow(g0, Neighbors(h, w, i, j), y, w);
    }
  }

  /** Before the scan nothing has moved; after it every label grew by its mined-neighbour count. */
  lemma LabelEnds(g0: Cells, g: Cells, h: int, w: int)
    requires IsGrid(g0, h, w)
    ensures LabelledBefore(g0, g0, h, w, 0, 0)
    ensures LabelledBefore(g0, g, h, w, h, 0) ==> forall i, j :: 0 <= i < h && 0 <= j < w ==>
      g[i][j] == Shift(g0[i][j], AdjMines(g0, h, w, (i, j)))
  {
    forall i, j | 0 <= i < h && 0 <= j < w
      ensures MinedBefore(g0, Neighbors(h, w, i, j), 0, 0) == 0
      ensures MinedBefore(g0, Neighbors(h, w, i, j), h, 0) == AdjMines(g0, h, w, (i, j))
    {
      MinedBeforeStart(g0, Neighbors(h, w, i, j));
      MinedBeforeEnd(g0, Neighbors(h, w, i, j), h);
    }
  }

  /** Labelling a grid whose labels are all zero leaves every label equal to its number of
      mined neighbours. */
  lemma LabelsFromZero(g0: Cells, g: Cells, h: int, w: int)
    requires IsGrid(g0, h, w) && IsGrid(g, h, w)
    requires forall i, j :: 0 <= i < h && 0 <= j < w ==> g0[i][j].adjacentMines == 0
    requires forall i, j :: 0 <= i < h && 0 <= j < w ==> g[i][j] == Shift(g0[i][j], AdjMines(g0, h, w, (i, j)))
    ensures Labelled(g, h, w)
  {
    forall i, j | 0 <= i < h && 0 <= j < w
      ensures g[i][j].adjacentMines == AdjMines(g, h, w, (i, j))
    {
      NeighborsWithin(g0, h, w, i, j);
      CountAtSame(g0, g, Neighbors(h, w, i, j), IsMine);
    }
  }

  /** During a game: labels are right, `left` is the number of open tiles still concealed,
      and no mine has been revealed. */
  ghost predicate InPlay(g: Cells, h: int, w: int, left: int) {
    Labelled(g, h, w) && left == Count(g, IsHiddenSafe) && NoMineShown(g, h, w)
  }

  /** No tile has been revealed yet. */
  ghost predicate Untouched(g: Cells, h: int, w: int) {
    IsGrid(g, h, w) && forall i, j :: 0 <= i < h && 0 <= j < w ==> !g[i][j].isRevealed
  }

  /** `flag` toggles the flag of one concealed tile: the counters stay consistent. */
  lemma FlagKeeps(g0: Cells, g1: Cells, h: int, w: int, mines: int, f0: int, f1: int, cs: set<Loc>, l: Loc)
    requires Consistent(g0, h, w, mines, f0, cs) && InBounds(h, w, l) && !At(g0, l).isRevealed
    requires g1 == Put(g0, l, At(g0, l).(isFlagged := !At(g0, l).isFlagged))
    requires f1 == f0 + if At(g0, l).isFlagged then -1 else 1
    ensures Consistent(g1, h, w, mines, f1, cs)
  {
    var t := At(g0, l).(isFlagged := !At(g0, l).isFlagged);
    CountPut(g0, l, t, IsMine);
    CountPut(g0, l, t, IsFlagged);
    assert IsGrid(g1, h, w);
    assert mines == Count(g1, IsMine);
    assert f1 == Count(g1, IsFlagged);
    assert forall i, j :: 0 <= i < h && 0 <= j < w ==> !(g1[i][j].isRevealed && g1[i][j].isFlagged);
  }

  /** A game in progress stays in progress when a flag is toggled. */
  lemma FlagInPlay(g0: Cells, g1: Cells, h: int, w: int, left: int, l: Loc, t: Tile)
    requires InPlay(g0, h, w, left) && InBounds(h, w, l) && IsGrid(g1, h, w)
    requires t == At(g0, l).(isFlagged := !At(g0, l).isFlagged) && g1 == Put(g0, l, t)
    ensures InPlay(g1, h, w, left)
  {
    FlagTile(g0, h, w, l, t);
    LabelledSameMines(g0, g1, h, w);
  }

  /** Toggling a flag changes no mine, label or reveal. */
  lemma FlagTile(g0: Cells, h: int, w: int, l: Loc, t: Tile)
    requires IsGrid(g0, h, w) && InBounds(h, w, l) && t == At(g0, l).(isFlagged := !At(g0, l).isFlagged)
    ensures SameLabels(g0, Put(g0, l, t), h, w)
    ensures Count(Put(g0, l, t), IsHiddenSafe) == Count(g0, IsHiddenSafe)
    ensures NoMineShown(g0, h, w) ==> NoMineShown(Put(g0, l, t), h, w)
  {
    CountPut(g0, l, t, IsHiddenSafe);
    PutSameLabels(g0, h, w, l, t);
  }

  /** Adding flags changes neither the labels, nor the open tiles still concealed, nor
      which tiles are revealed. */
  lemma FlagsAddedPlay(g0: Cells, g: Cells, h: int, w: int, s: set<Loc>, left: int)
    requires FlagsAdded(g0, g, h, w, s) && InPlay(g0, h, w, left)
    ensures InPlay(g, h, w, left)
  {
    assert SameLabels(g0, g, h, w);
    LabelledSameMines(g0, g, h, w);
    CountEquiv(g, g0, h, w, IsHiddenSafe, IsHiddenSafe);
  }

  /** In a game in progress the flag pass keeps the game in progress and flags only mines,
      so it keeps every flag right. */
  lemma FlagTargetsPlay(g0: Cells, h: int, w: int, cs: set<Loc>, left: int)
    requires InPlay(g0, h, w, left)
    ensures InPlay(WithFlags(g0, h, w, Targets(g0, h, w, cs, false)), h, w, left)
    ensures FlagsRight(g0, h, w) ==> FlagsRight(WithFlags(g0, h, w, Targets(g0, h, w, cs, false)), h, w)
  {
    var s := Targets(g0, h, w, cs, false);
    WithFlagsAdded(g0, h, w, s);
    FlagsAddedPlay(g0, WithFlags(g0, h, w, s), h, w, s, left);
    FlagTargetsAreMines(g0, h, w, cs);
    if FlagsRight(g0, h, w) {
      FlagsAddedRight(g0, WithFlags(g0, h, w, s), h, w, s);
    }
  }

  /** The losing branch of `reveal`: revealing a mine that is not flagged keeps the board
      consistent. */
  lemma ShowMine(g0: Cells, g1: Cells, h: int, w: int, mines: int, flags: int, cs: set<Loc>, l: Loc)
    requires Consistent(g0, h, w, mines, flags, cs) && InBounds(h, w, l) && !At(g0, l).isFlagged
    requires g1 == Put(g0, l, At(g0, l).(isRevealed := true))
    ensures Consistent(g1, h, w, mines, flags, cs)
  {
    var t := At(g0, l).(isRevealed := true);
    CountPut(g0, l, t, IsMine);
    CountPut(g0, l, t, IsFlagged);
    assert IsGrid(g1, h, w);
    assert mines == Count(g1, IsMine);
    assert flags == Count(g1, IsFlagged);
    assert forall i, j :: 0 <= i < h && 0 <= j < w ==> !(g1[i][j].isRevealed && g1[i][j].isFlagged);
    assert forall c :: c in cs ==> InBounds(h, w, c) && At(g1, c).isRevealed;
  }

  /** A fill that reveals no mine lowers the number of concealed open tiles by the number of
      tiles it swept and still shows no mine. */
  lemma FillCounts(g1: Cells, g2: Cells, h: int, w: int, swept: seq<Loc>, clearFlag: bool)
    requires Sweep(g1, g2, h, w, swept, clearFlag) && NoMineShown(g1, h, w)
    requires forall i :: 0 <= i < |swept| ==> !At(g1, swept[i]).hasMine
    ensures Count(g2, IsHiddenSafe) == Count(g1, IsHiddenSafe) - |swept|
    ensures NoMineShown(g2, h, w) && SameLabels(g1, g2, h, w)
  {
    SweepCount(g1, g2, h, w, swept, clearFlag, IsHiddenSafe);
    SweepShowsNoMine(g1, g2, h, w, swept, clearFlag);
    SweepKeepsLabels(g1, g2, h, w, swept, clearFlag);
  }

  /** The fill of `reveal` started on an open tile keeps a game in progress: it reaches no
      mine, so the reveal counter drops exactly with the concealed open tiles. */
  lemma FillKeepsPlay(g1: Cells, g2: Cells, h: int, w: int, c1: set<Loc>, c2: set<Loc>, swept: seq<Loc>, left: int)
    requires InPlay(g1, h, w, left) && Filled(g1, g2, h, w, c1, c2, [], swept)
    requires swept != [] ==> !At(g1, swept[0]).hasMine
    ensures InPlay(g2, h, w, left - |swept|)
  {
    assert [] + swept == swept;
    forall l | l in swept ensures InBounds(h, w, l) {
      var i :| 0 <= i < |swept| && swept[i] == l;
    }
    SpreadAvoidsMines(g1, h, w, swept);
    FillCounts(g1, g2, h, w, swept, true);
    LabelledSameMines(g1, g2, h, w);
  }

  /** `g` is `g0` with the mine of every tile `(i, j)` set to entry `i * w + j` of `mask`. */
  ghost predicate MinedFrom(g0: Cells, g: Cells, h: int, w: int, mask: seq<bool>)
    requires IsGrid(g0, h, w) && |mask| == h * w
  {
    IsGrid(g, h, w) &&
    forall i, j :: 0 <= i < h && 0 <= j < w ==> g[i][j] == g0[i][j].(hasMine := Cell(mask, h, w, i, j))
  }

  /** `g` is `g0` with every label raised by the number of mines next to the tile. */
  ghost predicate LabelledFrom(g0: Cells, g: Cells, h: int, w: int)
    requires IsGrid(g0, h, w)
  {
    IsGrid(g, h, w) &&
    forall i, j :: 0 <= i < h && 0 <= j < w ==> g[i][j] == Shift(g0[i][j], AdjMines(g0, h, w, (i, j)))
  }

  /** Placing the mines of `mask` and then labelling leaves the mines of `mask`; from a fresh
      board it starts a game with nothing revealed and no clue. */
  lemma InitFacts(g0: Cells, g1: Cells, g2: Cells, h: int, w: int, mask: seq<bool>, m: int,
                  pristine: bool, c0: set<Loc>, cs: set<Loc>)
    requires IsGrid(g0, h, w) && |mask| == h * w && MinedFrom(g0, g1, h, w, mask) && LabelledFrom(g1, g2, h, w)
    requires Count(g2, IsMine) == m
    requires forall l :: l in cs <==> l in c0 || (InBounds(h, w, l) && RebuiltClue(g1, h, w, l))
    requires pristine ==> c0 == {} && forall i, j :: 0 <= i < h && 0 <= j < w ==> g0[i][j] == FreshTile
    ensures forall i, j :: 0 <= i < h && 0 <= j < w ==> g2[i][j].hasMine == Cell(mask, h, w, i, j)
    ensures pristine ==> InPlay(g2, h, w, h * w - m) && Untouched(g2, h, w) && cs == {}
  {
    forall i, j | 0 <= i < h && 0 <= j < w
      ensures g2[i][j].hasMine == Cell(mask, h, w, i, j)
      ensures pristine ==> g1[i][j].adjacentMines == 0 && !g1[i][j].isRevealed
    {
      assert g2[i][j] == Shift(g1[i][j], AdjMines(g1, h, w, (i, j)));
      assert g1[i][j] == g0[i][j].(hasMine := Cell(mask, h, w, i, j));
    }
    if pristine {
      InitPlay(g1, g2, h, w, m, cs);
    }
  }

  /** Every open tile has been revealed: the game is won. */
  ghost predicate AllOpenRevealed(g: Cells, h: int, w: int)
    requires IsGrid(g, h, w)
  {
    forall i, j :: 0 <= i < h && 0 <= j < w ==> g[i][j].isRevealed || g[i][j].hasMine
  }

  /** Labelling a freshly mined board starts a game: nothing is revealed, so every open tile
      is still to be revealed and no clue is rebuilt. */
  lemma InitPlay(g1: Cells, g2: Cells, h: int, w: int, m: int, cs: set<Loc>)
    requires IsGrid(g1, h, w) && IsGrid(g2, h, w)
    requires forall i, j :: 0 <= i < h && 0 <= j < w ==>
      g1[i][j].adjacentMines == 0 && !g1[i][j].isRevealed
    requires forall i, j :: 0 <= i < h && 0 <= j < w ==> g2[i][j] == Shift(g1[i][j], AdjMines(g1, h, w, (i, j)))
    requires Count(g2, IsMine) == m
    requires forall l :: l in cs <==> InBounds(h, w, l) && RebuiltClue(g1, h, w, l)
    ensures InPlay(g2, h, w, h * w - m) && Untouched(g2, h, w) && cs == {}
  {
    LabelsFromZero(g1, g2, h, w);
    CountEquiv(g2, g2, h, w, IsHiddenSafe, IsOpen);
    CountSplit(g2, h, w);
    assert NoMineShown(g2, h, w);
  }

  /** The shape, both counters match the grid, no tile is both revealed and flagged, and
      the clues are revealed tiles of the board. */
  ghost predicate Consistent(g: Cells, h: int, w: int, mines: int, flags: int, cs: set<Loc>) {
    IsGrid(g, h, w) && mines == Count(g, IsMine) && flags == Count(g, IsFlagged) &&
    (forall i, j :: 0 <= i < h && 0 <= j < w ==> !(g[i][j].isRevealed && g[i][j].isFlagged)) &&
    forall l :: l in cs ==> InBounds(h, w, l) && At(g, l).isRevealed
  }

  /** What a fill that swept `swept` leaves, from grid `g0` and clues `c0` to grid `g` and
      clues `cs`: exactly the locations `swept` were revealed, each once; each of them after
      the `seed` locations is next to an earlier zero tile; exactly the swept tiles with a
      positive label joined the clues; and every swept zero tile has all neighbours
      revealed. */
  ghost predicate Filled(g0: Cells, g: Cells, h: int, w: int, c0: set<Loc>, cs: set<Loc>, seed: seq<Loc>, swept: seq<Loc>) {
    Sweep(g0, g, h, w, swept, true) && AllWithin(g0, seed + swept) && Spread(g0, seed + swept) &&
    CluesFrom(g0, h, w, c0, cs, swept) && ZerosClosed(g0, g, h, w, swept)
  }

  /** Exactly the swept tiles with a positive label joined the clues. */
  ghost predicate CluesFrom(g0: Cells, h: int, w: int, c0: set<Loc>, cs: set<Loc>, swept: seq<Loc>)
    requires IsGrid(g0, h, w)
  {
    forall l :: l in cs <==> l in c0 || (l in swept && InBounds(h, w, l) && At(g0, l).adjacentMines > 0)
  }

  /** Every swept zero tile has all neighbours revealed in `g`. */
  ghost predicate ZerosClosed(g0: Cells, g: Cells, h: int, w: int, swept: seq<Loc>)
    requires IsGrid(g0, h, w) && IsGrid(g, h, w)
  {
    forall l :: l in swept && InBounds(h, w, l) && IsZeroSafe(At(g0, l)) ==> Closed(g, h, w, l)
  }

  /** The first step of the fill at a concealed tile `l`: unflag it, reveal it, and record it
      as a clue when its label is positive. */
  lemma UncoverConsistent(g0: Cells, g1: Cells, h: int, w: int, mines: int, f0: int, f1: int,
                          c0: set<Loc>, c1: set<Loc>, l: Loc)
    requires Consistent(g0, h, w, mines, f0, c0) && InBounds(h, w, l) && !At(g0, l).isRevealed
    requires g1 == Put(g0, l, Uncover(At(g0, l), true))
    requires f1 == f0 - if At(g0, l).isFlagged then 1 else 0
    requires c1 == if At(g0, l).adjacentMines > 0 then c0 + {l} else c0
    ensures Consistent(g1, h, w, mines, f1, c1)
    ensures Count(g1, IsConcealed) == Count(g0, IsConcealed) - 1
    ensures IsZeroSafe(At(g0, l)) || Filled(g0, g1, h, w, c0, c1, [], [l])
    ensures Sweep(g0, g1, h, w, [l], true)
  {
    var t := At(g0, l);
    CountPut(g0, l, Uncover(t, true), IsMine);
    CountPut(g0, l, Uncover(t, true), IsFlagged);
    CountPut(g0, l, Uncover(t, true), IsConcealed);
    SweepOne(g0, h, w, l, true);
    assert [] + [l] == [l];
  }

  /** One iteration of the neighbour loop of the fill around the zero tile `c`: the call
      from neighbour `n` swept `more` after the loop had swept `sk`. */
  lemma AroundStep(g1: Cells, gk: Cells, g2: Cells, h: int, w: int, c: Loc, n: Loc,
                   sk: seq<Loc>, more: seq<Loc>, c0: set<Loc>, ck: set<Loc>, c2: set<Loc>)
    requires IsGrid(g1, h, w) && InBounds(h, w, c) && IsZeroSafe(At(g1, c)) && InBounds(h, w, n) && Adjacent(n, c)
    requires Filled(g1, gk, h, w, c0, ck, [c], sk)
    requires Filled(gk, g2, h, w, ck, c2, [], more)
    requires (more == [] <==> At(gk, n).isRevealed) && (more != [] ==> more[0] == n)
    ensures Filled(g1, g2, h, w, c0, c2, [c], sk + more)
    ensures At(g2, n).isRevealed
  {
    SweepTrans(g1, gk, g2, h, w, sk, more, true);
    SweepKeepsLabels(g1, gk, h, w, sk, true);
    AroundSpread(g1, gk, h, w, c, n, sk, more);
    CluesAppend(g1, gk, h, w, c0, ck, c2, sk, more);
    ClosedAppend(g1, gk, g2, h, w, sk, more, true);
    if more != [] {
      assert more[0] in more;
    }
  }

  lemma AroundSpread(g1: Cells, gk: Cells, h: int, w: int, c: Loc, n: Loc, sk: seq<Loc>, more: seq<Loc>)
    requires SameLabels(g1, gk, h, w) && InBounds(h, w, c) && IsZeroSafe(At(g1, c)) && Adjacent(n, c)
    requires AllWithin(g1, [c] + sk) && Spread(g1, [c] + sk)
    requires AllWithin(gk, [] + more) && Spread(gk, [] + more) && AllWithin(g1, more)
    requires more != [] ==> more[0] == n
    ensures AllWithin(g1, [c] + (sk + more)) && Spread(g1, [c] + (sk + more))
  {
    var a := [c] + sk;
    assert [] + more == more;
    assert a[0] == c && Adjacent(c, n);
    SpreadAppend(g1, gk, h, w, a, more);
    assert [c] + (sk + more) == a + more;
  }

  lemma CluesAppend(g1: Cells, gk: Cells, h: int, w: int, c0: set<Loc>, ck: set<Loc>, c2: set<Loc>, sk: seq<Loc>, more: seq<Loc>)
    requires SameLabels(g1, gk, h, w)
    requires forall l :: l in sk ==> InBounds(h, w, l)
    requires forall l :: l in more ==> InBounds(h, w, l)
    requires CluesFrom(g1, h, w, c0, ck, sk) && CluesFrom(gk, h, w, ck, c2, more)
    ensures forall l :: l in sk + more ==> InBounds(h, w, l)
    ensures CluesFrom(g1, h, w, c0, c2, sk + more)
  {
    assert forall l :: l in sk + more <==> l in sk || l in more;
    forall l | l in more ensures At(gk, l).adjacentMines == At(g1, l).adjacentMines {
      var i :| 0 <= i < |more| && more[i] == l;
    }
  }

  lemma ClosedAppend(g1: Cells, gk: Cells, g2: Cells, h: int, w: int, sk: seq<Loc>, more: seq<Loc>, clearFlag: bool)
    requires Sweep(g1, gk, h, w, sk, clearFlag) && Sweep(gk, g2, h, w, more, clearFlag) && SameLabels(g1, gk, h, w)
    requires ZerosClosed(g1, gk, h, w, sk) && ZerosClosed(gk, g2, h, w, more)
    ensures forall l :: l in sk + more ==> InBounds(h, w, l)
    ensures ZerosClosed(g1, g2, h, w, sk + more)
  {
    assert forall l :: l in sk + more <==> l in sk || l in more;
    forall l | l in sk + more && InBounds(h, w, l) && IsZeroSafe(At(g1, l)) ensures Closed(g2, h, w, l) {
      if l in sk {
        ClosedSweep(gk, g2, h, w, more, clearFlag, l);
      } else {
        assert l in more;
      }
    }
  }

  /** The neighbours visited so far stay revealed, and the current one is revealed. */
  lemma RevealedStep(gk: Cells, g2: Cells, h: int, w: int, ns: seq<Loc>, k: int, more: seq<Loc>, clearFlag: bool)
    requires 0 <= k < |ns| && (forall l :: l in ns ==> InBounds(h, w, l))
    requires Sweep(gk, g2, h, w, more, clearFlag) && AllWithin(gk, ns) && AllRevealed(gk, ns[..k])
    requires ns[k] in ns && At(g2, ns[k]).isRevealed
    ensures AllWithin(g2, ns) && AllRevealed(g2, ns[..k + 1])
  {
    assert AllWithin(g2, ns);
    assert forall i :: 0 <= i < k + 1 ==> ns[..k + 1][i] == ns[i];
    assert AllWithin(g2, ns[..k + 1]);
    forall l | l in ns[..k + 1] ensures At(g2, l).isRevealed {
      var i :| 0 <= i < k + 1 && ns[..k + 1][i] == l;
      assert l == ns[i] && l in ns;
      if i < k {
        assert ns[..k][i] == l;
        assert At(gk, l).isRevealed;
      }
    }
  }

  /** Labels alone decide a spread. */
  lemma SpreadSame(g0: Cells, g1: Cells, h: int, w: int, ls: seq<Loc>)
    requires SameLabels(g0, g1, h, w) && AllWithin(g0, ls) && AllWithin(g1, ls) && Spread(g1, ls)
    ensures Spread(g0, ls)
  {
    forall i | 0 < i < |ls| ensures FedBy(g0, ls, i) {
      assert FedBy(g1, ls, i);
      var j :| 0 <= j < i && IsZeroSafe(At(g1, ls[j])) && Adjacent(ls[j], ls[i]);
      assert ls[j] in ls;
      assert IsZeroSafe(At(g0, ls[j]));
    }
  }

  /** The fill from a concealed zero tile `c`: revealing `c` (grid `g1`) followed by the
      neighbour loop (grid `g2`, sweeping `more`). */
  lemma DiscoverJoin(g0: Cells, g1: Cells, g2: Cells, h: int, w: int, c: Loc, more: seq<Loc>, c0: set<Loc>, c2: set<Loc>)
    requires IsGrid(g0, h, w) && InBounds(h, w, c) && !At(g0, c).isRevealed && IsZeroSafe(At(g0, c))
    requires Sweep(g0, g1, h, w, [c], true)
    requires Filled(g1, g2, h, w, c0, c2, [c], more) && Closed(g2, h, w, c)
    ensures Filled(g0, g2, h, w, c0, c2, [], [c] + more)
  {
    SweepTrans(g0, g1, g2, h, w, [c], more, true);
    SweepKeepsLabels(g0, g1, h, w, [c], true);
    assert [] + ([c] + more) == [c] + more;
    SpreadSame(g0, g1, h, w, [c] + more);
  }

  /** The two nested loops of `labelTiles_` over the rows and columns, starting from the
      fresh labels of `g` and the clue set `cs`. */
  method LabelScan(g: Cells, h: int, w: int, cs: set<Loc>) returns (r: Cells, rs: set<Loc>)
    requires IsGrid(g, h, w)
    ensures SameGround(g, r, h, w)
    ensures forall i, j :: 0 <= i < h && 0 <= j < w ==> r[i][j] == Shift(g[i][j], AdjMines(g, h, w, (i, j)))
    ensures forall l :: l in rs <==> l in cs || (InBounds(h, w, l) && RebuiltClue(g, h, w, l))
  {
    r, rs := g, cs;
    LabelEnds(g, g, h, w);
    for y := 0 to h
      invariant LabelledBefore(g, r, h, w, y, 0)
      invariant CluesBefore(g, cs, rs, h, w, y, 0)
    {
      r, rs := LabelScanRow(g, r, h, w, y, cs, rs);
    }
    LabelEnds(g, r, h, w);
    CluesRow(g, cs, rs, h, w, h);
  }

  /** The inner loop of `labelTiles_` over row `y`. */
  method LabelScanRow(ghost g0: Cells, g: Cells, h: int, w: int, y: int, ghost c0: set<Loc>, cs: set<Loc>)
    returns (r: Cells, rs: set<Loc>)
    requires IsGrid(g0, h, w) && 0 <= y < h
    requires LabelledBefore(g0, g, h, w, y, 0) && CluesBefore(g0, c0, cs, h, w, y, 0)
    ensures LabelledBefore(g0, r, h, w, y + 1, 0) && CluesBefore(g0, c0, rs, h, w, y + 1, 0)
  {
    r, rs := g, cs;
    assert |g[y]| == w;
    for x := 0 to w
      invariant LabelledBefore(g0, r, h, w, y, x)
      invariant CluesBefore(g0, c0, rs, h, w, y, x)
    {
      var clue;
      ghost var rs0 := rs;
      r, clue := LabelAt(g0, r, h, w, y, x);
      if clue {
        rs := rs + {(y, x)};
      }
      CluesStep(g0, c0, rs0, rs, h, w, y, x);
    }
    LabelRow(g0, r, h, w, y);
    CluesRow(g0, c0, rs, h, w, y);
  }

  /** `cs` holds the clues `c0` started with and the open tiles scanned before `(y, x)`
      that the scan has rebuilt as clues. */
  ghost predicate CluesBefore(g0: Cells, c0: set<Loc>, cs: set<Loc>, h: int, w: int, y: int, x: int)
    requires IsGrid(g0, h, w)
  {
    forall l :: l in cs <==> l in c0 || (InBounds(h, w, l) && Before(l, y, x) && RebuiltClue(g0, h, w, l))
  }

  /** Scanning `(y, x)` adds it to the clues exactly when it is rebuilt as a clue. */
  lemma CluesStep(g0: Cells, c0: set<Loc>, cs: set<Loc>, cs1: set<Loc>, h: int, w: int, y: int, x: int)
    requires IsGrid(g0, h, w) && InBounds(h, w, (y, x)) && CluesBefore(g0, c0, cs, h, w, y, x)
    requires cs1 == if RebuiltClue(g0, h, w, (y, x)) then cs + {(y, x)} else cs
    ensures CluesBefore(g0, c0, cs1, h, w, y, x + 1)
  {
    forall l ensures Before(l, y, x + 1) <==> Before(l, y, x) || l == (y, x) {
    }
  }

  /** Finishing row `y - 1` is starting row `y`; past the last row every tile is scanned. */
  lemma CluesRow(g0: Cells, c0: set<Loc>, cs: set<Loc>, h: int, w: int, y: int)
    requires IsGrid(g0, h, w) && 0 <= y <= h
    requires if y < h then CluesBefore(g0, c0, cs, h, w, y, w) else CluesBefore(g0, c0, cs, h, w, y, 0)
    ensures if y < h then CluesBefore(g0, c0, cs, h, w, y + 1, 0)
      else forall l :: l in cs <==> l in c0 || (InBounds(h, w, l) && RebuiltClue(g0, h, w, l))
  {
  }

  /** One iteration of the `labelTiles_` scan at `(y, x)`: a mined tile bumps its
      neighbours' labels; a revealed open tile reports whether it is still a clue, that is,
      whether a neighbour is unrevealed. */
  method LabelAt(ghost g0: Cells, g: Cells, h: int, w: int, y: int, x: int) returns (r: Cells, clue: bool)
    requires LabelledBefore(g0, g, h, w, y, x) && InBounds(h, w, (y, x))
    ensures LabelledBefore(g0, r, h, w, y, x + 1)
    ensures clue == RebuiltClue(g0, h, w, (y, x))
  {
    var tile := g[y][x];
    r, clue := g, false;
    if tile.hasMine {
      r := AddAround(g, h, w, y, x, 1);
      LabelBump(g0, g, r, h, w, y, x);
    } else {
      if tile.isRevealed {
        var adjacentUnknown := CountAround(g, h, w, y, x, IsConcealed);
        CountAtSame(g0, g, Neighbors(h, w, y, x), IsConcealed);
        CountAtZero(g0, Neighbors(h, w, y, x), IsConcealed);
        clue := adjacentUnknown > 0;
      }
      LabelSkip(g0, g, h, w, y, x);
    }
  }

  // ---------------------------------------------------------------------------
  // Moving the first-move mine (`swapMine_`)

  /** The number of open tiles before `l` in row-major order. */
  function OpenBefore(g: Cells, h: int, w: int, l: Loc): nat
    requires IsGrid(g, h, w) && InBounds(h, w, l)
  {
    CountRows(g, l.0, IsOpen) + CountRow(g[l.0], l.1, IsOpen)
  }

  /** `t` is the open tile with exactly `k` open tiles before it, that is, the `(k + 1)`-th
      open tile in row-major order. */
  ghost predicate SwapTarget(g: Cells, h: int, w: int, k: int, t: Loc) {
    IsGrid(g, h, w) && InBounds(h, w, t) && !At(g, t).hasMine && OpenBefore(g, h, w, t) == k
  }

  /** The nested loops of `swapMine_` that look for its target: count the open tiles down
      from `k` in row-major order and stop at the open tile where the count drops below
      zero; none when there are at most `k` open tiles. */
  method FindOpen(g: Cells, h: int, w: int, k: int) returns (t: Option<Loc>)
    requires IsGrid(g, h, w) && 0 <= w && 0 <= k
    ensures t.Some? <==> k < Count(g, IsOpen)
    ensures t.Some? ==> SwapTarget(g, h, w, k, t.value)
  {
    var indexToSwap := k;
    for y := 0 to h
      invariant 0 <= indexToSwap == k - CountRows(g, y, IsOpen)
    {
      for x := 0 to w
        invariant 0 <= indexToSwap == k - CountRows(g, y, IsOpen) - CountRow(g[y], x, IsOpen)
      {
        if !g[y][x].hasMine {
          indexToSwap := indexToSwap - 1;
          if indexToSwap < 0 {
            OpenBeforeLess(g, h, w, (y, x));
            return Some((y, x));
          }
        }
      }
    }
    return None;
  }

  /** An open tile has fewer open tiles before it than there are open tiles. */
  lemma OpenBeforeLess(g: Cells, h: int, w: int, t: Loc)
    requires IsGrid(g, h, w) && InBounds(h, w, t) && !At(g, t).hasMine
    ensures OpenBefore(g, h, w, t) < Count(g, IsOpen)
  {
    CountRowMono(g[t.0], t.1 + 1, w, IsOpen);
    CountRowsMono(g, t.0 + 1, h, IsOpen);
  }

  /** Open tiles are numbered in row-major order without gaps or repeats. */
  lemma OpenBeforeOrder(g: Cells, h: int, w: int, a: Loc, b: Loc)
    requires IsGrid(g, h, w) && InBounds(h, w, a) && InBounds(h, w, b) && !At(g, a).hasMine
    requires Before(a, b.0, b.1)
    ensures OpenBefore(g, h, w, a) < OpenBefore(g, h, w, b)
  {
    if a.0 == b.0 {
      CountRowMono(g[a.0], a.1 + 1, b.1, IsOpen);
    } else {
      CountRowMono(g[a.0], a.1 + 1, w, IsOpen);
      CountRowsMono(g, a.0 + 1, b.0, IsOpen);
    }
  }

  /** The draw names one target at most: the `(k + 1)`-th open tile is unique. */
  lemma SwapTargetUnique(g: Cells, h: int, w: int, k: int, t1: Loc, t2: Loc)
    requires SwapTarget(g, h, w, k, t1) && SwapTarget(g, h, w, k, t2)
    ensures t1 == t2
  {
    if Before(t1, t2.0, t2.1) {
      OpenBeforeOrder(g, h, w, t1, t2);
    } else if Before(t2, t1.0, t1.1) {
      OpenBeforeOrder(g, h, w, t2, t1);
    }
  }

  /** Whether `l` holds a mine once the mine at `o` has moved to `t`. */
  function MineAfter(l: Loc, o: Loc, t: Loc, m: bool): bool {
    if l == o then false else if l == t then true else m
  }

  /** Tile `tile` at `l` once the mine at `o` has moved to `t`: the labels next to `t` grow
      by one and those next to `o` drop by one. */
  function Moved(tile: Tile, l: Loc, o: Loc, t: Loc): Tile {
    tile.(hasMine := MineAfter(l, o, t, tile.hasMine),
          adjacentMines := tile.adjacentMines + (if Adjacent(l, t) then 1 else 0) - (if Adjacent(l, o) then 1 else 0))
  }

  /** `g` is `g0` with the mine at `o` moved to `t`. */
  ghost predicate MovedMine(g0: Cells, g: Cells, h: int, w: int, o: Loc, t: Loc) {
    IsGrid(g0, h, w) && IsGrid(g, h, w) && InBounds(h, w, o) && InBounds(h, w, t) &&
    forall i, j :: 0 <= i < h && 0 <= j < w ==> g[i][j] == Moved(g0[i][j], (i, j), o, t)
  }

  /** The branch of `swapMine_` that has found its target `t`: put a mine on `t` and raise
      its neighbours' labels, then clear the mine at `o` and lower its neighbours' labels. */
  method MoveMine(g: Cells, h: int, w: int, o: Loc, t: Loc) returns (r: Cells)
    requires IsGrid(g, h, w) && InBounds(h, w, o) && InBounds(h, w, t)
    ensures MovedMine(g, r, h, w, o, t)
  {
    var g1 := Put(g, t, g[t.0][t.1].(hasMine := true));
    var g2: Cells := AddAround(g1, h, w, t.0, t.1, 1);
    var g3 := Put(g2, o, At(g2, o).(hasMine := false));
    r := AddAround(g3, h, w, o.0, o.1, -1);
    forall i, j | 0 <= i < h && 0 <= j < w ensures r[i][j] == Moved(g[i][j], (i, j), o, t) {
      var t1 := if (i, j) == t then g[i][j].(hasMine := true) else g[i][j];
      assert g1[i][j] == t1;
      var t2 := if Adjacent((i, j), t) then Shift(t1, 1) else t1;
      assert g2[i][j] == t2;
      var t3 := if (i, j) == o then t2.(hasMine := false) else t2;
      assert g3[i][j] == t3;
      assert r[i][j] == if Adjacent((i, j), o) then Shift(t3, -1) else t3;
    }
  }

  /** Moving a mine keeps the label of `(i, j)` equal to its number of mined neighbours. */
  lemma MovedLabelAt(g0: Cells, g: Cells, h: int, w: int, o: Loc, t: Loc, i: int, j: int)
    requires MovedMine(g0, g, h, w, o, t) && At(g0, o).hasMine && !At(g0, t).hasMine
    requires InBounds(h, w, (i, j)) && g0[i][j].adjacentMines == AdjMines(g0, h, w, (i, j))
    ensures g[i][j].adjacentMines == AdjMines(g, h, w, (i, j))
  {
    var ns := Neighbors(h, w, i, j);
    NeighborsWithin(g0, h, w, i, j);
    NeighborsWithin(g, h, w, i, j);
    NeighborsExact(h, w, i, j);
    var gm := Put(g0, t, At(g0, t).(hasMine := true));
    NeighborsWithin(gm, h, w, i, j);
    CountAtChange(g0, gm, ns, t, IsMine);
    CountAtChange(gm, g, ns, o, IsMine);
  }

  /** Moving a mine keeps a correctly labelled grid correctly labelled. */
  lemma MovedLabels(g0: Cells, g: Cells, h: int, w: int, o: Loc, t: Loc)
    requires MovedMine(g0, g, h, w, o, t) && At(g0, o).hasMine && !At(g0, t).hasMine
    requires Labelled(g0, h, w)
    ensures Labelled(g, h, w)
  {
    forall i, j | 0 <= i < h && 0 <= j < w ensures g[i][j].adjacentMines == AdjMines(g, h, w, (i, j)) {
      MovedLabelAt(g0, g, h, w, o, t, i, j);
    }
  }

  /** A property that ignores labels changes its count by what the move does at `o` and `t`. */
  lemma MovedCount(g0: Cells, g: Cells, h: int, w: int, o: Loc, t: Loc, p: Tile -> bool)
    requires MovedMine(g0, g, h, w, o, t) && o != t
    requires forall i, j :: 0 <= i < h && 0 <= j < w ==>
      p(g[i][j]) == p(g0[i][j].(hasMine := MineAfter((i, j), o, t, g0[i][j].hasMine)))
    ensures Count(g, p) == Count(g0, p)
      - (if p(At(g0, o)) then 1 else 0) + (if p(At(g0, o).(hasMine := false)) then 1 else 0)
      - (if p(At(g0, t)) then 1 else 0) + (if p(At(g0, t).(hasMine := true)) then 1 else 0)
  {
    var g1 := Put(g0, t, At(g0, t).(hasMine := true));
    var g2 := Put(g1, o, At(g0, o).(hasMine := false));
    CountPut(g0, t, At(g0, t).(hasMine := true), p);
    assert At(g1, o) == At(g0, o);
    CountPut(g1, o, At(g0, o).(hasMine := false), p);
    forall i, j | 0 <= i < h && 0 <= j < w ensures p(g2[i][j]) == p(g[i][j]) {
      assert g2[i][j] == g0[i][j].(hasMine := MineAfter((i, j), o, t, g0[i][j].hasMine));
    }
    CountSame(g2, g, h, w, p);
  }

  /** What `swapMine_` leaves with the draw `k`: with no open tile the grid `g0` unchanged,
      otherwise the mine of `o` moved to the `(k + 1)`-th open tile. */
  ghost predicate SwapOutcome(g0: Cells, g: Cells, h: int, w: int, o: Loc, k: int)
    requires IsGrid(g0, h, w) && IsGrid(g, h, w) && InBounds(h, w, o)
  {
    (Count(g0, IsOpen) == 0 ==> g == g0) &&
    (Count(g0, IsOpen) > 0 ==> !At(g, o).hasMine && exists t :: SwapTarget(g0, h, w, k, t) && MovedMine(g0, g, h, w, o, t))
  }

  /** The scan's answer settles the outcome of `swapMine_`: a target found for a draw
      below the number of open tiles moves the mine there; no open tile leaves the grid. */
  lemma SwapSettles(g0: Cells, g: Cells, h: int, w: int, o: Loc, k: int, target: Option<Loc>)
    requires IsGrid(g0, h, w) && InBounds(h, w, o) && 0 <= k
    requires Count(g0, IsOpen) > 0 ==> k < Count(g0, IsOpen)
    requires target.Some? <==> k < Count(g0, IsOpen)
    requires target.Some? ==> SwapTarget(g0, h, w, k, target.value) && MovedMine(g0, g, h, w, o, target.value)
    requires target.None? ==> g == g0
    ensures IsGrid(g, h, w) && SwapOutcome(g0, g, h, w, o, k)
  {
    if target.Some? {
      assert At(g, o) == Moved(At(g0, o), o, o, target.value);
    }
  }

  /** Moving the mine from `o` to an open `t` keeps the board consistent; on an untouched
      board in play it stays in play, since `o` becomes a concealed open tile and `t` stops
      being one. */
  lemma SwapKeeps(g0: Cells, g: Cells, h: int, w: int, mines: int, flags: int, cs: set<Loc>, left: int, o: Loc, t: Loc)
    requires Consistent(g0, h, w, mines, flags, cs)
    requires MovedMine(g0, g, h, w, o, t) && At(g0, o).hasMine && !At(g0, t).hasMine
    ensures Consistent(g, h, w, mines, flags, cs) && !At(g, o).hasMine
    ensures InPlay(g0, h, w, left) && Untouched(g0, h, w) ==> InPlay(g, h, w, left) && Untouched(g, h, w)
  {
    MovedCount(g0, g, h, w, o, t, IsMine);
    MovedCount(g0, g, h, w, o, t, IsFlagged);
    assert mines == Count(g, IsMine);
    assert flags == Count(g, IsFlagged);
    assert forall i, j :: 0 <= i < h && 0 <= j < w ==> !(g[i][j].isRevealed && g[i][j].isFlagged);
    assert forall l :: l in cs ==> InBounds(h, w, l) && At(g, l).isRevealed;
    if InPlay(g0, h, w, left) && Untouched(g0, h, w) {
      MovedCount(g0, g, h, w, o, t, IsHiddenSafe);
      assert left == Count(g, IsHiddenSafe);
      MovedLabels(g0, g, h, w, o, t);
    }
  }

  /** `new MinesweeperBoard(height, width, ...)`: `None` where the constructor throws. */
  method NewBoard(h: int, w: int) returns (b: Option<Board>)
    ensures b.None? <==> h < 1 || w < 1
    ensures b.Some? ==>
      fresh(b.value) && b.value.height == h && b.value.width == w && b.value.Valid() && b.value.Pristine()
  {
    if h < 1 || w < 1 {
      return None;
    }
    var board := new Board(h, w);
    return Some(board);
  }

  class Board {
    const height: int
    const width: int
    var grid: Cells
    var numMines: int
    var numFlags: int
    /** `null` until `placeMines_` runs; 0 here. */
    var tilesLeftToReveal: int
    var clues: set<Loc>

    /** What every operation keeps: a non-empty board in a consistent state. */
    ghost predicate Valid()
      reads this
    {
      height >= 1 && width >= 1 && Consistent(grid, height, width, numMines, numFlags, clues)
    }

    /** The state right after the constructor. */
    ghost predicate Pristine()
      reads this
    {
      IsGrid(grid, height, width) && numMines == 0 && numFlags == 0 && tilesLeftToReveal == 0 && clues == {} &&
      forall i, j :: 0 <= i < height && 0 <= j < width ==> grid[i][j] == FreshTile
    }

    /** A game in progress: labels are right, the reveal counter is the number of open
        tiles still concealed, and no mine has been revealed. */
    ghost predicate Playing()
      reads this
    {
      Valid() && InPlay(grid, height, width, tilesLeftToReveal)
    }

    /** The constructor once its `height < 1 || width < 1` check has passed. */
    constructor (h: int, w: int)
      requires h >= 1 && w >= 1
      ensures height == h && width == w
      ensures Valid() && Pristine()
    {
      height, width := h, w;
      tilesLeftToReveal := 0;
      clues := {};
      numMines, numFlags := 0, 0;
      var rows := NewCells(h, w);
      grid := rows;
      CountZero(rows, IsMine);
      CountZero(rows, IsFlagged);
    }

    /** `init(density)` without the DOM: `placeMines_` with `m` mines and the draws `rs`,
        then `labelTiles_`. On a fresh board this starts a game in which nothing is revealed
        and no clue is known. */
    method Init(m: int, rs: seq<real>)
      requires Valid() && 0 <= m <= height * width && |rs| == height * width && AreDraws(rs)
      modifies this`grid, this`numMines, this`tilesLeftToReveal, this`clues
      ensures Valid() && numMines == m && numFlags == old(numFlags) && tilesLeftToReveal == height * width - m
      ensures forall i, j :: 0 <= i < height && 0 <= j < width ==>
        grid[i][j].hasMine == Cell(Shuffled(FirstTrue(height * width, m), rs), height, width, i, j)
      ensures old(Pristine()) ==> Playing() && Untouched(grid, height, width) && clues == {}
    {
      ghost var g0: Cells, c0 := grid, clues;
      ghost var pristine := Pristine();
      PlaceMines(m, rs);
      ghost var g1: Cells := grid;
      LabelTiles();
      InitFacts(g0, g1, grid, height, width, Shuffled(FirstTrue(height * width, m), rs), m, pristine, c0, clues);
    }

    /** `placeMines_` with the mine count `Math.floor(density * numTiles)` given as `m`, and
        `rs` the values `Math.random()` returns to `shuffle`: tile `(y, x)` takes entry
        `y * width + x` of the shuffled mask. */
    method PlaceMines(m: int, rs: seq<real>)
      requires Valid() && 0 <= m <= height * width
      requires |rs| == height * width && AreDraws(rs)
      modifies this`grid, this`numMines, this`tilesLeftToReveal
      ensures Valid() && numMines == m && tilesLeftToReveal == height * width - m
      ensures numFlags == old(numFlags) && clues == old(clues)
      ensures MinedFrom(old(grid), grid, height, width, Shuffled(FirstTrue(height * width, m), rs))
    {
      var numTiles := height * width;
      numMines := m;
      tilesLeftToReveal := numTiles - m;
      var mask := MinePositions(numTiles, m, rs);
      ghost var g0: Cells := grid;
      grid := MapMask(grid, height, width, mask);
      CountMask(grid, height, width, mask);
      CountSame(g0, grid, height, width, IsFlagged);
    }

    /** `labelTiles_`: each mine adds one to the label of every neighbour, and each revealed
        open tile with an unrevealed neighbour is put back into `clues_`. */
    method LabelTiles()
      requires Valid()
      modifies this`grid, this`clues
      ensures Valid()
      ensures numMines == old(numMines) && numFlags == old(numFlags) && tilesLeftToReveal == old(tilesLeftToReveal)
      ensures LabelledFrom(old(grid), grid, height, width)
      ensures forall l :: l in clues <==>
        l in old(clues) || (InBounds(height, width, l) && RebuiltClue(old(grid), height, width, l))
    {
      ghost var g0: Cells := grid;
      ghost var c0 := clues;
      grid, clues := LabelScan(grid, height, width, clues);
      CountSame(g0, grid, height, width, IsMine);
      CountSame(g0, grid, height, width, IsFlagged);
      forall l | l in clues ensures InBounds(height, width, l) && At(grid, l).isRevealed {
        if l !in c0 {
          assert RebuiltClue(g0, height, width, l);
        }
      }
    }
  
    /** `aNewCavernHasBeenDiscovered_(y, x, updatedLocations)`; `swept` is what it pushes
        onto `updatedLocations`. A concealed tile is unflagged (`numFlags_` drops), revealed
        (`tilesLeftToReveal_` drops), joins `clues_` when its label is positive, and a tile
        with label 0 and no mine recurses into every neighbour. The fill reveals each tile
        at most once, expands only from zero tiles, and leaves every swept zero tile with
        all neighbours revealed. */
    method Discover(y: int, x: int) returns (swept: seq<Loc>)
      requires Valid() && InBounds(height, width, (y, x))
      modifies this`grid, this`numFlags, this`tilesLeftToReveal, this`clues
      decreases Count(grid, IsConcealed), 0
      ensures Valid()
      ensures Filled(old(grid), grid, height, width, old(clues), clues, [], swept)
      ensures swept == [] <==> old(grid[y][x]).isRevealed
      ensures swept != [] ==> swept[0] == (y, x)
      ensures tilesLeftToReveal == old(tilesLeftToReveal) - |swept|
      ensures Count(grid, IsConcealed) == old(Count(grid, IsConcealed)) - |swept|
    {
      var tile := grid[y][x];
      if tile.isRevealed {
        assert Sweep(grid, grid, height, width, [], true);
        return [];
      }
      ghost var g0, f0, c0 := grid, numFlags, clues;
      if tile.isFlagged {
        numFlags := numFlags - 1;
      }
      grid := Put(grid, (y, x), Uncover(tile, true));
      tilesLeftToReveal := tilesLeftToReveal - 1;
      swept := [(y, x)];
      if tile.adjacentMines > 0 {
        clues := clues + {(y, x)};
      }
      UncoverConsistent(g0, grid, height, width, numMines, f0, numFlags, c0, clues, (y, x));
      if tile.adjacentMines == 0 && !tile.hasMine {
        ghost var g1 := grid;
        var more := DiscoverAround(y, x);
        DiscoverJoin(g0, g1, grid, height, width, (y, x), more, c0, clues);
        swept := swept + more;
      }
    }

    /** The `forEachNeighbor_` loop of the fill around the revealed zero tile `(y, x)`. */
    method DiscoverAround(y: int, x: int) returns (swept: seq<Loc>)
      requires Valid() && InBounds(height, width, (y, x))
      requires grid[y][x].isRevealed && IsZeroSafe(grid[y][x])
      modifies this`grid, this`numFlags, this`tilesLeftToReveal, this`clues
      decreases Count(grid, IsConcealed), 1
      ensures Valid()
      ensures Filled(old(grid), grid, height, width, old(clues), clues, [(y, x)], swept)
      ensures Closed(grid, height, width, (y, x))
      ensures tilesLeftToReveal == old(tilesLeftToReveal) - |swept|
      ensures Count(grid, IsConcealed) == old(Count(grid, IsConcealed)) - |swept|
    {
      var ns := Neighbors(height, width, y, x);
      ghost var g1, c1 := grid, clues;
      swept := [];
      assert Sweep(grid, grid, height, width, [], true);
      assert [(y, x)] + [] == [(y, x)];
      for k := 0 to |ns|
        invariant Valid()
        invariant Filled(g1, grid, height, width, c1, clues, [(y, x)], swept)
        invariant tilesLeftToReveal == old(tilesLeftToReveal) - |swept|
        invariant Count(grid, IsConcealed) == Count(g1, IsConcealed) - |swept|
        invariant AllWithin(grid, ns) && AllRevealed(grid, ns[..k])
      {
        ghost var gk, sk, ck := grid, swept, clues;
        assert ns[k] in ns;
        var more := Discover(ns[k].0, ns[k].1);
        AroundStep(g1, gk, grid, height, width, (y, x), ns[k], sk, more, c1, ck, clues);
        RevealedStep(gk, grid, height, width, ns, k, more, true);
        swept := swept + more;
      }
      assert ns[..|ns|] == ns;
    }
  
    /** `flag([y, x])`: on a concealed tile, toggle the flag and move `numFlags_` by one; a
        revealed tile is left alone. */
    method Flag(y: int, x: int)
      requires Valid() && InBounds(height, width, (y, x))
      modifies this`grid, this`numFlags
      ensures Valid()
      ensures old(grid[y][x]).isRevealed ==> grid == old(grid) && numFlags == old(numFlags)
      ensures !old(grid[y][x]).isRevealed ==>
        grid == Put(old(grid), (y, x), old(grid[y][x]).(isFlagged := !old(grid[y][x]).isFlagged)) &&
        numFlags == old(numFlags) + if old(grid[y][x]).isFlagged then -1 else 1
      ensures old(Playing()) ==> Playing()
    {
      var tile := grid[y][x];
      if !tile.isRevealed {
        ghost var g0, f0 := grid, numFlags;
        grid := Put(grid, (y, x), tile.(isFlagged := !tile.isFlagged));
        numFlags := numFlags + (if !tile.isFlagged then 1 else -1);
        FlagKeeps(g0, grid, height, width, numMines, f0, numFlags, clues, (y, x));
        if InPlay(g0, height, width, tilesLeftToReveal) {
          FlagInPlay(g0, grid, height, width, tilesLeftToReveal, (y, x), tile.(isFlagged := !tile.isFlagged));
        }
      }
    }
  
    /** `swapMine_(originalY, originalX)`: draw `indexToSwap` from `rand(numOpenTiles - 1)`,
        scan the tiles row by row counting open ones down, and move the mine of the original
        tile onto the open tile where the count drops below zero. With no open tile the scan
        finds nothing and the board is left as it was. */
    method SwapMine(oy: int, ox: int, r: real)
      requires Valid() && InBounds(height, width, (oy, ox)) && grid[oy][ox].hasMine && IsDraw(r)
      modifies this`grid
      ensures Valid()
      ensures SwapOutcome(old(grid), grid, height, width, (oy, ox), old(Rand(height * width - numMines - 1, r)))
      ensures old(InPlay(grid, height, width, tilesLeftToReveal)) && old(Untouched(grid, height, width)) ==>
        InPlay(grid, height, width, tilesLeftToReveal) && Untouched(grid, height, width)
    {
      var indexToSwap := Rand(height * width - numMines - 1, r);
      CountSplit(grid, height, width);
      var target := FindOpen(grid, height, width, indexToSwap);
      ghost var g0 := grid;
      if target.Some? {
        grid := MoveMine(grid, height, width, (oy, ox), target.value);
        SwapKeeps(g0, grid, height, width, numMines, numFlags, clues, tilesLeftToReveal, (oy, ox), target.value);
      }
      SwapSettles(g0, grid, height, width, (oy, ox), indexToSwap, target);
    }
  
    /** `reveal([y, x], isFirstMove)`, with `r` the value `Math.random()` returns to `rand`
        when a first move hits a mine. A revealed or flagged tile is ignored; a mine ends
        the game unless it is the first move, which moves the mine away first; otherwise
        the fill runs and the game is won when no open tile is left to reveal. */
    method Reveal(y: int, x: int, isFirstMove: bool, r: real)
        returns (res: RevealResult, ghost dealt: Cells, ghost swept: seq<Loc>)
      requires Valid() && InBounds(height, width, (y, x)) && IsDraw(r)
      modifies this`grid, this`numFlags, this`tilesLeftToReveal, this`clues
      ensures Valid()
      ensures old(grid[y][x].isRevealed || grid[y][x].isFlagged) ==>
        res == RevealResult(false, None) && grid == old(grid) && numFlags == old(numFlags) &&
        tilesLeftToReveal == old(tilesLeftToReveal) && clues == old(clues)
      ensures old(!grid[y][x].isRevealed && !grid[y][x].isFlagged && grid[y][x].hasMine) && !isFirstMove ==>
        res == RevealResult(true, Some(false)) && grid == Put(old(grid), (y, x), old(grid[y][x]).(isRevealed := true)) &&
        numFlags == old(numFlags) && tilesLeftToReveal == old(tilesLeftToReveal) && clues == old(clues)
      ensures old(!grid[y][x].isRevealed && !grid[y][x].isFlagged) && (isFirstMove || !old(grid[y][x].hasMine)) ==>
        res == RevealResult(tilesLeftToReveal == 0, Some(tilesLeftToReveal == 0)) && grid[y][x].isRevealed &&
        IsGrid(dealt, height, width) &&
        (old(grid[y][x].hasMine) ==> SwapOutcome(old(grid), dealt, height, width, (y, x), old(Rand(height * width - numMines - 1, r)))) &&
        (!old(grid[y][x].hasMine) ==> dealt == old(grid)) &&
        Filled(dealt, grid, height, width, old(clues), clues, [], swept) && swept != [] && swept[0] == (y, x) &&
        tilesLeftToReveal == old(tilesLeftToReveal) - |swept|
      ensures old(!grid[y][x].isRevealed && !grid[y][x].isFlagged && grid[y][x].hasMine) && isFirstMove &&
              old(Count(grid, IsOpen)) == 0 ==>
        grid[y][x].hasMine
      ensures old(!grid[y][x].isRevealed && !grid[y][x].isFlagged && Playing()) &&
              (old(grid[y][x].hasMine) ==> isFirstMove && old(Untouched(grid, height, width)) && old(Count(grid, IsOpen)) > 0) ==>
        Playing() && (res.gameOver <==> AllOpenRevealed(grid, height, width))
    {
      dealt, swept := grid, [];
      var tile := grid[y][x];
      if tile.isRevealed || tile.isFlagged {
        return RevealResult(false, None), dealt, swept;
      }
      if tile.hasMine {
        if isFirstMove {
          SwapMine(y, x, r);
        } else {
          ghost var g0 := grid;
          grid := Put(grid, (y, x), tile.(isRevealed := true));
          ShowMine(g0, grid, height, width, numMines, numFlags, clues, (y, x));
          return RevealResult(true, Some(false)), dealt, swept;
        }
      }
      dealt := grid;
      res, swept := RevealFill(y, x);
    }

    /** The end of `reveal` on a concealed tile: the fill from `(y, x)`, which sweeps
        `swept`, and the outcome `gameOver = win = (tilesLeftToReveal_ === 0)`; the fill keeps
        a game in progress when it starts on an open tile, and the game is then won exactly
        when every open tile is revealed. */
    method RevealFill(y: int, x: int) returns (res: RevealResult, ghost swept: seq<Loc>)
      requires Valid() && InBounds(height, width, (y, x)) && !grid[y][x].isRevealed
      modifies this`grid, this`numFlags, this`tilesLeftToReveal, this`clues
      ensures Valid() && grid[y][x].isRevealed && grid[y][x].hasMine == old(grid[y][x].hasMine)
      ensures Filled(old(grid), grid, height, width, old(clues), clues, [], swept) && swept != [] && swept[0] == (y, x)
      ensures tilesLeftToReveal == old(tilesLeftToReveal) - |swept|
      ensures res == RevealResult(tilesLeftToReveal == 0, Some(tilesLeftToReveal == 0))
      ensures old(InPlay(grid, height, width, tilesLeftToReveal)) && !old(grid[y][x].hasMine) ==>
        InPlay(grid, height, width, tilesLeftToReveal) && (res.gameOver <==> AllOpenRevealed(grid, height, width))
    {
      ghost var g1, c1, left1 := grid, clues, tilesLeftToReveal;
      var updatedLocations := Discover(y, x);
      swept := updatedLocations;
      var isWinner := tilesLeftToReveal == 0;
      res := RevealResult(isWinner, Some(isWinner));
      if InPlay(g1, height, width, left1) && !g1[y][x].hasMine {
        FillKeepsPlay(g1, grid, height, width, c1, clues, updatedLocations, left1);
        CountZero(grid, IsHiddenSafe);
      }
    }

    /** `aiFlagLocations()`: one pass over the clues in flag mode, then `flag` on every
        location collected, in an unspecified order; it returns how many there were.
        `FlagTargetsPlay` tells what the new grid means for a game in progress. */
    method AiFlagLocations() returns (n: nat)
      requires Valid()
      modifies this`grid, this`numFlags, this`clues
      ensures Valid()
      ensures forall l :: l in clues <==> l in old(clues) && Live(old(grid), height, width, l)
      ensures grid == WithFlags(old(grid), height, width, Targets(old(grid), height, width, old(clues), false))
      ensures n == |Targets(old(grid), height, width, old(clues), false)| && numFlags == old(numFlags) + n
    {
      ghost var g0, c0 := grid, clues;
      var kept, flaggableLocations := ScanClues(grid, height, width, clues, false);
      clues := kept;
      TargetsUnknown(g0, height, width, c0, false);
      FlagAll(flaggableLocations);
      n := |flaggableLocations|;
    }

    /** The second loop of `aiFlagLocations`: `flag` on each location of `s`, all of them
        unknown tiles, in an unspecified order. */
    method FlagAll(s: set<Loc>)
      requires Valid() && forall l :: l in s ==> InBounds(height, width, l) && IsUnknown(At(grid, l))
      modifies this`grid, this`numFlags
      ensures Valid()
      ensures grid == WithFlags(old(grid), height, width, s) && numFlags == old(numFlags) + |s|
    {
      ghost var g0 := grid;
      var rest := s;
      ghost var order: seq<Loc> := [];
      while rest != {}
        invariant Visited(s, order, rest)
        invariant Valid()
        invariant grid == FlagEach(g0, height, width, order)
        invariant numFlags == old(numFlags) + |s| - |rest|
        decreases |rest|
      {
        var l :| l in rest;
        VisitedStep(s, order, rest, l);
        assert (order + [l])[..|order|] == order;
        FlagEachAt(g0, height, width, order, l);
        Flag(l.0, l.1);
        rest := rest - {l};
        order := order + [l];
      }
      VisitedEnd(s, order, rest);
      FlagEachAdds(g0, height, width, order);
    }

    /** `aiFindSaturatedLocations()`: one pass over the clues in saturated mode; it returns
        the locations collected and changes only the clue set. When every flag is right, none
        of them holds a mine. */
    method AiFindSaturatedLocations() returns (saturatedLocations: set<Loc>)
      requires Valid()
      modifies this`clues
      ensures Valid()
      ensures forall l :: l in clues <==> l in old(clues) && Live(grid, height, width, l)
      ensures saturatedLocations == Targets(grid, height, width, old(clues), true)
      ensures Playing() && FlagsRight(grid, height, width) ==>
        forall l :: l in saturatedLocations ==> InBounds(height, width, l) && IsUnknown(At(grid, l)) && !At(grid, l).hasMine
    {
      ghost var c0 := clues;
      clues, saturatedLocations := ScanClues(grid, height, width, clues, true);
      if Playing() && FlagsRight(grid, height, width) {
        SaturatedTargetsAreSafe(grid, height, width, c0);
      }
    }
  }
}
