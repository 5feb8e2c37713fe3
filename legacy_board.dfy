/** The older, self-contained board of main.js: the `Board` class, whose `randomize`
    places `Math.ceil(density * numTiles)` mines by drawing random tiles until enough of
    them hold a mine, never on the optional safe tile; its flood fill, which leaves flags
    alone; and the top-level `reveal` and `flag` handlers with their `firstMove` and
    `gameInProgress` flags. This variant keeps no flag counter and no clue set. */
module LegacyBoard {
  import opened Grid
  import opened Util
  import MB = MinesweeperBoard

  /** `Tile.equals(other)`: the four fields agree, which is equality of tiles. */
  function TileEquals(a: Tile, b: Tile): (r: bool)
    ensures r <==> a == b
  {
    a.adjacentMines == b.adjacentMines && a.hasMine == b.hasMine &&
    a.isFlagged == b.isFlagged && a.isRevealed == b.isRevealed
  }

  /** `rand(n)` of main.js: `Math.floor(Math.random() * n)`, an integer in [0, n). */
  function RandBelow(n: int, r: real): (v: int)
    requires IsDraw(r)
    ensures n >= 1 ==> 0 <= v < n
  {
    if n >= 1 then
      assert n as real * r < n as real * 1.0;
      (n as real * r).Floor
    else
      (n as real * r).Floor
  }

  /** `Math.ceil(x)`, on an exact real: the least integer not below `x`. */
  function Ceil(x: real): (c: int)
    ensures x <= c as real < x + 1.0
  {
    -((-x).Floor)
  }

  /** Pairs of values `Math.random()` may return: one for `rand(height)`, one for
      `rand(width)`. */
  predicate ArePairDraws(ds: seq<(real, real)>) {
    forall k :: 0 <= k < |ds| ==> IsDraw(ds[k].0) && IsDraw(ds[k].1)
  }

  /** The tile a pair of draws names: `[rand(height), rand(width)]`. */
  function Drawn(h: int, w: int, d: (real, real)): (l: Loc)
    requires IsDraw(d.0) && IsDraw(d.1)
    ensures h >= 1 && w >= 1 ==> InBounds(h, w, l)
  {
    (RandBelow(h, d.0), RandBelow(w, d.1))
  }

  /** `y === safeY && x === safeX`: never true when no safe tile is given (`null`). */
  predicate IsSafe(safe: MB.Option<Loc>, l: Loc) {
    safe.Some? && safe.value == l
  }

  /** The number of tiles `randomize` may mine: all of them but an in-bounds safe tile. */
  function Room(h: int, w: int, safe: MB.Option<Loc>): int {
    h * w - if safe.Some? && InBounds(h, w, safe.value) then 1 else 0
  }

  /** The rejection loop of `randomize` on the draws `ds`, while `need` mines are still to
      be placed: each pair of draws names a tile; the safe tile and mined tiles are passed
      over, any other tile takes a mine. The result is the grid and the number of mines
      still to place when the loop stops, either because none is left to place or because
      the draws are used up (the loop itself would go on drawing). */
  function Scatter(g: Cells, h: int, w: int, safe: MB.Option<Loc>, need: int, ds: seq<(real, real)>): (r: (Cells, int))
    requires IsGrid(g, h, w) && h >= 1 && w >= 1 && ArePairDraws(ds)
    ensures IsGrid(r.0, h, w)
    decreases |ds|
  {
    if need <= 0 || ds == [] then (g, need)
    else
      var l := Drawn(h, w, ds[0]);
      assert ArePairDraws(ds[1..]) by {
        assert forall k :: 0 <= k < |ds| - 1 ==> ds[1..][k] == ds[k + 1];
      }
      if IsSafe(safe, l) || At(g, l).hasMine then Scatter(g, h, w, safe, need, ds[1..])
      else Scatter(Put(g, l, At(g, l).(hasMine := true)), h, w, safe, need - 1, ds[1..])
  }

  /** Every successful draw places one mine: the mines placed and the mines still to place
      add up to what was asked for. */
  lemma {:induction false} ScatterCount(g: Cells, h: int, w: int, safe: MB.Option<Loc>, need: int, ds: seq<(real, real)>)
    requires IsGrid(g, h, w) && h >= 1 && w >= 1 && ArePairDraws(ds) && need >= 0
    ensures var r := Scatter(g, h, w, safe, need, ds);
      0 <= r.1 <= need && Count(r.0, IsMine) == Count(g, IsMine) + need - r.1
    decreases |ds|
  {
    if need > 0 && ds != [] {
      var l := Drawn(h, w, ds[0]);
      assert ArePairDraws(ds[1..]) by {
        assert forall k :: 0 <= k < |ds| - 1 ==> ds[1..][k] == ds[k + 1];
      }
      if IsSafe(safe, l) || At(g, l).hasMine {
        ScatterCount(g, h, w, safe, need, ds[1..]);
      } else {
        var t := At(g, l).(hasMine := true);
        CountPut(g, l, t, IsMine);
        ScatterCount(Put(g, l, t), h, w, safe, need - 1, ds[1..]);
      }
    }
  }

  /** The loop changes nothing but mines, only adds mines, and never mines the safe tile. */
  lemma {:induction false} ScatterAt(g: Cells, h: int, w: int, safe: MB.Option<Loc>, need: int, ds: seq<(real, real)>, l: Loc)
    requires IsGrid(g, h, w) && h >= 1 && w >= 1 && ArePairDraws(ds) && InBounds(h, w, l)
    ensures var t := At(Scatter(g, h, w, safe, need, ds).0, l);
      t == At(g, l).(hasMine := t.hasMine) && (At(g, l).hasMine ==> t.hasMine) &&
      (IsSafe(safe, l) ==> t.hasMine == At(g, l).hasMine)
    decreases |ds|
  {
    if need > 0 && ds != [] {
      var c := Drawn(h, w, ds[0]);
      assert ArePairDraws(ds[1..]) by {
        assert forall k :: 0 <= k < |ds| - 1 ==> ds[1..][k] == ds[k + 1];
      }
      if IsSafe(safe, c) || At(g, c).hasMine {
        ScatterAt(g, h, w, safe, need, ds[1..], l);
      } else {
        ScatterAt(Put(g, c, At(g, c).(hasMine := true)), h, w, safe, need - 1, ds[1..], l);
      }
    }
  }

  /** A grid with an open tile has at most `h * w - 1` mines. */
  lemma OpenTileBound(g: Cells, h: int, w: int, l: Loc)
    requires IsGrid(g, h, w) && InBounds(h, w, l) && !At(g, l).hasMine
    ensures Count(g, IsMine) <= h * w - 1
  {
    CountSplit(g, h, w);
    CountZero(g, IsOpen);
  }

  /** When more mines are asked for than tiles may still take one, no sequence of draws
      ever completes the loop: some mine is always left to place. */
  lemma ScatterBlocked(g: Cells, h: int, w: int, safe: MB.Option<Loc>, need: int, ds: seq<(real, real)>)
    requires IsGrid(g, h, w) && h >= 1 && w >= 1 && ArePairDraws(ds)
    requires safe.Some? && InBounds(h, w, safe.value) ==> !At(g, safe.value).hasMine
    requires need > Room(h, w, safe) - Count(g, IsMine)
    ensures Scatter(g, h, w, safe, need, ds).1 > 0
  {
    var r := Scatter(g, h, w, safe, need, ds);
    CountSplit(g, h, w);
    CountSplit(r.0, h, w);
    if safe.Some? && InBounds(h, w, safe.value) {
      OpenTileBound(g, h, w, safe.value);
      ScatterAt(g, h, w, safe, need, ds, safe.value);
      OpenTileBound(r.0, h, w, safe.value);
    }
    ScatterCount(g, h, w, safe, need, ds);
  }

  /** When every free tile (open, not the safe tile) is named by some draw and no more
      mines are asked for than tiles may still take one, the loop places them all. */
  lemma {:induction false} ScatterFinishes(g: Cells, h: int, w: int, safe: MB.Option<Loc>, need: int, ds: seq<(real, real)>)
    requires IsGrid(g, h, w) && h >= 1 && w >= 1 && ArePairDraws(ds)
    requires safe.Some? && InBounds(h, w, safe.value) ==> !At(g, safe.value).hasMine
    requires need <= Room(h, w, safe) - Count(g, IsMine)
    requires forall l :: InBounds(h, w, l) && !At(g, l).hasMine && !IsSafe(safe, l) ==>
      exists k :: 0 <= k < |ds| && Drawn(h, w, ds[k]) == l
    ensures Scatter(g, h, w, safe, need, ds).1 <= 0
    decreases |ds|
  {
    if need <= 0 {
    } else if ds == [] {
      FullyMined(g, h, w, safe);
    } else {
      var l := Drawn(h, w, ds[0]);
      var tail := ds[1..];
      assert ArePairDraws(tail) by {
        assert forall k :: 0 <= k < |ds| - 1 ==> tail[k] == ds[k + 1];
      }
      var g1 := if IsSafe(safe, l) || At(g, l).hasMine then g else Put(g, l, At(g, l).(hasMine := true));
      if g1 != g {
        CountPut(g, l, At(g, l).(hasMine := true), IsMine);
      }
      forall c | InBounds(h, w, c) && !At(g1, c).hasMine && !IsSafe(safe, c)
        ensures exists k :: 0 <= k < |tail| && Drawn(h, w, tail[k]) == c
      {
        assert !At(g, c).hasMine && c != l;
        var k :| 0 <= k < |ds| && Drawn(h, w, ds[k]) == c;
        assert k != 0 && tail[k - 1] == ds[k];
      }
      ScatterFinishes(g1, h, w, safe, if g1 == g then need else need - 1, tail);
    }
  }

  /** A grid whose only open tile can be the safe tile holds at least `Room` mines. */
  lemma FullyMined(g: Cells, h: int, w: int, safe: MB.Option<Loc>)
    requires IsGrid(g, h, w) && h >= 1 && w >= 1
    requires forall l :: InBounds(h, w, l) && !At(g, l).hasMine ==> IsSafe(safe, l)
    ensures Count(g, IsMine) >= Room(h, w, safe)
  {
    CountSplit(g, h, w);
    if safe.Some? && InBounds(h, w, safe.value) {
      forall i, j | 0 <= i < |g| && 0 <= j < |g[i]| && (i, j) != safe.value ensures !IsOpen(g[i][j]) {
        assert !IsSafe(safe, (i, j));
      }
      CountAtMostOne(g, safe.value, IsOpen);
    } else {
      forall i, j | 0 <= i < h && 0 <= j < w ensures !IsOpen(g[i][j]) {
        assert !IsSafe(safe, (i, j));
      }
      CountZero(g, IsOpen);
    }
  }

  /** `i / n` as a real number. */
  function Frac(i: int, n: int): real
    requires n != 0
  {
    i as real / n as real
  }

  /** `i / n` is a draw that `rand(n)` turns into `i`. */
  lemma DrawOf(n: int, i: int)
    requires 0 <= i < n
    ensures IsDraw(Frac(i, n)) && RandBelow(n, Frac(i, n)) == i
  {
    assert n as real * Frac(i, n) == i as real;
  }

  /** The draws naming the tiles of row `i` from left to right. */
  function RowDraws(h: int, w: int, i: int): (ds: seq<(real, real)>)
    requires 0 <= i < h && w >= 1
    ensures |ds| == w && ArePairDraws(ds)
    ensures forall j :: 0 <= j < w ==> Drawn(h, w, ds[j]) == (i, j)
  {
    DrawOf(h, i);
    assert forall j :: 0 <= j < w ==> IsDraw(Frac(j, w)) && RandBelow(w, Frac(j, w)) == j by {
      forall j | 0 <= j < w ensures IsDraw(Frac(j, w)) && RandBelow(w, Frac(j, w)) == j {
        DrawOf(w, j);
      }
    }
    seq(w, j requires 0 <= j < w => (Frac(i, h), Frac(j, w)))
  }

  /** The draws naming the tiles of the first `n` rows in row-major order. */
  function TileDraws(h: int, w: int, n: int): (ds: seq<(real, real)>)
    requires 0 <= n <= h && w >= 1
    ensures |ds| == n * w && ArePairDraws(ds)
  {
    if n == 0 then []
    else
      var a, b := TileDraws(h, w, n - 1), RowDraws(h, w, n - 1);
      assert forall k :: |a| <= k < |a| + |b| ==> (a + b)[k] == b[k - |a|];
      assert n * w == (n - 1) * w + w;
      a + b
  }

  /** Every tile of the first `n` rows is named by one of `TileDraws(h, w, n)`. */
  lemma {:induction false} TileDrawsCover(h: int, w: int, n: int, l: Loc)
    requires 0 <= n <= h && w >= 1 && 0 <= l.0 < n && 0 <= l.1 < w
    ensures exists k :: 0 <= k < |TileDraws(h, w, n)| && Drawn(h, w, TileDraws(h, w, n)[k]) == l
  {
    var a, b := TileDraws(h, w, n - 1), RowDraws(h, w, n - 1);
    assert TileDraws(h, w, n) == a + b;
    if l.0 == n - 1 {
      assert (a + b)[|a| + l.1] == b[l.1];
    } else {
      TileDrawsCover(h, w, n - 1, l);
      var k :| 0 <= k < |a| && Drawn(h, w, a[k]) == l;
      assert (a + b)[k] == a[k];
    }
  }

  /** With the mine count capped to the tiles that may take a mine, the deal can always
      finish: the draws that visit every tile once complete it. */
  lemma CappedDealFinishes(h: int, w: int, safe: MB.Option<Loc>, m: int)
    requires h >= 1 && w >= 1 && m <= Room(h, w, safe)
    ensures Scatter(Blank(h, w), h, w, safe, m, TileDraws(h, w, h)).1 <= 0
  {
    var b := Blank(h, w);
    BlankCount(h, w, IsMine);
    forall l | InBounds(h, w, l) && !At(b, l).hasMine && !IsSafe(safe, l)
      ensures exists k :: 0 <= k < |TileDraws(h, w, h)| && Drawn(h, w, TileDraws(h, w, h)[k]) == l
    {
      TileDrawsCover(h, w, h, l);
    }
    ScatterFinishes(b, h, w, safe, m, TileDraws(h, w, h));
  }

  /** A 2 x 2 board at density 0.95 asks for `Math.ceil(3.8) == 4` mines; a first click on
      `(0, 0)` leaves three tiles that may take one, so the re-randomisation never
      finishes, whatever the draws. */
  lemma FullBoardRedealHangs(ds: seq<(real, real)>)
    requires ArePairDraws(ds)
    ensures Ceil(0.95 * (2 * 2) as real) == 4 && Room(2, 2, MB.Some((0, 0))) == 3
    ensures Scatter(Blank(2, 2), 2, 2, MB.Some((0, 0)), Ceil(0.95 * (2 * 2) as real), ds).1 > 0
  {
    BlankCount(2, 2, IsMine);
    ScatterBlocked(Blank(2, 2), 2, 2, MB.Some((0, 0)), 4, ds);
  }

  /** What `labelTiles_` leaves: every label raised by the tile's number of mined
      neighbours. */
  ghost function WithLabels(g: Cells, h: int, w: int): (r: Cells)
    requires IsGrid(g, h, w)
    ensures IsGrid(r, h, w)
    ensures forall i, j :: 0 <= i < h && 0 <= j < w ==> r[i][j] == Shift(g[i][j], AdjMines(g, h, w, (i, j)))
  {
    seq(h, i requires 0 <= i < h => LabelledRow(g, h, w, i))
  }

  /** Row `i` of `WithLabels(g, h, w)`. */
  ghost function LabelledRow(g: Cells, h: int, w: int, i: int): (row: seq<Tile>)
    requires IsGrid(g, h, w) && 0 <= i < h
    ensures |row| == w && forall j :: 0 <= j < w ==> row[j] == Shift(g[i][j], AdjMines(g, h, w, (i, j)))
  {
    seq(|g[i]|, j requires 0 <= j < |g[i]| => Shift(g[i][j], AdjMines(g, h, w, (i, j))))
  }

  /** A finished `randomize`: after labelling, the safe tile holds no mine and nothing is
      revealed or flagged; with `m >= 0` mines asked for, exactly `m` tiles hold a mine,
      every label counts its mined neighbours, and every open tile is still to be revealed. */
  lemma Settled(h: int, w: int, safe: MB.Option<Loc>, m: int, ds: seq<(real, real)>, g1: Cells, g: Cells)
    requires h >= 1 && w >= 1 && ArePairDraws(ds)
    requires Scatter(Blank(h, w), h, w, safe, m, ds).1 <= 0 && g1 == Scatter(Blank(h, w), h, w, safe, m, ds).0
    requires g == WithLabels(g1, h, w)
    ensures Dealt(g, h, w, safe)
    ensures m >= 0 ==> Count(g, IsMine) == m && MB.InPlay(g, h, w, h * w - m)
  {
    if m >= 0 {
      ScatterDeals(h, w, safe, m, ds, g1);
      LabelledDeal(g1, g, h, w, safe, m);
    } else {
      ScatterFresh(h, w, safe, m, ds, g1);
      LabelsDealt(g1, g, h, w, safe);
    }
  }

  /** A finished loop from a blank grid has placed exactly `m` mines. */
  lemma ScatterDeals(h: int, w: int, safe: MB.Option<Loc>, m: int, ds: seq<(real, real)>, g1: Cells)
    requires h >= 1 && w >= 1 && ArePairDraws(ds) && m >= 0
    requires Scatter(Blank(h, w), h, w, safe, m, ds).1 <= 0 && g1 == Scatter(Blank(h, w), h, w, safe, m, ds).0
    ensures IsGrid(g1, h, w) && Count(g1, IsMine) == m
    ensures forall i, j :: 0 <= i < h && 0 <= j < w ==>
      g1[i][j].adjacentMines == 0 && !g1[i][j].isRevealed && !g1[i][j].isFlagged
    ensures safe.Some? && InBounds(h, w, safe.value) ==> !At(g1, safe.value).hasMine
  {
    ScatterFresh(h, w, safe, m, ds, g1);
    BlankCount(h, w, IsMine);
    ScatterCount(Blank(h, w), h, w, safe, m, ds);
  }

  /** Labelling a dealt grid of `m` mines starts a game with `h * w - m` tiles to reveal. */
  lemma LabelledDeal(g1: Cells, g: Cells, h: int, w: int, safe: MB.Option<Loc>, m: int)
    requires IsGrid(g1, h, w) && g == WithLabels(g1, h, w) && Count(g1, IsMine) == m
    requires forall i, j :: 0 <= i < h && 0 <= j < w ==>
      g1[i][j].adjacentMines == 0 && !g1[i][j].isRevealed && !g1[i][j].isFlagged
    requires safe.Some? && InBounds(h, w, safe.value) ==> !At(g1, safe.value).hasMine
    ensures Count(g, IsMine) == m && MB.InPlay(g, h, w, h * w - m) && Dealt(g, h, w, safe)
  {
    CountSame(g1, g, h, w, IsMine);
    forall l | InBounds(h, w, l) ensures !MB.RebuiltClue(g1, h, w, l) {
      assert !g1[l.0][l.1].isRevealed;
    }
    MB.InitPlay(g1, g, h, w, m, {});
    LabelsDealt(g1, g, h, w, safe);
  }

  /** Labelling keeps a grid freshly dealt. */
  lemma LabelsDealt(g1: Cells, g: Cells, h: int, w: int, safe: MB.Option<Loc>)
    requires IsGrid(g1, h, w) && g == WithLabels(g1, h, w)
    requires forall i, j :: 0 <= i < h && 0 <= j < w ==> !g1[i][j].isRevealed && !g1[i][j].isFlagged
    requires safe.Some? && InBounds(h, w, safe.value) ==> !At(g1, safe.value).hasMine
    ensures Dealt(g, h, w, safe)
  {
  }

  /** The loop run from a blank grid leaves blank tiles, some mined, none on the safe tile. */
  lemma ScatterFresh(h: int, w: int, safe: MB.Option<Loc>, m: int, ds: seq<(real, real)>, g1: Cells)
    requires h >= 1 && w >= 1 && ArePairDraws(ds) && g1 == Scatter(Blank(h, w), h, w, safe, m, ds).0
    ensures forall i, j :: 0 <= i < h && 0 <= j < w ==>
      g1[i][j].adjacentMines == 0 && !g1[i][j].isRevealed && !g1[i][j].isFlagged
    ensures safe.Some? && InBounds(h, w, safe.value) ==> !At(g1, safe.value).hasMine
  {
    forall i, j | 0 <= i < h && 0 <= j < w
      ensures g1[i][j].adjacentMines == 0 && !g1[i][j].isRevealed && !g1[i][j].isFlagged
    {
      ScatterAt(Blank(h, w), h, w, safe, m, ds, (i, j));
    }
    if safe.Some? && InBounds(h, w, safe.value) {
      ScatterAt(Blank(h, w), h, w, safe, m, ds, safe.value);
    }
  }

  /** The grid `randomize` leaves when asked for `m` mines with the draws `ds`: the grid
      the rejection loop builds from fresh tiles, labelled once the loop is done. */
  ghost function DealtGrid(h: int, w: int, safe: MB.Option<Loc>, m: int, ds: seq<(real, real)>): (g: Cells)
    requires h >= 1 && w >= 1 && ArePairDraws(ds)
    ensures IsGrid(g, h, w)
  {
    var r := Scatter(Blank(h, w), h, w, safe, m, ds);
    if r.1 <= 0 then WithLabels(r.0, h, w) else r.0
  }

  /** A freshly dealt grid: nothing revealed, nothing flagged, no mine on the safe tile. */
  ghost predicate Dealt(g: Cells, h: int, w: int, safe: MB.Option<Loc>) {
    MB.Untouched(g, h, w) &&
    (forall i, j :: 0 <= i < h && 0 <= j < w ==> !g[i][j].isFlagged) &&
    (safe.Some? && InBounds(h, w, safe.value) ==> !At(g, safe.value).hasMine)
  }

  /** What the fill of main.js leaves, from `g0` to `g`: exactly the locations `swept` are
      revealed, each once, with their flags kept; each swept location after the `seed`
      locations is next to an earlier zero tile; every swept zero tile has all neighbours
      revealed. */
  ghost predicate Cavern(g0: Cells, g: Cells, h: int, w: int, seed: seq<Loc>, swept: seq<Loc>) {
    Sweep(g0, g, h, w, swept, false) && AllWithin(g0, seed + swept) && Spread(g0, seed + swept) &&
    MB.ZerosClosed(g0, g, h, w, swept)
  }

  /** The fill of main.js leaves every flag as it was, and every mine. */
  lemma CavernKeepsFlags(g0: Cells, g: Cells, h: int, w: int, seed: seq<Loc>, swept: seq<Loc>)
    requires Cavern(g0, g, h, w, seed, swept)
    ensures forall i, j :: 0 <= i < h && 0 <= j < w ==> g[i][j].isFlagged == g0[i][j].isFlagged
    ensures Count(g, IsMine) == Count(g0, IsMine)
  {
    SweepKeepsLabels(g0, g, h, w, swept, false);
    CountSame(g0, g, h, w, IsMine);
    forall i, j | 0 <= i < h && 0 <= j < w ensures g[i][j].isFlagged == g0[i][j].isFlagged {
      assert g[i][j] == if (i, j) in swept then Uncover(g0[i][j], false) else g0[i][j];
    }
  }

  /** The first step of the fill at a concealed tile `l`: reveal it, flag and all. */
  lemma UncoverOne(g0: Cells, g1: Cells, h: int, w: int, l: Loc)
    requires IsGrid(g0, h, w) && InBounds(h, w, l) && !At(g0, l).isRevealed
    requires g1 == Put(g0, l, Uncover(At(g0, l), false))
    ensures Count(g1, IsConcealed) == Count(g0, IsConcealed) - 1
    ensures Sweep(g0, g1, h, w, [l], false)
    ensures IsZeroSafe(At(g0, l)) || Cavern(g0, g1, h, w, [], [l])
  {
    CountPut(g0, l, Uncover(At(g0, l), false), IsConcealed);
    SweepOne(g0, h, w, l, false);
    assert [] + [l] == [l];
  }

  /** One iteration of the neighbour loop of the fill around the zero tile `c`: the call
      from neighbour `n` swept `more` after the loop had swept `sk`. */
  lemma CavernStep(g1: Cells, gk: Cells, g2: Cells, h: int, w: int, c: Loc, n: Loc, sk: seq<Loc>, more: seq<Loc>)
    requires IsGrid(g1, h, w) && InBounds(h, w, c) && IsZeroSafe(At(g1, c)) && InBounds(h, w, n) && Adjacent(n, c)
    requires Cavern(g1, gk, h, w, [c], sk) && Cavern(gk, g2, h, w, [], more)
    requires (more == [] <==> At(gk, n).isRevealed) && (more != [] ==> more[0] == n)
    ensures Cavern(g1, g2, h, w, [c], sk + more) && At(g2, n).isRevealed
  {
    SweepTrans(g1, gk, g2, h, w, sk, more, false);
    SweepKeepsLabels(g1, gk, h, w, sk, false);
    MB.AroundSpread(g1, gk, h, w, c, n, sk, more);
    MB.ClosedAppend(g1, gk, g2, h, w, sk, more, false);
    if more != [] {
      assert more[0] in more;
    }
  }

  /** The fill from a concealed zero tile `c`: revealing `c` (grid `g1`) followed by the
      neighbour loop (grid `g2`, sweeping `more`). */
  lemma CavernJoin(g0: Cells, g1: Cells, g2: Cells, h: int, w: int, c: Loc, more: seq<Loc>)
    requires IsGrid(g0, h, w) && InBounds(h, w, c) && !At(g0, c).isRevealed && IsZeroSafe(At(g0, c))
    requires Sweep(g0, g1, h, w, [c], false)
    requires Cavern(g1, g2, h, w, [c], more) && Closed(g2, h, w, c)
    ensures Cavern(g0, g2, h, w, [], [c] + more)
  {
    SweepTrans(g0, g1, g2, h, w, [c], more, false);
    SweepKeepsLabels(g0, g1, h, w, [c], false);
    assert [] + ([c] + more) == [c] + more;
    MB.SpreadSame(g0, g1, h, w, [c] + more);
  }

  /** A fill started on an open tile keeps a game in progress: it reaches no mine, so the
      reveal counter drops exactly with the concealed open tiles. */
  lemma CavernKeepsPlay(g1: Cells, g2: Cells, h: int, w: int, swept: seq<Loc>, left: int)
    requires MB.InPlay(g1, h, w, left) && Cavern(g1, g2, h, w, [], swept)
    requires swept != [] ==> !At(g1, swept[0]).hasMine
    ensures MB.InPlay(g2, h, w, left - |swept|)
  {
    assert [] + swept == swept;
    forall l | l in swept ensures InBounds(h, w, l) {
      var i :| 0 <= i < |swept| && swept[i] == l;
    }
    SpreadAvoidsMines(g1, h, w, swept);
    MB.FillCounts(g1, g2, h, w, swept, false);
    LabelledSameMines(g1, g2, h, w);
  }

  /** The `while (numPlaced < numMines)` loop of `randomize` on the grid `g`, with the
      draws `ds`; here it also stops when the draws are used up. */
  method PlaceMines(g: Cells, h: int, w: int, safe: MB.Option<Loc>, numMines: int, ds: seq<(real, real)>)
    returns (r: Cells, numPlaced: int)
    requires IsGrid(g, h, w) && h >= 1 && w >= 1 && ArePairDraws(ds)
    ensures Scatter(g, h, w, safe, numMines, ds) == (r, numMines - numPlaced)
  {
    r, numPlaced := g, 0;
    var k := 0;
    while numPlaced < numMines && k < |ds|
      invariant 0 <= k <= |ds| && IsGrid(r, h, w) && ArePairDraws(ds[k..])
      invariant Scatter(r, h, w, safe, numMines - numPlaced, ds[k..]) == Scatter(g, h, w, safe, numMines, ds)
      decreases |ds| - k
    {
      var y := RandBelow(h, ds[k].0);
      var x := RandBelow(w, ds[k].1);
      assert ds[k..][1..] == ds[k + 1..];
      k := k + 1;
      if IsSafe(safe, (y, x)) {
        continue;
      }
      var tile := r[y][x];
      if !tile.hasMine {
        r := Put(r, (y, x), tile.(hasMine := true));
        numPlaced := numPlaced + 1;
      }
    }
    assert ds[..] == ds[0..];
  }

  /** The two nested loops of `labelTiles_` over the rows and columns. */
  method LabelMines(g: Cells, h: int, w: int) returns (r: Cells)
    requires IsGrid(g, h, w)
    ensures r == WithLabels(g, h, w)
  {
    r := g;
    MB.LabelEnds(g, g, h, w);
    for y := 0 to h
      invariant MB.LabelledBefore(g, r, h, w, y, 0)
    {
      r := LabelMinesRow(g, r, h, w, y);
      MB.LabelRow(g, r, h, w, y);
    }
    MB.LabelEnds(g, r, h, w);
    GridEq(r, WithLabels(g, h, w), h, w);
  }

  /** One row of the scan: each mined tile adds one to the label of every neighbour. */
  method LabelMinesRow(ghost g0: Cells, g: Cells, h: int, w: int, y: int) returns (r: Cells)
    requires MB.LabelledBefore(g0, g, h, w, y, 0) && 0 <= y < h
    ensures MB.LabelledBefore(g0, r, h, w, y, w)
  {
    r := g;
    for x := 0 to w
      invariant MB.LabelledBefore(g0, r, h, w, y, x)
    {
      if r[y][x].hasMine {
        ghost var gb := r;
        r := AddAround(r, h, w, y, x, 1);
        MB.LabelBump(g0, gb, r, h, w, y, x);
      } else {
        MB.LabelSkip(g0, r, h, w, y, x);
      }
    }
  }

  /** The mine count of `randomize`: `Math.ceil(density * numTiles)`, on exact reals. */
  function MineCount(h: int, w: int, density: real): (m: int)
    ensures density * (h * w) as real <= m as real < density * (h * w) as real + 1.0
  {
    Ceil(density * (h * w) as real)
  }

  /** `new Board(height, width, density)` of main.js: `None` where the constructor throws.
      Otherwise the constructor ends with `this.randomize()`, with no safe tile, and `done`
      tells whether that deal finished on the draws `ds`. */
  method NewLegacyBoard(h: int, w: int, density: real, ds: seq<(real, real)>) returns (b: MB.Option<Board>, done: bool)
    requires ArePairDraws(ds)
    ensures b.None? <==> h < 1 || w < 1
    ensures b.None? ==> !done
    ensures b.Some? ==>
      fresh(b.value) && b.value.height == h && b.value.width == w && b.value.density == density &&
      b.value.Valid() && b.value.Randomized(MB.None, b.value.NumMines(), ds) &&
      b.value.NumMines() == MineCount(h, w, density) &&
      (done <==> Scatter(Blank(h, w), h, w, MB.None, MineCount(h, w, density), ds).1 <= 0) &&
      (MineCount(h, w, density) > h * w ==> !done) &&
      (done && b.value.NumMines() >= 0 ==> b.value.Playing())
  {
    if h < 1 || w < 1 {
      return MB.None, false;
    }
    var board := new Board(h, w, density);
    done := board.Randomize(MB.None, ds);
    return MB.Some(board), done;
  }

  class Board {
    const height: int
    const width: int
    const density: real
    var grid: Cells
    var numLeftToReveal: int

    /** A non-empty board with a `height x width` grid. */
    ghost predicate Valid()
      reads this
    {
      height >= 1 && width >= 1 && IsGrid(grid, height, width)
    }

    /** A game in progress: labels are right, `numLeftToReveal_` is the number of open
        tiles still concealed, and no mine has been revealed. */
    ghost predicate Playing()
      reads this
    {
      Valid() && MB.InPlay(grid, height, width, numLeftToReveal)
    }

    /** `Math.ceil(this.density_ * numTiles)`, on exact reals. */
    function NumMines(): int {
      MineCount(height, width, density)
    }

    /** The state `randomize` leaves when asked for `m` mines with the draws `ds`: the
        grid the rejection loop builds from fresh tiles, labelled once the loop is done,
        and `numLeftToReveal_ = numTiles - m`. */
    ghost predicate Randomized(safe: MB.Option<Loc>, m: int, ds: seq<(real, real)>)
      reads this
      requires height >= 1 && width >= 1 && ArePairDraws(ds)
    {
      numLeftToReveal == height * width - m && grid == DealtGrid(height, width, safe, m, ds)
    }

    /** The constructor once its `height < 1 || width < 1` check has passed: it stores the
        size and the density. Its closing `randomize()` call is made by `NewLegacyBoard`. */
    constructor (h: int, w: int, d: real)
      requires h >= 1 && w >= 1
      ensures height == h && width == w && density == d
      ensures Valid() && grid == Blank(h, w) && numLeftToReveal == 0
    {
      height, width, density := h, w, d;
      grid, numLeftToReveal := Blank(h, w), 0;
    }

    /** `randomize(safeY, safeX)` as written: `numMines = Math.ceil(density_ * numTiles)`.
        The loop can never finish when every tile must take a mine but one tile is safe. */
    method Randomize(safe: MB.Option<Loc>, ds: seq<(real, real)>) returns (done: bool)
      requires height >= 1 && width >= 1 && ArePairDraws(ds)
      modifies this`grid, this`numLeftToReveal
      ensures Valid() && Randomized(safe, NumMines(), ds)
      ensures done <==> Scatter(Blank(height, width), height, width, safe, NumMines(), ds).1 <= 0
      ensures NumMines() > Room(height, width, safe) ==> !done
      ensures done ==> Dealt(grid, height, width, safe)
      ensures done && NumMines() >= 0 ==> Playing() && Count(grid, IsMine) == NumMines()
    {
      var numMines := NumMines();
      done := RandomizeWith(safe, numMines, ds);
      if numMines > Room(height, width, safe) {
        var b := Blank(height, width);
        CountZero(b, IsMine);
        ScatterBlocked(b, height, width, safe, numMines, ds);
      }
    }

    /** The mine count a re-randomisation can reach: `Math.ceil(density_ * numTiles)`, but
        no more than the tiles that may take a mine. */
    function CappedMines(safe: MB.Option<Loc>): (m: int)
      ensures m <= Room(height, width, safe)
      ensures NumMines() <= Room(height, width, safe) ==> m == NumMines()
      ensures NumMines() >= 0 && height >= 1 && width >= 1 ==> m >= 0
    {
      assert height >= 1 && width >= 1 ==> height * width >= 1;
      var room := Room(height, width, safe);
      if NumMines() > room then room else NumMines()
    }

    /** `randomize(safeY, safeX)` with the mine count capped by `CappedMines`, so that the
        loop has a tile left for every mine it must place. */
    method RandomizeCapped(safe: MB.Option<Loc>, ds: seq<(real, real)>) returns (done: bool)
      requires height >= 1 && width >= 1 && ArePairDraws(ds)
      modifies this`grid, this`numLeftToReveal
      ensures Valid() && Randomized(safe, CappedMines(safe), ds)
      ensures done <==> Scatter(Blank(height, width), height, width, safe, CappedMines(safe), ds).1 <= 0
      ensures ds == TileDraws(height, width, height) ==> done
      ensures done ==> Dealt(grid, height, width, safe)
      ensures done && NumMines() >= 0 ==> Playing() && Count(grid, IsMine) == CappedMines(safe)
    {
      var numMines := NumMines();
      var room := Room(height, width, safe);
      if numMines > room {
        numMines := room;
      }
      done := RandomizeWith(safe, numMines, ds);
      if ds == TileDraws(height, width, height) {
        CappedDealFinishes(height, width, safe, numMines);
      }
    }

    /** The body of `randomize` for a given mine count `numMines`: a fresh grid,
        `numLeftToReveal_ = numTiles - numMines`, the rejection loop over the draws `ds`
        and, once every mine is placed, `labelTiles_`. */
    method RandomizeWith(safe: MB.Option<Loc>, numMines: int, ds: seq<(real, real)>) returns (done: bool)
      requires height >= 1 && width >= 1 && ArePairDraws(ds)
      modifies this`grid, this`numLeftToReveal
      ensures Valid() && Randomized(safe, numMines, ds)
      ensures done <==> Scatter(Blank(height, width), height, width, safe, numMines, ds).1 <= 0
      ensures done ==> Dealt(grid, height, width, safe)
      ensures done && numMines >= 0 ==> Playing() && Count(grid, IsMine) == numMines
    {
      grid := NewCells(height, width);
      var numTiles := height * width;
      numLeftToReveal := numTiles - numMines;
      var numPlaced;
      grid, numPlaced := PlaceMines(grid, height, width, safe, numMines, ds);
      done := numPlaced >= numMines;
      if done {
        ghost var g1 := grid;
        LabelTiles();
        Settled(height, width, safe, numMines, ds, g1, grid);
      }
    }

    /** `labelTiles_`: each mine adds one to the label of every neighbour. */
    method LabelTiles()
      requires Valid()
      modifies this`grid
      ensures Valid() && grid == WithLabels(old(grid), height, width)
    {
      grid := LabelMines(grid, height, width);
    }

    /** `aNewCavernHasBeenDiscovered(y, x)`; `swept` lists the tiles it reveals. A
        concealed tile is revealed, flag and all, `numLeftToReveal_` drops, and a tile
        with no mine and label 0 recurses into every neighbour. */
    method Discover(y: int, x: int) returns (ghost swept: seq<Loc>)
      requires Valid() && InBounds(height, width, (y, x))
      modifies this`grid, this`numLeftToReveal
      decreases Count(grid, IsConcealed), 0
      ensures Valid()
      ensures Cavern(old(grid), grid, height, width, [], swept)
      ensures swept == [] <==> old(grid[y][x]).isRevealed
      ensures swept != [] ==> swept[0] == (y, x)
      ensures numLeftToReveal == old(numLeftToReveal) - |swept|
      ensures Count(grid, IsConcealed) == old(Count(grid, IsConcealed)) - |swept|
    {
      var tile := grid[y][x];
      if tile.isRevealed {
        assert Sweep(grid, grid, height, width, [], false);
        return [];
      }
      ghost var g0 := grid;
      grid := Put(grid, (y, x), tile.(isRevealed := true));
      numLeftToReveal := numLeftToReveal - 1;
      swept := [(y, x)];
      UncoverOne(g0, grid, height, width, (y, x));
      if !tile.hasMine && tile.adjacentMines == 0 {
        ghost var g1 := grid;
        ghost var more := DiscoverAround(y, x);
        CavernJoin(g0, g1, grid, height, width, (y, x), more);
        swept := swept + more;
      }
    }

    /** The `forEachNeighbor_` loop of the fill around the revealed zero tile `(y, x)`. */
    method DiscoverAround(y: int, x: int) returns (ghost swept: seq<Loc>)
      requires Valid() && InBounds(height, width, (y, x))
      requires grid[y][x].isRevealed && IsZeroSafe(grid[y][x])
      modifies this`grid, this`numLeftToReveal
      decreases Count(grid, IsConcealed), 1
      ensures Valid()
      ensures Cavern(old(grid), grid, height, width, [(y, x)], swept)
      ensures Closed(grid, height, width, (y, x))
      ensures numLeftToReveal == old(numLeftToReveal) - |swept|
      ensures Count(grid, IsConcealed) == old(Count(grid, IsConcealed)) - |swept|
    {
      var ns := Neighbors(height, width, y, x);
      ghost var g1 := grid;
      swept := [];
      assert Sweep(grid, grid, height, width, [], false);
      assert [(y, x)] + [] == [(y, x)];
      for k := 0 to |ns|
        invariant Valid()
        invariant Cavern(g1, grid, height, width, [(y, x)], swept)
        invariant numLeftToReveal == old(numLeftToReveal) - |swept|
        invariant Count(grid, IsConcealed) == Count(g1, IsConcealed) - |swept|
        invariant AllWithin(grid, ns) && AllRevealed(grid, ns[..k])
      {
        ghost var gk, sk := grid, swept;
        assert ns[k] in ns;
        ghost var more := Discover(ns[k].0, ns[k].1);
        CavernStep(g1, gk, grid, height, width, (y, x), ns[k], sk, more);
        MB.RevealedStep(gk, grid, height, width, ns, k, more, false);
        swept := swept + more;
      }
      assert ns[..|ns|] == ns;
    }

    /** The `reveal` handler once it has seen that `(y, x)` is concealed and unflagged,
        with `first` the value of `firstMove`. A mine on a later move is revealed and
        loses. A mine on the first move re-deals the board around the tile instead
        (`Redeal`), so the first move never loses; `dealt` is the grid that re-deal leaves,
        the old grid on an open tile. Then the fill runs from the tile and sweeps `swept`. */
    method Press(y: int, x: int, first: bool, ds: seq<(real, real)>)
        returns (click: Click, ghost dealt: Cells, ghost swept: seq<Loc>)
      requires Valid() && InBounds(height, width, (y, x)) && ArePairDraws(ds)
      requires !grid[y][x].isRevealed && !grid[y][x].isFlagged
      modifies this`grid, this`numLeftToReveal
      ensures Valid() && click != Ignored && IsGrid(dealt, height, width)
      ensures old(grid[y][x].hasMine) && !first ==>
        click == Boom && grid == Put(old(grid), (y, x), old(grid[y][x]).(isRevealed := true)) &&
        numLeftToReveal == old(numLeftToReveal)
      ensures first ==> click != Boom
      ensures old(grid[y][x].hasMine) && first ==>
        dealt == DealtGrid(height, width, MB.Some((y, x)), CappedMines(MB.Some((y, x))), ds) &&
        (click == Unfinished <==>
          Scatter(Blank(height, width), height, width, MB.Some((y, x)), CappedMines(MB.Some((y, x))), ds).1 > 0)
      ensures !old(grid[y][x].hasMine) ==> click.Opened? && dealt == old(grid)
      ensures click == Unfinished ==>
        first && old(grid[y][x].hasMine) && grid == dealt &&
        numLeftToReveal == height * width - CappedMines(MB.Some((y, x)))
      ensures click.Opened? ==>
        Cavern(dealt, grid, height, width, [], swept) && swept != [] && swept[0] == (y, x) &&
        numLeftToReveal ==
          (if old(grid[y][x].hasMine) then height * width - CappedMines(MB.Some((y, x))) else old(numLeftToReveal)) - |swept|
      ensures click.Opened? ==>
        (click.winner <==> numLeftToReveal == 0) && grid[y][x].isRevealed && !grid[y][x].hasMine
      ensures !old(grid[y][x].hasMine) ==>
        forall i, j :: 0 <= i < height && 0 <= j < width ==> grid[i][j].isFlagged == old(grid[i][j].isFlagged)
      ensures old(grid[y][x].hasMine) && click.Opened? ==>
        forall i, j :: 0 <= i < height && 0 <= j < width ==> !grid[i][j].isFlagged
      ensures old(grid[y][x].hasMine) && click.Opened? && NumMines() >= 0 ==>
        Count(grid, IsMine) == CappedMines(MB.Some((y, x)))
      ensures (old(Playing()) || old(grid[y][x].hasMine)) && NumMines() >= 0 && click.Opened? ==>
        Playing() && (click.winner <==> MB.AllOpenRevealed(grid, height, width))
    {
      if grid[y][x].hasMine {
        if first {
          click, dealt, swept := Redeal(y, x, ds);
        } else {
          dealt, swept := grid, [];
          grid := Put(grid, (y, x), grid[y][x].(isRevealed := true));
          click := Boom;
        }
      } else {
        dealt := grid;
        var winner;
        winner, swept := Open(y, x);
        click := Opened(winner);
      }
    }

    /** A first-move mine in the `reveal` handler: `board.randomize(y, x)`, with the mine
        count capped by `CappedMines`, deals the grid `dealt`; once that deal finishes, the
        fill runs from `(y, x)`, which the deal left without a mine, and sweeps `swept`. */
    method Redeal(y: int, x: int, ds: seq<(real, real)>) returns (click: Click, ghost dealt: Cells, ghost swept: seq<Loc>)
      requires Valid() && InBounds(height, width, (y, x)) && ArePairDraws(ds)
      modifies this`grid, this`numLeftToReveal
      ensures Valid() && IsGrid(dealt, height, width)
      ensures dealt == DealtGrid(height, width, MB.Some((y, x)), CappedMines(MB.Some((y, x))), ds)
      ensures click == Unfinished || click.Opened?
      ensures click == Unfinished <==>
        Scatter(Blank(height, width), height, width, MB.Some((y, x)), CappedMines(MB.Some((y, x))), ds).1 > 0
      ensures click == Unfinished ==> grid == dealt && numLeftToReveal == height * width - CappedMines(MB.Some((y, x)))
      ensures click.Opened? ==>
        Cavern(dealt, grid, height, width, [], swept) && swept != [] && swept[0] == (y, x) &&
        numLeftToReveal == height * width - CappedMines(MB.Some((y, x))) - |swept| &&
        (click.winner <==> numLeftToReveal == 0) && grid[y][x].isRevealed && !grid[y][x].hasMine &&
        forall i, j :: 0 <= i < height && 0 <= j < width ==> !grid[i][j].isFlagged
      ensures click.Opened? && NumMines() >= 0 ==>
        Count(grid, IsMine) == CappedMines(MB.Some((y, x))) &&
        Playing() && (click.winner <==> MB.AllOpenRevealed(grid, height, width))
    {
      var done := RandomizeCapped(MB.Some((y, x)), ds);
      dealt, swept := grid, [];
      if !done {
        return Unfinished, dealt, swept;
      }
      var winner;
      winner, swept := Open(y, x);
      click := Opened(winner);
    }

    /** The last lines of the `reveal` handler on an open tile `(y, x)`: run the fill from it,
        which sweeps `swept`, then ask `isWinner()`. Flags and mines stay as they are, and a
        game in progress stays one. */
    method Open(y: int, x: int) returns (winner: bool, ghost swept: seq<Loc>)
      requires Valid() && InBounds(height, width, (y, x)) && !grid[y][x].hasMine
      modifies this`grid, this`numLeftToReveal
      ensures Valid() && grid[y][x].isRevealed && !grid[y][x].hasMine
      ensures Cavern(old(grid), grid, height, width, [], swept)
      ensures swept == [] <==> old(grid[y][x]).isRevealed
      ensures swept != [] ==> swept[0] == (y, x)
      ensures numLeftToReveal == old(numLeftToReveal) - |swept|
      ensures winner <==> numLeftToReveal == 0
      ensures forall i, j :: 0 <= i < height && 0 <= j < width ==> grid[i][j].isFlagged == old(grid[i][j].isFlagged)
      ensures Count(grid, IsMine) == old(Count(grid, IsMine))
      ensures old(Playing()) ==> Playing() && (winner <==> MB.AllOpenRevealed(grid, height, width))
    {
      ghost var g1, left1 := grid, numLeftToReveal;
      swept := Discover(y, x);
      winner := IsWinner();
      CavernKeepsFlags(g1, grid, height, width, [], swept);
      assert grid[y][x] == if (y, x) in swept then Uncover(g1[y][x], false) else g1[y][x];
      if MB.InPlay(g1, height, width, left1) {
        CavernKeepsPlay(g1, grid, height, width, swept, left1);
      }
    }

    /** `isWinner()`: no open tile is left to reveal; in a game in progress that is exactly
        when every open tile is revealed. */
    function IsWinner(): (r: bool)
      reads this
      ensures Playing() ==> (r <==> MB.AllOpenRevealed(grid, height, width))
    {
      CountZero(grid, IsHiddenSafe);
      numLeftToReveal == 0
    }
  }

  /** What a click on a tile comes to. */
  datatype Click =
    | Ignored              // no game in progress, or a revealed or flagged tile
    | Boom                 // a mine on a later move: the game is lost
    | Opened(winner: bool) // the fill ran; `winner` is `board.isWinner()`
    | Unfinished           // the first-move re-randomisation used up the draws given

  /** `restart()` once the inputs are parsed: a new `Board`, then `firstMove = true` and
      `gameInProgress = true`. When the constructor throws, or its deal does not finish on
      the draws `ds`, there is no new game. */
  method Restart(h: int, w: int, density: real, ds: seq<(real, real)>) returns (game: MB.Option<Game>)
    requires ArePairDraws(ds)
    ensures game.None? <==>
      h < 1 || w < 1 || Scatter(Blank(h, w), h, w, MB.None, MineCount(h, w, density), ds).1 > 0
    ensures game.Some? ==>
      fresh(game.value) && fresh(game.value.board) && game.value.Valid() &&
      game.value.firstMove && game.value.gameInProgress &&
      game.value.board.Randomized(MB.None, game.value.board.NumMines(), ds) &&
      (game.value.board.NumMines() >= 0 ==> game.value.board.Playing())
  {
    var b, done := NewLegacyBoard(h, w, density, ds);
    if b.None? || !done {
      return MB.None;
    }
    var g := new Game(b.value);
    return MB.Some(g);
  }

  /** The module-level game state of main.js: the board and the `firstMove` and
      `gameInProgress` flags, with the `reveal` and `flag` click handlers. */
  class Game {
    const board: Board
    var firstMove: bool
    var gameInProgress: bool

    ghost predicate Valid()
      reads this, board
    {
      board.Valid()
    }

    /** The end of `restart()` for the board `b`. */
    constructor (b: Board)
      requires b.Valid()
      ensures board == b && firstMove && gameInProgress && Valid()
    {
      board := b;
      firstMove, gameInProgress := true, true;
    }

    /** The `reveal` handler on tile `(y, x)`, with `ds` the draws of a re-randomisation.
        Nothing happens unless a game is in progress and the tile is concealed and
        unflagged; otherwise `Board.Press` decides the click, a mine ends the game and an
        opened tile ends the first move. A win does not end the game. */
    method Reveal(y: int, x: int, ds: seq<(real, real)>)
        returns (click: Click, ghost dealt: Cells, ghost swept: seq<Loc>)
      requires Valid() && InBounds(board.height, board.width, (y, x)) && ArePairDraws(ds)
      modifies this`firstMove, this`gameInProgress, board`grid, board`numLeftToReveal
      ensures Valid()
      ensures !old(gameInProgress) || old(board.grid[y][x].isRevealed || board.grid[y][x].isFlagged) ==>
        click == Ignored && board.grid == old(board.grid) && board.numLeftToReveal == old(board.numLeftToReveal) &&
        firstMove == old(firstMove) && gameInProgress == old(gameInProgress)
      ensures click == Boom ==>
        old(board.grid[y][x].hasMine && !firstMove) && !gameInProgress && !firstMove &&
        board.grid == Put(old(board.grid), (y, x), old(board.grid[y][x]).(isRevealed := true)) &&
        board.numLeftToReveal == old(board.numLeftToReveal)
      ensures old(gameInProgress && !board.grid[y][x].isRevealed && !board.grid[y][x].isFlagged) ==>
        click != Ignored &&
        (old(board.grid[y][x].hasMine && !firstMove) ==> click == Boom && !gameInProgress) &&
        (!old(board.grid[y][x].hasMine) ==> click.Opened?) &&
        (old(board.grid[y][x].hasMine && firstMove) ==>
          (click == Unfinished <==>
            Scatter(Blank(board.height, board.width), board.height, board.width, MB.Some((y, x)),
                    board.CappedMines(MB.Some((y, x))), ds).1 > 0))
      ensures click != Ignored && old(board.grid[y][x].hasMine && firstMove) ==>
        dealt == DealtGrid(board.height, board.width, MB.Some((y, x)), board.CappedMines(MB.Some((y, x))), ds)
      ensures click.Opened? ==>
        board.numLeftToReveal ==
          (if old(board.grid[y][x].hasMine) then board.height * board.width - board.CappedMines(MB.Some((y, x)))
           else old(board.numLeftToReveal)) - |swept|
      ensures click.Opened? && !old(board.grid[y][x].hasMine) ==>
        forall i, j :: 0 <= i < board.height && 0 <= j < board.width ==>
          board.grid[i][j].isFlagged == old(board.grid[i][j].isFlagged)
      ensures click.Opened? && old(board.grid[y][x].hasMine) ==>
        forall i, j :: 0 <= i < board.height && 0 <= j < board.width ==> !board.grid[i][j].isFlagged
      ensures click != Ignored && !old(board.grid[y][x].hasMine) ==> click.Opened? && dealt == old(board.grid)
      ensures click.Opened? ==>
        gameInProgress && !firstMove && IsGrid(dealt, board.height, board.width) &&
        Cavern(dealt, board.grid, board.height, board.width, [], swept) && swept != [] && swept[0] == (y, x) &&
        (click.winner <==> board.numLeftToReveal == 0) && board.grid[y][x].isRevealed && !board.grid[y][x].hasMine
      ensures click == Unfinished ==>
        gameInProgress && firstMove && board.grid == dealt &&
        board.numLeftToReveal == board.height * board.width - board.CappedMines(MB.Some((y, x)))
      ensures old(gameInProgress && firstMove) ==> click != Boom
      ensures old(gameInProgress) && (old(board.Playing()) || old(board.grid[y][x].hasMine)) &&
              board.NumMines() >= 0 && click.Opened? ==>
        board.Playing() && (click.winner <==> MB.AllOpenRevealed(board.grid, board.height, board.width))
    {
      dealt, swept := board.grid, [];
      if !gameInProgress {
        return Ignored, dealt, swept;
      }
      var tile := board.grid[y][x];
      if tile.isRevealed || tile.isFlagged {
        return Ignored, dealt, swept;
      }
      click, dealt, swept := board.Press(y, x, firstMove, ds);
      if click == Boom {
        gameInProgress := false;
      } else if click.Opened? {
        firstMove := false;
      }
    }

    /** The `flag` handler on tile `(y, x)`: while a game is in progress, toggle the flag
        of a concealed tile; nothing else changes. */
    method Flag(y: int, x: int)
      requires Valid() && InBounds(board.height, board.width, (y, x))
      modifies board`grid
      ensures Valid()
      ensures gameInProgress && !old(board.grid[y][x].isRevealed) ==>
        board.grid == Put(old(board.grid), (y, x), old(board.grid[y][x]).(isFlagged := !old(board.grid[y][x].isFlagged)))
      ensures !gameInProgress || old(board.grid[y][x].isRevealed) ==> board.grid == old(board.grid)
      ensures old(board.Playing()) ==> board.Playing()
    {
      if !gameInProgress {
        return;
      }
      var tile := board.grid[y][x];
      if tile.isRevealed {
        return;
      }
      ghost var g0 := board.grid;
      var t := tile.(isFlagged := !tile.isFlagged);
      board.grid := Put(board.grid, (y, x), t);
      if MB.InPlay(g0, board.height, board.width, board.numLeftToReveal) {
        MB.FlagInPlay(g0, board.grid, board.height, board.width, board.numLeftToReveal, (y, x), t);
      }
    }
  }
}
