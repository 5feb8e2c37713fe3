/** The tile grid shared by both board variants (js/MinesweeperBoard.js and main.js):
    tiles, locations, bounded 8-neighbour iteration, counting, adjacency labels and the
    relation between a grid before and after a flood-fill sweep. */
module Grid {

  /** A tile of either variant; the DOM node of the module version is not modelled. */
  datatype Tile = Tile(adjacentMines: int, hasMine: bool, isFlagged: bool, isRevealed: bool)

  /** `new Tile()`. */
  const FreshTile: Tile := Tile(0, false, false, false)

  /** A location `(y, x)`: row, then column. */
  type Loc = (int, int)

  type Cells = seq<seq<Tile>>

  predicate IsMine(t: Tile) { t.hasMine }
  predicate IsOpen(t: Tile) { !t.hasMine }
  predicate IsFlagged(t: Tile) { t.isFlagged }
  predicate IsConcealed(t: Tile) { !t.isRevealed }
  /** Unrevealed and flagged: what the solver counts as a flag. */
  predicate IsMarked(t: Tile) { !t.isRevealed && t.isFlagged }
  /** Unrevealed and unflagged: the solver's "unknown" tiles. */
  predicate IsUnknown(t: Tile) { !t.isRevealed && !t.isFlagged }
  /** A tile the player still has to reveal to win. */
  predicate IsHiddenSafe(t: Tile) { !t.isRevealed && !t.hasMine }
  /** A tile from which the flood fill expands. */
  predicate IsZeroSafe(t: Tile) { t.adjacentMines == 0 && !t.hasMine }

  /** `g` is a `h x w` grid. */
  predicate IsGrid(g: Cells, h: int, w: int) {
    |g| == h && forall y :: 0 <= y < h ==> |g[y]| == w
  }

  predicate InBounds(h: int, w: int, l: Loc) { 0 <= l.0 < h && 0 <= l.1 < w }

  /** `l` indexes a tile of `g`. */
  predicate Within(g: Cells, l: Loc) { 0 <= l.0 < |g| && 0 <= l.1 < |g[l.0]| }

  predicate AllWithin(g: Cells, ls: seq<Loc>) { forall l :: l in ls ==> Within(g, l) }

  function At(g: Cells, l: Loc): Tile
    requires Within(g, l)
  {
    g[l.0][l.1]
  }

  /** `grid_[y][x] = t`. */
  function Put(g: Cells, l: Loc, t: Tile): (r: Cells)
    requires Within(g, l)
    ensures |r| == |g| && forall y :: 0 <= y < |g| ==> |r[y]| == |g[y]|
    ensures forall y, x :: 0 <= y < |g| && 0 <= x < |g[y]| ==> r[y][x] == if (y, x) == l then t else g[y][x]
  {
    g[l.0 := g[l.0][l.1 := t]]
  }

  /** A `h x w` grid of `new Tile()`s. */
  function Blank(h: nat, w: nat): (g: Cells)
    ensures IsGrid(g, h, w) && forall i, j :: 0 <= i < h && 0 <= j < w ==> g[i][j] == FreshTile
  {
    seq(h, _ => seq(w, _ => FreshTile))
  }

  /** The row and column loops that fill a new grid with `new Tile()`s. */
  method NewCells(h: nat, w: nat) returns (rows: Cells)
    ensures rows == Blank(h, w)
  {
    rows := [];
    for y := 0 to h
      invariant |rows| == y && forall i :: 0 <= i < y ==> rows[i] == seq(w, _ => FreshTile)
    {
      var row: seq<Tile> := [];
      for x := 0 to w
        invariant |row| == x && forall j :: 0 <= j < x ==> row[j] == FreshTile
      {
        row := row + [FreshTile];
      }
      rows := rows + [row];
    }
  }

  /** No tile of a blank grid satisfies a property `new Tile()` lacks. */
  lemma BlankCount(h: nat, w: nat, p: Tile -> bool)
    requires !p(FreshTile)
    ensures Count(Blank(h, w), p) == 0
  {
    var b := Blank(h, w);
    forall i, j | 0 <= i < |b| && 0 <= j < |b[i]| ensures !p(b[i][j]) {
      assert b[i][j] == FreshTile;
    }
    CountZero(b, p);
  }

  /** Two `h x w` grids with the same tiles are equal. */
  lemma GridEq(a: Cells, b: Cells, h: int, w: int)
    requires IsGrid(a, h, w) && IsGrid(b, h, w)
    requires forall i, j :: 0 <= i < h && 0 <= j < w ==> a[i][j] == b[i][j]
    ensures a == b
  {
    forall i | 0 <= i < h ensures a[i] == b[i] {
      assert forall j :: 0 <= j < w ==> a[i][j] == b[i][j];
    }
  }

  /** The eight surrounding locations, not the location itself, no wraparound. */
  predicate Adjacent(a: Loc, b: Loc) {
    a != b && -1 <= a.0 - b.0 <= 1 && -1 <= a.1 - b.1 <= 1
  }

  /** One of the eight steps to a surrounding location. */
  predicate IsDirection(d: (int, int)) { d != (0, 0) && -1 <= d.0 <= 1 && -1 <= d.1 <= 1 }

  /** The offsets `forEachNeighbor_` tries, in its order: the row above left to right, then
      left and right, then the row below. */
  const Offsets: seq<(int, int)> := [(-1, -1), (-1, 0), (-1, 1), (0, -1), (0, 1), (1, -1), (1, 0), (1, 1)]

  /** The in-bounds locations `(y + dy, x + dx)` for the offsets `ds`, in order. */
  function Keep(h: int, w: int, y: int, x: int, ds: seq<(int, int)>): seq<Loc>
  {
    if ds == [] then []
    else
      var n := (y + ds[0].0, x + ds[0].1);
      (if InBounds(h, w, n) then [n] else []) + Keep(h, w, y, x, ds[1..])
  }

  /** Only in-bounds locations at one of the offsets are kept, at most one per offset. */
  lemma {:induction false} KeepSound(h: int, w: int, y: int, x: int, ds: seq<(int, int)>)
    ensures forall n :: n in Keep(h, w, y, x, ds) ==> InBounds(h, w, n) && (n.0 - y, n.1 - x) in ds
    ensures |Keep(h, w, y, x, ds)| <= |ds|
  {
    if ds != [] {
      KeepSound(h, w, y, x, ds[1..]);
    }
  }

  /** Distinct offsets give distinct locations. */
  lemma {:induction false} KeepDistinct(h: int, w: int, y: int, x: int, ds: seq<(int, int)>)
    requires forall i, j :: 0 <= i < j < |ds| ==> ds[i] != ds[j]
    ensures var ns := Keep(h, w, y, x, ds); forall i, j :: 0 <= i < j < |ns| ==> ns[i] != ns[j]
  {
    if ds != [] {
      var n := (y + ds[0].0, x + ds[0].1);
      var rest := Keep(h, w, y, x, ds[1..]);
      KeepDistinct(h, w, y, x, ds[1..]);
      KeepSound(h, w, y, x, ds[1..]);
      assert ds[0] !in ds[1..];
      assert n !in rest;
    }
  }

  /** Every in-bounds offset location is kept. */
  lemma {:induction false} KeepComplete(h: int, w: int, y: int, x: int, ds: seq<(int, int)>, d: (int, int))
    requires d in ds && InBounds(h, w, (y + d.0, x + d.1))
    ensures (y + d.0, x + d.1) in Keep(h, w, y, x, ds)
  {
    if d != ds[0] {
      KeepComplete(h, w, y, x, ds[1..], d);
    }
  }

  /** The locations `forEachNeighbor_(y, x, fn)` passes to `fn`, in call order; each is an
      in-bounds location next to `(y, x)`, and `NeighborsExact` shows that every such
      location appears exactly once. */
  function Neighbors(h: int, w: int, y: int, x: int): (ns: seq<Loc>)
    requires InBounds(h, w, (y, x))
    ensures forall n :: n in ns ==> InBounds(h, w, n) && Adjacent(n, (y, x))
  {
    OffsetsAreTheEightDirections();
    KeepSound(h, w, y, x, Offsets);
    Keep(h, w, y, x, Offsets)
  }

  /** The neighbours are exactly the in-bounds locations around `(y, x)` (never `(y, x)`
      itself, no wraparound), each listed once, so at most eight. */
  lemma NeighborsExact(h: int, w: int, y: int, x: int)
    requires InBounds(h, w, (y, x))
    ensures var ns := Neighbors(h, w, y, x);
      (forall n :: n in ns <==> InBounds(h, w, n) && Adjacent(n, (y, x))) &&
      (forall i, j :: 0 <= i < j < |ns| ==> ns[i] != ns[j]) && |ns| <= 8
  {
    NeighborsComplete(h, w, y, x);
    OffsetsAreTheEightDirections();
    KeepSound(h, w, y, x, Offsets);
    KeepDistinct(h, w, y, x, Offsets);
  }

  lemma NeighborsComplete(h: int, w: int, y: int, x: int)
    requires InBounds(h, w, (y, x))
    ensures forall n: Loc :: InBounds(h, w, n) && Adjacent(n, (y, x)) ==> n in Neighbors(h, w, y, x)
  {
    forall n: Loc | InBounds(h, w, n) && Adjacent(n, (y, x)) ensures n in Keep(h, w, y, x, Offsets) {
      var d := (n.0 - y, n.1 - x);
      OffsetsAreTheEightDirections();
      assert IsDirection(d);
      KeepComplete(h, w, y, x, Offsets, d);
      assert (y + d.0, x + d.1) == n;
    }
  }

  lemma OffsetsAreTheEightDirections()
    ensures forall i, j :: 0 <= i < j < |Offsets| ==> Offsets[i] != Offsets[j]
    ensures forall d: (int, int) :: d in Offsets <==> IsDirection(d)
  {
    forall d: (int, int) | IsDirection(d) ensures d in Offsets {
      if d.0 == -1 {
        assert d == Offsets[d.1 + 1];
      } else if d.0 == 0 {
        assert d == Offsets[if d.1 == -1 then 3 else 4];
      } else {
        assert d == Offsets[d.1 + 6];
      }
    }
  }

  /** Being a neighbour is symmetric. */
  lemma NeighborsSymmetric(h: int, w: int, a: Loc, b: Loc)
    requires InBounds(h, w, a) && InBounds(h, w, b)
    ensures b in Neighbors(h, w, a.0, a.1) <==> a in Neighbors(h, w, b.0, b.1)
  {
    NeighborsExact(h, w, a.0, a.1);
    NeighborsExact(h, w, b.0, b.1);
    assert Adjacent(b, (a.0, a.1)) <==> Adjacent(a, (b.0, b.1));
  }

  lemma NeighborsWithin(g: Cells, h: int, w: int, y: int, x: int)
    requires IsGrid(g, h, w) && InBounds(h, w, (y, x))
    ensures AllWithin(g, Neighbors(h, w, y, x))
  {
  }

  // ---------------------------------------------------------------------------
  // Counting tiles at a list of locations

  /** How many of the tiles at `ls` satisfy `p`. */
  function CountAt(g: Cells, ls: seq<Loc>, p: Tile -> bool): nat
    requires AllWithin(g, ls)
  {
    if ls == [] then 0
    else CountAt(g, ls[..|ls| - 1], p) + (if p(At(g, ls[|ls| - 1])) then 1 else 0)
  }

  /** Only the tiles at `ls` matter. */
  lemma {:induction false} CountAtSame(g1: Cells, g2: Cells, ls: seq<Loc>, p: Tile -> bool)
    requires AllWithin(g1, ls) && AllWithin(g2, ls)
    requires forall l :: l in ls ==> p(At(g1, l)) == p(At(g2, l))
    ensures CountAt(g1, ls, p) == CountAt(g2, ls, p)
  {
    if ls != [] {
      CountAtSame(g1, g2, ls[..|ls| - 1], p);
    }
  }

  /** Changing the tile at one location `c` of a repetition-free list changes the count by
      that tile's contribution. */
  lemma {:induction false} CountAtChange(g1: Cells, g2: Cells, ls: seq<Loc>, c: Loc, p: Tile -> bool)
    requires AllWithin(g1, ls) && AllWithin(g2, ls) && Within(g1, c) && Within(g2, c)
    requires forall i, j :: 0 <= i < j < |ls| ==> ls[i] != ls[j]
    requires forall l :: l in ls && l != c ==> p(At(g1, l)) == p(At(g2, l))
    ensures CountAt(g2, ls, p) ==
      CountAt(g1, ls, p) + if c in ls then (if p(At(g2, c)) then 1 else 0) - (if p(At(g1, c)) then 1 else 0) else 0
  {
    if ls != [] {
      var init := ls[..|ls| - 1];
      assert forall i, j :: 0 <= i < j < |init| ==> init[i] != init[j];
      CountAtChange(g1, g2, init, c, p);
      assert ls == init + [ls[|ls| - 1]];
      assert c in ls <==> c in init || c == ls[|ls| - 1];
      assert c == ls[|ls| - 1] ==> c !in init;
    }
  }

  /** The count is zero exactly when no tile at `ls` satisfies `p`. */
  lemma {:induction false} CountAtZero(g: Cells, ls: seq<Loc>, p: Tile -> bool)
    requires AllWithin(g, ls)
    ensures CountAt(g, ls, p) == 0 <==> forall l :: l in ls ==> !p(At(g, l))
  {
    if ls != [] {
      CountAtZero(g, ls[..|ls| - 1], p);
      assert ls == ls[..|ls| - 1] + [ls[|ls| - 1]];
    }
  }

  /** Counting a disjoint union is adding the counts. */
  lemma {:induction false} CountAtDisjoint(g: Cells, ls: seq<Loc>, p: Tile -> bool, q: Tile -> bool, r: Tile -> bool)
    requires AllWithin(g, ls)
    requires forall l :: l in ls ==> (r(At(g, l)) <==> p(At(g, l)) || q(At(g, l))) && !(p(At(g, l)) && q(At(g, l)))
    ensures CountAt(g, ls, r) == CountAt(g, ls, p) + CountAt(g, ls, q)
  {
    if ls != [] {
      CountAtDisjoint(g, ls[..|ls| - 1], p, q, r);
      assert ls[|ls| - 1] in ls;
    }
  }

  /** Counting a weaker property gives at least as many, and exactly as many only when the
      two properties agree at every location. */
  lemma {:induction false} CountAtMono(g: Cells, ls: seq<Loc>, p: Tile -> bool, q: Tile -> bool)
    requires AllWithin(g, ls)
    requires forall l :: l in ls ==> p(At(g, l)) ==> q(At(g, l))
    ensures CountAt(g, ls, p) <= CountAt(g, ls, q)
    ensures CountAt(g, ls, p) == CountAt(g, ls, q) ==> forall l :: l in ls ==> q(At(g, l)) ==> p(At(g, l))
  {
    if ls != [] {
      var init := ls[..|ls| - 1];
      CountAtMono(g, init, p, q);
      assert ls == init + [ls[|ls| - 1]];
    }
  }

  // ---------------------------------------------------------------------------
  // Counting over the whole grid, row by row

  function CountRow(row: seq<Tile>, x: int, p: Tile -> bool): nat
    requires 0 <= x <= |row|
  {
    if x == 0 then 0 else CountRow(row, x - 1, p) + (if p(row[x - 1]) then 1 else 0)
  }

  function CountRows(g: Cells, y: int, p: Tile -> bool): nat
    requires 0 <= y <= |g|
  {
    if y == 0 then 0 else CountRows(g, y - 1, p) + CountRow(g[y - 1], |g[y - 1]|, p)
  }

  /** The number of tiles of `g` that satisfy `p`. */
  function Count(g: Cells, p: Tile -> bool): nat {
    CountRows(g, |g|, p)
  }

  lemma {:induction false} CountRowPut(row: seq<Tile>, x: int, k: int, t: Tile, p: Tile -> bool)
    requires 0 <= x <= |row| && 0 <= k < |row|
    ensures CountRow(row[k := t], x, p) ==
      CountRow(row, x, p) + if k < x then (if p(t) then 1 else 0) - (if p(row[k]) then 1 else 0) else 0
  {
    if x > 0 {
      CountRowPut(row, x - 1, k, t, p);
    }
  }

  lemma {:induction false} CountRowsPut(g: Cells, y: int, l: Loc, t: Tile, p: Tile -> bool)
    requires 0 <= y <= |g| && Within(g, l)
    ensures CountRows(Put(g, l, t), y, p) ==
      CountRows(g, y, p) + if l.0 < y then (if p(t) then 1 else 0) - (if p(At(g, l)) then 1 else 0) else 0
  {
    if y > 0 {
      CountRowsPut(g, y - 1, l, t, p);
      if l.0 == y - 1 {
        CountRowPut(g[y - 1], |g[y - 1]|, l.1, t, p);
        assert Put(g, l, t)[y - 1] == g[y - 1][l.1 := t];
      } else {
        assert Put(g, l, t)[y - 1] == g[y - 1];
      }
    }
  }

  /** Writing one tile changes the count by that tile's contribution. */
  lemma CountPut(g: Cells, l: Loc, t: Tile, p: Tile -> bool)
    requires Within(g, l)
    ensures Count(Put(g, l, t), p) == Count(g, p) - (if p(At(g, l)) then 1 else 0) + (if p(t) then 1 else 0)
  {
    CountRowsPut(g, |g|, l, t, p);
  }

  lemma {:induction false} CountRowSame(r1: seq<Tile>, r2: seq<Tile>, x: int, p: Tile -> bool, q: Tile -> bool)
    requires 0 <= x <= |r1| == |r2|
    requires forall k :: 0 <= k < |r1| ==> p(r1[k]) == q(r2[k])
    ensures CountRow(r1, x, p) == CountRow(r2, x, q)
  {
    if x > 0 {
      CountRowSame(r1, r2, x - 1, p, q);
    }
  }

  lemma {:induction false} CountRowsSame(g1: Cells, g2: Cells, y: int, h: int, w: int, p: Tile -> bool, q: Tile -> bool)
    requires IsGrid(g1, h, w) && IsGrid(g2, h, w) && 0 <= y <= h
    requires forall i, j :: 0 <= i < h && 0 <= j < w ==> p(g1[i][j]) == q(g2[i][j])
    ensures CountRows(g1, y, p) == CountRows(g2, y, q)
  {
    if y > 0 {
      CountRowsSame(g1, g2, y - 1, h, w, p, q);
      CountRowSame(g1[y - 1], g2[y - 1], w, p, q);
    }
  }

  /** `g2` differs from `g1` at most in the labels. */
  ghost predicate SameGround(g1: Cells, g2: Cells, h: int, w: int) {
    IsGrid(g1, h, w) && IsGrid(g2, h, w) &&
    forall i, j :: 0 <= i < h && 0 <= j < w ==>
      g2[i][j].hasMine == g1[i][j].hasMine && g2[i][j].isFlagged == g1[i][j].isFlagged &&
      g2[i][j].isRevealed == g1[i][j].isRevealed
  }

  /** Only what `p` sees of each tile matters. */
  lemma CountSame(g1: Cells, g2: Cells, h: int, w: int, p: Tile -> bool)
    requires IsGrid(g1, h, w) && IsGrid(g2, h, w)
    requires forall i, j :: 0 <= i < h && 0 <= j < w ==> p(g1[i][j]) == p(g2[i][j])
    ensures Count(g1, p) == Count(g2, p)
  {
    CountRowsSame(g1, g2, h, h, w, p, p);
  }

  /** Two properties that agree tile by tile have the same count. */
  lemma CountEquiv(g1: Cells, g2: Cells, h: int, w: int, p: Tile -> bool, q: Tile -> bool)
    requires IsGrid(g1, h, w) && IsGrid(g2, h, w)
    requires forall i, j :: 0 <= i < h && 0 <= j < w ==> p(g1[i][j]) == q(g2[i][j])
    ensures Count(g1, p) == Count(g2, q)
  {
    CountRowsSame(g1, g2, h, h, w, p, q);
  }

  lemma {:induction false} CountRowZero(row: seq<Tile>, x: int, p: Tile -> bool)
    requires 0 <= x <= |row|
    ensures CountRow(row, x, p) == 0 <==> forall k :: 0 <= k < x ==> !p(row[k])
  {
    if x > 0 {
      CountRowZero(row, x - 1, p);
    }
  }

  lemma {:induction false} CountRowsZero(g: Cells, y: int, p: Tile -> bool)
    requires 0 <= y <= |g|
    ensures CountRows(g, y, p) == 0 <==> forall i, j :: 0 <= i < y && 0 <= j < |g[i]| ==> !p(g[i][j])
  {
    if y > 0 {
      CountRowsZero(g, y - 1, p);
      CountRowZero(g[y - 1], |g[y - 1]|, p);
    }
  }

  /** No tile satisfies `p` exactly when the count is zero. */
  lemma CountZero(g: Cells, p: Tile -> bool)
    ensures Count(g, p) == 0 <==> forall i, j :: 0 <= i < |g| && 0 <= j < |g[i]| ==> !p(g[i][j])
  {
    CountRowsZero(g, |g|, p);
  }

  lemma {:induction false} CountRowSplit(row: seq<Tile>, x: int)
    requires 0 <= x <= |row|
    ensures CountRow(row, x, IsMine) + CountRow(row, x, IsOpen) == x
  {
    if x > 0 {
      CountRowSplit(row, x - 1);
    }
  }

  lemma {:induction false} CountRowsSplit(g: Cells, y: int, h: int, w: int)
    requires IsGrid(g, h, w) && 0 <= y <= h
    ensures CountRows(g, y, IsMine) + CountRows(g, y, IsOpen) == y * w
  {
    if y > 0 {
      CountRowsSplit(g, y - 1, h, w);
      CountRowSplit(g[y - 1], w);
      assert y * w == (y - 1) * w + w;
    }
  }

  /** Every tile is either mined or open. */
  lemma CountSplit(g: Cells, h: int, w: int)
    requires IsGrid(g, h, w)
    ensures Count(g, IsMine) + Count(g, IsOpen) == h * w
  {
    CountRowsSplit(g, h, h, w);
  }

  /** `(y, x)` is at index `y * w + x` of the row-major flattening. */
  lemma FlatIndex(y: int, x: int, h: int, w: int)
    requires 0 <= y < h && 0 <= x < w
    ensures 0 <= y * w + x < h * w
    ensures (y + 1) * w == y * w + w <= h * w
  {
    assert (y + 1) * w == y * w + w;
    assert y + 1 <= h;
    assert (y + 1) * w <= h * w;
  }

  lemma {:induction false} CountRowMask(row: seq<Tile>, x: int, mask: seq<bool>, base: int)
    requires 0 <= x <= |row| && 0 <= base && base + |row| <= |mask|
    requires forall k :: 0 <= k < |row| ==> row[k].hasMine == mask[base + k]
    ensures CountRow(row, x, IsMine) == multiset(mask[base..base + x])[true]
  {
    if x > 0 {
      CountRowMask(row, x - 1, mask, base);
      assert mask[base..base + x] == mask[base..base + x - 1] + [mask[base + x - 1]];
    }
  }

  /** Entry `i * w + j` of a row-major `h x w` mask: the value stored in tile `(i, j)`. */
  function Cell(mask: seq<bool>, h: int, w: int, i: int, j: int): bool
    requires |mask| == h * w && 0 <= i < h && 0 <= j < w
  {
    FlatIndex(i, j, h, w);
    mask[i * w + j]
  }

  /** Tile `(i, j)` holds a mine exactly when entry `i * w + j` of `mask` is true. */
  ghost predicate MaskOf(g: Cells, h: int, w: int, mask: seq<bool>) {
    IsGrid(g, h, w) && |mask| == h * w &&
    forall i, j :: 0 <= i < h && 0 <= j < w ==> g[i][j].hasMine == Cell(mask, h, w, i, j)
  }

  lemma {:induction false} CountRowsMask(g: Cells, y: int, h: int, w: int, mask: seq<bool>)
    requires MaskOf(g, h, w, mask) && 0 <= y <= h && w >= 1
    ensures 0 <= y * w <= h * w
    ensures CountRows(g, y, IsMine) == multiset(mask[..y * w])[true]
  {
    if y == 0 {
      assert y * w == 0 <= h * w;
    } else {
      CountRowsMask(g, y - 1, h, w, mask);
      var base := MaskRow(g, h, w, mask, y - 1);
      var top := base + w;
      assert top == y * w;
      CountRowMask(g[y - 1], w, mask, base);
      assert mask[..top] == mask[..base] + mask[base..top];
    }
  }

  /** Row `i` of a grid read from `mask` is the slice of `mask` from `base == i * w`. */
  lemma MaskRow(g: Cells, h: int, w: int, mask: seq<bool>, i: int) returns (base: int)
    requires MaskOf(g, h, w, mask) && 0 <= i < h && w >= 1
    ensures base == i * w && 0 <= base && base + w == (i + 1) * w <= h * w
    ensures |g[i]| == w && forall k :: 0 <= k < w ==> g[i][k].hasMine == mask[base + k]
  {
    FlatIndex(i, 0, h, w);
    base := i * w;
    forall k | 0 <= k < w ensures g[i][k].hasMine == mask[base + k] {
      assert g[i][k].hasMine == Cell(mask, h, w, i, k);
    }
  }

  /** When tile `(y, x)` takes entry `y * w + x` of `mask`, the grid has as many mines as
      `mask` has `true` entries. */
  lemma CountMask(g: Cells, h: int, w: int, mask: seq<bool>)
    requires MaskOf(g, h, w, mask) && w >= 1
    ensures Count(g, IsMine) == multiset(mask)[true]
  {
    if h > 0 {
      FlatIndex(h - 1, 0, h, w);
    }
    CountRowsMask(g, h, h, w, mask);
    assert mask[..h * w] == mask;
  }

  lemma {:induction false} CountRowAtMostOne(row: seq<Tile>, x: int, c: int, p: Tile -> bool)
    requires 0 <= x <= |row|
    requires forall k :: 0 <= k < |row| && k != c ==> !p(row[k])
    ensures CountRow(row, x, p) <= if 0 <= c < x then 1 else 0
  {
    if x > 0 {
      CountRowAtMostOne(row, x - 1, c, p);
    }
  }

  lemma {:induction false} CountRowsAtMostOne(g: Cells, y: int, c: Loc, p: Tile -> bool)
    requires 0 <= y <= |g|
    requires forall i, j :: 0 <= i < |g| && 0 <= j < |g[i]| && (i, j) != c ==> !p(g[i][j])
    ensures CountRows(g, y, p) <= if 0 <= c.0 < y then 1 else 0
  {
    if y > 0 {
      CountRowsAtMostOne(g, y - 1, c, p);
      if c.0 == y - 1 {
        CountRowAtMostOne(g[y - 1], |g[y - 1]|, c.1, p);
      } else {
        CountRowAtMostOne(g[y - 1], |g[y - 1]|, -1, p);
      }
    }
  }

  /** If at most the tile at `c` satisfies `p`, the count is at most one. */
  lemma CountAtMostOne(g: Cells, c: Loc, p: Tile -> bool)
    requires forall i, j :: 0 <= i < |g| && 0 <= j < |g[i]| && (i, j) != c ==> !p(g[i][j])
    ensures Count(g, p) <= 1
  {
    CountRowsAtMostOne(g, |g|, c, p);
  }

  // ---------------------------------------------------------------------------
  // Adjacency labels

  /** The number of mined in-bounds neighbours of `l`. */
  function AdjMines(g: Cells, h: int, w: int, l: Loc): nat
    requires IsGrid(g, h, w) && InBounds(h, w, l)
  {
    NeighborsWithin(g, h, w, l.0, l.1);
    CountAt(g, Neighbors(h, w, l.0, l.1), IsMine)
  }

  /** Every label is the number of mined neighbours. */
  ghost predicate Labelled(g: Cells, h: int, w: int) {
    IsGrid(g, h, w) &&
    forall y, x :: 0 <= y < h && 0 <= x < w ==> g[y][x].adjacentMines == AdjMines(g, h, w, (y, x))
  }

  /** A correctly labelled zero tile has no mined neighbour. */
  lemma ZeroLabelSafeNeighbors(g: Cells, h: int, w: int, l: Loc)
    requires Labelled(g, h, w) && InBounds(h, w, l) && At(g, l).adjacentMines == 0
    ensures forall n :: n in Neighbors(h, w, l.0, l.1) ==> !At(g, n).hasMine
  {
    NeighborsWithin(g, h, w, l.0, l.1);
    CountAtZero(g, Neighbors(h, w, l.0, l.1), IsMine);
  }

  /** The labels only depend on where the mines are. */
  lemma LabelledSameMines(g1: Cells, g2: Cells, h: int, w: int)
    requires Labelled(g1, h, w) && SameLabels(g1, g2, h, w)
    ensures Labelled(g2, h, w)
  {
    forall y, x | 0 <= y < h && 0 <= x < w
      ensures g2[y][x].adjacentMines == AdjMines(g2, h, w, (y, x))
    {
      NeighborsWithin(g1, h, w, y, x);
      CountAtSame(g1, g2, Neighbors(h, w, y, x), IsMine);
    }
  }

  /** `a` comes before `b` in row-major order. */
  predicate Before(a: Loc, y: int, x: int) { a.0 < y || (a.0 == y && a.1 < x) }

  /** How many of the tiles at `ls` that come before `(y, x)` hold a mine. */
  function MinedBefore(g: Cells, ls: seq<Loc>, y: int, x: int): nat
    requires AllWithin(g, ls)
  {
    if ls == [] then 0
    else
      var last := ls[|ls| - 1];
      MinedBefore(g, ls[..|ls| - 1], y, x) + if At(g, last).hasMine && Before(last, y, x) then 1 else 0
  }

  /** Passing `(y, x)` in the row-major scan adds that tile's mine, if it is one of `ls`. */
  lemma {:induction false} MinedBeforeStep(g: Cells, ls: seq<Loc>, y: int, x: int)
    requires AllWithin(g, ls)
    requires forall i, j :: 0 <= i < j < |ls| ==> ls[i] != ls[j]
    ensures MinedBefore(g, ls, y, x + 1) ==
      MinedBefore(g, ls, y, x) + if (y, x) in ls && At(g, (y, x)).hasMine then 1 else 0
  {
    if ls != [] {
      var init := ls[..|ls| - 1];
      assert forall i, j :: 0 <= i < j < |init| ==> init[i] != init[j];
      MinedBeforeStep(g, init, y, x);
      assert ls == init + [ls[|ls| - 1]];
      assert (y, x) == ls[|ls| - 1] ==> (y, x) !in init;
    }
  }

  /** The end of a row is the start of the next one. */
  lemma {:induction false} MinedBeforeRow(g: Cells, ls: seq<Loc>, y: int, w: int)
    requires AllWithin(g, ls) && forall l :: l in ls ==> l.1 < w
    ensures MinedBefore(g, ls, y, w) == MinedBefore(g, ls, y + 1, 0)
  {
    if ls != [] {
      MinedBeforeRow(g, ls[..|ls| - 1], y, w);
    }
  }

  /** Before the first row nothing is counted. */
  lemma {:induction false} MinedBeforeStart(g: Cells, ls: seq<Loc>)
    requires AllWithin(g, ls) && forall l :: l in ls ==> 0 <= l.0
    ensures MinedBefore(g, ls, 0, 0) == 0
  {
    if ls != [] {
      MinedBeforeStart(g, ls[..|ls| - 1]);
    }
  }

  /** After the last row every mine is counted. */
  lemma {:induction false} MinedBeforeEnd(g: Cells, ls: seq<Loc>, h: int)
    requires AllWithin(g, ls) && forall l :: l in ls ==> l.0 < h
    ensures MinedBefore(g, ls, h, 0) == CountAt(g, ls, IsMine)
  {
    if ls != [] {
      MinedBeforeEnd(g, ls[..|ls| - 1], h);
    }
  }

  /** `adjacentMines += d`. */
  function Shift(t: Tile, d: int): Tile {
    t.(adjacentMines := t.adjacentMines + d)
  }

  /** `g` with the label at each location of `ls` moved by `delta`, one location at a time. */
  function BumpAll(g: Cells, ls: seq<Loc>, delta: int): (r: Cells)
    requires AllWithin(g, ls)
    ensures |r| == |g| && forall y :: 0 <= y < |g| ==> |r[y]| == |g[y]|
  {
    if ls == [] then g
    else
      var l := ls[|ls| - 1];
      assert l in ls;
      var r0 := BumpAll(g, ls[..|ls| - 1], delta);
      Put(r0, l, Shift(At(r0, l), delta))
  }

  /** On a repetition-free list each listed label moves by `delta` once, the rest stay. */
  lemma {:induction false} BumpAllAt(g: Cells, ls: seq<Loc>, delta: int, y: int, x: int)
    requires AllWithin(g, ls) && forall i, j :: 0 <= i < j < |ls| ==> ls[i] != ls[j]
    requires 0 <= y < |g| && 0 <= x < |g[y]|
    ensures BumpAll(g, ls, delta)[y][x] == if (y, x) in ls then Shift(g[y][x], delta) else g[y][x]
  {
    if ls != [] {
      var init := ls[..|ls| - 1];
      assert forall i, j :: 0 <= i < j < |init| ==> init[i] != init[j];
      BumpAllAt(g, init, delta, y, x);
      assert ls == init + [ls[|ls| - 1]];
      assert (y, x) in ls <==> (y, x) in init || (y, x) == ls[|ls| - 1];
      assert (y, x) == ls[|ls| - 1] ==> (y, x) !in init;
    }
  }

  /** Moving the labels at the neighbour list of `(y, x)` moves exactly the adjacent labels. */
  lemma BumpNeighbors(g: Cells, h: int, w: int, y: int, x: int, delta: int)
    requires IsGrid(g, h, w) && InBounds(h, w, (y, x))
    ensures AllWithin(g, Neighbors(h, w, y, x))
    ensures forall i, j :: 0 <= i < h && 0 <= j < w ==>
      BumpAll(g, Neighbors(h, w, y, x), delta)[i][j] == if Adjacent((i, j), (y, x)) then Shift(g[i][j], delta) else g[i][j]
  {
    var ns := Neighbors(h, w, y, x);
    NeighborsExact(h, w, y, x);
    forall i, j | 0 <= i < h && 0 <= j < w
      ensures BumpAll(g, ns, delta)[i][j] == if Adjacent((i, j), (y, x)) then Shift(g[i][j], delta) else g[i][j]
    {
      BumpAllAt(g, ns, delta, i, j);
    }
  }

  /** The `adjacentMines++` callback `forEachNeighbor_(y, x, ...)` runs in `labelTiles_` and
      `swapMine_` (and `adjacentMines--` with `delta == -1`): every neighbour's label moves
      by `delta`, nothing else changes. */
  method AddAround(g: Cells, h: int, w: int, y: int, x: int, delta: int) returns (r: Cells)
    requires IsGrid(g, h, w) && InBounds(h, w, (y, x))
    ensures IsGrid(r, h, w)
    ensures forall i, j :: 0 <= i < h && 0 <= j < w ==>
      r[i][j] == if Adjacent((i, j), (y, x)) then Shift(g[i][j], delta) else g[i][j]
  {
    BumpNeighbors(g, h, w, y, x, delta);
    r := AddAll(g, Neighbors(h, w, y, x), delta);
  }

  /** The loop of `forEachNeighbor_` running the label callback over the locations `ls`. */
  method AddAll(g: Cells, ls: seq<Loc>, delta: int) returns (r: Cells)
    requires AllWithin(g, ls)
    ensures r == BumpAll(g, ls, delta)
  {
    r := g;
    for k := 0 to |ls|
      invariant AllWithin(g, ls[..k]) && r == BumpAll(g, ls[..k], delta)
    {
      assert ls[..k + 1][..k] == ls[..k];
      assert ls[k] in ls;
      r := Put(r, ls[k], Shift(At(r, ls[k]), delta));
    }
    assert ls[..|ls|] == ls;
  }


  /** A `forEachNeighbor_` callback that counts the neighbours satisfying `p`. */
  method CountAround(g: Cells, h: int, w: int, y: int, x: int, p: Tile -> bool) returns (c: nat)
    requires IsGrid(g, h, w) && InBounds(h, w, (y, x))
    ensures AllWithin(g, Neighbors(h, w, y, x)) && c == CountAt(g, Neighbors(h, w, y, x), p)
  {
    NeighborsWithin(g, h, w, y, x);
    c := CountAll(g, Neighbors(h, w, y, x), p);
  }

  /** The loop of `forEachNeighbor_` running a counting callback over the locations `ls`. */
  method CountAll(g: Cells, ls: seq<Loc>, p: Tile -> bool) returns (c: nat)
    requires AllWithin(g, ls)
    ensures c == CountAt(g, ls, p)
  {
    c := 0;
    for k := 0 to |ls|
      invariant c == CountAt(g, ls[..k], p)
    {
      assert ls[..k + 1][..k] == ls[..k];
      assert ls[k] in ls;
      if p(At(g, ls[k])) {
        c := c + 1;
      }
    }
    assert ls[..|ls|] == ls;
  }

  // ---------------------------------------------------------------------------
  // Flood-fill sweeps

  /** What revealing does to a tile: the module version also drops the flag. */
  function Uncover(t: Tile, clearFlag: bool): Tile {
    if clearFlag then t.(isRevealed := true, isFlagged := false) else t.(isRevealed := true)
  }

  /** `g1` is `g0` with exactly the distinct, previously concealed locations `ls` revealed. */
  ghost predicate Sweep(g0: Cells, g1: Cells, h: int, w: int, ls: seq<Loc>, clearFlag: bool) {
    IsGrid(g0, h, w) && IsGrid(g1, h, w) &&
    (forall i :: 0 <= i < |ls| ==> InBounds(h, w, ls[i]) && !At(g0, ls[i]).isRevealed) &&
    (forall i, j :: 0 <= i < j < |ls| ==> ls[i] != ls[j]) &&
    (forall y, x :: 0 <= y < h && 0 <= x < w ==>
      g1[y][x] == if (y, x) in ls then Uncover(g0[y][x], clearFlag) else g0[y][x])
  }

  /** Two sweeps in a row are one sweep. */
  lemma SweepTrans(g0: Cells, g1: Cells, g2: Cells, h: int, w: int, a: seq<Loc>, b: seq<Loc>, clearFlag: bool)
    requires Sweep(g0, g1, h, w, a, clearFlag) && Sweep(g1, g2, h, w, b, clearFlag)
    ensures Sweep(g0, g2, h, w, a + b, clearFlag)
  {
    forall i, j | 0 <= i < |a| && 0 <= j < |b| ensures a[i] != b[j] {
      assert At(g1, a[i]).isRevealed;
    }
    forall i, j | 0 <= i < j < |a + b| ensures (a + b)[i] != (a + b)[j] {
      if j < |a| {
      } else if i >= |a| {
        assert (a + b)[i] == b[i - |a|] && (a + b)[j] == b[j - |a|];
      } else {
        assert (a + b)[j] == b[j - |a|];
      }
    }
    forall i | 0 <= i < |a + b| ensures InBounds(h, w, (a + b)[i]) && !At(g0, (a + b)[i]).isRevealed {
      if i >= |a| {
        var l := b[i - |a|];
        assert l !in a;
      }
    }
  }

  /** Every located tile after the first was swept in from an earlier zero tile next to it:
      the fill expands only from revealed tiles with no adjacent mines and no mine. */
  ghost predicate Spread(g: Cells, ls: seq<Loc>)
    requires AllWithin(g, ls)
  {
    forall i :: 0 < i < |ls| ==> FedBy(g, ls, i)
  }

  /** Location `ls[i]` is next to an earlier zero tile of `ls`. */
  ghost predicate FedBy(g: Cells, ls: seq<Loc>, i: int)
    requires AllWithin(g, ls) && 0 <= i < |ls|
  {
    exists j :: 0 <= j < i && IsZeroSafe(At(g, ls[j])) && Adjacent(ls[j], ls[i])
  }

  /** On a correctly labelled grid a spread that starts on an open tile never reaches a mine. */
  lemma SpreadAvoidsMines(g: Cells, h: int, w: int, ls: seq<Loc>)
    requires Labelled(g, h, w) && AllWithin(g, ls) && (forall l :: l in ls ==> InBounds(h, w, l))
    requires Spread(g, ls) && (|ls| > 0 ==> !At(g, ls[0]).hasMine)
    ensures forall i :: 0 <= i < |ls| ==> !At(g, ls[i]).hasMine
  {
    forall i | 0 < i < |ls| ensures !At(g, ls[i]).hasMine {
      assert FedBy(g, ls, i);
      var j :| 0 <= j < i && IsZeroSafe(At(g, ls[j])) && Adjacent(ls[j], ls[i]);
      var a, b := ls[j], ls[i];
      assert b in ls && a in ls;
      assert Adjacent(b, (a.0, a.1));
      ZeroLabelSafeNeighbors(g, h, w, a);
      NeighborsExact(h, w, a.0, a.1);
      assert b in Neighbors(h, w, a.0, a.1);
    }
  }

  /** Every tile at `ls` is revealed. */
  ghost predicate AllRevealed(g: Cells, ls: seq<Loc>)
    requires AllWithin(g, ls)
  {
    forall l :: l in ls ==> At(g, l).isRevealed
  }

  /** Every neighbour of `l` is revealed: what the fill leaves around a zero tile. */
  ghost predicate Closed(g: Cells, h: int, w: int, l: Loc)
    requires IsGrid(g, h, w) && InBounds(h, w, l)
  {
    forall n :: n in Neighbors(h, w, l.0, l.1) ==> At(g, n).isRevealed
  }

  /** Revealing more tiles keeps a neighbourhood closed. */
  lemma ClosedSweep(g0: Cells, g1: Cells, h: int, w: int, ls: seq<Loc>, clearFlag: bool, l: Loc)
    requires Sweep(g0, g1, h, w, ls, clearFlag) && InBounds(h, w, l) && Closed(g0, h, w, l)
    ensures Closed(g1, h, w, l)
  {
    forall n | n in Neighbors(h, w, l.0, l.1) ensures At(g1, n).isRevealed {
      assert At(g0, n).isRevealed;
    }
  }

  /** Revealing one concealed tile is a sweep. */
  lemma SweepOne(g0: Cells, h: int, w: int, l: Loc, clearFlag: bool)
    requires IsGrid(g0, h, w) && InBounds(h, w, l) && !At(g0, l).isRevealed
    ensures Sweep(g0, Put(g0, l, Uncover(At(g0, l), clearFlag)), h, w, [l], clearFlag)
  {
  }

  /** `g0` and `g1` have the same mines and the same labels. */
  ghost predicate SameLabels(g0: Cells, g1: Cells, h: int, w: int) {
    IsGrid(g0, h, w) && IsGrid(g1, h, w) &&
    forall y, x :: 0 <= y < h && 0 <= x < w ==>
      g1[y][x].adjacentMines == g0[y][x].adjacentMines && g1[y][x].hasMine == g0[y][x].hasMine
  }

  /** A sweep keeps every tile's mine and label. */
  lemma SweepKeepsLabels(g0: Cells, g1: Cells, h: int, w: int, ls: seq<Loc>, clearFlag: bool)
    requires Sweep(g0, g1, h, w, ls, clearFlag)
    ensures SameLabels(g0, g1, h, w)
  {
  }

  /** Appending a spread `b`, found on a grid with the same labels, whose first location is
      next to a zero tile of `a`, gives one spread. */
  lemma SpreadAppend(g0: Cells, g1: Cells, h: int, w: int, a: seq<Loc>, b: seq<Loc>)
    requires SameLabels(g0, g1, h, w) && AllWithin(g0, a) && AllWithin(g0, b) && AllWithin(g1, b)
    requires Spread(g0, a) && Spread(g1, b)
    requires b != [] ==> exists j :: 0 <= j < |a| && IsZeroSafe(At(g0, a[j])) && Adjacent(a[j], b[0])
    ensures AllWithin(g0, a + b) && Spread(g0, a + b)
  {
    var ab := a + b;
    assert forall l :: l in ab ==> l in a || l in b;
    assert AllWithin(g0, ab);
    forall i | 0 < i < |ab| ensures FedBy(g0, ab, i) {
      if i < |a| {
        assert FedBy(g0, a, i);
        var j :| 0 <= j < i && IsZeroSafe(At(g0, a[j])) && Adjacent(a[j], a[i]);
        assert ab[j] == a[j] && ab[i] == a[i];
        assert IsZeroSafe(At(g0, ab[j])) && Adjacent(ab[j], ab[i]);
      } else if i == |a| {
        var j :| 0 <= j < |a| && IsZeroSafe(At(g0, a[j])) && Adjacent(a[j], b[0]);
        assert ab[j] == a[j] && ab[i] == b[0];
        assert IsZeroSafe(At(g0, ab[j])) && Adjacent(ab[j], ab[i]);
      } else {
        assert FedBy(g1, b, i - |a|);
        var j :| 0 <= j < i - |a| && IsZeroSafe(At(g1, b[j])) && Adjacent(b[j], b[i - |a|]);
        assert b[j] in b;
        assert At(g1, b[j]).adjacentMines == At(g0, b[j]).adjacentMines;
        assert At(g1, b[j]).hasMine == At(g0, b[j]).hasMine;
        assert ab[j + |a|] == b[j] && ab[i] == b[i - |a|];
        assert IsZeroSafe(At(g0, ab[j + |a|])) && Adjacent(ab[j + |a|], ab[i]);
      }
    }
  }

  /** A sweep of tiles that all satisfy `p` before and fail it once revealed lowers the
      count of `p` by the length of the sweep. */
  lemma {:induction false} SweepCount(g0: Cells, g1: Cells, h: int, w: int, ls: seq<Loc>, clearFlag: bool, p: Tile -> bool)
    requires Sweep(g0, g1, h, w, ls, clearFlag)
    requires forall i :: 0 <= i < |ls| ==> p(At(g0, ls[i])) && !p(Uncover(At(g0, ls[i]), clearFlag))
    ensures Count(g1, p) == Count(g0, p) - |ls|
    decreases |ls|
  {
    if ls == [] {
      CountSame(g0, g1, h, w, p);
    } else {
      var n := |ls| - 1;
      var l, init := ls[n], ls[..n];
      assert ls == init + [l];
      forall i | 0 <= i < n ensures init[i] != l {
        assert init[i] == ls[i];
      }
      var gm := Put(g1, l, At(g0, l));
      forall y, x | 0 <= y < h && 0 <= x < w
        ensures gm[y][x] == if (y, x) in init then Uncover(g0[y][x], clearFlag) else g0[y][x]
      {
        assert (y, x) in ls <==> (y, x) in init || (y, x) == l;
      }
      assert Sweep(g0, gm, h, w, init, clearFlag);
      SweepCount(g0, gm, h, w, init, clearFlag, p);
      CountPut(g1, l, At(g0, l), p);
    }
  }

  /** No revealed tile holds a mine. */
  ghost predicate NoMineShown(g: Cells, h: int, w: int) {
    IsGrid(g, h, w) && forall i, j :: 0 <= i < h && 0 <= j < w && g[i][j].isRevealed ==> !g[i][j].hasMine
  }

  /** A sweep that reveals no mine shows no mine. */
  lemma SweepShowsNoMine(g0: Cells, g1: Cells, h: int, w: int, ls: seq<Loc>, clearFlag: bool)
    requires Sweep(g0, g1, h, w, ls, clearFlag) && NoMineShown(g0, h, w)
    requires forall i :: 0 <= i < |ls| ==> !At(g0, ls[i]).hasMine
    ensures NoMineShown(g1, h, w)
  {
    forall i, j | 0 <= i < h && 0 <= j < w && g1[i][j].isRevealed ensures !g1[i][j].hasMine {
      if (i, j) in ls {
        var k :| 0 <= k < |ls| && ls[k] == (i, j);
      }
    }
  }

  /** Writing a tile with the same mine and label keeps all mines and labels. */
  lemma PutSameLabels(g: Cells, h: int, w: int, l: Loc, t: Tile)
    requires IsGrid(g, h, w) && InBounds(h, w, l)
    requires t.hasMine == At(g, l).hasMine && t.adjacentMines == At(g, l).adjacentMines
    ensures SameLabels(g, Put(g, l, t), h, w)
  {
  }

  /** Counting further along a row counts at least as many. */
  lemma {:induction false} CountRowMono(row: seq<Tile>, x1: int, x2: int, p: Tile -> bool)
    requires 0 <= x1 <= x2 <= |row|
    ensures CountRow(row, x1, p) <= CountRow(row, x2, p)
    decreases x2
  {
    if x1 < x2 {
      CountRowMono(row, x1, x2 - 1, p);
    }
  }

  /** Counting more rows counts at least as many. */
  lemma {:induction false} CountRowsMono(g: Cells, y1: int, y2: int, p: Tile -> bool)
    requires 0 <= y1 <= y2 <= |g|
    ensures CountRows(g, y1, p) <= CountRows(g, y2, p)
    decreases y2
  {
    if y1 < y2 {
      CountRowsMono(g, y1, y2 - 1, p);
    }
  }
}
