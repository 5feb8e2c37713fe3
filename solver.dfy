/** The two deduction passes of js/MinesweeperBoard.js, `aiFlagLocations` and
    `aiFindSaturatedLocations`, over a grid and its clue set, and why their conclusions are
    sound on a correctly labelled board. */
module Solver {
  import opened Grid

  /** A clue the pass keeps: its label is positive and it has an unknown neighbour. */
  ghost predicate Live(g: Cells, h: int, w: int, l: Loc)
    requires IsGrid(g, h, w) && InBounds(h, w, l)
  {
    NeighborsWithin(g, h, w, l.0, l.1);
    At(g, l).adjacentMines != 0 && CountAt(g, Neighbors(h, w, l.0, l.1), IsUnknown) != 0
  }

  /** The pass draws a conclusion from the clue at `l`. In flag mode its label equals its
      flagged plus unknown neighbours; in saturated mode its flagged neighbours. */
  ghost predicate Fires(g: Cells, h: int, w: int, l: Loc, saturated: bool)
    requires IsGrid(g, h, w) && InBounds(h, w, l)
  {
    NeighborsWithin(g, h, w, l.0, l.1);
    var ns := Neighbors(h, w, l.0, l.1);
    Live(g, h, w, l) &&
    if saturated then At(g, l).adjacentMines == CountAt(g, ns, IsMarked)
    else CountAt(g, ns, IsMarked) + CountAt(g, ns, IsUnknown) == At(g, l).adjacentMines
  }

  /** What the clue at `l` contributes: its unknown neighbours when it fires, else nothing. */
  ghost function Contribution(g: Cells, h: int, w: int, l: Loc, saturated: bool): set<Loc>
    requires IsGrid(g, h, w) && InBounds(h, w, l)
  {
    if Fires(g, h, w, l, saturated) then set n | n in Neighbors(h, w, l.0, l.1) && IsUnknown(At(g, n))
    else {}
  }

  /** `n` is an unknown neighbour of a clue of `cs` that fires. */
  ghost predicate Implied(g: Cells, h: int, w: int, cs: set<Loc>, saturated: bool, n: Loc)
    requires IsGrid(g, h, w)
  {
    exists l :: l in cs && InBounds(h, w, l) && n in Contribution(g, h, w, l, saturated)
  }

  /** Everything a pass over the clues `cs` collects. */
  ghost function Targets(g: Cells, h: int, w: int, cs: set<Loc>, saturated: bool): set<Loc>
    requires IsGrid(g, h, w)
  {
    set i, j | 0 <= i < h && 0 <= j < w && Implied(g, h, w, cs, saturated, (i, j)) :: (i, j)
  }

  /** The tallies of the first `forEachNeighbor_` callback of both passes: the concealed
      neighbours, split into flagged and unflagged ones. */
  method CountFlagsUnknown(g: Cells, h: int, w: int, y: int, x: int) returns (flags: nat, unknown: nat)
    requires IsGrid(g, h, w) && InBounds(h, w, (y, x))
    ensures AllWithin(g, Neighbors(h, w, y, x))
    ensures flags == CountAt(g, Neighbors(h, w, y, x), IsMarked)
    ensures unknown == CountAt(g, Neighbors(h, w, y, x), IsUnknown)
  {
    var ns := Neighbors(h, w, y, x);
    NeighborsWithin(g, h, w, y, x);
    flags, unknown := 0, 0;
    for k := 0 to |ns|
      invariant flags == CountAt(g, ns[..k], IsMarked) && unknown == CountAt(g, ns[..k], IsUnknown)
    {
      assert ns[..k + 1][..k] == ns[..k];
      assert ns[k] in ns;
      var neighbor := At(g, ns[k]);
      if !neighbor.isRevealed {
        if neighbor.isFlagged {
          flags := flags + 1;
        } else {
          unknown := unknown + 1;
        }
      }
    }
    assert ns[..|ns|] == ns;
  }

  /** The second `forEachNeighbor_` callback: it collects the unrevealed, unflagged
      neighbours. */
  method UnknownAround(g: Cells, h: int, w: int, y: int, x: int) returns (s: set<Loc>)
    requires IsGrid(g, h, w) && InBounds(h, w, (y, x))
    ensures forall n :: n in s <==> n in Neighbors(h, w, y, x) && IsUnknown(At(g, n))
  {
    var ns := Neighbors(h, w, y, x);
    s := {};
    for k := 0 to |ns|
      invariant forall n :: n in s <==> n in ns[..k] && InBounds(h, w, n) && IsUnknown(At(g, n))
    {
      assert ns[..k + 1] == ns[..k] + [ns[k]];
      assert ns[k] in ns;
      var neighbor := At(g, ns[k]);
      if !neighbor.isRevealed && !neighbor.isFlagged {
        s := s + {ns[k]};
      }
    }
    assert ns[..|ns|] == ns;
  }

  /** Visiting one more clue `l` adds what it contributes. */
  lemma TargetsAdd(g: Cells, h: int, w: int, d: set<Loc>, l: Loc, saturated: bool)
    requires IsGrid(g, h, w) && InBounds(h, w, l)
    ensures Targets(g, h, w, d + {l}, saturated) == Targets(g, h, w, d, saturated) + Contribution(g, h, w, l, saturated)
  {
    var c := Contribution(g, h, w, l, saturated);
    forall n | n in Targets(g, h, w, d + {l}, saturated)
      ensures n in Targets(g, h, w, d, saturated) + c
    {
      var k :| k in d + {l} && InBounds(h, w, k) && n in Contribution(g, h, w, k, saturated);
      if k != l {
        assert Implied(g, h, w, d, saturated, n);
      }
    }
    forall n | n in Targets(g, h, w, d, saturated) + c
      ensures n in Targets(g, h, w, d + {l}, saturated)
    {
      if n in c {
        assert Implied(g, h, w, d + {l}, saturated, n);
      } else {
        var k :| k in d && InBounds(h, w, k) && n in Contribution(g, h, w, k, saturated);
        assert k in d + {l};
      }
    }
  }

  /** The body of the loop over `clues_` for one clue `l`: whether the clue stays, and the
      unknown neighbours it contributes. */
  method VisitClue(g: Cells, h: int, w: int, l: Loc, saturated: bool) returns (live: bool, s: set<Loc>)
    requires IsGrid(g, h, w) && InBounds(h, w, l)
    ensures live == Live(g, h, w, l)
    ensures s == Contribution(g, h, w, l, saturated)
  {
    var tile := g[l.0][l.1];
    NeighborsWithin(g, h, w, l.0, l.1);
    live, s := false, {};
    if tile.adjacentMines == 0 {
      return;
    }
    var adjacentFlags, adjacentUnknown := CountFlagsUnknown(g, h, w, l.0, l.1);
    if adjacentUnknown == 0 {
      return;
    }
    live := true;
    if saturated && tile.adjacentMines == adjacentFlags {
      s := UnknownAround(g, h, w, l.0, l.1);
    } else if !saturated && adjacentFlags + adjacentUnknown == tile.adjacentMines {
      s := UnknownAround(g, h, w, l.0, l.1);
    }
  }

  /** The loop over `clues_` shared by both passes, visiting the clues in an unspecified
      order (the insertion order of a JavaScript `Set`). A clue with label 0 or without
      unknown neighbours is deleted; a clue that fires contributes its unknown neighbours. */
  method ScanClues(g: Cells, h: int, w: int, cs: set<Loc>, saturated: bool) returns (kept: set<Loc>, found: set<Loc>)
    requires IsGrid(g, h, w) && forall l :: l in cs ==> InBounds(h, w, l)
    ensures forall l :: l in kept <==> l in cs && Live(g, h, w, l)
    ensures found == Targets(g, h, w, cs, saturated)
  {
    kept, found := cs, {};
    var rest := cs;
    ghost var done: set<Loc> := {};
    while rest != {}
      invariant Split(cs, done, rest)
      invariant Kept(g, h, w, kept, rest, done)
      invariant found == Targets(g, h, w, done, saturated)
      decreases |rest|
    {
      var l :| l in rest;
      SplitStep(cs, done, rest, l);
      var live, s := VisitClue(g, h, w, l, saturated);
      ghost var k0 := kept;
      if !live {
        kept := kept - {l};
      }
      KeptStep(g, h, w, k0, kept, rest, done, l);
      TargetsAdd(g, h, w, done, l, saturated);
      found := found + s;
      rest := rest - {l};
      done := done + {l};
    }
    SplitEnd(cs, done, rest);
  }

  /** While the clues are scanned: the clues still to visit and the live clues visited are
      kept. */
  ghost predicate Kept(g: Cells, h: int, w: int, kept: set<Loc>, rest: set<Loc>, done: set<Loc>)
    requires IsGrid(g, h, w)
  {
    forall l :: l in kept <==> l in rest || (l in done && InBounds(h, w, l) && Live(g, h, w, l))
  }

  lemma KeptStep(g: Cells, h: int, w: int, k0: set<Loc>, k1: set<Loc>, rest: set<Loc>, done: set<Loc>, l: Loc)
    requires IsGrid(g, h, w) && InBounds(h, w, l) && Kept(g, h, w, k0, rest, done) && l in rest && l !in done
    requires k1 == if Live(g, h, w, l) then k0 else k0 - {l}
    ensures Kept(g, h, w, k1, rest - {l}, done + {l})
  {
  }

  /** A set `s` being visited: `done` already, `rest` still to come. */
  ghost predicate Split<T>(s: set<T>, done: set<T>, rest: set<T>) {
    done + rest == s && done !! rest
  }

  /** Visiting one more element `x` of `rest`. */
  lemma SplitStep<T>(s: set<T>, done: set<T>, rest: set<T>, x: T)
    requires Split(s, done, rest) && x in rest
    ensures Split(s, done + {x}, rest - {x}) && x in s && x !in done
    ensures |rest - {x}| < |rest|
  {
  }

  /** Once nothing is left, everything was visited. */
  lemma SplitEnd<T>(s: set<T>, done: set<T>, rest: set<T>)
    requires Split(s, done, rest) && rest == {}
    ensures done == s
  {
  }

  /** Everything a pass collects is an unknown tile of the board. */
  lemma TargetsUnknown(g: Cells, h: int, w: int, cs: set<Loc>, saturated: bool)
    requires IsGrid(g, h, w)
    ensures forall n :: n in Targets(g, h, w, cs, saturated) ==> InBounds(h, w, n) && IsUnknown(At(g, n))
  {
    forall n | n in Targets(g, h, w, cs, saturated)
      ensures InBounds(h, w, n) && IsUnknown(At(g, n))
    {
      var l :| l in cs && InBounds(h, w, l) && n in Contribution(g, h, w, l, saturated);
    }
  }

  /** Flagging exactly the tiles of `s`, each of which was unflagged, leads from `g0` to `g`. */
  ghost predicate FlagsAdded(g0: Cells, g: Cells, h: int, w: int, s: set<Loc>) {
    IsGrid(g0, h, w) && IsGrid(g, h, w) &&
    forall i, j :: 0 <= i < h && 0 <= j < w ==>
      g[i][j] == if (i, j) in s then g0[i][j].(isFlagged := true) else g0[i][j]
  }

  /** `g0` with a flag added on every tile of `s`. */
  ghost function WithFlags(g0: Cells, h: int, w: int, s: set<Loc>): Cells
    requires IsGrid(g0, h, w)
  {
    seq(h, i requires 0 <= i < h =>
      seq(|g0[i]|, j requires 0 <= j < |g0[i]| => if (i, j) in s then g0[i][j].(isFlagged := true) else g0[i][j]))
  }

  /** With no flag added the grid is unchanged. */
  lemma WithNoFlags(g0: Cells, h: int, w: int)
    requires IsGrid(g0, h, w)
    ensures WithFlags(g0, h, w, {}) == g0
  {
    var g := WithFlags(g0, h, w, {});
    forall i | 0 <= i < h ensures g[i] == g0[i] {
    }
  }

  /** `WithFlags` adds exactly the flags of `s`. */
  lemma WithFlagsAdded(g0: Cells, h: int, w: int, s: set<Loc>)
    requires IsGrid(g0, h, w)
    ensures FlagsAdded(g0, WithFlags(g0, h, w, s), h, w, s)
  {
  }

  /** Toggling the flag of one more unknown tile of `g0` adds it to the flags added. */
  lemma WithFlagsStep(g0: Cells, h: int, w: int, s: set<Loc>, l: Loc)
    requires IsGrid(g0, h, w) && InBounds(h, w, l) && l !in s && IsUnknown(At(g0, l))
    ensures At(WithFlags(g0, h, w, s), l) == At(g0, l)
    ensures var g := WithFlags(g0, h, w, s);
      Put(g, l, At(g, l).(isFlagged := !At(g, l).isFlagged)) == WithFlags(g0, h, w, s + {l})
  {
    var g := WithFlags(g0, h, w, s);
    var g1 := Put(g, l, At(g, l).(isFlagged := !At(g, l).isFlagged));
    var g2 := WithFlags(g0, h, w, s + {l});
    assert |g1| == |g2| == h;
    forall i | 0 <= i < h ensures g1[i] == g2[i] {
      assert |g1[i]| == |g2[i]| == w;
    }
  }

  /** `flag` at each location of `ls` in turn, from grid `g0`; each is inside the board and
      not revealed. */
  ghost function FlagEach(g0: Cells, h: int, w: int, ls: seq<Loc>): (g: Cells)
    requires IsGrid(g0, h, w) && forall k :: 0 <= k < |ls| ==> InBounds(h, w, ls[k])
    ensures IsGrid(g, h, w)
    decreases |ls|
  {
    if ls == [] then g0
    else
      var g := FlagEach(g0, h, w, ls[..|ls| - 1]);
      var l := ls[|ls| - 1];
      assert InBounds(h, w, l);
      Put(g, l, At(g, l).(isFlagged := !At(g, l).isFlagged))
  }

  /** Flagging each of `ls`, all distinct unknown tiles, adds exactly their flags; a location
      not in `ls` keeps its tile. */
  lemma {:induction false} FlagEachAdds(g0: Cells, h: int, w: int, ls: seq<Loc>)
    requires IsGrid(g0, h, w) && forall k :: 0 <= k < |ls| ==> InBounds(h, w, ls[k]) && IsUnknown(At(g0, ls[k]))
    requires forall a, b :: 0 <= a < b < |ls| ==> ls[a] != ls[b]
    ensures FlagEach(g0, h, w, ls) == WithFlags(g0, h, w, Elems(ls))
    decreases |ls|
  {
    if ls == [] {
      WithNoFlags(g0, h, w);
      assert Elems(ls) == {};
    } else {
      var init := ls[..|ls| - 1];
      var l := ls[|ls| - 1];
      FlagEachAdds(g0, h, w, init);
      ElemsLast(ls);
      WithFlagsStep(g0, h, w, Elems(init), l);
    }
  }

  /** The elements of a sequence. */
  ghost function Elems<T>(ls: seq<T>): set<T> {
    set x | x in ls
  }

  /** The elements of a sequence without repetitions: those before the last one, and the last
      one, which is not among them. */
  lemma ElemsLast<T>(ls: seq<T>)
    requires ls != [] && forall a, b :: 0 <= a < b < |ls| ==> ls[a] != ls[b]
    ensures Elems(ls) == Elems(ls[..|ls| - 1]) + {ls[|ls| - 1]}
    ensures ls[|ls| - 1] !in Elems(ls[..|ls| - 1])
  {
    assert ls == ls[..|ls| - 1] + [ls[|ls| - 1]];
  }

  /** A location that `ls` does not visit keeps its tile. */
  lemma {:induction false} FlagEachAt(g0: Cells, h: int, w: int, ls: seq<Loc>, l: Loc)
    requires IsGrid(g0, h, w) && forall k :: 0 <= k < |ls| ==> InBounds(h, w, ls[k]) && ls[k] != l
    requires InBounds(h, w, l)
    ensures At(FlagEach(g0, h, w, ls), l) == At(g0, l)
    decreases |ls|
  {
    if ls != [] {
      FlagEachAt(g0, h, w, ls[..|ls| - 1], l);
    }
  }

  /** A set `s` being visited in the order `order`, with `rest` still to come; no location
      is visited twice. */
  ghost predicate Visited<T>(s: set<T>, order: seq<T>, rest: set<T>) {
    rest <= s &&
    (forall l :: l in s ==> l in rest || l in order) &&
    (forall k :: 0 <= k < |order| ==> order[k] in s && order[k] !in rest) &&
    forall a, b :: 0 <= a < b < |order| ==> order[a] != order[b]
  }

  /** Visiting one more element `x` of `rest`. */
  lemma VisitedStep<T>(s: set<T>, order: seq<T>, rest: set<T>, x: T)
    requires Visited(s, order, rest) && x in rest
    ensures Visited(s, order + [x], rest - {x}) && x in s
    ensures forall k :: 0 <= k < |order| ==> order[k] != x
    ensures |rest - {x}| == |rest| - 1
  {
  }

  /** Once nothing is left, every element was visited exactly once. */
  lemma VisitedEnd<T>(s: set<T>, order: seq<T>, rest: set<T>)
    requires Visited(s, order, rest) && rest == {}
    ensures Elems(order) == s
    ensures forall k :: 0 <= k < |order| ==> order[k] in s
    ensures forall a, b :: 0 <= a < b < |order| ==> order[a] != order[b]
  {
  }

  /** Adding flags only on mines keeps every flag right. */
  lemma FlagsAddedRight(g0: Cells, g: Cells, h: int, w: int, s: set<Loc>)
    requires FlagsAdded(g0, g, h, w, s) && FlagsRight(g0, h, w)
    requires forall l :: l in s ==> InBounds(h, w, l) && At(g0, l).hasMine
    ensures FlagsRight(g, h, w)
  {
    forall i, j | 0 <= i < h && 0 <= j < w && g[i][j].isFlagged && !g[i][j].isRevealed
      ensures g[i][j].hasMine
    {
      if (i, j) in s {
        assert At(g0, (i, j)).hasMine;
      }
    }
  }

  /** Every flag is on a mine. */
  ghost predicate FlagsRight(g: Cells, h: int, w: int) {
    IsGrid(g, h, w) &&
    forall i, j :: 0 <= i < h && 0 <= j < w && g[i][j].isFlagged && !g[i][j].isRevealed ==> g[i][j].hasMine
  }

  /** Flag mode is sound: on a correctly labelled board that shows no mine, a clue whose label
      equals its number of concealed neighbours has a mine under every one of them. */
  lemma FiresFlagSound(g: Cells, h: int, w: int, l: Loc)
    requires Labelled(g, h, w) && NoMineShown(g, h, w) && InBounds(h, w, l) && Fires(g, h, w, l, false)
    ensures forall n :: n in Neighbors(h, w, l.0, l.1) && !At(g, n).isRevealed ==> At(g, n).hasMine
  {
    var ns := Neighbors(h, w, l.0, l.1);
    NeighborsWithin(g, h, w, l.0, l.1);
    CountAtDisjoint(g, ns, IsMarked, IsUnknown, IsConcealed);
    CountAtMono(g, ns, IsMine, IsConcealed);
  }

  /** Saturated mode is sound when every flag is right: a clue whose flags account for its
      label has no mine under its unknown neighbours. */
  lemma FiresSaturatedSound(g: Cells, h: int, w: int, l: Loc)
    requires Labelled(g, h, w) && FlagsRight(g, h, w) && InBounds(h, w, l) && Fires(g, h, w, l, true)
    ensures forall n :: n in Neighbors(h, w, l.0, l.1) && IsUnknown(At(g, n)) ==> !At(g, n).hasMine
  {
    var ns := Neighbors(h, w, l.0, l.1);
    NeighborsWithin(g, h, w, l.0, l.1);
    CountAtMono(g, ns, IsMarked, IsMine);
  }

  /** Everything the flag pass collects is an unknown tile holding a mine. */
  lemma FlagTargetsAreMines(g: Cells, h: int, w: int, cs: set<Loc>)
    requires Labelled(g, h, w) && NoMineShown(g, h, w)
    ensures forall n :: n in Targets(g, h, w, cs, false) ==> InBounds(h, w, n) && IsUnknown(At(g, n)) && At(g, n).hasMine
  {
    forall n | n in Targets(g, h, w, cs, false)
      ensures InBounds(h, w, n) && IsUnknown(At(g, n)) && At(g, n).hasMine
    {
      var l :| l in cs && InBounds(h, w, l) && n in Contribution(g, h, w, l, false);
      FiresFlagSound(g, h, w, l);
    }
  }

  /** Everything the saturated pass collects is an unknown tile without a mine, provided
      every flag is right. */
  lemma SaturatedTargetsAreSafe(g: Cells, h: int, w: int, cs: set<Loc>)
    requires Labelled(g, h, w) && FlagsRight(g, h, w)
    ensures forall n :: n in Targets(g, h, w, cs, true) ==> InBounds(h, w, n) && IsUnknown(At(g, n)) && !At(g, n).hasMine
  {
    forall n | n in Targets(g, h, w, cs, true)
      ensures InBounds(h, w, n) && IsUnknown(At(g, n)) && !At(g, n).hasMine
    {
      var l :| l in cs && InBounds(h, w, l) && n in Contribution(g, h, w, l, true);
      FiresSaturatedSound(g, h, w, l);
    }
  }
}
