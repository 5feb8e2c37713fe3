/** The random helpers of js/util.js: `rand` and the in-place Fisher-Yates `shuffle`.
    `Math.random()` is not modelled as a generator: every value it returns is passed in
    as a real number `r` with `0.0 <= r < 1.0`. */
module Util {

  /** A value `Math.random()` may return. */
  predicate IsDraw(r: real) { 0.0 <= r < 1.0 }

  /** A sequence of values `Math.random()` may return. */
  predicate AreDraws(rs: seq<real>) { forall i :: 0 <= i < |rs| ==> IsDraw(rs[i]) }

  /** `rand(n)`: `Math.floor((n + 1) * Math.random())`, a random integer in [0, n].
      For `n == -1` (asked for by `swapMine_` on a board without open tiles) it is 0. */
  function Rand(n: int, r: real): (v: int)
    requires IsDraw(r)
    ensures n >= 0 ==> 0 <= v <= n
    ensures n == -1 ==> v == 0
    ensures n < -1 ==> n + 1 <= v <= 0
  {
    RandBounds(n, r);
    ((n + 1) as real * r).Floor
  }

  lemma RandBounds(n: int, r: real)
    requires IsDraw(r)
    ensures n >= -1 ==> 0.0 <= (n + 1) as real * r < (n + 1) as real || n == -1
    ensures n == -1 ==> (n + 1) as real * r == 0.0
    ensures n < -1 ==> (n + 1) as real < (n + 1) as real * r <= 0.0 || r == 0.0
  {
    var m := (n + 1) as real;
    if m > 0.0 {
      assert m * r < m * 1.0;
    } else if m < 0.0 {
      assert m * r <= 0.0;
      assert r > 0.0 ==> m * r > m * 1.0;
    }
  }

  /** One iteration of `shuffle`: `temp = arr[j]; arr[j] = arr[i]; arr[i] = temp`. */
  function SwapAt<T>(s: seq<T>, i: nat, j: nat): (t: seq<T>)
    requires i < |s| && j < |s|
    ensures |t| == |s| && t[i] == s[j] && t[j] == s[i]
    ensures forall k :: 0 <= k < |s| && k != i && k != j ==> t[k] == s[k]

  {
    s[j := s[i]][i := s[j]]
  }

  /** The iterations `i, i - 1, ..., 1` of `shuffle` applied to `s`;
      `rs[k]` is the value `Math.random()` returns in the iteration for `k`. */
  function ShuffleFrom<T>(s: seq<T>, rs: seq<real>, i: nat): (t: seq<T>)
    requires i < |s| == |rs| && AreDraws(rs)
    ensures |t| == |s|
    decreases i
  {
    if i == 0 then s else ShuffleFrom(SwapAt(s, i, Rand(i, rs[i])), rs, i - 1)
  }

  /** What `shuffle(arr)` leaves in `arr`: the loop runs from `arr.length - 1` down to 1. */
  function Shuffled<T>(s: seq<T>, rs: seq<real>): (t: seq<T>)
    requires |s| == |rs| && AreDraws(rs)
    ensures |t| == |s|
  {
    if |s| == 0 then s else ShuffleFrom(s, rs, |s| - 1)
  }

  /** The in-place shuffle; it returns the array it was given. */
  method Shuffle<T>(a: array<T>, rs: seq<real>) returns (b: array<T>)
    requires |rs| == a.Length && AreDraws(rs)
    modifies a
    ensures b == a
    ensures a[..] == Shuffled(old(a[..]), rs)
  {
    b := a;
    if a.Length == 0 {
      return;
    }
    var i := a.Length - 1;
    while i > 0
      invariant 0 <= i < a.Length
      invariant ShuffleFrom(a[..], rs, i) == Shuffled(old(a[..]), rs)
    {
      var j := Rand(i, rs[i]);
      ghost var before := a[..];
      var temp := a[j];
      a[j] := a[i];
      a[i] := temp;
      assert a[..] == SwapAt(before, i, j);
      i := i - 1;
    }
  }

  /** Every step of the shuffle only exchanges two elements. */
  lemma {:induction false} ShuffleFromPermutes<T>(s: seq<T>, rs: seq<real>, i: nat)
    requires i < |s| == |rs| && AreDraws(rs)
    ensures |ShuffleFrom(s, rs, i)| == |s|
    ensures multiset(ShuffleFrom(s, rs, i)) == multiset(s)
    decreases i
  {
    if i > 0 {
      ShuffleFromPermutes(SwapAt(s, i, Rand(i, rs[i])), rs, i - 1);
    }
  }

  /** `shuffle` preserves the length and permutes the elements. */
  lemma ShuffledPermutes<T>(s: seq<T>, rs: seq<real>)
    requires |s| == |rs| && AreDraws(rs)
    ensures |Shuffled(s, rs)| == |s|
    ensures multiset(Shuffled(s, rs)) == multiset(s)
  {
    if |s| > 0 {
      ShuffleFromPermutes(s, rs, |s| - 1);
    }
  }

  /** Hence the number of `true` entries (mines) survives the shuffle. */
  lemma ShuffledKeepsTrues(s: seq<bool>, rs: seq<real>)
    requires |s| == |rs| && AreDraws(rs)
    ensures multiset(Shuffled(s, rs))[true] == multiset(s)[true]
  {
    ShuffledPermutes(s, rs);
  }

  /** Once the iteration for `i` has started, positions above `i` are final. */
  lemma {:induction false} ShuffleFromKeepsAbove<T>(s: seq<T>, rs: seq<real>, i: nat, k: nat)
    requires i < k < |s| == |rs| && AreDraws(rs)
    ensures |ShuffleFrom(s, rs, i)| == |s| && ShuffleFrom(s, rs, i)[k] == s[k]
    decreases i
  {
    ShuffleFromPermutes(s, rs, i);
    if i > 0 {
      ShuffleFromKeepsAbove(SwapAt(s, i, Rand(i, rs[i])), rs, i - 1, k);
    }
  }

  /** The iteration for `i` writes only position `i` and a position `j` in [0, i]. */
  lemma StepTouchesTwo<T>(s: seq<T>, rs: seq<real>, i: nat)
    requires 0 < i < |s| == |rs| && AreDraws(rs)
    ensures var j := Rand(i, rs[i]);
      0 <= j <= i &&
      forall k :: 0 <= k < |s| && k != i && k != j ==> SwapAt(s, i, j)[k] == s[k]
  {
  }

  /** Arrays of length 0 or 1 come back unchanged. */
  lemma ShortUnchanged<T>(s: seq<T>, rs: seq<real>)
    requires |s| == |rs| <= 1 && AreDraws(rs)
    ensures Shuffled(s, rs) == s
  {
  }
}
