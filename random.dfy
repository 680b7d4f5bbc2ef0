/**
 * The random helpers `Random.number` and `Random.subset`.
 *
 * `Math.random()` is replaced by draws supplied by the caller, each a real
 * in [0, 1); everything else is deterministic given the draws.
 */
module Random {

  /** Every draw is a value `Math.random()` can return. */
  predicate Draws(draws: seq<real>)
  {
    forall k | 0 <= k < |draws| :: 0.0 <= draws[k] < 1.0
  }

  /** Scaling a draw in [0, 1) by a positive d lands in [0, d). */
  lemma ScaleDraw(r: real, d: real, x: real)
    requires 0.0 <= r < 1.0 && d > 0.0 && x == r * d
    ensures 0.0 <= x < d
  {
    assert d - r * d == (1.0 - r) * d;
  }

  /** Scaling a draw in [0, 1) by a d <= 0 lands in (d, 0]. */
  lemma ScaleDrawNonPositive(r: real, d: real, x: real)
    requires 0.0 <= r < 1.0 && d <= 0.0 && x == r * d
    ensures d <= x <= 0.0
  {
    var e := -d;
    assert x - d == (1.0 - r) * e;
    NonNegProduct(1.0 - r, e);
    assert x == -(r * e);
    NonNegProduct(r, e);
  }

  lemma NonNegProduct(a: real, b: real)
    requires 0.0 <= a && 0.0 <= b
    ensures 0.0 <= a * b
  {
  }

  // ---------------------------------------------------------------------------
  // Random.number
  // ---------------------------------------------------------------------------

  /** `Random.number(min, max)` for the draw r: floor(r * (max - min)) + min. */
  function Number(min: int, max: int, r: real): (n: int)
    requires 0.0 <= r < 1.0
    ensures min < max ==> min <= n < max
    ensures max <= min ==> max <= n <= min
  {
    DrawFloor(r, max - min);
    (r * (max - min) as real).Floor + min
  }

  /** The floor of a draw scaled by d lies in [0, d) for positive d and in
      [d, 0] otherwise. */
  lemma DrawFloor(r: real, d: int)
    requires 0.0 <= r < 1.0
    ensures d > 0 ==> 0 <= (r * d as real).Floor < d
    ensures d <= 0 ==> d <= (r * d as real).Floor <= 0
  {
    var x := r * d as real;
    if d > 0 {
      ScaleDraw(r, d as real, x);
      FloorBetween(x, 0, d - 1);
    } else {
      ScaleDrawNonPositive(r, d as real, x);
      FloorBetween(x, d, 0);
    }
  }

  /** A real in [lo, hi + 1) has its floor in [lo, hi]. */
  lemma FloorBetween(v: real, lo: int, hi: int)
    requires lo as real <= v < (hi + 1) as real
    ensures lo <= v.Floor <= hi
  {
  }

  /** Every integer of [min, max) is the result of some draw. */
  lemma NumberCovers(min: int, max: int, v: int)
    requires min <= v < max
    ensures var r := (v - min) as real / (max - min) as real;
              0.0 <= r < 1.0 && Number(min, max, r) == v
  {
    var d := (max - min) as real;
    var r := (v - min) as real / d;
    UnitQuotient((v - min) as real, d);
    assert r * d == (v - min) as real;
    assert (r * d).Floor == v - min;
  }

  lemma UnitQuotient(a: real, d: real)
    requires 0.0 <= a < d
    ensures 0.0 <= a / d < 1.0
  {
  }

  // ---------------------------------------------------------------------------
  // Random.subset: a Fisher-Yates shuffle of a copy, then a prefix
  // ---------------------------------------------------------------------------

  /** The swap partner of position i: `Math.floor((i + 1) * Math.random())`. */
  function Pick(i: nat, r: real): (index: nat)
    requires 0.0 <= r < 1.0
    ensures index <= i
  {
    DrawFloor(r, i + 1);
    assert (i + 1) as real * r == r * (i + 1) as real;
    ((i + 1) as real * r).Floor
  }

  /** Exchange the elements at a and b, as the three assignments through
      `temp` do. */
  function Swap<T>(s: seq<T>, a: nat, b: nat): (r: seq<T>)
    requires a < |s| && b < |s|
    ensures |r| == |s| && r[a] == s[b] && r[b] == s[a]
    ensures forall k | 0 <= k < |s| && k != a && k != b :: r[k] == s[k]
    ensures multiset(r) == multiset(s)
  {
    var r := s[a := s[b]][b := s[a]];
    assert multiset(s[a := s[b]]) == multiset(s) - multiset{s[a]} + multiset{s[b]};
    r
  }

  /** The shuffle loop with i iterations still to run: the next one swaps
      position i - 1 with its pick, using draw number |s| - i. */
  function Shuffle<T>(s: seq<T>, draws: seq<real>, i: nat): (r: seq<T>)
    requires i <= |s| <= |draws| && Draws(draws)
    ensures |r| == |s| && multiset(r) == multiset(s)
    ensures r[i..] == s[i..]
    decreases i
  {
    if i == 0 then s
    else
      var index := Pick(i - 1, draws[|s| - i]);
      var s' := Swap(s, index, i - 1);
      var r := Shuffle(s', draws, i - 1);
      assert r[i..] == r[i - 1..][1..];
      r
  }

  /** One iteration of the shuffle loop, swapping position i. */
  lemma ShuffleStep<T>(s: seq<T>, draws: seq<real>, i: nat)
    requires i < |s| <= |draws| && Draws(draws)
    ensures Shuffle(s, draws, i + 1) == Shuffle(Swap(s, Pick(i, draws[|s| - 1 - i]), i), draws, i)
  {
  }

  /** Truncation toward zero, as `ToIntegerOrInfinity` applies it to a
      slice bound. */
  function Trunc(v: real): (t: int)
    ensures 0.0 <= v ==> t as real <= v < t as real + 1.0
    ensures v < 0.0 ==> t as real - 1.0 < v <= t as real
  {
    if v < 0.0 then -((-v).Floor) else v.Floor
  }

  /** The end index `slice(0, size)` uses on a list of length len: a
      negative bound counts from the end, a large one is cut to len. */
  function SliceEnd(size: real, len: nat): (e: nat)
    ensures e <= len
    ensures 0.0 <= size ==> e == if size.Floor < len then size.Floor else len
    ensures size < 0.0 ==> e == if 0 < (-size).Floor < len then len - (-size).Floor else 0
  {
    var t := Trunc(size);
    if t < 0 then (if len + t < 0 then 0 else len + t)
    else if t < len then t
    else len
  }

  /** `Random.subset(s, size)` as a value. */
  function Sample<T>(s: seq<T>, size: real, draws: seq<real>): (r: seq<T>)
    requires |s| <= |draws| && Draws(draws)
    ensures |r| == SliceEnd(size, |s|)
    ensures multiset(r) <= multiset(s)
  {
    var shuffled := Shuffle(s, draws, |s|);
    var e := SliceEnd(size, |s|);
    assert shuffled == shuffled[..e] + shuffled[e..];
    shuffled[..e]
  }

  /** `Random.subset`: copy the input, shuffle the copy in place, return its
      first `size` elements. There is no `modifies` clause, so `arr` is left
      as it was. */
  method Subset<T>(arr: array<T>, size: real, draws: seq<real>) returns (r: seq<T>)
    requires arr.Length <= |draws| && Draws(draws)
    ensures r == Sample(arr[..], size, draws)
  {
    var shuffled := new T[arr.Length](k requires 0 <= k < arr.Length reads arr => arr[k]);
    assert shuffled[..] == arr[..];
    var i := arr.Length;
    while i > 0
      invariant 0 <= i <= arr.Length
      invariant Shuffle(shuffled[..], draws, i) == Shuffle(arr[..], draws, arr.Length)
    {
      i := i - 1;
      var index := Pick(i, draws[arr.Length - 1 - i]);
      ghost var before := shuffled[..];
      var temp := shuffled[index];
      shuffled[index] := shuffled[i];
      shuffled[i] := temp;
      assert shuffled[..] == Swap(before, index, i);
      ShuffleStep(before, draws, i);
    }
    r := shuffled[..SliceEnd(size, arr.Length)];
  }

  // ---------------------------------------------------------------------------
  // Properties of a sample
  // ---------------------------------------------------------------------------

  /** No element occurs twice. */
  predicate Distinct<T(==)>(s: seq<T>)
  {
    forall i, j | 0 <= i < j < |s| :: s[i] != s[j]
  }

  lemma {:induction false} DistinctOnce<T>(s: seq<T>, x: T)
    requires Distinct(s)
    ensures multiset(s)[x] <= 1
  {
    if s != [] {
      assert s == [s[0]] + s[1..];
      DistinctOnce(s[1..], x);
      if x == s[0] {
        assert x !in s[1..];
      }
    }
  }

  /** An element at two positions occurs at least twice. */
  lemma Twice<T>(r: seq<T>, i: nat, j: nat)
    requires i < j < |r| && r[i] == r[j]
    ensures multiset(r)[r[i]] >= 2
  {
    var x := r[i];
    assert r == r[..i] + [x] + r[i + 1..j] + [x] + r[j + 1..];
  }

  /** Whatever takes its elements from a list without repeats, respecting
      multiplicity, has no repeats either. */
  lemma DistinctSub<T>(r: seq<T>, s: seq<T>)
    requires Distinct(s) && multiset(r) <= multiset(s)
    ensures Distinct(r)
  {
    forall i, j | 0 <= i < j < |r| ensures r[i] != r[j] {
      if r[i] == r[j] {
        Twice(r, i, j);
        DistinctOnce(s, r[i]);
        assert false;
      }
    }
  }

  /** A sample of a list without repeats has no repeats either. */
  lemma SampleDistinct<T>(s: seq<T>, size: real, draws: seq<real>)
    requires |s| <= |draws| && Draws(draws)
    requires Distinct(s)
    ensures Distinct(Sample(s, size, draws))
  {
    DistinctSub(Sample(s, size, draws), s);
  }

  /** Asking for at least the whole list returns all of it, reordered. */
  lemma SampleAll<T>(s: seq<T>, size: real, draws: seq<real>)
    requires |s| <= |draws| && Draws(draws)
    requires |s| as real <= size
    ensures multiset(Sample(s, size, draws)) == multiset(s)
  {
    assert SliceEnd(size, |s|) == |s|;
    assert Shuffle(s, draws, |s|)[..|s|] == Shuffle(s, draws, |s|);
  }
}
