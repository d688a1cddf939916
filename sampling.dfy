/** The sampling rule of the exporter: of the matched elements, numbered
    from 0, keep those whose number is a multiple of the factor. */
module Sampling {

  /** Ceiling of `n / f` for a positive `f`. */
  function Ceil(n: nat, f: int): nat
    requires f >= 1
  {
    (n + f - 1) / f
  }

  /** The items of `xs` whose 0-based position `i` has `i % f == 0`, in
      order, built the way the export loop builds them: one position after
      the other. A negative `f` is allowed: for the zero test on a
      non-negative position, Python's floored `%` and Dafny's Euclidean `%`
      agree, both holding exactly at the multiples of `f`. */
  function Sampled<T>(xs: seq<T>, f: int): (r: seq<T>)
    requires f != 0
    ensures |r| <= |xs|
  {
    if xs == [] then []
    else Sampled(xs[..|xs| - 1], f) + (if (|xs| - 1) % f == 0 then [xs[|xs| - 1]] else [])
  }

  /** Sampling one more item of a prefix: the item is kept exactly when its
      position is a multiple of `f`. */
  lemma SampledSnoc<T>(xs: seq<T>, i: nat, f: int)
    requires f != 0 && i < |xs|
    ensures Sampled(xs[..i + 1], f) == Sampled(xs[..i], f) + (if i % f == 0 then [xs[i]] else [])
  {
    assert xs[..i + 1][..i] == xs[..i];
  }

  /** Euclidean division is determined by quotient and remainder. */
  lemma DivUnique(a: int, f: int, q: int, r: int)
    requires f >= 1 && 0 <= r < f && a == q * f + r
    ensures a / f == q && a % f == r
  {
    var q', r' := a / f, a % f;
    assert a == q' * f + r';
    var d := q' - q;
    assert d * f == r - r' by {
      assert q' * f - q * f == (q' - q) * f;
    }
    if d >= 1 {
      MulAtLeast(d, f);
    } else if d <= -1 {
      MulAtLeast(-d, f);
    }
  }

  /** A positive multiple of `f` is at least `f`. */
  lemma MulAtLeast(d: int, f: int)
    requires d >= 1 && f >= 1
    ensures d * f >= f
  {
    assert d * f == (d - 1) * f + f;
    assert (d - 1) * f >= 0;
  }

  /** One more item adds one to the ceiling exactly when the new item's
      position is a multiple of `f`. */
  lemma CeilStep(m: nat, f: int)
    requires f >= 1
    ensures Ceil(m + 1, f) == Ceil(m, f) + (if m % f == 0 then 1 else 0)
  {
    var q, r := m / f, m % f;
    assert m == q * f + r;
    DivUnique(m + f, f, q + 1, r);
    if r == 0 {
      DivUnique(m + f - 1, f, q, f - 1);
    } else {
      DivUnique(m + f - 1, f, q + 1, r - 1);
    }
  }

  /** For a multiple `m` of `f`, the ceiling of `m / f` is exactly `m / f`. */
  lemma CeilOfMultiple(m: nat, f: int)
    requires f >= 1 && m % f == 0
    ensures Ceil(m, f) * f == m
  {
    var q := m / f;
    assert m == q * f;
    DivUnique(m + f - 1, f, q, f - 1);
  }

  /** `ceil(M/f)` items are kept. */
  lemma {:induction false} SampledLength<T>(xs: seq<T>, f: int)
    requires f >= 1
    ensures |Sampled(xs, f)| == Ceil(|xs|, f)
  {
    if xs != [] {
      SampledLength(xs[..|xs| - 1], f);
      CeilStep(|xs| - 1, f);
    }
  }

  /** The `j`-th kept item is the item at position `j * f`. */
  lemma {:induction false} SampledAt<T>(xs: seq<T>, f: int, j: nat)
    requires f >= 1 && j < |Sampled(xs, f)|
    ensures j * f < |xs| && Sampled(xs, f)[j] == xs[j * f]
  {
    var init := xs[..|xs| - 1];
    if j < |Sampled(init, f)| {
      SampledAt(init, f, j);
    } else {
      var m := |xs| - 1;
      assert m % f == 0 && j == |Sampled(init, f)|;
      SampledLength(init, f);
      CeilOfMultiple(m, f);
    }
  }

  /** Sampling keeps exactly the items at positions `0, f, 2f, ...`: there are
      `ceil(|xs|/f)` of them and the `j`-th is `xs[j * f]`. */
  lemma SampledExactly<T>(xs: seq<T>, f: int)
    requires f >= 1
    ensures |Sampled(xs, f)| == Ceil(|xs|, f)
    ensures forall j :: 0 <= j < |Sampled(xs, f)| ==> j * f < |xs| && Sampled(xs, f)[j] == xs[j * f]
  {
    SampledLength(xs, f);
    forall j | 0 <= j < |Sampled(xs, f)|
      ensures j * f < |xs| && Sampled(xs, f)[j] == xs[j * f]
    {
      SampledAt(xs, f, j);
    }
  }

  /** A negative factor samples like its absolute value: the same positions
      are multiples of `f` and of `-f`. */
  lemma {:induction false} SampledNegated<T>(xs: seq<T>, f: int)
    requires f != 0
    ensures Sampled(xs, -f) == Sampled(xs, f)
  {
    if xs != [] {
      SampledNegated(xs[..|xs| - 1], f);
    }
  }

  /** A factor of 1 keeps every item, in order, none dropped or repeated. */
  lemma SampledByOne<T>(xs: seq<T>)
    ensures Sampled(xs, 1) == xs
  {
    SampledExactly(xs, 1);
  }

  /** Ten matched items sampled with factor 3 keep the 1st, 4th, 7th and
      10th. */
  lemma SampledTenByThree<T>(xs: seq<T>)
    requires |xs| == 10
    ensures Sampled(xs, 3) == [xs[0], xs[3], xs[6], xs[9]]
  {
    SampledExactly(xs, 3);
    assert Ceil(10, 3) == 4;
    var s := Sampled(xs, 3);
    assert s[0] == xs[0 * 3] && s[1] == xs[1 * 3] && s[2] == xs[2 * 3] && s[3] == xs[3 * 3];
  }
}
