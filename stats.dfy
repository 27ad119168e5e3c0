/** The NaN-skipping mean pandas computes with `Series.mean()` and with a group-by mean:
    unknown values are left out of both the sum and the count, and a mean over no known
    value is itself unknown. */
module Stats {
  import opened Wrappers

  function KnownSum(xs: seq<Option<real>>): real {
    if xs == [] then 0.0
    else (if xs[0].Some? then xs[0].value else 0.0) + KnownSum(xs[1..])
  }

  function KnownCount(xs: seq<Option<real>>): nat {
    if xs == [] then 0 else (if xs[0].Some? then 1 else 0) + KnownCount(xs[1..])
  }

  function MeanKnown(xs: seq<Option<real>>): (m: Option<real>)
    ensures m.None? <==> KnownCount(xs) == 0
  {
    if KnownCount(xs) == 0 then None else Some(KnownSum(xs) / KnownCount(xs) as real)
  }

  /** Unknown values contribute nothing: they are skipped, not read as 0. */
  lemma {:induction false} UnknownSkipped(xs: seq<Option<real>>, ys: seq<Option<real>>)
    ensures KnownSum(xs + [None] + ys) == KnownSum(xs + ys)
    ensures KnownCount(xs + [None] + ys) == KnownCount(xs + ys)
    ensures MeanKnown(xs + [None] + ys) == MeanKnown(xs + ys)
  {
    if xs == [] {
      assert xs + [None] + ys == [None] + ys && xs + ys == ys;
      assert ([None] + ys)[1..] == ys;
    } else {
      assert (xs + [None] + ys)[1..] == xs[1..] + [None] + ys;
      assert (xs + ys)[1..] == xs[1..] + ys;
      UnknownSkipped(xs[1..], ys);
    }
  }

  /** The known values all lie in [lo, hi]. */
  ghost predicate KnownWithin(xs: seq<Option<real>>, lo: real, hi: real) {
    forall i :: 0 <= i < |xs| && xs[i].Some? ==> lo <= xs[i].value <= hi
  }

  lemma {:induction false} SumWithin(xs: seq<Option<real>>, lo: real, hi: real)
    requires KnownWithin(xs, lo, hi)
    ensures lo * KnownCount(xs) as real <= KnownSum(xs) <= hi * KnownCount(xs) as real
  {
    if xs != [] {
      assert KnownWithin(xs[1..], lo, hi) by {
        forall i | 0 <= i < |xs[1..]| && xs[1..][i].Some?
          ensures lo <= xs[1..][i].value <= hi
        {
          assert xs[1..][i] == xs[i + 1];
        }
      }
      SumWithin(xs[1..], lo, hi);
    }
  }

  /** A mean lies between the smallest and the largest known value. */
  lemma MeanWithin(xs: seq<Option<real>>, lo: real, hi: real)
    requires KnownWithin(xs, lo, hi)
    ensures MeanKnown(xs).Some? ==> lo <= MeanKnown(xs).value <= hi
  {
    SumWithin(xs, lo, hi);
    if KnownCount(xs) > 0 {
      QuotientWithin(KnownSum(xs), KnownCount(xs) as real, lo, hi);
    }
  }

  lemma QuotientWithin(s: real, n: real, lo: real, hi: real)
    requires n > 0.0 && lo * n <= s <= hi * n
    ensures lo <= s / n <= hi
  {
    var q := s / n;
    assert (q - lo) * n == s - lo * n;
    assert (hi - q) * n == hi * n - s;
  }
}
