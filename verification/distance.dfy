/** The mixed nominal/numeric distance of `IBM.distance`. */
module Distance {
  import opened Wrappers
  import opened Data
  import opened Statistics

  /** Two rows, the header they share and the statistics they are measured against line up. */
  predicate Aligned(h: Header, stats: Stats, a: Row, b: Row) {
    |stats| == |h.kinds| && |a| == |h.kinds| && |b| == |h.kinds|
  }

  /** The penalty used when exactly one numeric value is missing, from the normalised present value `d`. */
  function OneMissingDiff(d: real): (diff: real)
    ensures diff >= 0.5
    ensures 0.0 <= d <= 1.0 ==> diff <= 1.0
  {
    if d < 0.5 then 1.0 - d else d
  }

  /** The contribution of one non-class attribute with kind `k` and statistics `s`. */
  function Contribution(k: Kind, s: Option<Range>, a: Option<real>, b: Option<real>): (r: real)
    ensures r >= 0.0
    ensures k.Nominal? ==> (r == 0.0 <==> a.Some? && b.Some? && Trunc(a.value) == Trunc(b.value))
    ensures k.Nominal? ==> r == 0.0 || r == 1.0
    ensures !k.Nominal? && a.None? && b.None? ==> r == 1.0
    ensures !k.Nominal? && (a.None? != b.None?) ==> r >= 0.25
  {
    if k.Nominal? then
      if a.None? || b.None? || Trunc(a.value) != Trunc(b.value) then 1.0 else 0.0
    else if a.None? || b.None? then
      if a.None? && b.None? then 1.0
      else
        var diff := OneMissingDiff(if b.None? then Norm(s, a.value) else Norm(s, b.value));
        assert diff * diff >= 0.25 by { SquareAtLeastQuarter(diff); }
        diff * diff
    else
      var diff := Norm(s, a.value) - Norm(s, b.value);
      diff * diff
  }

  lemma SquareAtLeastQuarter(x: real)
    requires x >= 0.5
    ensures x * x >= 0.25
  {
    assert x * x >= 0.5 * x;
  }

  /** Attribute `i`'s share of the distance: nothing for the class attribute. */
  function Term(h: Header, stats: Stats, a: Row, b: Row, i: nat): (t: real)
    requires Aligned(h, stats, a, b) && i < |h.kinds|
    ensures t >= 0.0
    ensures i == h.classIndex ==> t == 0.0
  {
    if i == h.classIndex then 0.0 else Contribution(h.kinds[i], stats[i], a[i], b[i])
  }

  /** The sum of the terms of attributes `0 .. n-1`, accumulated in the source's loop order. */
  function DistanceUpTo(h: Header, stats: Stats, a: Row, b: Row, n: nat): (r: real)
    requires Aligned(h, stats, a, b) && n <= |h.kinds|
    ensures r >= 0.0
    decreases n
  {
    if n == 0 then 0.0 else DistanceUpTo(h, stats, a, b, n - 1) + Term(h, stats, a, b, n - 1)
  }

  /** `distance(first, second)` on the statistics `stats`. */
  function Dist(h: Header, stats: Stats, a: Row, b: Row): (r: real)
    requires Aligned(h, stats, a, b)
    ensures r >= 0.0
  {
    DistanceUpTo(h, stats, a, b, |h.kinds|)
  }

  lemma ContributionSymmetric(k: Kind, s: Option<Range>, a: Option<real>, b: Option<real>)
    ensures Contribution(k, s, a, b) == Contribution(k, s, b, a)
  {
    if k.Nominal? {
      NominalSymmetric(k, s, a, b);
    } else if a.Some? && b.Some? {
      BothPresentSymmetric(k, s, a.value, b.value);
    } else {
      OneMissingSymmetric(k, s, a, b);
    }
  }

  lemma NominalSymmetric(k: Kind, s: Option<Range>, a: Option<real>, b: Option<real>)
    requires k.Nominal?
    ensures Contribution(k, s, a, b) == Contribution(k, s, b, a)
  {
  }

  lemma OneMissingSymmetric(k: Kind, s: Option<Range>, a: Option<real>, b: Option<real>)
    requires !k.Nominal? && (a.None? || b.None?)
    ensures Contribution(k, s, a, b) == Contribution(k, s, b, a)
  {
  }

  lemma BothPresentSymmetric(k: Kind, s: Option<Range>, x: real, y: real)
    requires !k.Nominal?
    ensures Contribution(k, s, Some(x), Some(y)) == Contribution(k, s, Some(y), Some(x))
  {
    SquareOfDifferenceSymmetric(Norm(s, x), Norm(s, y));
  }

  lemma SquareOfDifferenceSymmetric(x: real, y: real)
    ensures (x - y) * (x - y) == (y - x) * (y - x)
  {
    assert y - x == -(x - y);
  }

  lemma {:induction false} DistanceUpToSymmetric(h: Header, stats: Stats, a: Row, b: Row, n: nat)
    requires Aligned(h, stats, a, b) && n <= |h.kinds|
    ensures DistanceUpTo(h, stats, a, b, n) == DistanceUpTo(h, stats, b, a, n)
    decreases n
  {
    if n > 0 {
      DistanceUpToSymmetric(h, stats, a, b, n - 1);
      ContributionSymmetric(h.kinds[n - 1], stats[n - 1], a[n - 1], b[n - 1]);
    }
  }

  /** The distance does not depend on the order of its operands, including in the
      exactly-one-missing case, which normalises whichever value is present. */
  lemma DistanceSymmetric(h: Header, stats: Stats, a: Row, b: Row)
    requires Aligned(h, stats, a, b)
    ensures Dist(h, stats, a, b) == Dist(h, stats, b, a)
  {
    DistanceUpToSymmetric(h, stats, a, b, |h.kinds|);
  }

  /** `a` and `a2` agree on every attribute but the class attribute. */
  predicate SameFeatures(h: Header, a: Row, a2: Row)
    requires |a| == |h.kinds| == |a2|
  {
    forall j :: 0 <= j < |h.kinds| && j != h.classIndex ==> a[j] == a2[j]
  }

  lemma {:induction false} DistanceUpToIgnoresClass(h: Header, stats: Stats, a: Row, a2: Row, b: Row, n: nat)
    requires Aligned(h, stats, a, b) && Aligned(h, stats, a2, b) && n <= |h.kinds|
    requires SameFeatures(h, a, a2)
    ensures DistanceUpTo(h, stats, a, b, n) == DistanceUpTo(h, stats, a2, b, n)
    decreases n
  {
    if n > 0 {
      DistanceUpToIgnoresClass(h, stats, a, a2, b, n - 1);
    }
  }

  /** Changing only the class value of a row leaves its distances unchanged. */
  lemma DistanceIgnoresClass(h: Header, stats: Stats, a: Row, a2: Row, b: Row)
    requires Aligned(h, stats, a, b) && Aligned(h, stats, a2, b)
    requires SameFeatures(h, a, a2)
    ensures Dist(h, stats, a, b) == Dist(h, stats, a2, b)
  {
    DistanceUpToIgnoresClass(h, stats, a, a2, b, |h.kinds|);
  }

  /** No attribute other than the class attribute is missing. */
  predicate NoMissingFeature(h: Header, a: Row)
    requires |a| == |h.kinds|
  {
    forall j :: 0 <= j < |h.kinds| && j != h.classIndex ==> a[j].Some?
  }

  lemma {:induction false} DistanceUpToSelf(h: Header, stats: Stats, a: Row, n: nat)
    requires Aligned(h, stats, a, a) && n <= |h.kinds| && NoMissingFeature(h, a)
    ensures DistanceUpTo(h, stats, a, a, n) == 0.0
    decreases n
  {
    if n > 0 {
      DistanceUpToSelf(h, stats, a, n - 1);
    }
  }

  /** A row with no missing feature is at distance 0 from itself. */
  lemma SelfDistanceZero(h: Header, stats: Stats, a: Row)
    requires Aligned(h, stats, a, a) && NoMissingFeature(h, a)
    ensures Dist(h, stats, a, a) == 0.0
  {
    DistanceUpToSelf(h, stats, a, |h.kinds|);
  }

  /** With every present numeric value inside its recorded range, no attribute contributes more than 1. */
  lemma ContributionAtMostOne(k: Kind, s: Option<Range>, a: Option<real>, b: Option<real>)
    requires Ordered(s)
    requires IsNumeric(k) && a.Some? ==> InRange(s, a.value)
    requires IsNumeric(k) && b.Some? ==> InRange(s, b.value)
    ensures Contribution(k, s, a, b) <= 1.0
  {
    if !k.Nominal? {
      if a.None? || b.None? {
        if a.Some? || b.Some? {
          var v := if b.None? then a.value else b.value;
          var d := Norm(s, v);
          assert 0.0 <= d <= 1.0;
          var diff := OneMissingDiff(d);
          SquareAtMostOne(diff);
          assert Contribution(k, s, a, b) == diff * diff;
        }
      } else {
        var x, y := Norm(s, a.value), Norm(s, b.value);
        assert -1.0 <= x - y <= 1.0;
        SquareAtMostOne(x - y);
      }
    }
  }

  lemma SquareAtMostOne(x: real)
    requires -1.0 <= x <= 1.0
    ensures x * x <= 1.0
  {
    if x >= 0.0 {
      assert x * x <= 1.0 * x;
    } else {
      assert x * x == (-x) * (-x);
      assert (-x) * (-x) <= 1.0 * (-x);
    }
  }

  lemma {:induction false} DistanceUpToBounded(h: Header, stats: Stats, a: Row, b: Row, n: nat)
    requires Aligned(h, stats, a, b) && n <= |h.kinds| && ValidStats(stats)
    requires Covers(h.kinds, stats, a) && Covers(h.kinds, stats, b)
    ensures DistanceUpTo(h, stats, a, b, n) <= (if 0 <= h.classIndex < n then n - 1 else n) as real
    decreases n
  {
    if n > 0 {
      DistanceUpToBounded(h, stats, a, b, n - 1);
      var i := n - 1;
      if i != h.classIndex {
        ContributionAtMostOne(h.kinds[i], stats[i], a[i], b[i]);
      }
    }
  }

  /** For rows already observed by the statistics, the distance is at most the number of
      non-class attributes. */
  lemma DistanceBounded(h: Header, stats: Stats, a: Row, b: Row)
    requires Aligned(h, stats, a, b) && HasClass(h) && ValidStats(stats)
    requires Covers(h.kinds, stats, a) && Covers(h.kinds, stats, b)
    ensures Dist(h, stats, a, b) <= (|h.kinds| - 1) as real
  {
    DistanceUpToBounded(h, stats, a, b, |h.kinds|);
  }
}
