/** The statistics tracker: a running minimum and maximum per numeric attribute
    (`m_MinArray`/`m_MaxArray`), widened by `updateMinMax` and read by `norm`. */
module Statistics {
  import opened Wrappers
  import opened Data

  /** The observed range of one attribute. */
  datatype Range = Range(lo: real, hi: real)

  /** One entry per attribute; `None` while nothing has been observed (NaN in the source). */
  type Stats = seq<Option<Range>>

  predicate Ordered(s: Option<Range>) {
    s.Some? ==> s.value.lo <= s.value.hi
  }

  predicate ValidStats(stats: Stats) {
    forall j :: 0 <= j < |stats| ==> Ordered(stats[j])
  }

  predicate InRange(s: Option<Range>, v: real) {
    s.Some? && s.value.lo <= v <= s.value.hi
  }

  /** Entry `t` is defined wherever `s` is and contains it. */
  predicate WiderEntry(s: Option<Range>, t: Option<Range>) {
    s.Some? ==> t.Some? && t.value.lo <= s.value.lo && s.value.hi <= t.value.hi
  }

  /** `t` never narrows nor undefines an entry of `s`. */
  predicate Wider(s: Stats, t: Stats) {
    |s| == |t| && forall j :: 0 <= j < |s| ==> WiderEntry(s[j], t[j])
  }

  /** Every present numeric value of `row` lies in the range recorded for its attribute. */
  predicate Covers(kinds: seq<Kind>, stats: Stats, row: Row)
    requires |stats| == |kinds| == |row|
  {
    forall j :: 0 <= j < |row| && IsNumeric(kinds[j]) && row[j].Some? ==> InRange(stats[j], row[j].value)
  }

  /** Entries of non-numeric attributes are never defined. */
  predicate NumericOnly(kinds: seq<Kind>, stats: Stats)
    requires |stats| == |kinds|
  {
    forall j :: 0 <= j < |kinds| && !IsNumeric(kinds[j]) ==> stats[j].None?
  }

  /** The state `buildClassifier` starts from: every entry undefined. */
  function Initial(n: nat): (r: Stats)
    ensures |r| == n
    ensures forall j :: 0 <= j < n ==> r[j].None?
  {
    seq(n, _ => None)
  }

  /** One attribute's step of `updateMinMax`: the first value defines the range,
      later ones move whichever bound they fall outside of. */
  function Widen(s: Option<Range>, v: real): (r: Range)
    ensures Ordered(s) ==> r.lo <= v <= r.hi
    ensures WiderEntry(s, Some(r))
    ensures r.lo == v || (s.Some? && r.lo == s.value.lo)
    ensures r.hi == v || (s.Some? && r.hi == s.value.hi)
  {
    match s
    case None => Range(v, v)
    case Some(g) =>
      if v < g.lo then Range(v, g.hi)
      else if v > g.hi then Range(g.lo, v)
      else g
  }

  /** `updateMinMax`: widen the statistics of every numeric attribute whose value is present. */
  function UpdateMinMax(kinds: seq<Kind>, stats: Stats, row: Row): (r: Stats)
    requires |stats| == |kinds| == |row|
    ensures Wider(stats, r)
    ensures ValidStats(stats) ==> ValidStats(r)
    ensures ValidStats(stats) ==> Covers(kinds, r, row)
    ensures forall j :: 0 <= j < |kinds| && !(IsNumeric(kinds[j]) && row[j].Some?) ==> r[j] == stats[j]
    ensures forall j :: 0 <= j < |kinds| && IsNumeric(kinds[j]) && row[j].Some? ==>
              && r[j].Some?
              && (r[j].value.lo == row[j].value || (stats[j].Some? && r[j].value.lo == stats[j].value.lo))
              && (r[j].value.hi == row[j].value || (stats[j].Some? && r[j].value.hi == stats[j].value.hi))
  {
    seq(|stats|, j requires 0 <= j < |stats| =>
      if IsNumeric(kinds[j]) && row[j].Some? then Some(Widen(stats[j], row[j].value)) else stats[j])
  }

  /** `norm`: min-max normalisation on the current statistics, 0 when the attribute has no
      statistics yet or a zero-width range. */
  function Norm(s: Option<Range>, x: real): (r: real)
    ensures s.None? || s.value.lo == s.value.hi ==> r == 0.0
    ensures Ordered(s) && InRange(s, x) ==> 0.0 <= r <= 1.0
  {
    if s.None? || s.value.lo == s.value.hi then 0.0
    else
      var r := (x - s.value.lo) / (s.value.hi - s.value.lo);
      assert Ordered(s) && InRange(s, x) ==> 0.0 <= r <= 1.0 by {
        if Ordered(s) && InRange(s, x) {
          UnitQuotient(x - s.value.lo, s.value.hi - s.value.lo);
        }
      }

      r
  }

  /** Away from a zero-width range, normalisation is the affine map sending `lo` to 0 and
      `hi` to 1: scaling the result back by the width recovers the offset from `lo`. */
  lemma NormScales(s: Option<Range>, x: real)
    requires s.Some? && s.value.lo != s.value.hi
    ensures Norm(s, x) * (s.value.hi - s.value.lo) == x - s.value.lo
  {
    var d := s.value.hi - s.value.lo;
    assert (x - s.value.lo) / d * d == x - s.value.lo;
  }

  /** Normalisation preserves the order of values. */
  lemma NormMonotone(s: Option<Range>, x: real, y: real)
    requires Ordered(s) && x <= y
    ensures Norm(s, x) <= Norm(s, y)
  {
    if s.Some? && s.value.lo != s.value.hi {
      var d := s.value.hi - s.value.lo;
      DivideMonotone(x - s.value.lo, y - s.value.lo, d);
    }
  }

  lemma DivideMonotone(a: real, b: real, d: real)
    requires a <= b && d > 0.0
    ensures a / d <= b / d
  {
    assert b / d - a / d == (b - a) / d;
  }

  /** A quotient of `0 <= n <= d` by a positive `d` lies in [0, 1]. */
  lemma UnitQuotient(n: real, d: real)
    requires 0.0 <= n <= d && d > 0.0
    ensures 0.0 <= n / d <= 1.0
  {
    assert n / d * d == n;
  }

  /** Widening is transitive: statistics only ever grow across a sequence of updates. */
  lemma WiderTransitive(s: Stats, t: Stats, u: Stats)
    requires Wider(s, t) && Wider(t, u)
    ensures Wider(s, u)
  {
  }

  /** A row covered by some statistics stays covered by any wider statistics. */
  lemma CoversWidened(kinds: seq<Kind>, s: Stats, t: Stats, row: Row)
    requires |s| == |kinds| == |row| && Wider(s, t) && Covers(kinds, s, row)
    ensures Covers(kinds, t, row)
  {
  }
}
