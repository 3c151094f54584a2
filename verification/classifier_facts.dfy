/** Properties of the classifier that relate several calls or characterise a result
    independently of how it is computed. */
module IbmFacts {
  import opened Wrappers
  import opened Data
  import opened Statistics
  import opened Distance
  import opened ArgMin
  import opened Ibm

  // ---------------------------------------------------------------------------------------
  // Build: which rows are kept
  // ---------------------------------------------------------------------------------------

  /** Filtering distributes over concatenation, so the kept rows are the input rows with a
      present class, each kept exactly where it stood. */
  lemma {:induction false} WithClassAppend(h: Header, a: seq<Row>, b: seq<Row>)
    requires HasClass(h) && AllFit(h, a) && AllFit(h, b)
    ensures AllFit(h, a + b)
    ensures WithClass(h, a + b) == WithClass(h, a) + WithClass(h, b)
    decreases |b|
  {
    assert AllFit(h, a + b) by {
      forall i | 0 <= i < |a + b| ensures Fits(h, (a + b)[i]) {
        if i >= |a| { assert (a + b)[i] == b[i - |a|]; }
      }
    }
    if |b| == 0 {
      assert a + b == a;
    } else {
      var b' := b[..|b| - 1];
      var last := b[|b| - 1];
      assert AllFit(h, b');
      WithClassAppend(h, a, b');
      assert (a + b)[..|a + b| - 1] == a + b';
      assert (a + b)[|a + b| - 1] == last;
    }
  }

  /** A single row is kept exactly when its class value is present. */
  lemma WithClassSingle(h: Header, row: Row)
    requires HasClass(h) && Fits(h, row)
    ensures AllFit(h, [row])
    ensures WithClass(h, [row]) == if ClassPresent(h, row) then [row] else []
  {
    assert [row][..0] == [];
  }

  // ---------------------------------------------------------------------------------------
  // Build: the statistics are the per-attribute hull of the kept rows
  // ---------------------------------------------------------------------------------------

  /** Entry `e` is the tightest range holding every present value of column `j` of `rows`:
      undefined when the column has no present value, otherwise its minimum and maximum,
      each attained by some row. */
  ghost predicate HullOf(rows: seq<Row>, j: nat, e: Option<Range>)
    requires forall i :: 0 <= i < |rows| ==> j < |rows[i]|
  {
    && (e.None? <==> forall i :: 0 <= i < |rows| ==> rows[i][j].None?)
    && (e.Some? ==>
          && (forall i :: 0 <= i < |rows| && rows[i][j].Some? ==> e.value.lo <= rows[i][j].value <= e.value.hi)
          && (exists i :: 0 <= i < |rows| && rows[i][j] == Some(e.value.lo))
          && (exists i :: 0 <= i < |rows| && rows[i][j] == Some(e.value.hi)))
  }

  lemma {:induction false} ObserveAllIsHull(kinds: seq<Kind>, rows: seq<Row>, j: nat)
    requires forall i :: 0 <= i < |rows| ==> |rows[i]| == |kinds|
    requires j < |kinds| && IsNumeric(kinds[j])
    ensures HullOf(rows, j, ObserveAll(kinds, Initial(|kinds|), rows)[j])
    decreases |rows|
  {
    var init := Initial(|kinds|);
    if |rows| == 0 {
      assert ObserveAll(kinds, init, rows) == init;
    } else {
      var n := |rows|;
      var front := rows[..n - 1];
      var last := rows[n - 1];
      ObserveAllIsHull(kinds, front, j);
      var prev := ObserveAll(kinds, init, front);
      var cur := ObserveAll(kinds, init, rows);
      assert cur == UpdateMinMax(kinds, prev, last);
      assert ValidStats(prev);
      assert forall i :: 0 <= i < n - 1 ==> rows[i] == front[i];
      if last[j].None? {
        assert cur[j] == prev[j];
        if cur[j].Some? {
          var wl :| 0 <= wl < n - 1 && front[wl][j] == Some(prev[j].value.lo);
          var wh :| 0 <= wh < n - 1 && front[wh][j] == Some(prev[j].value.hi);
          assert rows[wl][j] == Some(cur[j].value.lo);
          assert rows[wh][j] == Some(cur[j].value.hi);
        }
      } else {
        var v := last[j].value;
        var e := cur[j].value;
        assert cur[j] == Some(Widen(prev[j], v));
        assert e.lo <= v <= e.hi;
        if e.lo == v {
          assert rows[n - 1][j] == Some(e.lo);
        } else {
          var wl :| 0 <= wl < n - 1 && front[wl][j] == Some(prev[j].value.lo);
          assert rows[wl][j] == Some(e.lo);
        }
        if e.hi == v {
          assert rows[n - 1][j] == Some(e.hi);
        } else {
          var wh :| 0 <= wh < n - 1 && front[wh][j] == Some(prev[j].value.hi);
          assert rows[wh][j] == Some(e.hi);
        }
        forall i | 0 <= i < n && rows[i][j].Some?
          ensures e.lo <= rows[i][j].value <= e.hi
        {
          if i < n - 1 {
            assert front[i][j].Some?;
          }
        }
      }
    }
  }

  /** After a successful build, each numeric attribute's statistics are the minimum and maximum
      of its present values over the stored rows only (rows dropped for a missing class never
      count), and every other attribute's statistics are undefined. */
  lemma BuildStatsAreHull(data: Dataset)
    requires AllFit(data.header, data.rows) && Capable(data.header)
    ensures Build(data).Success?
    ensures var c := Build(data).value;
      forall j :: 0 <= j < |data.header.kinds| ==>
        if IsNumeric(data.header.kinds[j]) then HullOf(c.train, j, c.stats[j]) else c.stats[j].None?
  {
    var c := Build(data).value;
    forall j | 0 <= j < |data.header.kinds|
      ensures if IsNumeric(data.header.kinds[j]) then HullOf(c.train, j, c.stats[j]) else c.stats[j].None?
    {
      if IsNumeric(data.header.kinds[j]) {
        ObserveAllIsHull(data.header.kinds, c.train, j);
      }
    }
  }

  // ---------------------------------------------------------------------------------------
  // Classify: the prediction is the class of the first nearest stored row
  // ---------------------------------------------------------------------------------------

  /** Stored row `k` is at minimal distance from `q` under `stats`, and every earlier row is
      strictly farther. */
  ghost predicate IsFirstNearest(h: Header, stats: Stats, train: seq<Row>, q: Row, k: nat)
    requires HasClass(h) && |stats| == |h.kinds| && AllFit(h, train) && Fits(h, q)
  {
    && k < |train|
    && (forall j :: 0 <= j < |train| ==> Dist(h, stats, q, train[k]) <= Dist(h, stats, q, train[j]))
    && (forall j :: 0 <= j < k ==> Dist(h, stats, q, train[k]) < Dist(h, stats, q, train[j]))
  }

  /** On a non-empty training set, the prediction is the class value of the stored row that is
      first in training order among those nearest to the query, with distances measured on the
      statistics already widened by the query. */
  lemma ClassifyPicksFirstNearest(c: Classifier, q: Row) returns (k: nat)
    requires Valid(c) && Fits(c.header, q) && |c.train| > 0
    ensures Classify(c, q).Success?
    ensures IsFirstNearest(c.header, Classify(c, q).value.1.stats, c.train, q, k)
    ensures Classify(c, q).value.0 == c.train[k][c.header.classIndex].value
  {
    var stats := UpdateMinMax(c.header.kinds, c.stats, q);
    var ds := Candidates(c.header, stats, c.train, q);
    assert ds[0].Some?;
    k := FirstMin(ds).value;
    assert IsFirstMin(ds, k);
  }

  /** Every distance the scan compares is at most the number of non-class attributes: the
      stored rows stay covered by the widened statistics, and the query is covered by them. */
  lemma ClassifyDistancesBounded(c: Classifier, q: Row, j: nat)
    requires Valid(c) && Fits(c.header, q) && j < |c.train|
    ensures Dist(c.header, UpdateMinMax(c.header.kinds, c.stats, q), q, c.train[j]) <= (|c.header.kinds| - 1) as real
  {
    var stats := UpdateMinMax(c.header.kinds, c.stats, q);
    CoversWidened(c.header.kinds, c.stats, stats, c.train[j]);
    DistanceBounded(c.header, stats, q, c.train[j]);
  }

  /** With a single stored row, its class is predicted whatever the query. */
  lemma ClassifySingleRow(c: Classifier, q: Row)
    requires Valid(c) && Fits(c.header, q) && |c.train| == 1
    ensures Classify(c, q).Success?
    ensures Classify(c, q).value.0 == c.train[0][c.header.classIndex].value
  {
    var k := ClassifyPicksFirstNearest(c, q);
  }

  /** A query that repeats the features of stored row `j` (none of them missing) is predicted
      from a row at distance 0 that is `j` itself or stored before it. */
  lemma ClassifyExactMatch(c: Classifier, q: Row, j: nat) returns (k: nat)
    requires Valid(c) && Fits(c.header, q) && j < |c.train|
    requires SameFeatures(c.header, q, c.train[j]) && NoMissingFeature(c.header, q)
    ensures Classify(c, q).Success?
    ensures k <= j
    ensures Dist(c.header, Classify(c, q).value.1.stats, q, c.train[k]) == 0.0
    ensures Classify(c, q).value.0 == c.train[k][c.header.classIndex].value
  {
    var h := c.header;
    var stats := UpdateMinMax(h.kinds, c.stats, q);
    var row := c.train[j];
    k := ClassifyPicksFirstNearest(c, q);
    assert Classify(c, q).value.1.stats == stats;
    ExactMatchAtZero(h, stats, q, row);
  }

  /** A query with the features of `row`, none missing, is at distance 0 from it. */
  lemma ExactMatchAtZero(h: Header, stats: Stats, q: Row, row: Row)
    requires Aligned(h, stats, q, row)
    requires SameFeatures(h, q, row) && NoMissingFeature(h, q)
    ensures Dist(h, stats, q, row) == 0.0
  {
    DistanceIgnoresClass(h, stats, q, row, row);
    assert NoMissingFeature(h, row);
    SelfDistanceZero(h, stats, row);
  }

  // ---------------------------------------------------------------------------------------
  // Update: a row with a missing class leaves everything as it was
  // ---------------------------------------------------------------------------------------

  /** Two updates with rows whose class is missing leave the classifier unchanged, so a later
      prediction is the same as before them. */
  lemma UpdateMissingClassTwice(c: Classifier, x: Instance, y: Instance, q: Row)
    requires Shaped(c) && Fits(c.header, q)
    requires x.header == c.header && y.header == c.header
    requires Fits(c.header, x.values) && Fits(c.header, y.values)
    requires !ClassPresent(c.header, x.values) && !ClassPresent(c.header, y.values)
    ensures Update(c, x) == Success(c)
    ensures Update(Update(c, x).value, y) == Success(c)
    ensures Classify(Update(Update(c, x).value, y).value, q) == Classify(c, q)
  {
  }
}

module IbmScenario {
  import opened Wrappers
  import opened Data
  import opened Statistics
  import opened Distance
  import opened Ibm

  /** Attributes: nominal A (codes 0 = x, 1 = y), numeric B, nominal class (codes 0 and 1). */
  function ScenarioHeader(): (h: Header)
    ensures HasClass(h) && h.kinds[h.classIndex].Nominal?
  {
    Header([Nominal, Numeric, Nominal], 2)
  }

  /** Rows (A = x, B = 1, class 0) and (A = y, B = 3, class 1). */
  function ScenarioRows(): (rows: seq<Row>)
    ensures |rows| == 2 && AllFit(ScenarioHeader(), rows)
  {
    [[Some(0.0), Some(1.0), Some(0.0)], [Some(1.0), Some(3.0), Some(1.0)]]
  }

  /** Building from the two rows keeps both and records B's range as [1, 3]. */
  lemma ScenarioBuild()
    ensures Build(Dataset(ScenarioHeader(), ScenarioRows())) ==
              Success(Classifier(ScenarioHeader(), ScenarioRows(), [None, Some(Range(1.0, 3.0)), None]))
  {
    var h, rows := ScenarioHeader(), ScenarioRows();
    assert rows[..1][..0] == [];
    assert rows[..1] == [rows[0]];
    assert WithClass(h, rows[..1]) == [rows[0]];
    assert WithClass(h, rows) == rows;
    var init := Initial(3);
    assert ObserveAll(h.kinds, init, rows[..1]) == UpdateMinMax(h.kinds, init, rows[0]);
    assert UpdateMinMax(h.kinds, init, rows[0]) == [None, Some(Range(1.0, 1.0)), None];
    assert ObserveAll(h.kinds, init, rows) == UpdateMinMax(h.kinds, [None, Some(Range(1.0, 1.0)), None], rows[1]);
    assert UpdateMinMax(h.kinds, [None, Some(Range(1.0, 1.0)), None], rows[1]) == [None, Some(Range(1.0, 3.0)), None];
  }

  /** The query (x, 1) matches the first row exactly and is predicted as class 0. */
  lemma ScenarioExactQuery()
    ensures Classify(Classifier(ScenarioHeader(), ScenarioRows(), [None, Some(Range(1.0, 3.0)), None]),
                     [Some(0.0), Some(1.0), None]).Success?
    ensures Classify(Classifier(ScenarioHeader(), ScenarioRows(), [None, Some(Range(1.0, 3.0)), None]),
                     [Some(0.0), Some(1.0), None]).value.0 == 0.0
    ensures Dist(ScenarioHeader(), [None, Some(Range(1.0, 3.0)), None], [Some(0.0), Some(1.0), None], ScenarioRows()[0]) == 0.0
    ensures Dist(ScenarioHeader(), [None, Some(Range(1.0, 3.0)), None], [Some(0.0), Some(1.0), None], ScenarioRows()[1]) == 2.0
  {
    var c := Classifier(ScenarioHeader(), ScenarioRows(), [None, Some(Range(1.0, 3.0)), None]);
    var q: Row := [Some(0.0), Some(1.0), None];
    assert UpdateMinMax(c.header.kinds, c.stats, q) == c.stats;
    assert Norm(c.stats[1], 1.0) == 0.0;
    assert Norm(c.stats[1], 3.0) == 1.0;
    Unroll(c.header, c.stats, q, c.train[0]);
    Unroll(c.header, c.stats, q, c.train[1]);
    assert Dist(c.header, c.stats, q, c.train[0]) == 0.0;
    assert Dist(c.header, c.stats, q, c.train[1]) == 2.0;
  }

  /** The query (x, 3) is at distance 1 from both rows (a B difference of the whole range
      against a nominal mismatch), and the tie goes to the first row: class 0. */
  lemma ScenarioTieQuery()
    ensures Classify(Classifier(ScenarioHeader(), ScenarioRows(), [None, Some(Range(1.0, 3.0)), None]),
                     [Some(0.0), Some(3.0), None]).Success?
    ensures Classify(Classifier(ScenarioHeader(), ScenarioRows(), [None, Some(Range(1.0, 3.0)), None]),
                     [Some(0.0), Some(3.0), None]).value.0 == 0.0
    ensures Dist(ScenarioHeader(), [None, Some(Range(1.0, 3.0)), None], [Some(0.0), Some(3.0), None], ScenarioRows()[0]) == 1.0
    ensures Dist(ScenarioHeader(), [None, Some(Range(1.0, 3.0)), None], [Some(0.0), Some(3.0), None], ScenarioRows()[1]) == 1.0
  {
    var c := Classifier(ScenarioHeader(), ScenarioRows(), [None, Some(Range(1.0, 3.0)), None]);
    var q: Row := [Some(0.0), Some(3.0), None];
    assert UpdateMinMax(c.header.kinds, c.stats, q) == c.stats;
    assert Norm(c.stats[1], 1.0) == 0.0;
    assert Norm(c.stats[1], 3.0) == 1.0;
    Unroll(c.header, c.stats, q, c.train[0]);
    Unroll(c.header, c.stats, q, c.train[1]);
    assert Dist(c.header, c.stats, q, c.train[0]) == 1.0;
    assert Dist(c.header, c.stats, q, c.train[1]) == 1.0;
  }

  /** The scenario's distances written out attribute by attribute. */
  lemma Unroll(h: Header, stats: Stats, a: Row, b: Row)
    requires h == ScenarioHeader() && Aligned(h, stats, a, b)
    ensures Dist(h, stats, a, b) ==
              Contribution(Nominal, stats[0], a[0], b[0]) + Contribution(Numeric, stats[1], a[1], b[1])
  {
    assert DistanceUpTo(h, stats, a, b, 1) == Contribution(Nominal, stats[0], a[0], b[0]);
    assert DistanceUpTo(h, stats, a, b, 2) == DistanceUpTo(h, stats, a, b, 1) + Contribution(Numeric, stats[1], a[1], b[1]);
    assert DistanceUpTo(h, stats, a, b, 3) == DistanceUpTo(h, stats, a, b, 2);
  }
}
