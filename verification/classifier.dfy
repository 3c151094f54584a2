/** The `IBM` classifier: its state (`m_Train`, `m_MinArray`, `m_MaxArray`) and the
    operations `buildClassifier`, `updateClassifier` and `classifyInstance`. */
module Ibm {
  import opened Wrappers
  import opened Data
  import opened Statistics
  import opened Distance
  import opened ArgMin

  /** The exceptions the three operations throw. */
  datatype Error =
    | DataIncompatible   // the capability test rejects the dataset
    | SchemaMismatch     // "Incompatible instance types"
    | EmptyTrainingSet   // "No training instances!"

  /** A built classifier: the training rows with their header, and the statistics. */
  datatype Classifier = Classifier(header: Header, train: seq<Row>, stats: Stats)

  /** A dataset handed to `buildClassifier`. */
  datatype Dataset = Dataset(header: Header, rows: seq<Row>)

  /** A single instance together with the header of the dataset it belongs to. */
  datatype Instance = Instance(header: Header, values: Row)

  /** The capability test: a class attribute is set and it is nominal. Every feature kind the
      model can express (nominal, numeric, date) is accepted, and missing values are allowed. */
  predicate Capable(h: Header) {
    HasClass(h) && h.kinds[h.classIndex].Nominal?
  }

  /** The shapes line up: class index in range, one statistics entry per attribute, every
      stored row as wide as the header. */
  predicate Shaped(c: Classifier) {
    && HasClass(c.header)
    && |c.stats| == |c.header.kinds|
    && AllFit(c.header, c.train)
  }

  /** What every classifier that `Build`, `Update` and `Classify` produce satisfies. */
  predicate Valid(c: Classifier) {
    && Shaped(c)
    && c.header.kinds[c.header.classIndex].Nominal?
    && (forall i :: 0 <= i < |c.train| ==> ClassPresent(c.header, c.train[i]))
    && ValidStats(c.stats)
    && NumericOnly(c.header.kinds, c.stats)
    && (forall i :: 0 <= i < |c.train| ==> Covers(c.header.kinds, c.stats, c.train[i]))
  }

  /** `deleteWithMissingClass`: the rows whose class value is present, in their order. */
  function WithClass(h: Header, rows: seq<Row>): (r: seq<Row>)
    requires HasClass(h) && AllFit(h, rows)
    ensures AllFit(h, r)
    ensures forall i :: 0 <= i < |r| ==> ClassPresent(h, r[i])
    ensures forall i :: 0 <= i < |r| ==> r[i] in rows
    ensures forall i :: 0 <= i < |rows| && ClassPresent(h, rows[i]) ==> rows[i] in r
    ensures |r| <= |rows|
    decreases |rows|
  {
    if |rows| == 0 then []
    else
      var rest := WithClass(h, rows[..|rows| - 1]);
      var last := rows[|rows| - 1];
      if ClassPresent(h, last) then rest + [last] else rest
  }

  /** The min/max pass of `buildClassifier`: `updateMinMax` on every row, in order. */
  function ObserveAll(kinds: seq<Kind>, stats: Stats, rows: seq<Row>): (r: Stats)
    requires |stats| == |kinds|
    requires forall i :: 0 <= i < |rows| ==> |rows[i]| == |kinds|
    ensures Wider(stats, r)
    ensures ValidStats(stats) ==> ValidStats(r)
    ensures ValidStats(stats) ==> forall i :: 0 <= i < |rows| ==> Covers(kinds, r, rows[i])
    ensures forall j :: 0 <= j < |kinds| && !IsNumeric(kinds[j]) ==> r[j] == stats[j]
    decreases |rows|
  {
    if |rows| == 0 then stats
    else
      var prev := ObserveAll(kinds, stats, rows[..|rows| - 1]);
      var last := rows[|rows| - 1];
      var r := UpdateMinMax(kinds, prev, last);
      assert ValidStats(stats) ==> forall i :: 0 <= i < |rows| ==> Covers(kinds, r, rows[i]) by {
        if ValidStats(stats) {
          forall i | 0 <= i < |rows|
            ensures Covers(kinds, r, rows[i])
          {
            if i < |rows| - 1 {
              assert rows[i] == rows[..|rows| - 1][i];
              CoversWidened(kinds, prev, r, rows[i]);
            }
          }
        }
      }
      r
  }

  /** `buildClassifier`: reject an incapable dataset, keep the rows with a present class,
      and compute the statistics over exactly those rows from undefined. */
  function Build(data: Dataset): (r: Result<Classifier, Error>)
    requires AllFit(data.header, data.rows)
    ensures r.Failure? <==> !Capable(data.header)
    ensures r.Failure? ==> r.error == DataIncompatible
    ensures r.Success? ==> Valid(r.value)
    ensures r.Success? ==> r.value.header == data.header
    ensures r.Success? ==> r.value.train == WithClass(data.header, data.rows)
    ensures r.Success? ==> r.value.stats == ObserveAll(data.header.kinds, Initial(|data.header.kinds|), r.value.train)
  {
    if !Capable(data.header) then Failure(DataIncompatible)
    else
      var train := WithClass(data.header, data.rows);
      var stats := ObserveAll(data.header.kinds, Initial(|data.header.kinds|), train);
      Success(Classifier(data.header, train, stats))
  }

  /** `updateClassifier`: a foreign header fails before anything changes; a row with a missing
      class changes nothing; otherwise the row is appended and widens the statistics. */
  function Update(c: Classifier, inst: Instance): (r: Result<Classifier, Error>)
    requires Shaped(c) && Fits(inst.header, inst.values)
    ensures r.Failure? <==> inst.header != c.header
    ensures r.Failure? ==> r.error == SchemaMismatch
    ensures r.Success? ==> Shaped(r.value) && r.value.header == c.header && Wider(c.stats, r.value.stats)
    ensures r.Success? && !ClassPresent(c.header, inst.values) ==> r.value == c
    ensures r.Success? && ClassPresent(c.header, inst.values) ==>
              && r.value.train == c.train + [inst.values]
              && r.value.stats == UpdateMinMax(c.header.kinds, c.stats, inst.values)
    ensures r.Success? && Valid(c) ==> Valid(r.value)
  {
    if inst.header != c.header then Failure(SchemaMismatch)
    else if !ClassPresent(c.header, inst.values) then Success(c)
    else
      var stats := UpdateMinMax(c.header.kinds, c.stats, inst.values);
      var c' := c.(train := c.train + [inst.values], stats := stats);
      assert Valid(c) ==> Valid(c') by {
        if Valid(c) {
          forall i | 0 <= i < |c'.train|
            ensures Covers(c.header.kinds, stats, c'.train[i])
          {
            if i < |c.train| {
              CoversWidened(c.header.kinds, c.stats, stats, c.train[i]);
            }
          }
        }
      }
      Success(c')
  }

  /** The distance from the query to each stored row, `None` for a row whose class is missing
      (the scan skips such rows). */
  function Candidates(h: Header, stats: Stats, train: seq<Row>, q: Row): (ds: seq<Option<real>>)
    requires HasClass(h) && |stats| == |h.kinds| && AllFit(h, train) && Fits(h, q)
    ensures |ds| == |train|
    ensures forall j :: 0 <= j < |train| ==>
              (ds[j].Some? <==> ClassPresent(h, train[j])) && (ds[j].Some? ==> ds[j].value == Dist(h, stats, q, train[j]))
  {
    seq(|train|, j requires 0 <= j < |train| =>
      if ClassPresent(h, train[j]) then Some(Dist(h, stats, q, train[j])) else None)
  }

  /** `classifyInstance`: fail on an empty training set; otherwise widen the statistics with the
      query, then return the class of the first stored row at minimal distance (0 when no row
      is a candidate, as the source initialises `classValue`). */
  function Classify(c: Classifier, q: Row): (r: Result<(real, Classifier), Error>)
    requires Shaped(c) && Fits(c.header, q)
    ensures r.Failure? <==> |c.train| == 0
    ensures r.Failure? ==> r.error == EmptyTrainingSet
    ensures r.Success? ==>
              && r.value.1.header == c.header
              && r.value.1.train == c.train
              && r.value.1.stats == UpdateMinMax(c.header.kinds, c.stats, q)
              && Wider(c.stats, r.value.1.stats)
    ensures r.Success? && ValidStats(c.stats) ==> Covers(c.header.kinds, r.value.1.stats, q)
    ensures r.Success? && Valid(c) ==> Valid(r.value.1)
  {
    if |c.train| == 0 then Failure(EmptyTrainingSet)
    else
      var stats := UpdateMinMax(c.header.kinds, c.stats, q);
      var k := FirstMin(Candidates(c.header, stats, c.train, q));
      var cls := if k.Some? then c.train[k.value][c.header.classIndex].value else 0.0;
      var c' := c.(stats := stats);
      assert Valid(c) ==> Valid(c') by {
        if Valid(c) {
          forall i | 0 <= i < |c.train|
            ensures Covers(c.header.kinds, stats, c.train[i])
          {
            CoversWidened(c.header.kinds, c.stats, stats, c.train[i]);
          }
        }
      }
      Success((cls, c'))
  }

  /** `classifyInstance` as the source writes it: one pass over the training rows keeping the
      smallest distance so far and the class of the row that achieved it. */
  method ClassifyInstance(c: Classifier, q: Row) returns (r: Result<(real, Classifier), Error>)
    requires Shaped(c) && Fits(c.header, q)
    ensures r == Classify(c, q)
  {
    if |c.train| == 0 {
      return Failure(EmptyTrainingSet);
    }
    var ci := c.header.classIndex;
    var stats := UpdateMinMax(c.header.kinds, c.stats, q);
    ghost var ds := Candidates(c.header, stats, c.train, q);
    var minDistance: Option<real> := None;
    var classValue := 0.0;
    var i := 0;
    while i < |c.train|
      invariant 0 <= i <= |c.train|
      invariant FirstMin(ds[..i]).None? ==> minDistance.None? && classValue == 0.0
      invariant FirstMin(ds[..i]).Some? ==>
                  && minDistance == ds[FirstMin(ds[..i]).value]
                  && classValue == c.train[FirstMin(ds[..i]).value][ci].value
    {
      var trainRow := c.train[i];
      if trainRow[ci].Some? {
        var distance := Dist(c.header, stats, q, trainRow);
        if minDistance.None? || distance < minDistance.value {
          minDistance := Some(distance);
          classValue := trainRow[ci].value;
        }
      }
      assert ds[..i + 1][..i] == ds[..i];
      i := i + 1;
    }
    assert ds[..i] == ds;
    return Success((classValue, c.(stats := stats)));
  }
}
