/** Sequences of calls on a built classifier: whatever mix of updates and queries arrives,
    the statistics only widen and keep covering every value they have ever been shown. */
module IbmHistory {
  import opened Wrappers
  import opened Data
  import opened Statistics
  import opened Ibm

  /** A call after `buildClassifier`: `updateClassifier` or `classifyInstance`. */
  datatype Call = Add(inst: Instance) | Query(q: Row)

  predicate CallFits(h: Header, call: Call) {
    match call
    case Add(inst) => Fits(inst.header, inst.values)
    case Query(q) => Fits(h, q)
  }

  predicate CallsFit(h: Header, calls: seq<Call>) {
    forall i :: 0 <= i < |calls| ==> CallFits(h, calls[i])
  }

  /** The classifier after one call; a call that throws leaves it as it was. */
  function Step(c: Classifier, call: Call): (r: Classifier)
    requires Shaped(c) && CallFits(c.header, call)
    ensures Shaped(r) && r.header == c.header && Wider(c.stats, r.stats)
    ensures Valid(c) ==> Valid(r)
  {
    match call
    case Add(inst) =>
      var res := Update(c, inst);
      if res.Success? then res.value else c
    case Query(q) =>
      var res := Classify(c, q);
      if res.Success? then res.value.1 else c
  }

  /** The rows one call hands to `updateMinMax`. */
  function Observed(c: Classifier, call: Call): (rows: seq<Row>)
    requires Shaped(c) && CallFits(c.header, call)
    ensures AllFit(c.header, rows)
  {
    match call
    case Add(inst) =>
      if inst.header == c.header && ClassPresent(c.header, inst.values) then [inst.values] else []
    case Query(q) =>
      if |c.train| > 0 then [q] else []
  }

  /** Every row of `rows` is as wide as the header and covered by `stats`. */
  predicate AllCovered(kinds: seq<Kind>, stats: Stats, rows: seq<Row>)
    requires |stats| == |kinds|
  {
    forall i :: 0 <= i < |rows| ==> |rows[i]| == |kinds| && Covers(kinds, stats, rows[i])
  }

  /** `Observed` lists exactly the rows a call feeds to `updateMinMax`: replaying them over the
      statistics before the call gives the statistics after it. */
  lemma ObservedIsWhatStepSees(c: Classifier, call: Call)
    requires Shaped(c) && CallFits(c.header, call)
    ensures Step(c, call).stats == ObserveAll(c.header.kinds, c.stats, Observed(c, call))
  {
    if |Observed(c, call)| == 1 {
      assert Observed(c, call)[..0] == [];
    }
  }

  /** The classifier after a sequence of calls. */
  function Run(c: Classifier, calls: seq<Call>): (r: Classifier)
    requires Shaped(c) && CallsFit(c.header, calls)
    ensures Shaped(r) && r.header == c.header
    decreases |calls|
  {
    if |calls| == 0 then c else Run(Step(c, calls[0]), calls[1..])
  }

  /** Every row the statistics were shown during a sequence of calls, in order. */
  function History(c: Classifier, calls: seq<Call>): (rows: seq<Row>)
    requires Shaped(c) && CallsFit(c.header, calls)
    ensures AllFit(c.header, rows)
    decreases |calls|
  {
    if |calls| == 0 then []
    else
      var rest := History(Step(c, calls[0]), calls[1..]);
      var now := Observed(c, calls[0]);
      assert AllFit(c.header, now + rest) by {
        forall i | 0 <= i < |now + rest| ensures Fits(c.header, (now + rest)[i]) {
          if i >= |now| { assert (now + rest)[i] == rest[i - |now|]; }
        }
      }
      now + rest
  }

  /** After any sequence of updates and queries the classifier is still valid, its statistics
      contain the starting ones, and every numeric value seen before or during the sequence lies
      between the current minimum and maximum for its attribute. */
  lemma {:induction false} RunCoversHistory(c: Classifier, calls: seq<Call>, seen: seq<Row>)
    requires Valid(c) && CallsFit(c.header, calls) && AllCovered(c.header.kinds, c.stats, seen)
    ensures Valid(Run(c, calls))
    ensures Wider(c.stats, Run(c, calls).stats)
    ensures AllCovered(c.header.kinds, Run(c, calls).stats, seen + History(c, calls))
    decreases |calls|
  {
    if |calls| == 0 {
      assert seen + History(c, calls) == seen;
    } else {
      RunUnfold(c, calls);
      var c1 := Step(c, calls[0]);
      var now, rest := Observed(c, calls[0]), History(c1, calls[1..]);
      var seen1 := seen + now;
      StepKeepsCovered(c, calls[0], seen);
      RunCoversHistory(c1, calls[1..], seen1);
      AppendAssociative(seen, now, rest);
      WiderTransitive(c.stats, c1.stats, Run(c1, calls[1..]).stats);
    }
  }

  /** A non-empty sequence of calls is its first call followed by the rest. */
  lemma RunUnfold(c: Classifier, calls: seq<Call>)
    requires Shaped(c) && CallsFit(c.header, calls) && |calls| > 0
    ensures CallsFit(Step(c, calls[0]).header, calls[1..])
    ensures Run(c, calls) == Run(Step(c, calls[0]), calls[1..])
    ensures History(c, calls) == Observed(c, calls[0]) + History(Step(c, calls[0]), calls[1..])
  {
  }

  lemma AppendAssociative(a: seq<Row>, b: seq<Row>, c: seq<Row>)
    ensures a + (b + c) == (a + b) + c
  {
  }

  /** One call keeps the earlier rows covered and covers the rows it observes. */
  lemma StepKeepsCovered(c: Classifier, call: Call, seen: seq<Row>)
    requires Valid(c) && CallFits(c.header, call) && AllCovered(c.header.kinds, c.stats, seen)
    ensures AllCovered(c.header.kinds, Step(c, call).stats, seen + Observed(c, call))
  {
    var c1 := Step(c, call);
    var now := Observed(c, call);
    var seen1 := seen + now;
    StepCoversObserved(c, call);
    forall i | 0 <= i < |seen1|
      ensures |seen1[i]| == |c.header.kinds| && Covers(c.header.kinds, c1.stats, seen1[i])
    {
      if i < |seen| {
        CoversWidened(c.header.kinds, c.stats, c1.stats, seen[i]);
      } else {
        assert seen1[i] == now[i - |seen|];
      }
    }
  }

  /** The rows a call shows the statistics are covered by the statistics it leaves behind. */
  lemma StepCoversObserved(c: Classifier, call: Call)
    requires Valid(c) && CallFits(c.header, call)
    ensures forall i :: 0 <= i < |Observed(c, call)| ==> Covers(c.header.kinds, Step(c, call).stats, Observed(c, call)[i])
  {
  }
}
