/** The nearest-neighbour scan of `classifyInstance`: a left-to-right pass that keeps the
    smallest distance seen so far and replaces it only on a strictly smaller one. */
module ArgMin {
  import opened Wrappers

  /** Position `k` holds a smallest candidate of `ds`, and no earlier candidate is as small.
      `None` entries are rows that are skipped. */
  ghost predicate IsFirstMin(ds: seq<Option<real>>, k: nat) {
    && k < |ds|
    && ds[k].Some?
    && (forall j :: 0 <= j < |ds| && ds[j].Some? ==> ds[k].value <= ds[j].value)
    && (forall j :: 0 <= j < k && ds[j].Some? ==> ds[k].value < ds[j].value)
  }

  /** The position the scan settles on after visiting every entry of `ds`; `None` when no
      entry is a candidate (the "best so far" that `Double.MAX_VALUE` stands in for never set). */
  function FirstMin(ds: seq<Option<real>>): (k: Option<nat>)
    ensures k.None? <==> forall j :: 0 <= j < |ds| ==> ds[j].None?
    ensures k.Some? ==> IsFirstMin(ds, k.value)
    decreases |ds|
  {
    if |ds| == 0 then None
    else
      var prev := FirstMin(ds[..|ds| - 1]);
      var last := ds[|ds| - 1];
      if last.Some? && (prev.None? || last.value < ds[prev.value].value) then Some(|ds| - 1)
      else prev
  }

  /** The first minimum is unique, so any position meeting `IsFirstMin` is the scan's result. */
  lemma FirstMinUnique(ds: seq<Option<real>>, k: nat)
    requires IsFirstMin(ds, k)
    ensures FirstMin(ds) == Some(k)
  {
  }
}
