# IBM nearest-neighbour classifier, modelled in Dafny

This project models the core of the Weka classifier `IBM` (file `IBM_v3.java`): an
incremental nearest-neighbour learner over mixed nominal and numeric attributes.

- **Statistics tracker** (`statistics.dfy`, module `Statistics`). `m_MinArray`/`m_MaxArray`
  become one `Option<Range>` per attribute. `None` is the source's NaN "nothing observed yet".
  `UpdateMinMax` is `updateMinMax`, and `Norm` is `norm`.
- **Distance** (`distance.dfy`, module `Distance`). `Contribution` is the per-attribute rule of
  `distance`. `Dist` sums the contributions of every non-class attribute, in attribute order.
- **Nearest-neighbour scan** (`argmin.dfy`, module `ArgMin`). `FirstMin` is the left-to-right
  scan with strict `<`. Its "best so far" starts as `None`, which stands in for `Double.MAX_VALUE`.
- **Classifier state and operations** (`classifier.dfy`, module `Ibm`). The state is a
  `Classifier`: the header, the training rows `m_Train`, and the statistics. `Build`, `Update` and
  `Classify` return a `Result` whose failures are the three exceptions the source throws.
  `ClassifyInstance` is the loop of `classifyInstance`, proved equal to `Classify`.
- **Properties** (`classifier_facts.dfy`, modules `IbmFacts` and `IbmScenario`; `history.dfy`,
  module `IbmHistory`). These lemmas cover which rows a build keeps, the build statistics as the
  per-column hull, first-nearest classification, exact matches, no-op updates, a worked
  two-row example, and coverage of every observed value across any sequence of calls.

Representation choices:
- Doubles are `real`. The source uses only subtraction, addition, division, squaring and comparisons, and exact arithmetic stands in for them.
- A row is `seq<Option<real>>`, with `None` for a missing value.
- Nominal values are category codes. They are compared through `Data.Trunc`, which is Java's
  `(int)` cast: truncation toward zero, clamped to the 32-bit `int` range.
- `Kind` is `Nominal | Numeric | Date`. As in Weka, date attributes count as numeric.
- Headers are compared with plain equality. This stands in for `equalHeaders`.
- Rows with a missing class are deleted (IBM_v3.java:188) before the min/max pass
  (IBM_v3.java:200-204), so they never reach the statistics.
- In the two-row example of `IbmScenario`, the query (A = x, B = 3) is at distance 1 from both
  stored rows, and the strict `<` keeps the first row, giving class 0 (`IbmScenario.ScenarioTieQuery`).

## Model

| member | source | states |
|---|---|---|
| Data.Trunc | IBM_v3.java:300 | the `(int)` cast stays within the `int` range: a value at or beyond `Integer.MAX_VALUE` (`Integer.MIN_VALUE`) gives that bound, and a value strictly between the bounds is truncated toward zero (within 1 of it, on the zero side) |
| Statistics.Widen | IBM_v3.java:377-395 | one attribute's step: the first value defines the range; later, the new range contains the old one and the value, and each bound is either the old bound or the value (the tightest such range) |
| Statistics.UpdateMinMax | IBM_v3.java:370-398 | statistics never narrow and never become undefined again; `min <= max` is kept; every present numeric value of the row ends up within its attribute's range; entries for nominal attributes or missing values are unchanged; each widened bound is the old bound or the new value |
| Statistics.Norm | IBM_v3.java:350-362 | 0 when the attribute has no statistics or a zero-width range; in [0,1] for a value inside an ordered range |
| Statistics.NormScales | IBM_v3.java:358-361 | off a zero-width range, the normalised value times the width is the offset from `min` |
| Statistics.NormMonotone | IBM_v3.java:350-362 | normalisation preserves the order of values |
| Distance.OneMissingDiff | IBM_v3.java:325-328 | the one-missing penalty `max(d, 1-d)` is at least 0.5, and at most 1 when `d` is in [0,1] |
| Distance.Contribution | IBM_v3.java:296-336 | each contribution is non-negative; a nominal attribute contributes exactly 0 or 1, and 0 exactly when both codes are present and equal; a numeric attribute with both values missing contributes exactly 1, and with exactly one missing at least 0.25 |
| Distance.DistanceUpTo | IBM_v3.java:288-338 | every partial sum of the attribute loop is non-negative |
| Distance.Dist | IBM_v3.java:285-341 | the distance is non-negative |
| Distance.ContributionSymmetric | IBM_v3.java:296-336 | each attribute's contribution is unchanged when the operands are swapped |
| Distance.DistanceSymmetric | IBM_v3.java:309-336 | `distance(a,b) == distance(b,a)`, including the exactly-one-missing branch, which normalises whichever value is present |
| Distance.DistanceIgnoresClass | IBM_v3.java:290-295 | changing only the class value of a row does not change its distance to anything |
| Distance.SelfDistanceZero | IBM_v3.java:296-336 | a row with no missing non-class value is at distance 0 from itself |
| Distance.ContributionAtMostOne | IBM_v3.java:296-336 | a contribution is at most 1 when the present numeric values lie inside the current ranges |
| Distance.DistanceBounded | IBM_v3.java:285-341 | for rows already covered by the statistics, the distance is at most the number of non-class attributes |
| ArgMin.FirstMin | IBM_v3.java:243-260 | the scan settles on nothing exactly when no row is a candidate; otherwise on a candidate whose distance is minimal and strictly smaller than every earlier candidate's (strict `<`: the first minimum wins) |
| ArgMin.FirstMinUnique | IBM_v3.java:254-258 | the first minimum is unique: any position that is one is the scan's result |
| Ibm.WithClass | IBM_v3.java:186-188 | the kept rows all have a present class; each comes from the input; every input row with a present class is kept |
| Ibm.ObserveAll | IBM_v3.java:200-204 | the min/max pass keeps statistics ordered, only widens them, leaves non-numeric entries alone, and covers every row it visits |
| Ibm.Build | IBM_v3.java:180-205 | fails with `DataIncompatible` exactly when the capability test rejects the header; otherwise stores exactly the rows with a present class, with statistics computed from undefined over those rows only, and the result satisfies the classifier invariant |
| Ibm.Update | IBM_v3.java:214-226 | fails with `SchemaMismatch` exactly when the header differs, with nothing changed; a row with a missing class changes nothing; otherwise the row is appended after the unchanged earlier rows, and the statistics widen by exactly that row; the invariant is preserved |
| Ibm.Classify | IBM_v3.java:235-263 | fails with `EmptyTrainingSet` exactly when no row is stored, without touching the statistics; otherwise keeps the training set, widens the statistics by the query, covers the query, and preserves the invariant |
| Ibm.ClassifyInstance | IBM_v3.java:235-263 | the source's single pass, with `minDistance` and `classValue`, returns exactly what `Classify` specifies |
| IbmFacts.WithClassAppend | IBM_v3.java:186-188 | dropping rows with a missing class distributes over concatenation, so the stored rows keep their input order |
| IbmFacts.WithClassSingle | IBM_v3.java:188 | a single row is kept exactly when its class value is present |
| IbmFacts.ObserveAllIsHull | IBM_v3.java:193-204 | starting from undefined, a numeric attribute's statistics after the pass are undefined exactly when no row has a value there; otherwise they are the minimum and maximum of the present values, each attained by some row |
| IbmFacts.BuildStatsAreHull | IBM_v3.java:186-204 | after a build, each numeric attribute's statistics are the min/max over the stored rows only, and every other attribute's statistics are undefined |
| IbmFacts.ClassifyPicksFirstNearest | IBM_v3.java:238-262 | the prediction is the class of a stored row at minimal distance from the query, under the statistics already widened by the query; every earlier row is strictly farther |
| IbmFacts.ClassifyDistancesBounded | IBM_v3.java:243-252 | every distance the scan compares, from the query to a stored row under the statistics widened by the query, is at most the number of non-class attributes |
| IbmFacts.ClassifySingleRow | IBM_v3.java:243-262 | with a single stored row, its class is predicted for every query |
| IbmFacts.ClassifyExactMatch | IBM_v3.java:243-262 | a query that repeats a stored row's features, none missing, is predicted from a row at distance 0 stored no later than that row |
| IbmFacts.ExactMatchAtZero | IBM_v3.java:290-336 | a query with the same features as a row, none missing, is at distance 0 from it |
| IbmFacts.UpdateMissingClassTwice | IBM_v3.java:220-223 | two updates with rows missing their class leave the classifier unchanged, and later predictions are as before |
| IbmScenario.ScenarioBuild | IBM_v3.java:186-204 | building from (x, 1, class 0) and (y, 3, class 1) keeps both rows and records the range [1, 3] for the numeric attribute |
| IbmScenario.ScenarioExactQuery | IBM_v3.java:243-262 | the query (x, 1) is at distance 0 from the first row and 2 from the second, and is predicted as class 0 |
| IbmScenario.ScenarioTieQuery | IBM_v3.java:243-262 | the query (x, 3) is at distance 1 from both rows, and the strict `<` gives the first row's class 0 |
| IbmScenario.Unroll | IBM_v3.java:290-338 | in the example header, the distance is the nominal contribution plus the numeric one |
| IbmHistory.Step | IBM_v3.java:214-263 | after one update or query, thrown or not, the classifier keeps its header and invariant, and its statistics only widen |
| IbmHistory.Observed | IBM_v3.java:214-244 | the rows a call hands to the statistics (an appended row at :224-225, the query at :238-244) fit the header |
| IbmHistory.ObservedIsWhatStepSees | IBM_v3.java:214-244 | the rows `Observed` lists for a call are exactly what it feeds to the min/max update: an appended row for a successful update with a class (:224-225), the query for a classification on a non-empty training set (:238-244); replaying them over the old statistics gives the new ones |
| IbmHistory.StepKeepsCovered | IBM_v3.java:370-398 | after one call, earlier observed rows stay covered, and so do the rows the call observed |
| IbmHistory.RunCoversHistory | IBM_v3.java:370-398 | after any sequence of updates and queries, the classifier is valid and its statistics only widened; every numeric value observed before or during the sequence lies between the current min and max of its attribute |

## Left out

- The untrained state is left out. Before `buildClassifier`, `m_Train` is null and the other calls fail with a null dereference. The model's operations take a built `Classifier`.
- The capability test (IBM_v3.java:153-172, :183) is reduced to `Ibm.Capable`: a class attribute is set and it is nominal. Feature kinds that Weka rejects (string, relational) cannot be written as a `Kind`, so they need no check.
- `Ibm.Classify` requires the query to be as wide as the header. The source indexes the query by the training header's attribute positions and never checks its width.
- `Utils.eq` (IBM_v3.java:354) compares with a small tolerance. The model uses exact equality of reals.
- NaN propagation, infinities and overflow of doubles are left out.
- ArgMin.FirstMin: starts from "no best yet" rather than `Double.MAX_VALUE` (IBM_v3.java:243). In the source, a row at distance `Double.MAX_VALUE` or more would never be chosen. On a valid classifier no distance gets near that: every distance the scan compares is at most the number of non-class attributes (`IbmFacts.ClassifyDistancesBounded`).
- The exception messages are dropped. Each exception becomes a constructor of `Ibm.Error`.
- `Instances` copying, `enumerateInstances` and `equalHeaders` are modelled as sequences and header equality.
- A `Header` keeps only the attribute kinds and the class index. Weka's `equalHeaders` also compares attribute names and nominal label lists, so two headers that differ only in those are equal in the model: there `Ibm.Update` appends the row where the source throws "Incompatible instance types".
- Data.Trunc: Java's cast also turns NaN into 0. The model leaves this out because a missing value is `None`, and the source tests for a missing value before the cast (IBM_v3.java:299-300), so NaN never reaches it.
- `globalInfo`, `getTechnicalInformation`, `toString`, `getRevision`, `main` and `serialVersionUID` return descriptive text or are entry and serialization plumbing, so they are left out.
- The reliability weighting marked TODO (IBM_v3.java:190, :279) has no behaviour, so there is nothing to model.
- The source has no concurrency, so none is modelled. The classifier's state is threaded through pure functions.
