/** Turning the classifier's output row into what the result page shows: the
    index of the first largest probability (`np.argmax`), the probability at that
    index, and the description the fixed class table gives that index. The
    probabilities are kept abstract as `real`: only comparisons are used. */
module Prediction {
  import opened Wrappers

  /** `i` is where `np.argmax` lands on `v`: a largest entry, and the first one. */
  predicate IsFirstMax(v: seq<real>, i: int)
  {
    0 <= i < |v|
    && (forall j :: 0 <= j < |v| ==> v[j] <= v[i])
    && (forall j :: 0 <= j < i ==> v[j] < v[i])
  }

  /** `np.argmax(v)` on a non-empty row: scans left to right and moves only on a
      strictly larger entry, so ties go to the earliest index. */
  function Argmax(v: seq<real>): (i: nat)
    requires |v| > 0
    ensures IsFirstMax(v, i)
  {
    if |v| == 1 then 0
    else
      var k := Argmax(v[..|v| - 1]);
      if v[k] < v[|v| - 1] then |v| - 1 else k
  }

  /** The first maximum is unique, so `Argmax` is the only index that
      satisfies `IsFirstMax`. */
  lemma ArgmaxIsTheFirstMax(v: seq<real>, i: int)
    requires |v| > 0
    ensures IsFirstMax(v, i) <==> i == Argmax(v)
  {
    var k := Argmax(v);
  }

  /** `class_descriptions`: the severity grades of diabetic retinopathy. */
  const ClassDescriptions: map<int, string> := map[
    0 := "No DR (No diabetic retinopathy detected)",
    1 := "Mild DR (Early signs of diabetic retinopathy, minimal damage to the retina)",
    2 := "Moderate DR (More severe damage, but vision loss is not imminent)",
    3 := "Severe DR (Advanced stage with significant damage to the retina and risk of vision loss)",
    4 := "Proliferative DR (Most severe stage with abnormal blood vessels growing in the retina, leading to potential vision loss)"
  ]

  /** The table covers exactly the classes 0..4 and gives each its own text. */
  lemma ClassTableShape()
    ensures ClassDescriptions.Keys == {0, 1, 2, 3, 4}
    ensures forall i, j :: i in ClassDescriptions && j in ClassDescriptions && i != j ==>
      ClassDescriptions[i] != ClassDescriptions[j]
  {
  }

  /** The unhandled exceptions of the selection step, each an HTTP 500 page. */
  datatype Fault =
    | EmptyOutput               // `np.argmax` of an empty row raises ValueError
    | UnknownClass(index: int)  // `class_descriptions[i]` raises KeyError

  /** What the result page is rendered with. */
  datatype Verdict = Verdict(index: nat, description: string, probability: real)

  /** Lines 53-66 of the handler on the classifier's first output row. It
      fails exactly on the empty row and on a row whose first maximum lies
      beyond the table. */
  function Select(v: seq<real>): (r: Result<Verdict, Fault>)
    ensures r == Failure(EmptyOutput) <==> |v| == 0
    ensures r.Failure? <==> |v| == 0 || Argmax(v) >= 5
    ensures r.Success? ==>
      r.value.index == Argmax(v)
      && r.value.probability == v[r.value.index]
      && r.value.index in ClassDescriptions
      && r.value.description == ClassDescriptions[r.value.index]
    ensures r.Failure? && |v| > 0 ==> r.error == UnknownClass(Argmax(v))
  {
    ClassTableShape();
    if |v| == 0 then Failure(EmptyOutput)
    else
      var i := Argmax(v);
      if i in ClassDescriptions then Success(Verdict(i, ClassDescriptions[i], v[i]))
      else Failure(UnknownClass(i))
  }

  /** On the five-entry row the classifier produces, selection never fails,
      and the class it picks is the first maximum, in 0..4. */
  lemma {:induction false} FiveClassRowSelects(v: seq<real>)
    requires |v| == 5
    ensures Select(v).Success?
    ensures Select(v).value.index == Argmax(v) <= 4
  {
    assert Argmax(v) < 5;
  }

  /** On a five-entry row the reported probability is the largest entry, and
      no other class shares the reported description. */
  lemma {:induction false} FiveClassRowReports(v: seq<real>)
    requires |v| == 5
    ensures Select(v).Success?
    ensures forall j :: 0 <= j < |v| ==> v[j] <= Select(v).value.probability
    ensures forall c :: (c in ClassDescriptions && ClassDescriptions[c] == Select(v).value.description
      ==> c == Select(v).value.index)
  {
    FiveClassRowSelects(v);
    ClassTableShape();
  }

  /** A longer row (a classifier with more outputs) fails exactly when its first
      maximum lies beyond the table. */
  lemma {:induction false} LongRowFailsBeyondTable(v: seq<real>)
    requires |v| > 5
    ensures Select(v).Failure? <==> Argmax(v) >= 5
  {
    ClassTableShape();
  }

  /** Sum of a row of scores. */
  function Sum(v: seq<real>): real
  {
    if v == [] then 0.0 else Sum(v[..|v| - 1]) + v[|v| - 1]
  }

  /** The sum of a row of non-negative scores is non-negative and at least
      each of its entries. */
  lemma {:induction false} SumAtLeastEntries(v: seq<real>)
    requires forall j :: 0 <= j < |v| ==> 0.0 <= v[j]
    ensures 0.0 <= Sum(v)
    ensures forall k :: 0 <= k < |v| ==> v[k] <= Sum(v)
  {
    if v != [] {
      var n := |v| - 1;
      SumAtLeastEntries(v[..n]);
      assert forall k :: 0 <= k < n ==> v[..n][k] == v[k];
    }
  }

  /** A row whose entries are all at most `b` sums to at most `|v| * b`. */
  lemma {:induction false} SumAtMostLengthTimes(v: seq<real>, b: real)
    requires forall j :: 0 <= j < |v| ==> v[j] <= b
    ensures Sum(v) <= |v| as real * b
  {
    if v != [] {
      var n := |v| - 1;
      SumAtMostLengthTimes(v[..n], b);
      assert |v| as real * b == n as real * b + b;
    }
  }

  /** For a row of non-negative scores, a largest entry `v[k]` is at most the
      sum, and the sum is at most `|v| * v[k]`. */
  lemma {:induction false} SumBounds(v: seq<real>, k: int)
    requires 0 <= k < |v|
    requires forall j :: 0 <= j < |v| ==> 0.0 <= v[j] <= v[k]
    ensures v[k] <= Sum(v) <= |v| as real * v[k]
  {
    SumAtLeastEntries(v);
    SumAtMostLengthTimes(v, v[k]);
  }

  /** Multiplying by a non-negative factor keeps order. */
  lemma MulMonotone(n: real, x: real, y: real)
    requires 0.0 <= n && x <= y
    ensures n * x <= n * y
  {
    assert n * y - n * x == n * (y - x);
  }

  /** The reported probability of an output row of non-negative entries
      summing to at most one is at most one; when the row sums to exactly one
      (a normalised classifier output) it is at least `1 / |v|`. */
  lemma {:induction false} ReportedProbabilityBounds(v: seq<real>)
    requires |v| > 0
    requires forall j :: 0 <= j < |v| ==> 0.0 <= v[j]
    requires Sum(v) <= 1.0
    ensures v[Argmax(v)] <= 1.0
    ensures Sum(v) == 1.0 ==> 1.0 / |v| as real <= v[Argmax(v)]
  {
    var i := Argmax(v);
    SumBounds(v, i);
    if Sum(v) == 1.0 {
      var n := |v| as real;
      assert 1.0 <= n * v[i];
      assert 1.0 / n <= v[i] by {
        MulMonotone(1.0 / n, 1.0, n * v[i]);
        assert (1.0 / n) * (n * v[i]) == v[i];
      }
    }
  }
}
