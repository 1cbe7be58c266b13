/**
  The tolerance-based sequence comparator `approxEqual` of
  tests/TestHelpers.h.

  Two spans are approximately equal when they have the same length and every
  pair of elements at the same index lies within an absolute margin. The scan
  stops at the first pair outside the margin; only then is a diagnostic
  produced, made of the offending index, both values, their distance and a
  preview of each span. Element values are exact reals; the diagnostic is a
  value instead of text written to the error stream.
 */
module Comparator {
  import opened Preview

  datatype Option<T> = None | Some(value: T)

  /** Margin used when the caller gives none. */
  const DefaultMargin: real := 0.001

  function Abs(x: real): real
  {
    if x < 0.0 then -x else x
  }

  /**
    `b` lies within margin `eps` of `a`: the margin test of Catch2's `Approx`,
    which accepts `b` when it lies in the interval from `a - eps` to `a + eps`.
   */
  predicate Close(a: real, b: real, eps: real)
    ensures Close(a, b, eps) <==> a + eps >= b && b + eps >= a
  {
    Abs(b - a) <= eps
  }

  /** Every index of the (equally long) spans holds a pair within the margin. */
  ghost predicate AllClose(lhs: seq<real>, rhs: seq<real>, eps: real)
    requires |lhs| == |rhs|
  {
    forall i :: 0 <= i < |lhs| ==> Close(lhs[i], rhs[i], eps)
  }

  /** `k` is the least index whose pair lies outside the margin. */
  ghost predicate IsFirstMismatch(lhs: seq<real>, rhs: seq<real>, eps: real, k: nat)
    requires |lhs| == |rhs|
  {
    && k < |lhs|
    && !Close(lhs[k], rhs[k], eps)
    && forall j :: 0 <= j < k ==> Close(lhs[j], rhs[j], eps)
  }

  /** What is written after an element mismatch. */
  datatype Report = Report(
    index: nat,
    lhsValue: real,
    rhsValue: real,
    delta: real,
    lhsPreview: Preview,
    rhsPreview: Preview)

  /**
    The result of one comparison: the returned boolean, how many element
    pairs were compared, and the diagnostic if one was written.
   */
  datatype Verdict = Verdict(equal: bool, compared: nat, report: Option<Report>)

  /** The first index at or after `from` whose pair lies outside the margin. */
  function FirstMismatch(lhs: seq<real>, rhs: seq<real>, eps: real, from: nat): (k: Option<nat>)
    requires |lhs| == |rhs| && from <= |lhs|
    ensures k.None? ==> forall j :: from <= j < |lhs| ==> Close(lhs[j], rhs[j], eps)
    ensures k.Some? ==>
              && from <= k.value < |lhs|
              && !Close(lhs[k.value], rhs[k.value], eps)
              && forall j :: from <= j < k.value ==> Close(lhs[j], rhs[j], eps)
    decreases |lhs| - from
  {
    if from == |lhs| then None
    else if !Close(lhs[from], rhs[from], eps) then Some(from)
    else FirstMismatch(lhs, rhs, eps, from + 1)
  }

  /**
    The comparator. A length difference answers `false` before any element
    is compared and writes nothing; otherwise the first pair outside the
    margin ends the scan and is reported together with both previews.
   */
  function ApproxEqual(lhs: seq<real>, rhs: seq<real>, eps: real): (v: Verdict)
    ensures |lhs| != |rhs| ==> !v.equal && v.compared == 0 && v.report.None?
    ensures |lhs| == |rhs| ==> (v.equal <==> AllClose(lhs, rhs, eps))
    ensures v.report.Some? <==> !v.equal && |lhs| == |rhs|
    ensures v.equal ==> v.compared == |lhs| == |rhs|
    ensures v.report.Some? ==>
              var r := v.report.value;
              && IsFirstMismatch(lhs, rhs, eps, r.index)
              && v.compared == r.index + 1
              && r.lhsValue == lhs[r.index]
              && r.rhsValue == rhs[r.index]
              && r.delta == Abs(r.rhsValue - r.lhsValue) > eps
              && r.lhsPreview == PrintSpan(lhs)
              && r.rhsPreview == PrintSpan(rhs)
  {
    if |lhs| != |rhs| then Verdict(false, 0, None)
    else
      match FirstMismatch(lhs, rhs, eps, 0)
      case None => Verdict(true, |rhs|, None)
      case Some(k) =>
        Verdict(false, k + 1,
                Some(Report(k, lhs[k], rhs[k], Abs(rhs[k] - lhs[k]), PrintSpan(lhs), PrintSpan(rhs))))
  }

  /** The comparator with the default margin of 1e-3. */
  function ApproxEqualDefault(lhs: seq<real>, rhs: seq<real>): (v: Verdict)
    ensures v == ApproxEqual(lhs, rhs, 0.001)
    ensures |lhs| == |rhs| ==>
              (v.equal <==> forall i :: 0 <= i < |lhs| ==> Abs(rhs[i] - lhs[i]) <= 0.001)
  {
    ApproxEqual(lhs, rhs, DefaultMargin)
  }

  /**
    The comparator as the source runs it: a length check, a left-to-right
    loop that sets `different` and breaks at the first pair outside the
    margin, then the two previews when, and only when, the loop broke.
   */
  method ApproxEqualScan(lhs: seq<real>, rhs: seq<real>, eps: real)
    returns (equal: bool, compared: nat, report: Option<Report>)
    ensures Verdict(equal, compared, report) == ApproxEqual(lhs, rhs, eps)
  {
    if |lhs| != |rhs| {
      return false, 0, None;
    }
    var different := false;
    var at: nat := 0;
    var i: nat := 0;
    compared := 0;
    while i < |rhs|
      invariant i <= |rhs|
      invariant compared == i
      invariant forall j :: 0 <= j < i ==> Close(lhs[j], rhs[j], eps)
    {
      compared := compared + 1;
      if !Close(lhs[i], rhs[i], eps) {
        different := true;
        at := i;
        break;
      }
      i := i + 1;
    }
    report := None;
    if different {
      var lp := RenderSpan(lhs);
      var rp := RenderSpan(rhs);
      report := Some(Report(at, lhs[at], rhs[at], Abs(rhs[at] - lhs[at]), lp, rp));
    }
    equal := !different;
  }

  // Most lemmas below need no proof steps: they follow from the contracts of
  // `FirstMismatch` and `ApproxEqual`, which fix the least mismatching index.

  /** The scan from index 0 stops exactly at the least mismatching index. */
  lemma FirstMismatchIsLeast(lhs: seq<real>, rhs: seq<real>, eps: real, k: nat)
    requires |lhs| == |rhs|
    requires IsFirstMismatch(lhs, rhs, eps, k)
    ensures FirstMismatch(lhs, rhs, eps, 0) == Some(k)
  {
  }

  /**
    With a non-negative margin a span is approximately equal to itself, and
    no diagnostic is written.
   */
  lemma Reflexive(x: seq<real>, eps: real)
    requires 0.0 <= eps
    ensures ApproxEqual(x, x, eps) == Verdict(true, |x|, None)
  {
  }

  /**
    Swapping the spans does not change the answer; on a mismatch the same
    index is reported with the two values exchanged and the same distance.
   */
  lemma Symmetric(lhs: seq<real>, rhs: seq<real>, eps: real)
    ensures ApproxEqual(lhs, rhs, eps).equal == ApproxEqual(rhs, lhs, eps).equal
    ensures ApproxEqual(lhs, rhs, eps).compared == ApproxEqual(rhs, lhs, eps).compared
    ensures ApproxEqual(lhs, rhs, eps).report.Some? ==>
              var r := ApproxEqual(lhs, rhs, eps).report.value;
              var s := ApproxEqual(rhs, lhs, eps).report.value;
              && s.index == r.index
              && s.lhsValue == r.rhsValue
              && s.rhsValue == r.lhsValue
              && s.delta == r.delta
  {
  }

  /**
    Widening the margin never turns a match into a mismatch, and a mismatch
    under a wider margin cannot be reported earlier than under a narrower one.
   */
  lemma MonotoneInMargin(lhs: seq<real>, rhs: seq<real>, eps: real, eps': real)
    requires eps <= eps'
    ensures ApproxEqual(lhs, rhs, eps).equal ==> ApproxEqual(lhs, rhs, eps').equal
    ensures ApproxEqual(lhs, rhs, eps').report.Some? ==>
              && ApproxEqual(lhs, rhs, eps).report.Some?
              && ApproxEqual(lhs, rhs, eps).report.value.index
                 <= ApproxEqual(lhs, rhs, eps').report.value.index
  {
  }

  /**
    Only the pairs up to the reported index are compared: spans that agree
    with `lhs` and `rhs` up to and including that index, and are equally
    long, get the same index, values and distance reported, whatever
    follows.
   */
  lemma LaterPairsNotExamined(lhs: seq<real>, rhs: seq<real>, lhs': seq<real>, rhs': seq<real>, eps: real)
    requires ApproxEqual(lhs, rhs, eps).report.Some?
    requires |lhs'| == |rhs'|
    requires ApproxEqual(lhs, rhs, eps).compared <= |lhs'|
    requires lhs'[..ApproxEqual(lhs, rhs, eps).compared] == lhs[..ApproxEqual(lhs, rhs, eps).compared]
    requires rhs'[..ApproxEqual(lhs, rhs, eps).compared] == rhs[..ApproxEqual(lhs, rhs, eps).compared]
    ensures ApproxEqual(lhs', rhs', eps).compared == ApproxEqual(lhs, rhs, eps).compared
    ensures ApproxEqual(lhs', rhs', eps).report.Some?
    ensures
      var r := ApproxEqual(lhs, rhs, eps).report.value;
      var r' := ApproxEqual(lhs', rhs', eps).report.value;
      r'.index == r.index && r'.lhsValue == r.lhsValue && r'.rhsValue == r.rhsValue && r'.delta == r.delta
  {
    var n := ApproxEqual(lhs, rhs, eps).compared;
    var k := n - 1;
    forall j | 0 <= j <= k
      ensures lhs'[j] == lhs[j] && rhs'[j] == rhs[j]
    {
      assert lhs'[j] == lhs'[..n][j] && lhs[j] == lhs[..n][j];
      assert rhs'[j] == rhs'[..n][j] && rhs[j] == rhs[..n][j];
    }
    assert IsFirstMismatch(lhs', rhs', eps, k);
    FirstMismatchIsLeast(lhs', rhs', eps, k);
  }

  /** Equal values within the default margin: 1.0005 is 0.0005 from 1.0. */
  lemma DefaultMarginAcceptsSmallDelta()
    ensures ApproxEqualDefault([1.0, 2.0, 3.0], [1.0005, 2.0, 3.0]) == Verdict(true, 3, None)
  {
  }

  /** A 0.5 difference at index 1 is reported there, and index 2 is never compared. */
  lemma DefaultMarginReportsIndexOne()
    ensures var v := ApproxEqualDefault([1.0, 2.0, 3.0], [1.0, 2.5, 3.0]);
            && !v.equal
            && v.compared == 2
            && v.report.Some?
            && v.report.value.index == 1
            && v.report.value.delta == 0.5
  {
  }

  /** Spans of lengths 2 and 3 differ without any element being read. */
  lemma LengthMismatchExample()
    ensures ApproxEqualDefault([1.0, 2.0], [1.0, 2.0, 3.0]) == Verdict(false, 0, None)
  {
  }
}
