/**
  The integer part of the session-sender's summary: packets lost, and the
  minimum, maximum, mean and sum of squared deviations of the RTT samples,
  all in nanoseconds.
 */
module Statistics {
  import opened Wrappers

  /** Sum of a sequence, accumulated front to back. */
  function Sum(xs: seq<int>): int
  {
    if |xs| == 0 then 0 else Sum(xs[..|xs| - 1]) + xs[|xs| - 1]
  }

  /** Sum of (x - mean)^2 over the samples, accumulated front to back. */
  function SquaredDeviations(xs: seq<int>, mean: int): (r: int)
    ensures r >= 0
  {
    if |xs| == 0 then 0
    else
      var d := xs[|xs| - 1] - mean;
      SquaredDeviations(xs[..|xs| - 1], mean) + d * d
  }

  /**
    Go's integer `/` for a positive divisor: the quotient is rounded toward
    zero, so it never lies further from zero than the exact quotient.
   */
  function TruncDiv(a: int, n: int): (q: int)
    requires n > 0
    ensures a >= 0 ==> 0 <= q * n <= a < q * n + n
    ensures a < 0 ==> q * n - n < a <= q * n <= 0
  {
    if a >= 0 then
      EuclideanBounds(a, n);
      a / n
    else
      EuclideanBounds(-a, n);
      assert (-((-a) / n)) * n == -(((-a) / n) * n);
      -((-a) / n)
  }

  /** Dafny's `/` on a non-negative dividend rounds down. */
  lemma EuclideanBounds(a: nat, n: int)
    requires n > 0
    ensures 0 <= (a / n) * n <= a < (a / n) * n + n
  {
    var q, r := a / n, a % n;
    assert a == q * n + r;
    assert q >= 0;
    MulMonotone(0, q, n);
  }

  lemma MulMonotone(a: int, b: int, n: int)
    requires a <= b
    requires n >= 0
    ensures a * n <= b * n
  {
    assert b * n - a * n == (b - a) * n;
  }

  lemma MulCancelLess(a: int, b: int, n: int)
    requires n > 0
    requires a * n < b * n
    ensures a < b
  {
    if b <= a {
      MulMonotone(b, a, n);
    }
  }

  /** A mean rounded toward zero stays within any integer bounds of the samples. */
  lemma TruncDivWithin(total: int, n: int, lo: int, hi: int)
    requires n > 0
    requires lo * n <= total <= hi * n
    ensures lo <= TruncDiv(total, n) <= hi
  {
    var q := TruncDiv(total, n);
    assert q * n - n < total < q * n + n;
    assert (hi + 1) * n == hi * n + n;
    assert (q + 1) * n == q * n + n;
    MulCancelLess(q, hi + 1, n);
    MulCancelLess(lo, q + 1, n);
  }

  /** Samples bounded below by lo and above by hi have a sum between n·lo and n·hi. */
  lemma {:induction false} SumWithin(xs: seq<int>, lo: int, hi: int)
    requires forall i :: 0 <= i < |xs| ==> lo <= xs[i] <= hi
    ensures lo * |xs| <= Sum(xs) <= hi * |xs|
  {
    if |xs| > 0 {
      SumWithin(xs[..|xs| - 1], lo, hi);
      assert lo * |xs| == lo * (|xs| - 1) + lo;
      assert hi * |xs| == hi * (|xs| - 1) + hi;
    }
  }

  /** When every sample equals v, the samples sum to n·v and deviate from v by nothing. */
  lemma {:induction false} ConstantSamples(xs: seq<int>, v: int)
    requires forall i :: 0 <= i < |xs| ==> xs[i] == v
    ensures Sum(xs) == v * |xs|
    ensures SquaredDeviations(xs, v) == 0
  {
    if |xs| > 0 {
      ConstantSamples(xs[..|xs| - 1], v);
      assert v * |xs| == v * (|xs| - 1) + v;
    }
  }

  /** The RTT figures reported when at least one sample was collected. */
  datatype RttSummary = RttSummary(min: int, max: int, avg: int, sumOfSquares: int)

  /** The summary of one exchange: `rtt` is present exactly when something came back. */
  datatype Report = Report(sent: int, received: nat, lost: int, rtt: Option<RttSummary>)

  /**
    One pass for min, max and the total, the mean rounded toward zero, then a
    second pass for the squared deviations from that mean.
   */
  method Summarize(samples: seq<int>) returns (s: RttSummary)
    requires |samples| > 0
    ensures s.min in samples && s.max in samples
    ensures forall i :: 0 <= i < |samples| ==> s.min <= samples[i] <= s.max
    ensures s.avg == TruncDiv(Sum(samples), |samples|)
    ensures s.min <= s.avg <= s.max
    ensures s.sumOfSquares == SquaredDeviations(samples, s.avg)
  {
    var min, max, total := samples[0], samples[0], 0;
    var i := 0;
    while i < |samples|
      invariant 0 <= i <= |samples|
      invariant min in samples && max in samples
      invariant forall j :: 0 <= j < i ==> min <= samples[j] <= max
      invariant total == Sum(samples[..i])
    {
      var rtt := samples[i];
      if rtt < min {
        min := rtt;
      }
      if rtt > max {
        max := rtt;
      }
      assert samples[..i + 1][..i] == samples[..i];
      total := total + rtt;
      i := i + 1;
    }
    assert samples[..i] == samples;
    var n := |samples|;
    SumWithin(samples, min, max);
    TruncDivWithin(total, n, min, max);
    var avg := TruncDiv(total, n);

    var sumOfSquares := SumSquaredDeviations(samples, avg);
    s := RttSummary(min, max, avg, sumOfSquares);
  }

  /** The second pass: accumulates (rtt - avg)^2 over the samples. */
  method SumSquaredDeviations(samples: seq<int>, avg: int) returns (sumOfSquares: int)
    ensures sumOfSquares == SquaredDeviations(samples, avg)
    ensures sumOfSquares >= 0
  {
    sumOfSquares := 0;
    var i := 0;
    while i < |samples|
      invariant 0 <= i <= |samples|
      invariant sumOfSquares == SquaredDeviations(samples[..i], avg)
    {
      var diff := samples[i] - avg;
      assert samples[..i + 1][..i] == samples[..i];
      sumOfSquares := sumOfSquares + diff * diff;
      i := i + 1;
    }
    assert samples[..i] == samples;
  }

  /**
    The report for `sent` probes and the collected samples: lost is the
    difference, and RTT figures exist only when a sample exists.  `sent` is
    the unchecked count flag, so it may be negative.
   */
  method Analyze(sent: int, samples: seq<int>) returns (r: Report)
    ensures r.sent == sent && r.received == |samples|
    ensures r.lost == sent - |samples|
    ensures r.rtt.Some? <==> |samples| > 0
    ensures r.rtt.Some? ==> r.rtt.value.min in samples && r.rtt.value.max in samples
    ensures r.rtt.Some? ==> forall i :: 0 <= i < |samples| ==> r.rtt.value.min <= samples[i] <= r.rtt.value.max
    ensures r.rtt.Some? ==> r.rtt.value.min <= r.rtt.value.avg <= r.rtt.value.max
    ensures r.rtt.Some? ==> r.rtt.value.avg == TruncDiv(Sum(samples), |samples|)
    ensures r.rtt.Some? ==> r.rtt.value.sumOfSquares == SquaredDeviations(samples, r.rtt.value.avg)
  {
    var rtt := None;
    if |samples| > 0 {
      var summary := Summarize(samples);
      rtt := Some(summary);
    }
    r := Report(sent, |samples|, sent - |samples|, rtt);
  }

  /** Equal samples have that value as their mean and no spread. */
  lemma EqualSamplesHaveNoSpread(samples: seq<int>, v: int)
    requires |samples| > 0
    requires forall i :: 0 <= i < |samples| ==> samples[i] == v
    ensures TruncDiv(Sum(samples), |samples|) == v
    ensures SquaredDeviations(samples, TruncDiv(Sum(samples), |samples|)) == 0
  {
    ConstantSamples(samples, v);
    TruncDivWithin(Sum(samples), |samples|, v, v);
  }
}
