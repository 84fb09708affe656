/** The round-trip estimator of lib/rtt.c, with reals for its floats. */
module Rtt {
  const RXTMIN := 2.0
  const RXTMAX := 60.0
  const MAXNREXMT := 3

  function MinMax(rto: real): real {
    if rto < RXTMIN then RXTMIN else if rto > RXTMAX then RXTMAX else rto
  }

  function Abs(x: real): real {
    if x < 0.0 then -x else x
  }

  function Larger(x: real, y: real): real {
    if x < y then y else x
  }

  /** The two estimators. */
  datatype Estimate = Estimate(srtt: real, rttvar: real)

  const INITIAL := Estimate(0.0, 0.75)

  /** The update rule of section 2.3 of RFC 6298: the mean deviation takes a quarter and
      the smoothed time an eighth of what is new in a sample. */
  function Update(e: Estimate, sample: real): Estimate {
    Estimate(0.875 * e.srtt + 0.125 * sample, 0.75 * e.rttvar + 0.25 * Abs(sample - e.srtt))
  }

  function Rto(e: Estimate): (rto: real)
    ensures RXTMIN <= rto <= RXTMAX
  {
    MinMax(e.srtt + 4.0 * e.rttvar)
  }

  /** (int) (rto + 0.5) */
  function Seconds(rto: real): int {
    (rto + 0.5).Floor
  }

  /** Rounding: the alarm is set to the integer nearest to the timeout, and no other integer
      is as near, but for the smaller one when the timeout is in the middle. */
  lemma SecondsAreNearest(rto: real, n: int)
    ensures rto - 0.5 < Seconds(rto) as real <= rto + 0.5
    ensures rto - 0.5 < n as real <= rto + 0.5 <==> n == Seconds(rto)
  {
    if rto - 0.5 < n as real <= rto + 0.5 {
      assert n as real - 1.0 < Seconds(rto) as real < n as real + 1.0;
    }
  }

  /** Between calls the estimators are no larger than what was measured. */
  predicate Bounded(e: Estimate, longest: real) {
    0.0 <= e.srtt <= longest && 0.0 <= e.rttvar <= Larger(0.75, longest)
  }

  lemma UpdateBounded(e: Estimate, sample: real, longest: real)
    requires Bounded(e, longest) && sample >= 0.0
    ensures Bounded(Update(e, sample), Larger(longest, sample))
  {
  }

  /** The estimators after any run of samples. */
  function After(samples: seq<real>): Estimate {
    if samples == [] then INITIAL else Update(After(samples[..|samples| - 1]), samples[|samples| - 1])
  }

  function Longest(samples: seq<real>): real {
    if samples == [] then 0.0 else Larger(Longest(samples[..|samples| - 1]), samples[|samples| - 1])
  }

  /** For every run of samples: srtt in [0, max sample], rttvar in [0, max(0.75, max sample)],
      rto in [2, 60]. */
  lemma {:induction false} EstimatesAreBounded(samples: seq<real>)
    requires forall k | 0 <= k < |samples| :: samples[k] >= 0.0
    ensures Bounded(After(samples), Longest(samples))
    ensures RXTMIN <= Rto(After(samples)) <= RXTMAX
  {
    if samples != [] {
      var before := samples[..|samples| - 1];
      EstimatesAreBounded(before);
      UpdateBounded(After(before), samples[|samples| - 1], Longest(before));
    }
  }

  function Power(x: real, n: nat): (p: real)
    ensures x > 0.0 ==> p > 0.0
  {
    if n == 0 then 1.0 else x * Power(x, n - 1)
  }

  function Repeated(e: Estimate, sample: real, n: nat): Estimate {
    if n == 0 then e else Update(Repeated(e, sample, n - 1), sample)
  }

  /** With constant samples, from any start: the error of srtt loses exactly an eighth per
      sample, and rttvar forgets its start by a quarter per sample while it follows the error. */
  lemma {:induction false} ConstantSamplesConverge(e: Estimate, sample: real, n: nat)
    ensures Repeated(e, sample, n).srtt - sample == Power(0.875, n) * (e.srtt - sample)
    ensures Repeated(e, sample, n).rttvar ==
            Power(0.75, n) * e.rttvar + 2.0 * Abs(sample - e.srtt) * (Power(0.875, n) - Power(0.75, n))
  {
    hide Update, Abs;
    if n > 0 {
      ConstantSamplesConverge(e, sample, n - 1);
      OneMoreSample(Repeated(e, sample, n - 1), e, sample, Power(0.875, n - 1), Power(0.75, n - 1));
    }
  }

  lemma OneMoreSample(b: Estimate, e: Estimate, sample: real, p: real, q: real)
    requires p > 0.0 && b.srtt - sample == p * (e.srtt - sample)
    requires b.rttvar == q * e.rttvar + 2.0 * Abs(sample - e.srtt) * (p - q)
    ensures var u := Update(b, sample);
            && u.srtt - sample == (0.875 * p) * (e.srtt - sample)
            && u.rttvar == (0.75 * q) * e.rttvar + 2.0 * Abs(sample - e.srtt) * (0.875 * p - 0.75 * q)
  {
    hide Abs, Update;
    var u, d := Update(b, sample), Abs(sample - e.srtt);
    UpdateLaw(b, sample);
    Scaled(p, sample - e.srtt, sample - b.srtt);
    EighthLess(p, e.srtt - sample);
    QuarterLess(p, q, d, e.rttvar);
    assert Abs(sample - b.srtt) == p * d;
    assert u.rttvar == b.rttvar + 0.25 * (p * d - b.rttvar);
  }

  /** The update without its coefficients: how far each estimator moves. */
  lemma UpdateLaw(e: Estimate, sample: real)
    ensures 8.0 * (Update(e, sample).srtt - e.srtt) == sample - e.srtt
    ensures 4.0 * (Update(e, sample).rttvar - e.rttvar) == Abs(sample - e.srtt) - e.rttvar
  {
  }

  lemma Scaled(p: real, d: real, x: real)
    requires p > 0.0 && x == p * d
    ensures Abs(x) == p * Abs(d)
  {
  }

  lemma EighthLess(p: real, d: real)
    ensures p * d - 0.125 * (p * d) == (0.875 * p) * d
  {
  }

  lemma QuarterLess(p: real, q: real, d: real, v: real)
    ensures var w := q * v + 2.0 * d * (p - q);
            w + 0.25 * (p * d - w) == (0.75 * q) * v + 2.0 * d * (0.875 * p - 0.75 * q)
  {
    assert 2.0 * d * (p - q) == 2.0 * (p * d) - 2.0 * (q * d);
    assert 2.0 * d * (0.875 * p - 0.75 * q) == 1.75 * (p * d) - 1.5 * (q * d);
  }

  class RttInfo {
    var rtt: real
    var srtt: real
    var rttvar: real
    var rto: real
    var nrexmt: nat
    var base: nat       // seconds since 1970 at the start

    function Est(): Estimate
      reads this
    {
      Estimate(srtt, rttvar)
    }

    /** Static storage, all zero. */
    constructor ()
      ensures Est() == Estimate(0.0, 0.0) && rto == rtt == 0.0 && nrexmt == base == 0
    {
      rtt, srtt, rttvar, rto, nrexmt, base := 0.0, 0.0, 0.0, 0.0, 0, 0;
    }

    /** rtt_init, at a time in milliseconds since 1970. */
    method Init(now: nat)
      modifies this
      ensures Est() == INITIAL && rto == 3.0 == Rto(INITIAL) && rtt == 0.0
      ensures base == now / 1000 && nrexmt == old(nrexmt)
    {
      base := now / 1000;
      rtt := 0.0;
      srtt := 0.0;
      rttvar := 0.75;
      rto := MinMax(srtt + 4.0 * rttvar);
    }

    /** rtt_newpack */
    method NewPack()
      modifies this`nrexmt
      ensures nrexmt == 0
    {
      nrexmt := 0;
    }

    /** rtt_start: the whole number of seconds next to the timeout, the larger one in the middle. */
    method Start() returns (seconds: int)
      ensures rto - 0.5 < seconds as real <= rto + 0.5
    {
      seconds := (rto + 0.5).Floor;
    }

    /** rtt_stop, with the measured time in milliseconds. */
    method Stop(ms: nat)
      modifies this`rtt, this`srtt, this`rttvar, this`rto
      ensures rtt == ms as real / 1000.0
      ensures 8.0 * (srtt - old(srtt)) == rtt - old(srtt)
      ensures 4.0 * (rttvar - old(rttvar)) ==
              (if rtt < old(srtt) then old(srtt) - rtt else rtt - old(srtt)) - old(rttvar)
      ensures 2.0 <= rto <= 60.0 && (2.0 < rto < 60.0 ==> rto - srtt == 4.0 * rttvar)
      ensures rto == 2.0 ==> srtt + 4.0 * rttvar <= 2.0
      ensures rto == 60.0 ==> srtt + 4.0 * rttvar >= 60.0
      ensures Est() == Update(old(Est()), ms as real / 1000.0) && rto == Rto(Est())
    {
      rtt := ms as real / 1000.0;
      var delta := rtt - srtt;
      srtt := srtt + delta / 8.0;
      if delta < 0.0 {
        delta := -delta;
      }
      rttvar := rttvar + (delta - rttvar) / 4.0;
      rto := MinMax(srtt + 4.0 * rttvar);
    }

    /** rtt_timeout: whether it is time to give up. */
    method Timeout() returns (giveUp: bool)
      modifies this`rto, this`nrexmt
      ensures rto == 2.0 * old(rto) && nrexmt == old(nrexmt) + 1
      ensures giveUp <==> nrexmt > 3
    {
      rto := rto * 2.0;
      nrexmt := nrexmt + 1;
      giveUp := nrexmt > MAXNREXMT;
    }
  }

  /** The timeout of the j-th transmission of a call that starts with rto. */
  function Backoff(rto: real, j: nat): real {
    if j == 0 then rto else 2.0 * Backoff(rto, j - 1)
  }

  function Alarms(rto: real, n: nat): seq<int> {
    seq(n, j requires j >= 0 => Seconds(Backoff(rto, j)))
  }

  function Total(alarms: seq<int>): int {
    if alarms == [] then 0 else Total(alarms[..|alarms| - 1]) + alarms[|alarms| - 1]
  }

  /** Each timeout of a call is twice the one before, and its alarm is the whole number of
      seconds nearest to it. */
  lemma AlarmsDouble(rto: real, n: nat, j: nat)
    requires j < n
    ensures |Alarms(rto, n)| == n
    ensures Power(2.0, j) * rto - 0.5 < Alarms(rto, n)[j] as real <= Power(2.0, j) * rto + 0.5
  {
    BackoffIsPower(rto, j);
    SecondsAreNearest(Backoff(rto, j), 0);
  }

  lemma {:induction false} BackoffIsPower(rto: real, j: nat)
    ensures Backoff(rto, j) == Power(2.0, j) * rto
  {
    if j > 0 {
      BackoffIsPower(rto, j - 1);
      Doubled(Power(2.0, j - 1), rto);
    }
  }

  lemma Doubled(p: real, rto: real)
    ensures 2.0 * (p * rto) == (2.0 * p) * rto
  {
  }

  /** The four alarms of a call that gives up take between 30 and 900 seconds. */
  lemma PatienceIsBounded(rto: real)
    requires RXTMIN <= rto <= RXTMAX
    ensures 30 <= Total(Alarms(rto, MAXNREXMT + 1)) <= 900
  {
    var a := Alarms(rto, MAXNREXMT + 1);
    assert a == [a[0], a[1], a[2], a[3]];
    TotalOfFour(a[0], a[1], a[2], a[3]);
    assert Backoff(rto, 1) == 2.0 * rto && Backoff(rto, 2) == 4.0 * rto && Backoff(rto, 3) == 8.0 * rto;
  }

  lemma TotalOfFour(a: int, b: int, c: int, d: int)
    ensures Total([a, b, c, d]) == a + b + c + d
  {
    TotalSnoc([], a);
    TotalSnoc([a], b);
    TotalSnoc([a, b], c);
    TotalSnoc([a, b, c], d);
    assert [] + [a] == [a] && [a] + [b] == [a, b] && [a, b] + [c] == [a, b, c] && [a, b, c] + [d] == [a, b, c, d];
  }

  lemma TotalSnoc(alarms: seq<int>, last: int)
    ensures Total(alarms + [last]) == Total(alarms) + last
  {
    assert (alarms + [last])[..|alarms|] == alarms;
  }
}
