/** Token-bucket admission in exact arithmetic, with the clock reading of each call as a parameter. */
module TokenBucket {
  import opened Tables

  datatype Decision = Decision(allowed: bool, retryAfterSeconds: int)

  datatype Bucket = Bucket(tokens: real, lastRefillMs: real)

  function Ceiling(x: real): int {
    -(-x).Floor
  }

  function Elapsed(last: real, now: real): real {
    if now > last then now - last else 0.0
  }

  /** What a clock advance is worth. */
  function Worth(ms: real, rate: real): real {
    (ms / 1000.0) * rate
  }

  /** One call of `tryAcquire`. */
  function Acquire(b: Bucket, now: real, rate: real, burst: real): (Bucket, Decision)
    requires rate > 0.0
  {
    var refilled := b.tokens + Worth(Elapsed(b.lastRefillMs, now), rate);
    var tokens := if refilled < burst then refilled else burst;
    if tokens >= 1.0 then (Bucket(tokens - 1.0, now), Decision(true, 0))
    else
      var seconds := Ceiling((1.0 - tokens) / rate);
      (Bucket(tokens, now), Decision(false, if seconds > 1 then seconds else 1))
  }

  predicate Within(b: Bucket, burst: real) {
    0.0 <= b.tokens <= burst
  }

  /** The configuration the constructor accepts. */
  predicate IsConfiguration(rate: Float, burst: Float) {
    && rate.Finite? && rate.value > 0.0
    && burst.Finite? && burst.value > 0.0 && burst.value == burst.value.Floor as real
  }

  class Admission {
    const rate: real
    const burst: real
    var tokens: real
    var lastRefillMs: real

    ghost function State(): Bucket
      reads this
    {
      Bucket(tokens, lastRefillMs)
    }

    ghost predicate Valid()
      reads this
    {
      rate > 0.0 && burst >= 1.0 && Within(State(), burst)
    }

    constructor (rate: real, burst: real, now: real)
      requires rate > 0.0 && burst >= 1.0
      ensures Valid() && this.rate == rate && this.burst == burst && State() == Bucket(burst, now)
    {
      this.rate, this.burst, tokens, lastRefillMs := rate, burst, burst, now;
    }

    method TryAcquire(now: real) returns (d: Decision)
      requires Valid()
      modifies this`tokens, this`lastRefillMs
      ensures Valid() && (State(), d) == Acquire(old(State()), now, rate, burst)
      ensures lastRefillMs == now
      ensures var earned := if now > old(lastRefillMs) then (now - old(lastRefillMs)) / 1000.0 * rate else 0.0;
              var available := if old(tokens) + earned < burst then old(tokens) + earned else burst;
              (d.allowed <==> available >= 1.0) && tokens == if d.allowed then available - 1.0 else available
      ensures d.allowed ==> d.retryAfterSeconds == 0
      ensures !d.allowed ==>
                var k := d.retryAfterSeconds;
                k >= 1 && k as real * rate >= 1.0 - tokens && (k > 1 ==> (k - 1) as real * rate < 1.0 - tokens)
    {
      var elapsedMs := Elapsed(lastRefillMs, now);
      lastRefillMs := now;
      WorthIsMonotone(0.0, elapsedMs, rate);
      var refilled := tokens + Worth(elapsedMs, rate);
      tokens := if refilled < burst then refilled else burst;
      if tokens >= 1.0 {
        tokens := tokens - 1.0;
        return Decision(true, 0);
      }
      var seconds := Ceiling((1.0 - tokens) / rate);
      d := Decision(false, if seconds > 1 then seconds else 1);
      AdviceIsLeast(1.0 - tokens, rate, d.retryAfterSeconds);
    }
  }

  /** The constructor's argument checks: `None` where it throws. */
  method Create(rate: Float, burst: Float, now: real) returns (a: Option<Admission>)
    ensures a.Some? <==>
              && rate.Finite? && rate.value > 0.0
              && burst.Finite? && burst.value > 0.0 && burst.value.Floor as real == burst.value
    ensures a.Some? ==> fresh(a.value) && a.value.Valid() && a.value.State() == Bucket(burst.value, now)
  {
    if !IsConfiguration(rate, burst) {
      return None;
    }
    var admission := new Admission(rate.value, burst.value, now);
    a := Some(admission);
  }

  lemma WorthIsMonotone(x: real, y: real, rate: real)
    requires rate > 0.0 && x <= y
    ensures Worth(x, rate) <= Worth(y, rate) && Worth(0.0, rate) == 0.0
  {
  }

  lemma WorthAdds(x: real, y: real, rate: real)
    ensures Worth(x + y, rate) == Worth(x, rate) + Worth(y, rate)
  {
    assert (x + y) / 1000.0 == x / 1000.0 + y / 1000.0;
  }

  // ----- a stretch of calls -----

  /** How many of the calls, at these clock readings, are admitted. */
  function Admitted(b: Bucket, clocks: seq<real>, rate: real, burst: real): nat
    requires rate > 0.0
    decreases |clocks|
  {
    if clocks == [] then 0
    else
      var (after, d) := Acquire(b, clocks[0], rate, burst);
      (if d.allowed then 1 else 0) + Admitted(after, clocks[1..], rate, burst)
  }

  /** How far the clock goes forward in all, not counting where it goes backward. */
  function Advance(last: real, clocks: seq<real>): real
    decreases |clocks|
  {
    if clocks == [] then 0.0 else Elapsed(last, clocks[0]) + Advance(clocks[0], clocks[1..])
  }

  /** No call is admitted without a token, and tokens come only from the bucket and from the clock's advance. */
  lemma {:induction false} TokensPayForCalls(b: Bucket, clocks: seq<real>, rate: real, burst: real)
    requires rate > 0.0 && Within(b, burst) && burst >= 1.0
    ensures Admitted(b, clocks, rate, burst) as real <= b.tokens + Worth(Advance(b.lastRefillMs, clocks), rate)
    decreases |clocks|
  {
    WorthIsMonotone(0.0, Advance(b.lastRefillMs, []), rate);
    if clocks != [] {
      var elapsed := Elapsed(b.lastRefillMs, clocks[0]);
      var after := Acquire(b, clocks[0], rate, burst).0;
      WorthIsMonotone(0.0, elapsed, rate);
      TokensPayForCalls(after, clocks[1..], rate, burst);
      WorthAdds(elapsed, Advance(clocks[0], clocks[1..]), rate);
    }
  }

  /** The window bound for any clock: the first call of the stretch finds at most a full bucket. */
  lemma WindowBound(b: Bucket, clocks: seq<real>, rate: real, burst: real)
    requires rate > 0.0 && Within(b, burst) && burst >= 1.0 && clocks != []
    ensures Admitted(b, clocks, rate, burst) as real <= burst + Worth(Advance(clocks[0], clocks[1..]), rate)
  {
    WorthIsMonotone(0.0, Elapsed(b.lastRefillMs, clocks[0]), rate);
    var after := Acquire(b, clocks[0], rate, burst).0;
    TokensPayForCalls(after, clocks[1..], rate, burst);
  }

  predicate NonDecreasing(clocks: seq<real>) {
    forall i | 0 <= i < |clocks| - 1 :: clocks[i] <= clocks[i + 1]
  }

  lemma {:induction false} AdvanceIsSpan(clocks: seq<real>)
    requires clocks != [] && NonDecreasing(clocks)
    ensures Advance(clocks[0], clocks[1..]) == clocks[|clocks| - 1] - clocks[0]
  {
    if |clocks| > 1 {
      forall i | 0 <= i < |clocks[1..]| - 1 ensures clocks[1..][i] <= clocks[1..][i + 1] {
        assert clocks[i + 1] <= clocks[i + 2];
      }
      AdvanceIsSpan(clocks[1..]);
      assert clocks[0] <= clocks[1];
    }
  }

  /** Calls spanning T milliseconds of a non-decreasing clock: at most burst + rate * T / 1000 are admitted. */
  lemma SpanBound(b: Bucket, clocks: seq<real>, rate: real, burst: real)
    requires rate > 0.0 && Within(b, burst) && burst >= 1.0 && clocks != [] && NonDecreasing(clocks)
    ensures Admitted(b, clocks, rate, burst) as real <= burst + Worth(clocks[|clocks| - 1] - clocks[0], rate)
  {
    WindowBound(b, clocks, rate, burst);
    AdvanceIsSpan(clocks);
  }

  /** In every accepted configuration the calls on a new bucket stay within the bound for their span. */
  ghost predicate SpanBoundHolds(clocks: seq<real>)
    requires clocks != []
  {
    forall rate, burst | IsConfiguration(Finite(rate), Finite(burst)) ::
      Admitted(Bucket(burst, clocks[0]), clocks, rate, burst) as real
      <= burst + Worth(clocks[|clocks| - 1] - clocks[0], rate)
  }

  lemma {:induction false} AdvanceExceedsSpan(clocks: seq<real>)
    requires clocks != []
    ensures Advance(clocks[0], clocks[1..]) >= 0.0
    ensures Advance(clocks[0], clocks[1..]) >= clocks[|clocks| - 1] - clocks[0]
    ensures !NonDecreasing(clocks) ==> Advance(clocks[0], clocks[1..]) > clocks[|clocks| - 1] - clocks[0]
  {
    if |clocks| > 1 {
      AdvanceExceedsSpan(clocks[1..]);
      if clocks[0] <= clocks[1] && NonDecreasing(clocks[1..]) {
        forall i | 0 <= i < |clocks| - 1 ensures clocks[i] <= clocks[i + 1] {
          assert i > 0 ==> clocks[1..][i - 1] <= clocks[1..][i];
        }
      }
    }
  }

  /** A bucket with exactly the tokens for the calls, the last of them from the clock's advance, admits them all. */
  lemma {:induction false} AllAdmitted(b: Bucket, clocks: seq<real>, rate: real, burst: real)
    requires rate > 0.0 && |clocks| as real <= burst
    requires b.tokens + Worth(Advance(b.lastRefillMs, clocks), rate) == |clocks| as real
    requires Worth(Advance(b.lastRefillMs, clocks), rate) <= 1.0
    ensures Admitted(b, clocks, rate, burst) == |clocks|
    decreases |clocks|
  {
    if clocks != [] {
      var elapsed, rest := Elapsed(b.lastRefillMs, clocks[0]), Advance(clocks[0], clocks[1..]);
      AdvanceExceedsSpan(clocks);
      WorthIsMonotone(0.0, elapsed, rate);
      WorthIsMonotone(0.0, rest, rate);
      WorthAdds(elapsed, rest, rate);
      if |clocks| == 1 {
        assert clocks[1..] == [];
      }
      AllAdmitted(Acquire(b, clocks[0], rate, burst).0, clocks[1..], rate, burst);
    }
  }

  /** When the clock steps back, some accepted configuration admits more, and already of its new bucket. */
  lemma BackwardStepExceeds(clocks: seq<real>) returns (rate: real, burst: real)
    requires clocks != [] && !NonDecreasing(clocks)
    ensures IsConfiguration(Finite(rate), Finite(burst))
    ensures Admitted(Bucket(burst, clocks[0]), clocks, rate, burst) as real
            > burst + Worth(clocks[|clocks| - 1] - clocks[0], rate)
  {
    var n, advance, span := |clocks|, Advance(clocks[0], clocks[1..]), clocks[|clocks| - 1] - clocks[0];
    AdvanceExceedsSpan(clocks);
    if advance == 0.0 {
      rate, burst := 1.0, 1.0;
      assert Worth(0.0, rate) == 0.0;
      assert Admitted(Bucket(burst, clocks[0]), clocks, rate, burst) >= 1;
    } else {
      rate := 1000.0 / advance;
      burst := (n - 1) as real;
      assert Worth(advance, rate) == 1.0;
      assert Acquire(Bucket(burst, clocks[0]), clocks[0], rate, burst)
          == (Bucket(burst - 1.0, clocks[0]), Decision(true, 0)) by {
        assert Worth(0.0, rate) == 0.0;
      }
      AllAdmitted(Bucket(burst - 1.0, clocks[0]), clocks[1..], rate, burst);
      assert Worth(span, rate) < 1.0 by {
        assert (advance - span) / 1000.0 * rate > 0.0;
        WorthAdds(span, advance - span, rate);
      }
    }
  }

  /**
   * The bound by the span holds in every accepted configuration if and only if the clock never steps back. By
   * `SpanBound` it then holds for any state of the bucket as well.
   */
  lemma SpanBoundIff(clocks: seq<real>)
    requires clocks != []
    ensures SpanBoundHolds(clocks) <==> NonDecreasing(clocks)
  {
    if NonDecreasing(clocks) {
      forall rate, burst | IsConfiguration(Finite(rate), Finite(burst))
        ensures Admitted(Bucket(burst, clocks[0]), clocks, rate, burst) as real
                <= burst + Worth(clocks[|clocks| - 1] - clocks[0], rate)
      {
        SpanBound(Bucket(burst, clocks[0]), clocks, rate, burst);
      }
    } else {
      var rate, burst := BackwardStepExceeds(clocks);
    }
  }

  // ----- retrying -----

  /** A refused caller that comes back after k whole seconds, with no call between, is admitted iff k is enough. */
  lemma RetryAfterIsExact(b: Bucket, now: real, k: int, rate: real, burst: real)
    requires rate > 0.0 && Within(b, burst) && burst >= 1.0 && k >= 1
    requires !Acquire(b, now, rate, burst).1.allowed
    ensures Acquire(Acquire(b, now, rate, burst).0, now + 1000.0 * k as real, rate, burst).1.allowed
            <==> k >= Acquire(b, now, rate, burst).1.retryAfterSeconds
  {
    var (after, d) := Acquire(b, now, rate, burst);
    var missing := 1.0 - after.tokens;
    var wait := 1000.0 * k as real;
    assert Elapsed(now, now + wait) == wait;
    assert Worth(wait, rate) == k as real * rate;
    Enough(missing, rate, k);
  }

  lemma AdviceIsLeast(missing: real, rate: real, k: int)
    requires rate > 0.0 && k == if Ceiling(missing / rate) > 1 then Ceiling(missing / rate) else 1
    ensures k as real * rate >= missing && (k > 1 ==> (k - 1) as real * rate < missing)
  {
    Enough(missing, rate, k);
    Enough(missing, rate, k - 1);
  }

  lemma Enough(missing: real, rate: real, k: int)
    requires rate > 0.0
    ensures k as real * rate >= missing <==> k >= Ceiling(missing / rate)
  {
    var need := missing / rate;
    assert need * rate == missing;
    if k as real >= need {
      assert (k as real - need) * rate >= 0.0;
    } else {
      assert (need - k as real) * rate > 0.0;
    }
  }
}
