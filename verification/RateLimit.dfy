/** The handshake token bucket (internal/wstunnel/ratelimit.go), over exact reals. */
module RateLimit {
  import opened Common

  datatype Bucket = Bucket(rate: real, burst: real, tokens: real, last: real)

  ghost predicate Valid(b: Bucket) {
    b.rate > 0.0 && b.burst >= 1.0 && 0.0 <= b.tokens <= b.burst
  }

  /** None is the nil limiter of a non-positive rate, which allows everything. */
  function NewLimiter(rate: real, burst: int, now: real): (r: Option<Bucket>)
    ensures r.None? <==> rate <= 0.0
    ensures r.Some? ==> Valid(r.value) && r.value.tokens == r.value.burst && r.value.rate == rate
    ensures r.Some? && burst > 0 ==> r.value.burst == burst as real
    ensures r.Some? && burst <= 0 ==> r.value.burst >= rate && (r.value.burst == rate || r.value.burst == 1.0)
    ensures r.Some? ==> r.value.last == now
  {
    if rate <= 0.0 then None
    else
      var b := if burst as real <= 0.0 then (if rate < 1.0 then 1.0 else rate) else burst as real;
      Some(Bucket(rate, b, b, now))
  }

  /** What the time between two readings is worth in tokens. */
  function Worth(rate: real, from: real, to: real): real {
    (to - from) * rate
  }

  function Refill(b: Bucket, now: real): Bucket {
    if now > b.last then
      var filled := b.tokens + Worth(b.rate, b.last, now);
      b.(tokens := if filled > b.burst then b.burst else filled, last := now)
    else b
  }

  predicate Allowed(b: Bucket, now: real) {
    Refill(b, now).tokens >= 1.0
  }

  function After(b: Bucket, now: real): Bucket {
    var r := Refill(b, now);
    if r.tokens < 1.0 then r else r.(tokens := r.tokens - 1.0)
  }

  class RateLimiter {
    const rate: real
    const burst: real
    var tokens: real
    var last: real

    ghost function View(): Bucket
      reads this
    {
      Bucket(rate, burst, tokens, last)
    }

    constructor (b: Bucket)
      ensures View() == b
    {
      rate, burst, tokens, last := b.rate, b.burst, b.tokens, b.last;
    }

    method Allow(now: real) returns (ok: bool)
      modifies this
      ensures View() == After(old(View()), now) && ok == Allowed(old(View()), now)
    {
      var elapsed := now - last;
      if elapsed > 0.0 {
        tokens := tokens + elapsed * rate;
        if tokens > burst {
          tokens := burst;
        }
        last := now;
      }
      if tokens < 1.0 {
        return false;
      }
      tokens := tokens - 1.0;
      ok := true;
    }
  }

  // ------------------------------------------------------------------- calls

  /** The bucket after calls at the given clock readings. */
  function AfterAll(b: Bucket, nows: seq<real>): Bucket
    decreases |nows|
  {
    if nows == [] then b else AfterAll(After(b, nows[0]), nows[1..])
  }

  /** How many of them were allowed. */
  function AllowedCount(b: Bucket, nows: seq<real>): nat
    decreases |nows|
  {
    if nows == [] then 0 else (if Allowed(b, nows[0]) then 1 else 0) + AllowedCount(After(b, nows[0]), nows[1..])
  }

  lemma Product(x: real, y: real, rate: real)
    requires x <= y && rate > 0.0
    ensures x * rate <= y * rate
  {
  }

  lemma WorthAdds(rate: real, a: real, b: real, c: real)
    ensures Worth(rate, a, c) == Worth(rate, a, b) + Worth(rate, b, c)
  {
  }

  lemma WorthOfNothing(rate: real, a: real)
    ensures Worth(rate, a, a) == 0.0
  {
  }

  lemma WorthIsPositive(rate: real, a: real, b: real)
    requires rate > 0.0 && a <= b
    ensures Worth(rate, a, b) >= 0.0
  {
    Product(0.0, b - a, rate);
  }

  /** A refill adds at most what the passed time is worth, and nothing when none passed. */
  lemma RefillBound(b: Bucket, now: real)
    requires Valid(b)
    ensures var r := Refill(b, now);
            && Valid(r) && b.last <= r.last && b.tokens <= r.tokens <= b.tokens + Worth(b.rate, b.last, r.last)
            && r.rate == b.rate && r.burst == b.burst
  {
    if now > b.last {
      WorthIsPositive(b.rate, b.last, now);
    } else {
      WorthOfNothing(b.rate, b.last);
    }
  }

  /** Tokens stay within [0, burst] whatever the clock does. */
  lemma {:induction false} TokensStayInRange(b: Bucket, nows: seq<real>)
    requires Valid(b)
    ensures Valid(AfterAll(b, nows)) && AfterAll(b, nows).burst == b.burst && AfterAll(b, nows).rate == b.rate
    decreases |nows|
  {
    if nows != [] {
      RefillBound(b, nows[0]);
      TokensStayInRange(After(b, nows[0]), nows[1..]);
    }
  }

  /** A clock that went back never adds tokens: the call can only spend one. */
  lemma BackwardsClockAddsNothing(b: Bucket, now: real)
    requires Valid(b) && now <= b.last
    ensures After(b, now) == b.(tokens := if Allowed(b, now) then b.tokens - 1.0 else b.tokens)
    ensures Allowed(b, now) <==> b.tokens >= 1.0
  {
  }

  lemma LongerIsWorthMore(rate: real, a: real, b: real, a': real, b': real)
    requires rate > 0.0 && b - a <= b' - a'
    ensures Worth(rate, a, b) <= Worth(rate, a', b')
  {
    Product(b - a, b' - a', rate);
  }

  lemma OneCall(b: Bucket, now: real)
    requires Valid(b)
    ensures (if Allowed(b, now) then 1.0 else 0.0) + After(b, now).tokens <= b.tokens + Worth(b.rate, b.last, After(b, now).last)
    ensures Valid(After(b, now)) && After(b, now).rate == b.rate && b.last <= After(b, now).last
  {
    RefillBound(b, now);
  }

  /** The worth of the time the bucket saw pass, call by call. */
  ghost function Earned(b: Bucket, nows: seq<real>): real
    decreases |nows|
  {
    if nows == [] then 0.0 else Worth(b.rate, b.last, After(b, nows[0]).last) + Earned(After(b, nows[0]), nows[1..])
  }

  lemma {:induction false} EarnedTotal(b: Bucket, nows: seq<real>)
    requires Valid(b)
    ensures b.last <= AfterAll(b, nows).last
    ensures Earned(b, nows) == Worth(b.rate, b.last, AfterAll(b, nows).last)
    decreases |nows|
  {
    if nows == [] {
      WorthOfNothing(b.rate, b.last);
    } else {
      var b' := After(b, nows[0]);
      OneCall(b, nows[0]);
      EarnedTotal(b', nows[1..]);
      WorthAdds(b.rate, b.last, b'.last, AfterAll(b', nows[1..]).last);
    }
  }

  /** Allowed calls are paid for by the tokens at hand and the time the bucket saw pass. */
  lemma {:induction false} CallsArePaidFor(b: Bucket, nows: seq<real>)
    requires Valid(b)
    ensures AllowedCount(b, nows) as real + AfterAll(b, nows).tokens <= b.tokens + Earned(b, nows)
    decreases |nows|
  {
    if nows != [] {
      var b', rest := After(b, nows[0]), nows[1..];
      OneCall(b, nows[0]);
      CallsArePaidFor(b', rest);
      assert AllowedCount(b, nows) as real == (if Allowed(b, nows[0]) then 1.0 else 0.0) + AllowedCount(b', rest) as real;
    }
  }

  /** No refill of these calls overflows the bucket. */
  ghost predicate NeverOver(b: Bucket, nows: seq<real>)
    decreases |nows|
  {
    nows == [] || ((nows[0] > b.last ==> b.tokens + Worth(b.rate, b.last, nows[0]) <= b.burst) && NeverOver(After(b, nows[0]), nows[1..]))
  }

  /** While nothing overflows, the books balance to the token: what the calls took and
      what is left is what was there and what the time was worth. */
  lemma {:induction false} BooksBalance(b: Bucket, nows: seq<real>)
    requires Valid(b) && NeverOver(b, nows)
    ensures AllowedCount(b, nows) as real + AfterAll(b, nows).tokens == b.tokens + Worth(b.rate, b.last, AfterAll(b, nows).last)
    decreases |nows|
  {
    if nows == [] {
      WorthOfNothing(b.rate, b.last);
    } else {
      var b', rest := After(b, nows[0]), nows[1..];
      RefillBound(b, nows[0]);
      BooksBalance(b', rest);
      WorthAdds(b.rate, b.last, b'.last, AfterAll(b', rest).last);
      if nows[0] <= b.last {
        WorthOfNothing(b.rate, b.last);
      }
    }
  }

  /** As many calls as there are tokens are all allowed, whatever the clock does. */
  lemma {:induction false} TokensAreEnough(b: Bucket, nows: seq<real>)
    requires Valid(b) && |nows| as real <= b.tokens
    ensures AllowedCount(b, nows) == |nows|
    decreases |nows|
  {
    if nows != [] {
      RefillBound(b, nows[0]);
      TokensAreEnough(After(b, nows[0]), nows[1..]);
    }
  }

  lemma {:induction false} LastStaysBelow(b: Bucket, nows: seq<real>, t: real)
    requires b.last <= t && forall i | 0 <= i < |nows| :: nows[i] <= t
    ensures AfterAll(b, nows).last <= t
    decreases |nows|
  {
    if nows != [] {
      LastStaysBelow(After(b, nows[0]), nows[1..], t);
    }
  }

  /** Refilling at the first reading beforehand changes nothing. */
  lemma RefillOnce(b: Bucket, window: seq<real>)
    requires window != []
    ensures AllowedCount(b, window) == AllowedCount(Refill(b, window[0]), window)
  {
    assert Refill(Refill(b, window[0]), window[0]) == Refill(b, window[0]);
  }

  /**
   Of the calls of any window, whatever came before, at most burst + rate·(t − s)
   are allowed, when the clock reads between s and t throughout the window. The
   clock may go back, within the window or before it.
   */
  lemma WindowBound(b0: Bucket, before: seq<real>, window: seq<real>, s: real, t: real)
    requires Valid(b0) && s <= t && forall i | 0 <= i < |window| :: s <= window[i] <= t
    ensures AllowedCount(AfterAll(b0, before), window) as real <= b0.burst + Worth(b0.rate, s, t)
  {
    TokensStayInRange(b0, before);
    var b := AfterAll(b0, before);
    WorthIsPositive(b.rate, s, t);
    if window != [] {
      var r := Refill(b, window[0]);
      RefillBound(b, window[0]);
      RefillOnce(b, window);
      RefilledWindow(r, window, s, t);
    }
  }

  lemma RefilledWindow(r: Bucket, window: seq<real>, s: real, t: real)
    requires Valid(r) && s <= t && s <= r.last && forall i | 0 <= i < |window| :: window[i] <= t
    ensures AllowedCount(r, window) as real <= r.burst + Worth(r.rate, s, t)
  {
    CallsArePaidFor(r, window);
    EarnedTotal(r, window);
    TokensStayInRange(r, window);
    LastStaysBelow(r, window, if r.last <= t then t else r.last);
    LongerIsWorthMore(r.rate, r.last, AfterAll(r, window).last, s, t);
    assert AfterAll(r, window).tokens >= 0.0 && r.tokens <= r.burst;
  }

  // ------------------------------------------------ all calls of an interval

  /** How many allowed calls read the clock between s and t, wherever they come. */
  function AllowedBetween(b: Bucket, nows: seq<real>, s: real, t: real): nat
    decreases |nows|
  {
    if nows == [] then 0
    else (if Allowed(b, nows[0]) && s <= nows[0] <= t then 1 else 0) + AllowedBetween(After(b, nows[0]), nows[1..], s, t)
  }

  ghost predicate NeverBack(nows: seq<real>) {
    forall i, j | 0 <= i < j < |nows| :: nows[i] <= nows[j]
  }

  /** From s on, the calls up to t are the first ones. */
  lemma {:induction false} BetweenIsPrefix(b: Bucket, nows: seq<real>, s: real, t: real) returns (n: nat)
    requires NeverBack(nows) && forall i | 0 <= i < |nows| :: s <= nows[i]
    ensures n <= |nows| && (forall i | 0 <= i < n :: nows[i] <= t)
    ensures AllowedBetween(b, nows, s, t) == AllowedCount(b, nows[..n])
    decreases |nows|
  {
    n := 0;
    if nows != [] {
      var rest, b' := nows[1..], After(b, nows[0]);
      var m := BetweenIsPrefix(b', rest, s, t);
      if nows[0] <= t {
        n := m + 1;
        assert nows[..n][0] == nows[0] && nows[..n][1..] == rest[..m];
      } else {
        assert rest != [] ==> rest[0] > t;
        assert rest[..0] == [];
      }
    }
  }

  /** Of all calls read between s and t, at most burst + rate·(t − s) are allowed, if
      the clock never goes back. */
  lemma {:induction false} IntervalBound(b: Bucket, nows: seq<real>, s: real, t: real)
    requires Valid(b) && s <= t && NeverBack(nows)
    ensures AllowedBetween(b, nows, s, t) as real <= b.burst + Worth(b.rate, s, t)
    decreases |nows|
  {
    if nows == [] {
      WorthIsPositive(b.rate, s, t);
    } else if nows[0] < s {
      RefillBound(b, nows[0]);
      IntervalBound(After(b, nows[0]), nows[1..], s, t);
    } else {
      var n := BetweenIsPrefix(b, nows, s, t);
      WindowBound(b, [], nows[..n], s, t);
    }
  }

  lemma CallAllowed(b: Bucket, now: real, tokens: real)
    requires tokens == Refill(b, now).tokens >= 1.0
    ensures Allowed(b, now) && After(b, now) == Refill(b, now).(tokens := tokens - 1.0)
  {
  }

  /** The arithmetic alone, on a clock that leaves the interval and comes back, goes over
      the bound (the limiter itself reads a monotonic clock under its mutex): two calls at
      reading 0 use up a burst of two, a jump to 100 refills it, and a third call reads 0
      again and is allowed. */
  lemma ReturningClockExample()
    ensures var b := Bucket(1.0, 2.0, 2.0, 0.0);
            && Valid(b) && b.burst + Worth(b.rate, 0.0, 0.0) == 2.0
            && AllowedBetween(b, [0.0, 0.0, 100.0, 0.0], 0.0, 0.0) == 3
  {
    var b0 := Bucket(1.0, 2.0, 2.0, 0.0);
    var b1, b2 := b0.(tokens := 1.0), b0.(tokens := 0.0);
    var b3 := Bucket(1.0, 2.0, 1.0, 100.0);
    CallAllowed(b0, 0.0, 2.0);
    CallAllowed(b1, 0.0, 1.0);
    assert Worth(1.0, 0.0, 100.0) == 100.0;
    CallAllowed(b2, 100.0, 2.0);
    CallAllowed(b3, 0.0, 1.0);
    var n0 := [0.0, 0.0, 100.0, 0.0];
    var n1, n2, n3 := n0[1..], n0[2..], n0[3..];
    assert n1[1..] == n2 && n2[1..] == n3 && n3[1..] == [];
    assert AllowedBetween(b3, n3, 0.0, 0.0) == 1;
    assert AllowedBetween(b2, n2, 0.0, 0.0) == 1;
    assert AllowedBetween(b1, n1, 0.0, 0.0) == 2;
  }

  /** A call refused at one time is allowed once the time for one token has passed. */
  lemma RefusedThenAllowed(b: Bucket, now: real, later: real)
    requires Valid(b) && !Allowed(b, now) && b.last <= now < later && Worth(b.rate, now, later) >= 1.0
    ensures Allowed(After(b, now), later)
  {
    RefillBound(b, now);
    FilledFor(After(b, now), later);
  }

  lemma FilledFor(b: Bucket, later: real)
    requires Valid(b) && b.last < later && Worth(b.rate, b.last, later) >= 1.0
    ensures Allowed(b, later)
  {
    var filled := b.tokens + Worth(b.rate, b.last, later);
    assert filled >= 1.0;
    assert Refill(b, later).tokens == if filled > b.burst then b.burst else filled;
  }
}
