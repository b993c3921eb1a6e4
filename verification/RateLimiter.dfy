/** The token bucket of `web/src/server/request-rate-limiter.ts`, over the reals. */
module RateLimiter {
  import opened Text

  datatype Decision = Decision(allowed: bool, limit: int, remaining: int, retryAfterSeconds: int)

  /** Capacity, and tokens gained per millisecond. */
  datatype Config = Config(capacity: int, rate: real) {
    predicate Valid() {
      capacity > 0 && rate > 0.0
    }
  }

  datatype Bucket = Bucket(tokens: real, updatedAt: real)

  const LARGEST_SAFE_INTEGER: int := 0x1F_FFFF_FFFF_FFFF

  function MinReal(a: real, b: real): real {
    if a <= b then a else b
  }

  function MaxReal(a: real, b: real): real {
    if a >= b then a else b
  }

  function Ceil(x: real): int {
    -(-x).Floor
  }

  /** The tokens once the time up to `now` has been credited; time never runs backwards. */
  function Available(c: Config, b: Bucket, now: real): real {
    MinReal(c.capacity as real, b.tokens + MaxReal(0.0, now - b.updatedAt) * c.rate)
  }

  predicate Admits(c: Config, b: Bucket, now: real) {
    Available(c, b, now) >= 1.0
  }

  function AfterTake(c: Config, b: Bucket, now: real): Bucket {
    Bucket(Available(c, b, now) - if Admits(c, b, now) then 1.0 else 0.0, MaxReal(b.updatedAt, now))
  }

  function RetryAfter(c: Config, missing: real): int
    requires c.Valid()
  {
    var seconds := Ceil(missing / c.rate / 1000.0);
    if seconds >= 1 then seconds else 1
  }

  class TokenBucketRateLimiter {
    const config: Config
    var tokens: real
    var updatedAt: real

    ghost predicate Valid()
      reads this
    {
      config.Valid()
    }

    function State(): Bucket
      reads this
    {
      Bucket(tokens, updatedAt)
    }

    constructor (config: Config, now: real)
      requires config.Valid()
      ensures Valid() && this.config == config && State() == Bucket(config.capacity as real, now)
    {
      this.config := config;
      tokens := config.capacity as real;
      updatedAt := now;
    }

    method Take(now: real) returns (d: Decision)
      requires Valid()
      modifies this
      ensures Valid() && State() == AfterTake(config, old(State()), now)
      ensures d.allowed == Admits(config, old(State()), now)
      ensures d.limit == config.capacity
      ensures d.remaining == State().tokens.Floor
      ensures d.retryAfterSeconds == if d.allowed then 1 else RetryAfter(config, 1.0 - State().tokens)
    {
      var elapsed := MaxReal(0.0, now - updatedAt);
      tokens := MinReal(config.capacity as real, tokens + elapsed * config.rate);
      updatedAt := MaxReal(updatedAt, now);
      assert tokens == Available(config, old(State()), now);
      var allowed := tokens >= 1.0;
      if allowed {
        tokens := tokens - 1.0;
      }
      var missing := if allowed then 0.0 else 1.0 - tokens;
      var seconds := Ceil(missing / config.rate / 1000.0);
      d := Decision(allowed, config.capacity, tokens.Floor, if seconds >= 1 then seconds else 1);
    }
  }

  /** The constructor's argument checks: a capacity or window that fails them is a `RangeError`. */
  method Create(capacity: real, refillWindowMs: real, now: real) returns (limiter: Option<TokenBucketRateLimiter>)
    ensures limiter.Some? <==>
            capacity == capacity.Floor as real && 0 < capacity.Floor <= 9_007_199_254_740_991 && refillWindowMs > 0.0
    ensures limiter.Some? ==>
              && fresh(limiter.value) && limiter.value.Valid()
              && limiter.value.config == Config(capacity.Floor, capacity / refillWindowMs)
              && limiter.value.State() == Bucket(capacity, now)
  {
    if capacity != capacity.Floor as real || capacity.Floor > LARGEST_SAFE_INTEGER || capacity <= 0.0 || refillWindowMs <= 0.0 {
      return None;
    }
    var created := new TokenBucketRateLimiter(Config(capacity.Floor, capacity / refillWindowMs), now);
    return Some(created);
  }

  // ----- Runs: one construction, then takes at arbitrary clock readings --------------

  function Start(c: Config, t0: real): Bucket {
    Bucket(c.capacity as real, t0)
  }

  /** The bucket after all the takes. */
  function Run(c: Config, t0: real, takes: seq<real>): Bucket {
    if takes == [] then Start(c, t0)
    else AfterTake(c, Run(c, t0, takes[..|takes| - 1]), takes[|takes| - 1])
  }

  /** The ratcheted clock at event `k`: construction is event 0, take number `k` is event `k`. */
  function Clock(t0: real, takes: seq<real>, k: nat): real
    requires k <= |takes|
  {
    if k == 0 then t0 else MaxReal(Clock(t0, takes, k - 1), takes[k - 1])
  }

  predicate Allowed(c: Config, t0: real, takes: seq<real>, k: nat)
    requires 1 <= k <= |takes|
  {
    Admits(c, Run(c, t0, takes[..k - 1]), takes[k - 1])
  }

  /** How many takes from event `k` on, before take `n`, were allowed. */
  function AllowedBetween(c: Config, t0: real, takes: seq<real>, k: nat, n: nat): nat
    requires n <= |takes|
    decreases n
  {
    if n <= k || n <= 1 then 0
    else AllowedBetween(c, t0, takes, k, n - 1) + if Allowed(c, t0, takes, n - 1) then 1 else 0
  }

  /** The burst-plus-rate bound of the window from `start` to `now`, less what was allowed in it. */
  function Slack(capacity: real, rate: real, start: real, now: real, allowed: real): real {
    capacity + rate * (now - start) - allowed
  }

  /** Burst and rate of the window from event `k` to take `n`, less what that window has already allowed. */
  function Room(c: Config, t0: real, takes: seq<real>, k: nat, n: nat): real
    requires k <= n <= |takes|
  {
    Slack(c.capacity as real, c.rate, Clock(t0, takes, k), Clock(t0, takes, n), AllowedBetween(c, t0, takes, k, n) as real)
  }

  /** The tokens take `n` finds. */
  function TokensAt(c: Config, t0: real, takes: seq<real>, n: nat): real
    requires 1 <= n <= |takes|
  {
    Available(c, Run(c, t0, takes[..n - 1]), takes[n - 1])
  }

  lemma {:induction false} RunClock(c: Config, t0: real, takes: seq<real>, n: nat)
    requires n <= |takes|
    ensures Run(c, t0, takes[..n]).updatedAt == Clock(t0, takes, n)
  {
    if n > 0 {
      RunClock(c, t0, takes, n - 1);
      assert takes[..n][..n - 1] == takes[..n - 1];
    }
  }

  lemma Distribute(rate: real, a: real, b: real, c: real)
    ensures rate * (a - c) == rate * (b - c) + rate * (a - b)
  {
  }

  /** What is credited between two neighbouring events. */
  function Gain(c: Config, t0: real, takes: seq<real>, n: nat): real
    requires 1 <= n <= |takes|
  {
    c.rate * (Clock(t0, takes, n) - Clock(t0, takes, n - 1))
  }

  function Spent(c: Config, t0: real, takes: seq<real>, n: nat): real
    requires 1 <= n <= |takes|
  {
    if Allowed(c, t0, takes, n) then 1.0 else 0.0
  }

  lemma TokensStep(c: Config, t0: real, takes: seq<real>, n: nat)
    requires 2 <= n <= |takes| && c.Valid()
    ensures TokensAt(c, t0, takes, n) ==
            MinReal(c.capacity as real,
                    TokensAt(c, t0, takes, n - 1) - Spent(c, t0, takes, n - 1) + Gain(c, t0, takes, n))
  {
    var before, now := Run(c, t0, takes[..n - 1]), takes[n - 1];
    RunClock(c, t0, takes, n - 1);
    assert takes[..n - 1][..n - 2] == takes[..n - 2];
    assert before.tokens == TokensAt(c, t0, takes, n - 1) - Spent(c, t0, takes, n - 1);
    assert MaxReal(0.0, now - before.updatedAt) == Clock(t0, takes, n) - Clock(t0, takes, n - 1);
  }

  lemma AllowedStep(c: Config, t0: real, takes: seq<real>, k: nat, n: nat)
    requires k < n <= |takes| && n >= 2
    ensures AllowedBetween(c, t0, takes, k, n) as real ==
            AllowedBetween(c, t0, takes, k, n - 1) as real + Spent(c, t0, takes, n - 1)
  {
  }

  lemma SlackShift(capacity: real, rate: real, start: real, before: real, now: real, allowed: real, spent: real, later: real)
    requires later == allowed + spent
    ensures Slack(capacity, rate, start, now, later) ==
            Slack(capacity, rate, start, before, allowed) - spent + rate * (now - before)
  {
    Distribute(rate, now, before, start);
  }

  lemma RoomStep(c: Config, t0: real, takes: seq<real>, k: nat, n: nat)
    requires k < n <= |takes| && n >= 2
    ensures Room(c, t0, takes, k, n) == Room(c, t0, takes, k, n - 1) - Spent(c, t0, takes, n - 1) + Gain(c, t0, takes, n)
  {
    AllowedStep(c, t0, takes, k, n);
    SlackShift(c.capacity as real, c.rate, Clock(t0, takes, k), Clock(t0, takes, n - 1), Clock(t0, takes, n),
               AllowedBetween(c, t0, takes, k, n - 1) as real, Spent(c, t0, takes, n - 1),
               AllowedBetween(c, t0, takes, k, n) as real);
  }

  predicate IsLeast(x: real, s: seq<real>) {
    x in s && forall k :: 0 <= k < |s| ==> x <= s[k]
  }

  lemma LeastOfShifted(x: real, s: seq<real>, shift: real, last: real, t: seq<real>)
    requires IsLeast(x, s) && |t| == |s| + 1 && t[|s|] == last
    requires forall k :: 0 <= k < |s| ==> t[k] == s[k] + shift
    ensures IsLeast(MinReal(last, x + shift), t)
  {
    var k :| 0 <= k < |s| && s[k] == x;
    assert t[k] == x + shift;
  }

  /** The room of every window that ends at take `n`, by the event it starts at. */
  function Rooms(c: Config, t0: real, takes: seq<real>, n: nat): seq<real>
    requires n <= |takes|
  {
    seq(n + 1, k requires 0 <= k <= n => Room(c, t0, takes, k, n))
  }

  lemma RoomOfFirstTake(c: Config, t0: real, takes: seq<real>)
    requires c.Valid() && |takes| >= 1
    ensures Room(c, t0, takes, 0, 1) >= c.capacity as real && Room(c, t0, takes, 1, 1) == c.capacity as real
  {
    var d := Clock(t0, takes, 1) - Clock(t0, takes, 0);
    var gain := c.rate * d;
    OrderScaled(0.0, d, c.rate);
    assert gain >= 0.0;
    assert AllowedBetween(c, t0, takes, 0, 1) == 0 && AllowedBetween(c, t0, takes, 1, 1) == 0;
    assert Room(c, t0, takes, 0, 1) == c.capacity as real + gain - 0.0;
    var none := Clock(t0, takes, 1) - Clock(t0, takes, 1);
    assert none == 0.0 && c.rate * none == 0.0;
  }

  lemma FirstTakeFindsFullBucket(c: Config, t0: real, takes: seq<real>)
    requires c.Valid() && |takes| >= 1
    ensures IsLeast(TokensAt(c, t0, takes, 1), Rooms(c, t0, takes, 1))
  {
    var rooms := Rooms(c, t0, takes, 1);
    RoomOfFirstTake(c, t0, takes);
    assert takes[..0] == [];
    assert MaxReal(0.0, takes[0] - t0) * c.rate >= 0.0;
    assert TokensAt(c, t0, takes, 1) == c.capacity as real;
    assert rooms[0] == Room(c, t0, takes, 0, 1) && rooms[1] == Room(c, t0, takes, 1, 1);
  }

  /** The bucket is exact: the tokens a take finds are the least room of any window that ends at it. */
  lemma {:induction false} TokensAreTheLeastRoom(c: Config, t0: real, takes: seq<real>, n: nat)
    requires c.Valid() && 1 <= n <= |takes|
    ensures IsLeast(TokensAt(c, t0, takes, n), Rooms(c, t0, takes, n))
  {
    if n == 1 {
      FirstTakeFindsFullBucket(c, t0, takes);
    } else {
      var before, rooms := Rooms(c, t0, takes, n - 1), Rooms(c, t0, takes, n);
      var shift := Gain(c, t0, takes, n) - Spent(c, t0, takes, n - 1);
      TokensAreTheLeastRoom(c, t0, takes, n - 1);
      TokensStep(c, t0, takes, n);
      forall k | 0 <= k < n ensures rooms[k] == before[k] + shift {
        RoomStep(c, t0, takes, k, n);
      }
      LeastOfShifted(TokensAt(c, t0, takes, n - 1), before, shift, c.capacity as real, rooms);
    }
  }

  /** Admitting take `n` would put the window from event `k` over its burst-plus-rate bound. */
  predicate WouldBreak(c: Config, t0: real, takes: seq<real>, k: nat, n: nat)
    requires k <= n <= |takes|
  {
    Slack(c.capacity as real, c.rate, Clock(t0, takes, k), Clock(t0, takes, n),
          AllowedBetween(c, t0, takes, k, n) as real + 1.0) < 0.0
  }

  lemma SlackOfOneMore(capacity: real, rate: real, start: real, now: real, allowed: real)
    ensures Slack(capacity, rate, start, now, allowed + 1.0) == Slack(capacity, rate, start, now, allowed) - 1.0
  {
  }

  lemma WouldBreakIsNoRoom(c: Config, t0: real, takes: seq<real>, k: nat, n: nat)
    requires k <= n <= |takes|
    ensures WouldBreak(c, t0, takes, k, n) <==> Room(c, t0, takes, k, n) < 1.0
  {
    SlackOfOneMore(c.capacity as real, c.rate, Clock(t0, takes, k), Clock(t0, takes, n),
                   AllowedBetween(c, t0, takes, k, n) as real);
  }

  lemma LeastBelowOne(x: real, s: seq<real>)
    requires IsLeast(x, s)
    ensures x < 1.0 <==> exists k :: 0 <= k < |s| && s[k] < 1.0
  {
  }

  /** A take is refused exactly when admitting it would break the bound of some window that ends at it. */
  lemma RefusedExactlyWhenABoundWouldBreak(c: Config, t0: real, takes: seq<real>, n: nat)
    requires c.Valid() && 1 <= n <= |takes|
    ensures !Allowed(c, t0, takes, n) <==> exists k: nat :: k <= n && WouldBreak(c, t0, takes, k, n)
  {
    var rooms := Rooms(c, t0, takes, n);
    TokensAreTheLeastRoom(c, t0, takes, n);
    LeastBelowOne(TokensAt(c, t0, takes, n), rooms);
    forall k: nat | k <= n ensures WouldBreak(c, t0, takes, k, n) <==> rooms[k] < 1.0 {
      WouldBreakIsNoRoom(c, t0, takes, k, n);
    }
  }

  // ----- The Retry-After header ----------------------------------------------------------

  lemma CeilBounds(x: real)
    ensures Ceil(x) as real >= x && Ceil(x) as real < x + 1.0
  {
  }

  /** When the next take, `ms` after a refused one at `now`, is admitted. */
  lemma NextTakeAfterRefusal(c: Config, b: Bucket, now: real, ms: real)
    requires c.Valid() && !Admits(c, b, now) && ms >= 0.0
    ensures var after := AfterTake(c, b, now);
            Admits(c, after, now + ms) <==> MaxReal(0.0, now + ms - after.updatedAt) * c.rate >= 1.0 - after.tokens
  {
  }

  lemma OrderScaled(a: real, b: real, rate: real)
    requires rate > 0.0
    ensures a <= b <==> a * rate <= b * rate
    ensures a < b <==> a * rate < b * rate
  {
    assert b * rate - a * rate == (b - a) * rate;
    if a < b {
      assert (b - a) * rate > 0.0;
    } else {
      assert (a - b) * rate >= 0.0;
      assert (a - b) * rate == a * rate - b * rate;
      if a > b {
        assert (a - b) * rate > 0.0;
      }
    }
  }

  /** Whole seconds around `y` milliseconds, at least one. */
  lemma SecondsAround(y: real, seconds: int)
    requires y > 0.0 && seconds == if Ceil(y / 1000.0) >= 1 then Ceil(y / 1000.0) else 1
    ensures seconds >= 1 && 1000.0 * seconds as real >= y
    ensures seconds > 1 ==> 1000.0 * (seconds as real - 1.0) < y
  {
    CeilBounds(y / 1000.0);
  }

  /** Waiting that long credits at least what is missing. */
  predicate WaitCovers(seconds: int, rate: real, missing: real) {
    1000.0 * seconds as real * rate >= missing
  }

  lemma WaitCoversExactly(seconds: int, rate: real, missing: real, y: real)
    requires rate > 0.0 && y * rate == missing
    ensures WaitCovers(seconds, rate, missing) <==> 1000.0 * seconds as real >= y
  {
    OrderScaled(y, 1000.0 * seconds as real, rate);
  }

  lemma RetryAfterBounds(c: Config, missing: real)
    requires c.Valid() && missing > 0.0
    ensures RetryAfter(c, missing) >= 1 && WaitCovers(RetryAfter(c, missing), c.rate, missing)
    ensures RetryAfter(c, missing) > 1 ==> !WaitCovers(RetryAfter(c, missing) - 1, c.rate, missing)
  {
    var y := missing / c.rate;
    assert y * c.rate == missing;
    OrderScaled(0.0, y, c.rate);
    SecondsAround(y, RetryAfter(c, missing));
    WaitCoversExactly(RetryAfter(c, missing), c.rate, missing, y);
    WaitCoversExactly(RetryAfter(c, missing) - 1, c.rate, missing, y);
  }

  /** With a clock that did not go back, waiting the announced seconds is enough, and a second less is not. */
  lemma RetryAfterIsSufficientAndLeast(c: Config, b: Bucket, now: real)
    requires c.Valid() && !Admits(c, b, now) && now >= b.updatedAt
    ensures var after := AfterTake(c, b, now);
            var retry := RetryAfter(c, 1.0 - after.tokens);
            && Admits(c, after, now + 1000.0 * retry as real)
            && (retry > 1 ==> !Admits(c, after, now + 1000.0 * (retry - 1) as real))
  {
    var after := AfterTake(c, b, now);
    var retry := RetryAfter(c, 1.0 - after.tokens);
    RetryAfterBounds(c, 1.0 - after.tokens);
    NextTakeAfterRefusal(c, b, now, 1000.0 * retry as real);
    NextTakeAfterRefusal(c, b, now, 1000.0 * (retry - 1) as real);
  }

  /** What rounding up to whole seconds adds to a wait of that many milliseconds. */
  function RoundingSlack(milliseconds: real): real {
    1000.0 * Ceil(milliseconds / 1000.0) as real - milliseconds
  }

  lemma RollbackLeavesTheTokens(c: Config, b: Bucket, now: real)
    requires c.Valid() && !Admits(c, b, now) && now < b.updatedAt
    ensures AfterTake(c, b, now) == b && b.tokens < 1.0
  {
    assert MaxReal(0.0, now - b.updatedAt) * c.rate == 0.0;
  }

  lemma OutlastsExactly(rate: real, wait: real, needed: real, missing: real)
    requires rate > 0.0 && missing > 0.0 && needed * rate == missing
    ensures MaxReal(0.0, wait) * rate >= missing <==> wait >= needed
  {
    OrderScaled(0.0, needed, rate);
    OrderScaled(needed, MaxReal(0.0, wait), rate);
  }

  /**
   After a rollback the announced wait is enough exactly when the rollback is no longer than what rounding up to
   whole seconds happened to add; a rollback of a second or more always makes it too short.
   */
  lemma RetryAfterRollbackExactly(c: Config, b: Bucket, now: real)
    requires c.Valid() && !Admits(c, b, now) && now < b.updatedAt
    ensures var (rollback, needed) := (b.updatedAt - now, (1.0 - b.tokens) / c.rate);
            var announced := 1000.0 * RetryAfter(c, 1.0 - AfterTake(c, b, now).tokens) as real;
            && (Admits(c, AfterTake(c, b, now), now + announced) <==> rollback <= RoundingSlack(needed))
            && (rollback >= 1000.0 ==> !Admits(c, AfterTake(c, b, now), now + announced))
  {
    var rollback, missing := b.updatedAt - now, 1.0 - b.tokens;
    RollbackLeavesTheTokens(c, b, now);
    var needed, retry := missing / c.rate, RetryAfter(c, missing);
    assert needed * c.rate == missing;
    OrderScaled(0.0, needed, c.rate);
    CeilBounds(needed / 1000.0);
    NextTakeAfterRefusal(c, b, now, 1000.0 * retry as real);
    OutlastsExactly(c.rate, 1000.0 * retry as real - rollback, needed, missing);
  }

  /** Thirty tokens a minute, ten minutes of rollback: the announced two seconds are not enough. */
  lemma RetryAfterRollbackCanFail()
    ensures var c, b := Config(30, 0.0005), Bucket(0.0, 600_000.0);
            var after := AfterTake(c, b, 0.0);
            !Admits(c, b, 0.0) && RetryAfter(c, 1.0 - after.tokens) == 2 && !Admits(c, after, 2000.0)
  {
    var c, b := Config(30, 0.0005), Bucket(0.0, 600_000.0);
    assert MaxReal(0.0, 0.0 - b.updatedAt) == 0.0 == MaxReal(0.0, 2000.0 - b.updatedAt);
    assert 1.0 / 0.0005 / 1000.0 == 2.0;
  }

  // ----- The remaining count ----------------------------------------------------------------

  /** The bucket after `n` further takes without the clock moving on. */
  function Burst(c: Config, b: Bucket, n: nat): Bucket {
    if n == 0 then b else AfterTake(c, Burst(c, b, n - 1), b.updatedAt)
  }

  /** `remaining` is exact: that many more takes are admitted at the same instant, and then one is refused. */
  lemma {:induction false} RemainingIsExact(c: Config, b: Bucket, n: nat)
    requires 0.0 <= b.tokens <= c.capacity as real && n <= b.tokens.Floor
    ensures Burst(c, b, n) == Bucket(b.tokens - n as real, b.updatedAt)
    ensures Admits(c, Burst(c, b, n), b.updatedAt) <==> n < b.tokens.Floor
  {
    if n > 0 {
      RemainingIsExact(c, b, n - 1);
    }
    assert MaxReal(0.0, b.updatedAt - Burst(c, b, n).updatedAt) * c.rate == 0.0;
  }

  /** In every run the tokens stay between nothing and the capacity. */
  lemma {:induction false} TokensStayInRange(c: Config, t0: real, takes: seq<real>)
    requires c.Valid()
    ensures 0.0 <= Run(c, t0, takes).tokens <= c.capacity as real
  {
    if takes != [] {
      var before := Run(c, t0, takes[..|takes| - 1]);
      TokensStayInRange(c, t0, takes[..|takes| - 1]);
      assert MaxReal(0.0, takes[|takes| - 1] - before.updatedAt) * c.rate >= 0.0;
    }
  }
}
