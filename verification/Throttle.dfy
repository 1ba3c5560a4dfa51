/**
 The token-bucket rate limiter. Refilling is a clock read, a load, a compare-and-set on the
 timestamp and a capped add; each atomic access is a separate step of its thread, and threads
 interleave arbitrarily. Times are in nanoseconds.
 */
module Throttle {
  import opened Common
  import opened Arithmetic

  datatype Config = Config(maxTokens: nat, refillInterval: nat) {
    /** `as_nanos() as u64` truncates. */
    function RefillNs(): nat {
      refillInterval % U64_LIMIT
    }
  }

  datatype Bucket = Bucket(tokens: nat, lastRefill: nat)

  function NewConfig(maxTokens: nat, per: nat): Config {
    Config(maxTokens, if maxTokens > 0 then (per / maxTokens) % U64_LIMIT else per)
  }

  function SaturatingAdd(a: nat, b: nat): nat {
    if a + b < U64_LIMIT then a + b else U64_LIMIT - 1
  }

  function AddCapped(tokens: nat, newTokens: nat, maxTokens: nat): nat {
    Min(SaturatingAdd(tokens, newTokens), maxTokens)
  }

  /** Whole intervals elapsed between the loaded timestamp and the sampled clock. */
  function NewTokens(c: Config, now: nat, last: nat): nat {
    if c.RefillNs() == 0 then 0 else SaturatingSub(now, last) / c.RefillNs()
  }

  // ---------------------------------------------------------------------
  // One caller at a time
  // ---------------------------------------------------------------------

  datatype Call = Acquire | Wait

  function Refill(c: Config, b: Bucket, now: nat): Bucket {
    var n := NewTokens(c, now, b.lastRefill);
    if n > 0
    then Bucket(AddCapped(b.tokens, n, c.maxTokens), b.lastRefill + n * c.RefillNs())
    else b
  }

  function Take(b: Bucket): Bucket {
    b.(tokens := SaturatingSub(b.tokens, 1))
  }

  /** The bucket after a call at `now`, and the tokens the call was granted. */
  function CallAt(c: Config, b: Bucket, call: Call, now: nat): (Bucket, nat) {
    var refilled := Refill(c, b, now);
    if call.Acquire? && refilled.tokens > 0 then (Take(refilled), 1) else (refilled, 0)
  }

  class RateLimiter {
    const config: Config
    var tokens: nat
    var lastRefill: nat

    ghost function Abstract(): Bucket
      reads this
    {
      Bucket(tokens, lastRefill)
    }

    constructor (maxTokens: nat, per: nat, now: nat)
      ensures config == NewConfig(maxTokens, per)
      ensures Abstract() == Bucket(maxTokens, now)
    {
      config := Config(maxTokens, if maxTokens > 0 then (per / maxTokens) % U64_LIMIT else per);
      tokens := maxTokens;
      lastRefill := now;
    }

    method RefillBucket(now: nat)
      modifies this
      ensures Abstract() == Refill(config, old(Abstract()), now)
    {
      var last := lastRefill;
      var elapsed := SaturatingSub(now, last);
      var refillNs := config.RefillNs();
      if refillNs == 0 {
        return;
      }
      var newTokens := elapsed / refillNs;
      if newTokens > 0 {
        lastRefill := last + newTokens * refillNs;
        tokens := Min(SaturatingAdd(tokens, newTokens), config.maxTokens);
      }
    }

    method TryAcquire(now: nat) returns (granted: bool)
      modifies this
      ensures (Abstract(), if granted then 1 else 0) == CallAt(config, old(Abstract()), Acquire, now)
    {
      RefillBucket(now);
      granted := tokens > 0;
      if granted {
        tokens := tokens - 1;
      }
    }

    method WaitDuration(now: nat) returns (wait: nat)
      modifies this
      ensures (Abstract(), 0) == CallAt(config, old(Abstract()), Wait, now)
      ensures wait == if tokens > 0 then 0 else config.refillInterval
    {
      RefillBucket(now);
      wait := if tokens > 0 then 0 else config.refillInterval;
    }
  }

  // ---------------------------------------------------------------------
  // Any number of threads
  // ---------------------------------------------------------------------

  /** Where a thread stands between two atomic accesses, with what it holds in locals. */
  datatype Pc =
    | Idle
    | Sampled(call: Call, now: nat)
    | Loaded(call: Call, now: nat, last: nat)
    | Credited(call: Call, newTokens: nat)
    | Refilled(call: Call)

  /** `credits` and `grants` are history: intervals ever credited and tokens ever granted. */
  datatype World = World(bucket: Bucket, clock: nat, threads: seq<Pc>, credits: nat, grants: nat)

  datatype Event =
    | Tick(now: nat)
    | Enter(thread: nat, call: Call)
    | LoadLast(thread: nat)
    | SwapLast(thread: nat)
    | AddTokens(thread: nat)
    | Settle(thread: nat)

  predicate Enabled(w: World, e: Event) {
    if e.Tick? then w.clock <= e.now
    else
      && e.thread < |w.threads|
      && var pc := w.threads[e.thread];
         match e
         case Tick(_) => true
         case Enter(_, _) => pc.Idle?
         case LoadLast(_) => pc.Sampled?
         case SwapLast(_) => pc.Loaded?
         case AddTokens(_) => pc.Credited?
         case Settle(_) => pc.Refilled?
  }

  function At(w: World, thread: nat, pc: Pc): World
    requires thread < |w.threads|
  {
    w.(threads := w.threads[thread := pc])
  }

  function Step(c: Config, w: World, e: Event): World
    requires Enabled(w, e)
  {
    match e
    case Tick(now) => w.(clock := now)
    case Enter(t, call) => At(w, t, Sampled(call, w.clock))
    case LoadLast(t) => At(w, t, Loaded(w.threads[t].call, w.threads[t].now, w.bucket.lastRefill))
    case SwapLast(t) =>
      var Loaded(call, now, last) := w.threads[t];
      var n := NewTokens(c, now, last);
      if n > 0 && w.bucket.lastRefill == last then
        At(w.(bucket := w.bucket.(lastRefill := last + n * c.RefillNs()), credits := w.credits + n),
           t, Credited(call, n))
      else At(w, t, Refilled(call))
    case AddTokens(t) =>
      At(w.(bucket := w.bucket.(tokens := AddCapped(w.bucket.tokens, w.threads[t].newTokens, c.maxTokens))),
         t, Refilled(w.threads[t].call))
    case Settle(t) =>
      if w.threads[t].call.Acquire? && w.bucket.tokens > 0 then
        At(w.(bucket := Take(w.bucket), grants := w.grants + 1), t, Idle)
      else At(w, t, Idle)
  }

  ghost predicate Reaches(c: Config, w: World, es: seq<Event>, w': World)
    decreases |es|
  {
    if es == [] then w == w'
    else Enabled(w, es[0]) && Reaches(c, Step(c, w, es[0]), es[1..], w')
  }

  function Initial(c: Config, start: nat, threads: nat): World {
    World(Bucket(c.maxTokens, start), start, seq(threads, _ => Idle), 0, 0)
  }

  // ---------------------------------------------------------------------
  // The rate bound
  // ---------------------------------------------------------------------

  function Held(pc: Pc): nat {
    if pc.Credited? then pc.newTokens else 0
  }

  /** Tokens credited by a won compare-and-set but not yet added to the bucket. */
  function Pending(threads: seq<Pc>): nat {
    if threads == [] then 0 else Held(threads[0]) + Pending(threads[1..])
  }

  lemma {:induction false} PendingUpdate(threads: seq<Pc>, t: nat, pc: Pc)
    requires t < |threads|
    ensures Pending(threads[t := pc]) == Pending(threads) - Held(threads[t]) + Held(pc)
  {
    var updated := threads[t := pc];
    if t == 0 {
      assert updated[1..] == threads[1..];
    } else {
      assert updated[1..] == threads[1..][t - 1 := pc];
      PendingUpdate(threads[1..], t - 1, pc);
    }
  }

  ghost predicate Inv(c: Config, w: World, start: nat) {
    && w.bucket.tokens <= c.maxTokens
    && w.bucket.lastRefill == start + w.credits * c.RefillNs()
    && w.bucket.lastRefill <= w.clock
    && w.bucket.tokens + Pending(w.threads) + w.grants <= c.maxTokens + w.credits
    && (c.RefillNs() == 0 ==> w.credits == 0)
    && (forall t | 0 <= t < |w.threads| ::
          && (w.threads[t].Sampled? || w.threads[t].Loaded? ==> w.threads[t].now <= w.clock))
  }

  lemma SwapKeepsInv(c: Config, w: World, t: nat, start: nat)
    requires Inv(c, w, start) && Enabled(w, SwapLast(t))
    ensures Inv(c, Step(c, w, SwapLast(t)), start)
  {
    var w' := Step(c, w, SwapLast(t));
    PendingUpdate(w.threads, t, w'.threads[t]);
    var Loaded(call, now, last) := w.threads[t];
    var n, r := NewTokens(c, now, last), c.RefillNs();
    if n > 0 && w.bucket.lastRefill == last {
      Distribute(w.credits, n, r);
      QuotientBounds(SaturatingSub(now, last), r);
    }
  }

  lemma StepKeepsInv(c: Config, w: World, e: Event, start: nat)
    requires Inv(c, w, start) && Enabled(w, e)
    ensures Inv(c, Step(c, w, e), start)
  {
    if e.SwapLast? {
      SwapKeepsInv(c, w, e.thread, start);
    } else if !e.Tick? {
      var w' := Step(c, w, e);
      PendingUpdate(w.threads, e.thread, w'.threads[e.thread]);
    }
  }

  lemma {:induction false} InitialPending(n: nat)
    ensures Pending(seq(n, _ => Idle)) == 0
  {
    if n > 0 {
      InitialPending(n - 1);
      assert seq(n, _ => Idle)[1..] == seq(n - 1, _ => Idle);
    }
  }

  lemma {:induction false} RunKeepsInv(c: Config, w: World, es: seq<Event>, w': World, start: nat)
    requires Inv(c, w, start) && Reaches(c, w, es, w')
    ensures Inv(c, w', start)
    decreases |es|
  {
    if es != [] {
      StepKeepsInv(c, w, es[0], start);
      RunKeepsInv(c, Step(c, w, es[0]), es[1..], w', start);
    }
  }

  /**
   For any number of threads and any interleaving: no more grants than the initial tokens plus
   one per whole interval elapsed. A zero interval never refills.
   */
  lemma RateBound(maxTokens: nat, per: nat, start: nat, threads: nat, es: seq<Event>, w: World)
    requires Reaches(NewConfig(maxTokens, per), Initial(NewConfig(maxTokens, per), start, threads), es, w)
    ensures var r := NewConfig(maxTokens, per).RefillNs();
            && start <= w.clock
            && start <= w.bucket.lastRefill <= w.clock
            && w.grants <= maxTokens + (if r > 0 then (w.clock - start) / r else 0)
  {
    var c := NewConfig(maxTokens, per);
    InitialPending(threads);
    RunKeepsInv(c, Initial(c, start, threads), es, w, start);
    if c.RefillNs() > 0 {
      QuotientAtLeast(w.credits, w.clock - start, c.RefillNs());
    }
  }

  // ---------------------------------------------------------------------
  // A thread that runs undisturbed
  // ---------------------------------------------------------------------

  /** The atomic steps of a whole call, with the add present only when there is something to add. */
  function CallSteps(c: Config, b: Bucket, t: nat, call: Call, now: nat): seq<Event> {
    [Enter(t, call)] + ([LoadLast(t)] + ([SwapLast(t)] +
    ((if NewTokens(c, now, b.lastRefill) > 0 then [AddTokens(t)] else []) + [Settle(t)])))
  }

  lemma EnterThenLoad(c: Config, w: World, t: nat, call: Call)
    requires t < |w.threads| && w.threads[t].Idle?
    ensures Step(c, Step(c, w, Enter(t, call)), LoadLast(t)) == At(w, t, Loaded(call, w.clock, w.bucket.lastRefill))
  {
  }

  /** The world after a whole refill: the bucket as the sequential refill leaves it. */
  function AfterRefill(c: Config, w: World, t: nat, call: Call): World
    requires t < |w.threads|
  {
    At(w.(bucket := Refill(c, w.bucket, w.clock), credits := w.credits + NewTokens(c, w.clock, w.bucket.lastRefill)),
       t, Refilled(call))
  }

  lemma RefillSteps(c: Config, w: World, t: nat, call: Call, es: seq<Event>, w': World)
    requires t < |w.threads| && w.threads[t] == Loaded(call, w.clock, w.bucket.lastRefill)
    requires Reaches(c, AfterRefill(c, w, t, call), es, w')
    ensures Reaches(c, w,
                    [SwapLast(t)] +
                    ((if NewTokens(c, w.clock, w.bucket.lastRefill) > 0 then [AddTokens(t)] else []) + es), w')
  {
    var n := NewTokens(c, w.clock, w.bucket.lastRefill);
    var swapped := Step(c, w, SwapLast(t));
    if n > 0 {
      assert Step(c, swapped, AddTokens(t)) == AfterRefill(c, w, t, call);
      ReachesBefore(c, swapped, AddTokens(t), es, w');
      ReachesBefore(c, w, SwapLast(t), [AddTokens(t)] + es, w');
    } else {
      assert swapped == AfterRefill(c, w, t, call);
      ReachesBefore(c, w, SwapLast(t), es, w');
      assert [] + es == es;
    }
  }

  /** The world after a sequential call at the current clock. */
  function AfterCall(c: Config, w: World, call: Call): World {
    var (b, granted) := CallAt(c, w.bucket, call, w.clock);
    w.(bucket := b, credits := w.credits + NewTokens(c, w.clock, w.bucket.lastRefill), grants := w.grants + granted)
  }

  lemma SettleAfterRefill(c: Config, w: World, t: nat, call: Call)
    requires t < |w.threads| && w.threads[t].Idle?
    ensures var loaded := At(w, t, Loaded(call, w.clock, w.bucket.lastRefill));
            Step(c, AfterRefill(c, loaded, t, call), Settle(t)) == AfterCall(c, w, call)
  {
    var refilled := AfterRefill(c, At(w, t, Loaded(call, w.clock, w.bucket.lastRefill)), t, call);
    assert Step(c, refilled, Settle(t)).threads == w.threads;
  }

  /** Uninterrupted, the atomic steps compute exactly the sequential call. */
  lemma UndisturbedCall(c: Config, w: World, t: nat, call: Call)
    requires t < |w.threads| && w.threads[t].Idle?
    ensures Reaches(c, w, CallSteps(c, w.bucket, t, call, w.clock), AfterCall(c, w, call))
  {
    var loaded := At(w, t, Loaded(call, w.clock, w.bucket.lastRefill));
    var done := AfterCall(c, w, call);
    SettleAfterRefill(c, w, t, call);
    ReachesBefore(c, AfterRefill(c, loaded, t, call), Settle(t), [], done);
    RefillSteps(c, loaded, t, call, [Settle(t)], done);
    EnterThenLoad(c, w, t, call);
    var rest := [SwapLast(t)] +
                ((if NewTokens(c, w.clock, w.bucket.lastRefill) > 0 then [AddTokens(t)] else []) + [Settle(t)]);
    ReachesBefore(c, Step(c, w, Enter(t, call)), LoadLast(t), rest, done);
    ReachesBefore(c, w, Enter(t, call), [LoadLast(t)] + rest, done);
  }

  lemma ReachesBefore(c: Config, w: World, e: Event, es: seq<Event>, w': World)
    requires Enabled(w, e) && Reaches(c, Step(c, w, e), es, w')
    ensures Reaches(c, w, [e] + es, w')
  {
    assert ([e] + es)[1..] == es;
  }

  // ---------------------------------------------------------------------
  // Waiting as told
  // ---------------------------------------------------------------------

  /** One refill: nothing is credited beyond the clock, and less than an interval is left over. */
  lemma RefillEffect(c: Config, b: Bucket, now: nat) returns (n: nat)
    requires c.RefillNs() > 0 && b.tokens <= c.maxTokens && b.lastRefill <= now
    ensures var b' := Refill(c, b, now);
            && b'.tokens <= c.maxTokens && b'.tokens <= b.tokens + n
            && b'.lastRefill == b.lastRefill + n * c.RefillNs()
            && b'.lastRefill <= now < b'.lastRefill + c.RefillNs()
            && Refill(c, b', now) == b'
  {
    n := NewTokens(c, now, b.lastRefill);
    QuotientBounds(now - b.lastRefill, c.RefillNs());
    QuotientIs(now - Refill(c, b, now).lastRefill, 0, c.RefillNs());
  }

  lemma WaitPaysOff(c: Config, b: Bucket, retried: nat)
    requires c.RefillNs() > 0 && c.maxTokens > 0 && b.lastRefill <= retried
    requires b.tokens > 0 || retried - b.lastRefill >= c.RefillNs()
    ensures CallAt(c, b, Acquire, retried).1 == 1
  {
    if b.tokens == 0 {
      QuotientAtLeast(1, retried - b.lastRefill, c.RefillNs());
    }
  }

  /** A limiter that cannot refill grants what it holds, and nothing once it holds nothing. */
  lemma WaitInVain(c: Config, b: Bucket, asked: nat, retried: nat)
    requires b.tokens <= c.maxTokens && (c.RefillNs() == 0 || c.maxTokens == 0)
    ensures CallAt(c, CallAt(c, b, Wait, asked).0, Acquire, retried).1 == 1 <==> b.tokens > 0
  {
    if c.RefillNs() == 0 {
      assert Refill(c, b, asked) == b;
    } else {
      assert Refill(c, b, asked).tokens == 0;
    }
  }

  lemma NewConfigInterval(maxTokens: nat, per: nat)
    ensures var c := NewConfig(maxTokens, per);
            && c.maxTokens == maxTokens && c.RefillNs() <= c.refillInterval
            && (maxTokens > 0 ==> c.RefillNs() == (per / maxTokens) % U64_LIMIT)
  {
    if maxTokens > 0 {
      ModTwice(per / maxTokens);
    }
  }

  /**
   A sole caller that waits the reported duration acquires next, except when the bucket is empty and
   either its maximum is zero or its interval rounds down to zero: then waiting never helps.
   */
  lemma WaitThenAcquire(maxTokens: nat, per: nat, b: Bucket, asked: nat, retried: nat)
    requires maxTokens < U64_LIMIT && b.tokens <= maxTokens && b.lastRefill <= asked
    requires var c := NewConfig(maxTokens, per);
             retried >= asked + (if Refill(c, b, asked).tokens > 0 then 0 else c.refillInterval)
    ensures var c := NewConfig(maxTokens, per);
            CallAt(c, CallAt(c, b, Wait, asked).0, Acquire, retried).1 == 1 <==>
            b.tokens > 0 || (maxTokens > 0 && (per / maxTokens) % U64_LIMIT > 0)
  {
    var c := NewConfig(maxTokens, per);
    NewConfigInterval(maxTokens, per);
    if c.RefillNs() > 0 && maxTokens > 0 {
      var n := RefillEffect(c, b, asked);
      WaitPaysOff(c, Refill(c, b, asked), retried);
    } else {
      WaitInVain(c, b, asked, retried);
    }
  }

  lemma ModTwice(x: nat)
    ensures (x % U64_LIMIT) % U64_LIMIT == x % U64_LIMIT
  {
  }

  /** Asking for more than one token per nanosecond yields a limiter that never refills. */
  lemma ZeroIntervalStarves(asked: nat, retried: nat)
    ensures var c := NewConfig(2, 1);
            CallAt(c, CallAt(c, Bucket(0, 0), Wait, asked).0, Acquire, retried).1 == 0
  {
  }
}
