/**
 What the limiter owes its callers: every whole interval is worth one token, lost only to a full
 bucket, so a refusal means that everything earned was handed out or lost that way.
 */
module ThrottleLedger {
  import opened Common
  import opened Arithmetic
  import opened Throttle
  import opened ThrottleWindows

  /** Whole intervals between two instants; a limiter with a zero interval never sees one. */
  function Intervals(c: Config, from: nat, to: nat): nat {
    if c.RefillNs() > 0 && from <= to then (to - from) / c.RefillNs() else 0
  }

  // ---------------------------------------------------------------------
  // Conservation
  // ---------------------------------------------------------------------

  /** Tokens that found the bucket full. */
  function Lost(c: Config, b: Bucket, calls: seq<Timed>): nat
    decreases |calls|
  {
    if calls == [] then 0
    else
      var Timed(call, at) := calls[0];
      SaturatingSub(b.tokens + Intervals(c, b.lastRefill, at), c.maxTokens) +
      Lost(c, CallAt(c, b, call, at).0, calls[1..])
  }

  /** A refill keeps every token that fits, and advances the timestamp by whole intervals. */
  lemma RefillExactly(c: Config, b: Bucket, now: nat)
    requires b.tokens <= c.maxTokens < U64_LIMIT && b.lastRefill <= now
    ensures var b', k := Refill(c, b, now), Intervals(c, b.lastRefill, now);
            && b'.tokens == Min(b.tokens + k, c.maxTokens)
            && b'.lastRefill == b.lastRefill + k * c.RefillNs()
            && b'.lastRefill <= now
            && Intervals(c, b'.lastRefill, now) == 0
  {
    if c.RefillNs() > 0 {
      var n := RefillEffect(c, b, now);
      QuotientBounds(now - b.lastRefill, c.RefillNs());
      QuotientIs(now - Refill(c, b, now).lastRefill, 0, c.RefillNs());
    }
  }

  /** Tokens held, granted and lost account for the initial tokens and `k` intervals, no more and no fewer. */
  lemma {:induction false} Ledger(c: Config, b: Bucket, calls: seq<Timed>, to: nat) returns (k: nat)
    requires b.tokens <= c.maxTokens < U64_LIMIT && b.lastRefill <= to
    requires WithinWindow(calls, b.lastRefill, to)
    ensures var b' := BucketAfter(c, b, calls);
            && Granted(c, b, calls) + Lost(c, b, calls) + b'.tokens == b.tokens + k
            && b'.tokens <= c.maxTokens
            && b'.lastRefill == b.lastRefill + k * c.RefillNs() <= to
    ensures c.RefillNs() == 0 ==> k == 0
    decreases |calls|
  {
    if calls == [] {
      k := 0;
    } else {
      var at := calls[0].at;
      var n := Intervals(c, b.lastRefill, at);
      RefillExactly(c, b, at);
      var b' := CallAt(c, b, calls[0].call, at).0;
      assert WithinWindow(calls[1..], b'.lastRefill, to);
      var k' := Ledger(c, b', calls[1..], to);
      k := n + k';
      Distribute(n, k', c.RefillNs());
    }
  }

  lemma {:induction false} OneMoreCall(c: Config, b: Bucket, calls: seq<Timed>, last: Timed)
    ensures var b' := BucketAfter(c, b, calls);
            && Granted(c, b, calls + [last]) == Granted(c, b, calls) + CallAt(c, b', last.call, last.at).1
            && Lost(c, b, calls + [last]) ==
               Lost(c, b, calls) + SaturatingSub(b'.tokens + Intervals(c, b'.lastRefill, last.at), c.maxTokens)
    decreases |calls|
  {
    if calls == [] {
      assert calls + [last] == [last];
    } else {
      assert (calls + [last])[1..] == calls[1..] + [last];
      OneMoreCall(c, CallAt(c, b, calls[0].call, calls[0].at).0, calls[1..], last);
    }
  }

  lemma IntervalsAddUp(c: Config, from: nat, k: nat, to: nat)
    requires c.RefillNs() == 0 ==> k == 0
    requires from + k * c.RefillNs() <= to
    ensures Intervals(c, from, to) == k + Intervals(c, from + k * c.RefillNs(), to)
  {
    if c.RefillNs() > 0 {
      QuotientShift(to - (from + k * c.RefillNs()), k, c.RefillNs());
    }
  }

  /**
   An acquisition is refused exactly when what was granted so far and what was lost to a full bucket
   make up the initial tokens and the whole intervals elapsed.
   */
  lemma RefusedExactly(c: Config, b: Bucket, calls: seq<Timed>, at: nat)
    requires b.tokens <= c.maxTokens < U64_LIMIT && b.lastRefill <= at
    requires WithinWindow(calls, b.lastRefill, at)
    ensures var all := calls + [Timed(Acquire, at)];
            Granted(c, b, all) == Granted(c, b, calls) <==>
            Granted(c, b, calls) + Lost(c, b, all) == b.tokens + Intervals(c, b.lastRefill, at)
  {
    var k := Ledger(c, b, calls, at);
    OneMoreCall(c, b, calls, Timed(Acquire, at));
    AcquireTakes(c, BucketAfter(c, b, calls), at);
    IntervalsAddUp(c, b.lastRefill, k, at);
  }

  lemma AcquireTakes(c: Config, b: Bucket, at: nat)
    requires b.tokens <= c.maxTokens < U64_LIMIT && b.lastRefill <= at
    ensures CallAt(c, b, Acquire, at).1 ==
            if b.tokens + Intervals(c, b.lastRefill, at) > 0 && c.maxTokens > 0 then 1 else 0
  {
    RefillExactly(c, b, at);
  }

  // ---------------------------------------------------------------------
  // Recovery
  // ---------------------------------------------------------------------

  lemma {:induction false} EmptyRefuses(c: Config, b: Bucket, n: nat, at: nat)
    requires b.tokens == 0 && NewTokens(c, at, b.lastRefill) == 0
    ensures Granted(c, b, Burst(n, at, [])) == 0
    decreases n
  {
    if n > 0 {
      assert Burst(n, at, [])[1..] == Burst(n - 1, at, []);
      EmptyRefuses(c, b, n - 1, at);
    }
  }

  lemma {:induction false} BurstSplits(m: nat, n: nat, at: nat)
    ensures Burst(m, at, Burst(n, at, [])) == Burst(m + n, at, [])
    decreases m
  {
    if m > 0 {
      BurstSplits(m - 1, n, at);
    }
  }

  /** The first call of a burst does the refill for all of them. */
  lemma BurstRefillsFirst(c: Config, b: Bucket, n: nat, at: nat)
    requires b.tokens <= c.maxTokens < U64_LIMIT && b.lastRefill <= at
    ensures Granted(c, b, Burst(n, at, [])) == Granted(c, Refill(c, b, at), Burst(n, at, []))
    ensures NewTokens(c, at, Refill(c, b, at).lastRefill) == 0
  {
    RefillExactly(c, b, at);
    assert Refill(c, Refill(c, b, at), at) == Refill(c, b, at);
  }

  /** A caller alone with the limiter gets back exactly one token per whole interval, up to the maximum. */
  lemma SoleCallerRecovers(c: Config, b: Bucket, n: nat, at: nat)
    requires b.tokens <= c.maxTokens < U64_LIMIT && b.lastRefill <= at
    ensures Granted(c, b, Burst(n, at, [])) ==
            Min(n, Min(b.tokens + Intervals(c, b.lastRefill, at), c.maxTokens))
  {
    RefillExactly(c, b, at);
    BurstRefillsFirst(c, b, n, at);
    BurstGrants(c, Refill(c, b, at), n, at);
  }

  /** Without a refill, a burst is granted what the bucket holds. */
  lemma BurstGrants(c: Config, b: Bucket, n: nat, at: nat)
    requires NewTokens(c, at, b.lastRefill) == 0
    ensures Granted(c, b, Burst(n, at, [])) == Min(n, b.tokens)
  {
    var m := Min(n, b.tokens);
    BurstDrains(c, b, m, at, Burst(n - m, at, []));
    BurstSplits(m, n - m, at);
    if n > m {
      EmptyRefuses(c, b.(tokens := 0), n - m, at);
    }
  }

  // ---------------------------------------------------------------------
  // Threads that interleave
  // ---------------------------------------------------------------------

  /** Tokens that an add finds no room for. */
  function LostByStep(c: Config, w: World, e: Event): nat
    requires Enabled(w, e)
  {
    if e.AddTokens? then SaturatingSub(w.bucket.tokens + w.threads[e.thread].newTokens, c.maxTokens) else 0
  }

  ghost function LostInRun(c: Config, w: World, es: seq<Event>, w': World): nat
    requires Reaches(c, w, es, w')
    decreases |es|
  {
    if es == [] then 0 else LostByStep(c, w, es[0]) + LostInRun(c, Step(c, w, es[0]), es[1..], w')
  }

  /** Tokens in the bucket, won but not yet added, or granted. */
  function Accounted(w: World): nat {
    w.bucket.tokens + Pending(w.threads) + w.grants
  }

  lemma StepLedger(c: Config, w: World, e: Event)
    requires w.bucket.tokens <= c.maxTokens < U64_LIMIT && Enabled(w, e)
    ensures var w' := Step(c, w, e);
            && w'.bucket.tokens <= c.maxTokens
            && Accounted(w') + LostByStep(c, w, e) + w.credits == Accounted(w) + w'.credits
  {
    if !e.Tick? {
      PendingUpdate(w.threads, e.thread, Step(c, w, e).threads[e.thread]);
    }
  }

  /** In every run, every interval credited is accounted for or was lost to a full bucket. */
  lemma {:induction false} ConcurrentLedger(c: Config, w: World, es: seq<Event>, w': World)
    requires w.bucket.tokens <= c.maxTokens < U64_LIMIT && Reaches(c, w, es, w')
    ensures Accounted(w') + LostInRun(c, w, es, w') + w.credits == Accounted(w) + w'.credits
    decreases |es|
  {
    if es != [] {
      StepLedger(c, w, es[0]);
      ConcurrentLedger(c, Step(c, w, es[0]), es[1..], w');
    }
  }

  // ---------------------------------------------------------------------
  // The configured rate
  // ---------------------------------------------------------------------

  /** The interval, which is also the wait reported to a refused caller, is the period shared out evenly. */
  lemma IntervalIsShare(maxTokens: nat, per: nat)
    ensures var c := NewConfig(maxTokens, per);
            && (maxTokens > 0 && per / maxTokens < U64_LIMIT ==>
                  && c.refillInterval == c.RefillNs()
                  && c.refillInterval * maxTokens <= per < c.refillInterval * maxTokens + maxTokens)
            && (maxTokens == 0 ==> c.refillInterval == per)
  {
    if maxTokens > 0 {
      QuotientBounds(per, maxTokens);
      if per / maxTokens < U64_LIMIT {
        SmallModulo(per / maxTokens);
      }
    }
  }

  lemma SmallModulo(x: nat)
    requires x < U64_LIMIT
    ensures x % U64_LIMIT == x
  {
  }
}
