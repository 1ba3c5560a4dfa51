/**
 How many tokens the limiter grants within a window of time: the exact maximum for calls that follow
 one another, and the exact maximum for threads that interleave their atomic accesses.
 */
module ThrottleWindows {
  import opened Common
  import opened Arithmetic
  import opened Throttle

  /** Refills that can fall into a window: its length in intervals, rounded up. */
  function IntervalsWithin(length: nat, r: nat): nat
    requires r > 0
  {
    (length + r - 1) / r
  }

  // ---------------------------------------------------------------------
  // Calls that follow one another
  // ---------------------------------------------------------------------

  datatype Timed = Timed(call: Call, at: nat)

  ghost predicate WithinWindow(calls: seq<Timed>, from: nat, to: nat) {
    && (forall i | 0 <= i < |calls| :: from <= calls[i].at <= to)
    && (forall i, j | 0 <= i < j < |calls| :: calls[i].at <= calls[j].at)
  }

  function Granted(c: Config, b: Bucket, calls: seq<Timed>): nat
    decreases |calls|
  {
    if calls == [] then 0
    else
      var (b', n) := CallAt(c, b, calls[0].call, calls[0].at);
      n + Granted(c, b', calls[1..])
  }

  /** Grants up to `hi` are paid for by the tokens at hand and by k intervals elapsed since the refill. */
  lemma {:induction false} GrantsArePaidFor(c: Config, b: Bucket, calls: seq<Timed>, hi: nat) returns (k: nat)
    requires c.RefillNs() > 0 && b.tokens <= c.maxTokens
    requires b.lastRefill <= hi && WithinWindow(calls, b.lastRefill, hi)
    ensures Granted(c, b, calls) <= b.tokens + k && b.lastRefill + k * c.RefillNs() <= hi
    decreases |calls|
  {
    if calls == [] {
      k := 0;
    } else {
      var n := RefillEffect(c, b, calls[0].at);
      var (b', granted) := CallAt(c, b, calls[0].call, calls[0].at);
      assert WithinWindow(calls[1..], b'.lastRefill, hi);
      var k' := GrantsArePaidFor(c, b', calls[1..], hi);
      k := n + k';
      Distribute(n, k', c.RefillNs());
    }
  }

  /** The first refill forgets idle time: it caps the tokens and leaves less than an interval. */
  lemma FirstRefillForgets(c: Config, b: Bucket, calls: seq<Timed>)
    requires c.RefillNs() > 0 && b.tokens <= c.maxTokens
    requires calls != [] && b.lastRefill <= calls[0].at
    ensures var b1 := Refill(c, b, calls[0].at);
            && b1.tokens <= c.maxTokens
            && b1.lastRefill <= calls[0].at < b1.lastRefill + c.RefillNs()
            && Granted(c, b, calls) == Granted(c, b1, calls)
  {
    var n := RefillEffect(c, b, calls[0].at);
  }

  lemma WindowStartsAtFirst(calls: seq<Timed>, from: nat, to: nat, start: nat)
    requires WithinWindow(calls, from, to) && calls != [] && start <= calls[0].at
    ensures WithinWindow(calls, start, to)
  {
  }

  lemma WindowArithmetic(k: nat, r: nat, last: nat, first: nat, from: nat, length: nat)
    requires r > 0 && last <= first < last + r && from <= first
    requires last + k * r <= from + length
    ensures k <= IntervalsWithin(length, r)
  {
    QuotientAtLeast(k, length + r - 1, r);
  }

  /** Any window of a sequential history, after any idle time. */
  lemma WindowBound(c: Config, b: Bucket, calls: seq<Timed>, from: nat, length: nat)
    requires c.RefillNs() > 0 && b.tokens <= c.maxTokens && b.lastRefill <= from
    requires WithinWindow(calls, from, from + length)
    ensures Granted(c, b, calls) <= c.maxTokens + IntervalsWithin(length, c.RefillNs())
  {
    if calls != [] {
      FirstRefillForgets(c, b, calls);
      var b1 := Refill(c, b, calls[0].at);
      WindowStartsAtFirst(calls, from, from + length, b1.lastRefill);
      var k := GrantsArePaidFor(c, b1, calls, from + length);
      WindowArithmetic(k, c.RefillNs(), b1.lastRefill, calls[0].at, from, length);
    }
  }

  // ---------------------------------------------------------------------
  // The sequential bound is attained
  // ---------------------------------------------------------------------

  /** `n` acquisitions at one instant, then `rest`. */
  function Burst(n: nat, at: nat, rest: seq<Timed>): seq<Timed> {
    if n == 0 then rest else [Timed(Acquire, at)] + Burst(n - 1, at, rest)
  }

  lemma GrantedFirst(c: Config, b: Bucket, at: nat, rest: seq<Timed>)
    requires b.tokens > 0 && NewTokens(c, at, b.lastRefill) == 0
    ensures Granted(c, b, [Timed(Acquire, at)] + rest) == 1 + Granted(c, Take(b), rest)
  {
    assert ([Timed(Acquire, at)] + rest)[1..] == rest;
  }

  lemma {:induction false} BurstDrains(c: Config, b: Bucket, n: nat, at: nat, rest: seq<Timed>)
    requires n <= b.tokens && NewTokens(c, at, b.lastRefill) == 0
    ensures Granted(c, b, Burst(n, at, rest)) == n + Granted(c, b.(tokens := b.tokens - n), rest)
    decreases n
  {
    if n > 0 {
      GrantedFirst(c, b, at, Burst(n - 1, at, rest));
      BurstDrains(c, Take(b), n - 1, at, rest);
    }
  }

  /** One acquisition at the end of each of the next `k` intervals. */
  function Drip(last: nat, k: nat, r: nat): seq<Timed>
    decreases k
  {
    if k == 0 then [] else [Timed(Acquire, last + r)] + Drip(last + r, k - 1, r)
  }

  lemma {:induction false} DripGrants(c: Config, last: nat, k: nat)
    requires c.RefillNs() > 0 && c.maxTokens > 0
    ensures Granted(c, Bucket(0, last), Drip(last, k, c.RefillNs())) == k
    decreases k
  {
    if k > 0 {
      var r := c.RefillNs();
      var rest := Drip(last + r, k - 1, r);
      QuotientIs(r, 1, r);
      assert CallAt(c, Bucket(0, last), Acquire, last + r) == (Bucket(0, last + r), 1);
      assert ([Timed(Acquire, last + r)] + rest)[1..] == rest;
      DripGrants(c, last + r, k - 1);
    }
  }

  lemma PrependWithin(call: Timed, rest: seq<Timed>, from: nat, to: nat)
    requires from <= call.at <= to && WithinWindow(rest, call.at, to)
    ensures WithinWindow([call] + rest, from, to)
  {
  }

  lemma {:induction false} DripWithin(last: nat, k: nat, r: nat, to: nat)
    requires last + k * r <= to
    ensures WithinWindow(Drip(last, k, r), last + r, to)
    decreases k
  {
    if k > 0 {
      Distribute(1, k - 1, r);
      DripWithin(last + r, k - 1, r, to);
      PrependWithin(Timed(Acquire, last + r), Drip(last + r, k - 1, r), last + r, to);
    }
  }

  lemma {:induction false} BurstWithin(n: nat, at: nat, rest: seq<Timed>, to: nat)
    requires at <= to && WithinWindow(rest, at, to)
    ensures WithinWindow(Burst(n, at, rest), at, to)
    decreases n
  {
    if n > 0 {
      BurstWithin(n - 1, at, rest, to);
      PrependWithin(Timed(Acquire, at), Burst(n - 1, at, rest), at, to);
    }
  }

  /** A burst just before a refill is due, then one acquisition per refill. */
  function Greedy(c: Config, length: nat): seq<Timed>
    requires c.RefillNs() > 0
  {
    var r := c.RefillNs();
    Burst(c.maxTokens, r - 1, Drip(0, IntervalsWithin(length, r), r))
  }

  /** Of a new limiter, for every window length. */
  lemma WindowBoundAttained(c: Config, length: nat)
    requires c.RefillNs() > 0 && c.maxTokens > 0
    ensures var from := c.RefillNs() - 1;
            && WithinWindow(Greedy(c, length), from, from + length)
            && Granted(c, Bucket(c.maxTokens, 0), Greedy(c, length)) ==
               c.maxTokens + IntervalsWithin(length, c.RefillNs())
  {
    var r := c.RefillNs();
    var k := IntervalsWithin(length, r);
    QuotientBounds(length + r - 1, r);
    QuotientIs(r - 1, 0, r);
    DripWithin(0, k, r, r - 1 + length);
    BurstWithin(c.maxTokens, r - 1, Drip(0, k, r), r - 1 + length);
    BurstDrains(c, Bucket(c.maxTokens, 0), c.maxTokens, r - 1, Drip(0, k, r));
    DripGrants(c, 0, k);
  }

  /** Calls within a window of a limiter that was last refilled before it. */
  ghost predicate OpenWindow(c: Config, b: Bucket, calls: seq<Timed>, from: nat, length: nat) {
    b.tokens <= c.maxTokens && b.lastRefill <= from && WithinWindow(calls, from, from + length)
  }

  /** No window of this length grants more than the maximum. */
  ghost predicate KeepsMaximum(c: Config, length: nat) {
    forall b, calls, from | OpenWindow(c, b, calls, from, length) :: Granted(c, b, calls) <= c.maxTokens
  }

  lemma {:induction false} WithoutRefill(c: Config, b: Bucket, calls: seq<Timed>)
    requires b.tokens <= c.maxTokens && (c.RefillNs() == 0 || c.maxTokens == 0)
    ensures Granted(c, b, calls) <= b.tokens
    decreases |calls|
  {
    if calls != [] {
      WithoutRefill(c, CallAt(c, b, calls[0].call, calls[0].at).0, calls[1..]);
    }
  }

  /** The documented "at most `max_tokens` per window" holds for instants and for limiters that never refill. */
  lemma MaximumHoldsExactly(c: Config, length: nat)
    ensures KeepsMaximum(c, length) <==> length == 0 || c.RefillNs() == 0 || c.maxTokens == 0
  {
    var r := c.RefillNs();
    if length > 0 && r > 0 && c.maxTokens > 0 {
      WindowBoundAttained(c, length);
      QuotientAtLeast(1, length + r - 1, r);
      assert OpenWindow(c, Bucket(c.maxTokens, 0), Greedy(c, length), r - 1, length);
    } else {
      forall b, calls, from | OpenWindow(c, b, calls, from, length)
        ensures Granted(c, b, calls) <= c.maxTokens
      {
        if r == 0 || c.maxTokens == 0 {
          WithoutRefill(c, b, calls);
        } else {
          WindowBound(c, b, calls, from, length);
          QuotientIs(r - 1, 0, r);
        }
      }
    }
  }

  // ---------------------------------------------------------------------
  // Threads that interleave
  // ---------------------------------------------------------------------

  /** What a thread may still add for a clock reading from before the window, and what it is about to add. */
  function Claim(c: Config, from: nat, pc: Pc): nat {
    match pc
    case Sampled(_, now) => if now < from then c.maxTokens else 0
    case Loaded(_, now, _) => if now < from then c.maxTokens else 0
    case Credited(_, n) => Min(n, c.maxTokens)
    case _ => 0
  }

  function Claims(c: Config, from: nat, threads: seq<Pc>): nat {
    if threads == [] then 0 else Claim(c, from, threads[0]) + Claims(c, from, threads[1..])
  }

  lemma {:induction false} ClaimsUpdate(c: Config, from: nat, threads: seq<Pc>, t: nat, pc: Pc)
    requires t < |threads|
    ensures Claims(c, from, threads[t := pc]) == Claims(c, from, threads) - Claim(c, from, threads[t]) + Claim(c, from, pc)
  {
    var updated := threads[t := pc];
    if t == 0 {
      assert updated[1..] == threads[1..];
    } else {
      assert updated[1..] == threads[1..][t - 1 := pc];
      ClaimsUpdate(c, from, threads[1..], t - 1, pc);
    }
  }

  /** Threads that have entered a call and not yet passed their add. */
  function Midway(threads: seq<Pc>): nat {
    if threads == [] then 0
    else (if threads[0].Idle? || threads[0].Refilled? then 0 else 1) + Midway(threads[1..])
  }

  lemma {:induction false} ClaimsOfMidway(c: Config, from: nat, threads: seq<Pc>)
    ensures Claims(c, from, threads) <= Midway(threads) * c.maxTokens
  {
    if threads != [] {
      ClaimsOfMidway(c, from, threads[1..]);
      Distribute(1, Midway(threads[1..]), c.maxTokens);
    }
  }

  /** Credit from swaps sampled within the window: one capped catch-up, then one token per interval. */
  function Spent(c: Config, from: nat, last: nat): nat
    requires c.RefillNs() > 0
  {
    var r := c.RefillNs();
    if last + r <= from then 0 else c.maxTokens + (last + r - 1 - from) / r
  }

  ghost predicate WindowInv(c: Config, w: World, from: nat, base: nat)
    requires c.RefillNs() > 0
  {
    && from <= w.clock
    && w.bucket.tokens + w.grants + Claims(c, from, w.threads) <= base + Spent(c, from, w.bucket.lastRefill)
  }

  lemma SpentGrows(c: Config, from: nat, last: nat, n: nat)
    requires c.RefillNs() > 0
    ensures Spent(c, from, last) <= Spent(c, from, last + n * c.RefillNs())
    ensures last + c.RefillNs() > from ==> Spent(c, from, last + n * c.RefillNs()) == Spent(c, from, last) + n
  {
    if last + c.RefillNs() > from {
      QuotientShift(last + c.RefillNs() - 1 - from, n, c.RefillNs());
    }
  }

  lemma CreditIsSpent(c: Config, from: nat, last: nat, now: nat)
    requires c.RefillNs() > 0 && NewTokens(c, now, last) > 0 && from <= now
    ensures var n := NewTokens(c, now, last);
            Spent(c, from, last) + Min(n, c.maxTokens) <= Spent(c, from, last + n * c.RefillNs())
  {
    var n := NewTokens(c, now, last);
    CreditReachesClock(c, last, now);
    if last + c.RefillNs() > from {
      SpentGrows(c, from, last, n);
    } else {
      CatchUpIsSpent(c, from, last + n * c.RefillNs());
    }
  }

  lemma CreditReachesClock(c: Config, last: nat, now: nat)
    requires c.RefillNs() > 0 && NewTokens(c, now, last) > 0
    ensures 0 <= NewTokens(c, now, last) * c.RefillNs() && now < last + NewTokens(c, now, last) * c.RefillNs() + c.RefillNs()
  {
    QuotientBounds(SaturatingSub(now, last), c.RefillNs());
  }

  lemma CatchUpIsSpent(c: Config, from: nat, last: nat)
    requires c.RefillNs() > 0 && last + c.RefillNs() > from
    ensures Spent(c, from, last) >= c.maxTokens
  {
  }

  lemma SwapKeepsWindow(c: Config, w: World, t: nat, from: nat, base: nat)
    requires c.RefillNs() > 0 && WindowInv(c, w, from, base) && Enabled(w, SwapLast(t))
    ensures WindowInv(c, Step(c, w, SwapLast(t)), from, base)
  {
    var w' := Step(c, w, SwapLast(t));
    ClaimsUpdate(c, from, w.threads, t, w'.threads[t]);
    var Loaded(_, now, last) := w.threads[t];
    var n := NewTokens(c, now, last);
    if n > 0 && w.bucket.lastRefill == last {
      if now < from {
        SpentGrows(c, from, last, n);
      } else {
        CreditIsSpent(c, from, last, now);
      }
    }
  }

  lemma StepKeepsWindow(c: Config, w: World, e: Event, from: nat, base: nat)
    requires c.RefillNs() > 0 && WindowInv(c, w, from, base) && Enabled(w, e)
    ensures WindowInv(c, Step(c, w, e), from, base)
  {
    if e.SwapLast? {
      SwapKeepsWindow(c, w, e.thread, from, base);
    } else if !e.Tick? {
      ClaimsUpdate(c, from, w.threads, e.thread, Step(c, w, e).threads[e.thread]);
    }
  }

  lemma {:induction false} RunKeepsWindow(c: Config, w: World, es: seq<Event>, w': World, from: nat, base: nat)
    requires c.RefillNs() > 0 && WindowInv(c, w, from, base) && Reaches(c, w, es, w')
    ensures WindowInv(c, w', from, base)
    decreases |es|
  {
    if es != [] {
      StepKeepsWindow(c, w, es[0], from, base);
      RunKeepsWindow(c, Step(c, w, es[0]), es[1..], w', from, base);
    }
  }

  /**
   Any window of any run, for any number of threads: a full bucket, one capped catch-up, one more
   capped add for each thread that was midway when the window opened, and one token per interval.
   */
  lemma ConcurrentWindowBound(
      c: Config, start: nat, threads: nat, before: seq<Event>, w: World, es: seq<Event>, w': World, length: nat)
    requires c.RefillNs() > 0
    requires Reaches(c, Initial(c, start, threads), before, w) && Reaches(c, w, es, w')
    requires w'.clock <= w.clock + length
    ensures w'.grants <=
            w.grants + (2 + Midway(w.threads)) * c.maxTokens + IntervalsWithin(length, c.RefillNs())
  {
    var r := c.RefillNs();
    InitialPending(threads);
    RunKeepsInv(c, Initial(c, start, threads), before, w, start);
    RunKeepsInv(c, w, es, w', start);
    RunKeepsWindow(c, w, es, w', w.clock, w.bucket.tokens + w.grants + Claims(c, w.clock, w.threads));
    ClaimsOfMidway(c, w.clock, w.threads);
    Distribute(2, Midway(w.threads), c.maxTokens);
    SpentBound(c, w.clock, w'.bucket.lastRefill, length);
  }

  lemma SpentBound(c: Config, from: nat, last: nat, length: nat)
    requires c.RefillNs() > 0 && last <= from + length
    ensures Spent(c, from, last) <= c.maxTokens + IntervalsWithin(length, c.RefillNs())
  {
    var r := c.RefillNs();
    if last + r > from {
      QuotientBounds(last + r - 1 - from, r);
      QuotientAtLeast((last + r - 1 - from) / r, length + r - 1, r);
    }
  }

  // ---------------------------------------------------------------------
  // The concurrent bound is attained
  // ---------------------------------------------------------------------

  lemma {:induction false} ReachesThen(c: Config, w: World, es: seq<Event>, w1: World, es': seq<Event>, w2: World)
    requires Reaches(c, w, es, w1) && Reaches(c, w1, es', w2)
    ensures Reaches(c, w, es + es', w2)
    decreases |es|
  {
    if es == [] {
      assert es + es' == es';
    } else {
      ReachesThen(c, Step(c, w, es[0]), es[1..], w1, es', w2);
      assert (es + es')[1..] == es[1..] + es';
    }
  }

  function BucketAfter(c: Config, b: Bucket, calls: seq<Timed>): Bucket
    decreases |calls|
  {
    if calls == [] then b else BucketAfter(c, CallAt(c, b, calls[0].call, calls[0].at).0, calls[1..])
  }

  /** A sequential history, played by one idle thread of any world, grants in it what it grants alone. */
  lemma {:induction false} PlaySequentially(c: Config, w: World, t: nat, calls: seq<Timed>, to: nat)
    returns (es: seq<Event>, w': World)
    requires t < |w.threads| && w.threads[t].Idle?
    requires w.clock <= to && WithinWindow(calls, w.clock, to)
    ensures Reaches(c, w, es, w') && w.clock <= w'.clock <= to && w'.threads == w.threads
    ensures w'.bucket == BucketAfter(c, w.bucket, calls)
    ensures w'.grants == w.grants + Granted(c, w.bucket, calls)
    decreases |calls|
  {
    if calls == [] {
      es, w' := [], w;
    } else {
      var Timed(call, at) := calls[0];
      var ticked := Step(c, w, Tick(at));
      UndisturbedCall(c, ticked, t, call);
      var steps := CallSteps(c, ticked.bucket, t, call, at);
      ReachesBefore(c, w, Tick(at), steps, AfterCall(c, ticked, call));
      var more;
      more, w' := PlaySequentially(c, AfterCall(c, ticked, call), t, calls[1..], to);
      ReachesThen(c, w, [Tick(at)] + steps, AfterCall(c, ticked, call), more, w');
      es := [Tick(at)] + steps + more;
    }
  }

  lemma {:induction false} BurstEmpties(c: Config, b: Bucket, n: nat, at: nat)
    requires n <= b.tokens && NewTokens(c, at, b.lastRefill) == 0
    ensures BucketAfter(c, b, Burst(n, at, [])) == b.(tokens := b.tokens - n)
    decreases n
  {
    if n > 0 {
      BurstEmpties(c, Take(b), n - 1, at);
      assert Burst(n, at, [])[1..] == Burst(n - 1, at, []);
    }
  }

  /** Thread 0 wins the timestamp for a full bucket's worth of intervals and stops before its add. */
  lemma CatchUp(c: Config, w: World)
    requires 0 < c.maxTokens && c.RefillNs() > 0
    requires w.bucket.lastRefill == 0 && w.clock == c.maxTokens * c.RefillNs() + c.RefillNs() - 1
    requires w.threads == [Idle, Idle]
    ensures var w' := w.(bucket := w.bucket.(lastRefill := c.maxTokens * c.RefillNs()),
                         credits := w.credits + c.maxTokens,
                         threads := [Credited(Acquire, c.maxTokens), Idle]);
            Reaches(c, w, [Enter(0, Acquire)] + ([LoadLast(0)] + ([SwapLast(0)] + [])), w')
  {
    var r := c.RefillNs();
    QuotientIs(w.clock, c.maxTokens, r);
    EnterThenLoad(c, w, 0, Acquire);
    var loaded := At(w, 0, Loaded(Acquire, w.clock, 0));
    var w' := Step(c, loaded, SwapLast(0));
    assert w'.threads == [Credited(Acquire, c.maxTokens), Idle];
    ReachesBefore(c, loaded, SwapLast(0), [], w');
    ReachesBefore(c, Step(c, w, Enter(0, Acquire)), LoadLast(0), [SwapLast(0)] + [], w');
    ReachesBefore(c, w, Enter(0, Acquire), [LoadLast(0)] + ([SwapLast(0)] + []), w');
  }

  /** Thread 0 adds what it won to the bucket drained meanwhile, and takes one token. */
  lemma LateAdd(c: Config, w: World)
    requires 0 < c.maxTokens < U64_LIMIT && w.bucket.tokens == 0
    requires w.threads == [Credited(Acquire, c.maxTokens), Idle]
    ensures var w' := w.(bucket := w.bucket.(tokens := c.maxTokens - 1), grants := w.grants + 1, threads := [Idle, Idle]);
            Reaches(c, w, [AddTokens(0)] + ([Settle(0)] + []), w')
  {
    var added := Step(c, w, AddTokens(0));
    assert added.bucket.tokens == c.maxTokens;
    var w' := Step(c, added, Settle(0));
    assert w'.threads == [Idle, Idle];
    ReachesBefore(c, added, Settle(0), [], w');
    ReachesBefore(c, w, AddTokens(0), [Settle(0)] + [], w');
  }

  /** While thread 0 is delayed before its add, thread 1 drains the bucket that the add then refills. */
  lemma DrainedTwice(c: Config, w: World) returns (es: seq<Event>, w': World)
    requires 0 < c.maxTokens < U64_LIMIT && c.RefillNs() > 0
    requires w.bucket == Bucket(c.maxTokens, 0) && w.clock == c.maxTokens * c.RefillNs() + c.RefillNs() - 1
    requires w.threads == [Idle, Idle]
    ensures Reaches(c, w, es, w') && w'.clock == w.clock && w'.threads == w.threads
    ensures w'.bucket == Bucket(c.maxTokens - 1, c.maxTokens * c.RefillNs())
    ensures w'.grants == w.grants + c.maxTokens + 1
  {
    var last := c.maxTokens * c.RefillNs();
    var w1 := w.(bucket := Bucket(c.maxTokens, last),
                 credits := w.credits + c.maxTokens,
                 threads := [Credited(Acquire, c.maxTokens), Idle]);
    CatchUp(c, w);
    QuotientIs(c.RefillNs() - 1, 0, c.RefillNs());
    BurstWithin(c.maxTokens, w.clock, [], w.clock);
    var drain, w2 := PlaySequentially(c, w1, 1, Burst(c.maxTokens, w.clock, []), w.clock);
    BurstDrains(c, w1.bucket, c.maxTokens, w.clock, []);
    BurstEmpties(c, w1.bucket, c.maxTokens, w.clock);
    LateAdd(c, w2);
    w' := w2.(bucket := w2.bucket.(tokens := c.maxTokens - 1), grants := w2.grants + 1, threads := [Idle, Idle]);
    ReachesThen(c, w1, drain, w2, [AddTokens(0)] + ([Settle(0)] + []), w');
    es := drain + ([AddTokens(0)] + ([Settle(0)] + []));
    ReachesThen(c, w, [Enter(0, Acquire)] + ([LoadLast(0)] + ([SwapLast(0)] + [])), w1, es, w');
    es := [Enter(0, Acquire)] + ([LoadLast(0)] + ([SwapLast(0)] + [])) + es;
  }

  /** The tokens left, and then one per interval. */
  lemma DrainedSlowly(c: Config, w: World, length: nat) returns (es: seq<Event>, w': World)
    requires c.maxTokens > 0 && c.RefillNs() > 0 && w.threads == [Idle, Idle]
    requires w.bucket.lastRefill + c.RefillNs() - 1 == w.clock
    ensures Reaches(c, w, es, w') && w'.clock <= w.clock + length
    ensures w'.grants == w.grants + w.bucket.tokens + IntervalsWithin(length, c.RefillNs())
  {
    var r, last := c.RefillNs(), w.bucket.lastRefill;
    var drip := Drip(last, IntervalsWithin(length, r), r);
    QuotientBounds(length + r - 1, r);
    QuotientIs(r - 1, 0, r);
    DripWithin(last, IntervalsWithin(length, r), r, w.clock + length);
    BurstWithin(w.bucket.tokens, w.clock, drip, w.clock + length);
    es, w' := PlaySequentially(c, w, 1, Burst(w.bucket.tokens, w.clock, drip), w.clock + length);
    BurstDrains(c, w.bucket, w.bucket.tokens, w.clock, drip);
    DripGrants(c, last, IntervalsWithin(length, r));
  }

  /** Two threads, both idle when the window opens: two full buckets at one instant, then one token per interval. */
  lemma ConcurrentWindowBoundAttained(c: Config, length: nat)
    returns (w: World, es: seq<Event>, w': World)
    requires 0 < c.maxTokens < U64_LIMIT && c.RefillNs() > 0
    ensures Reaches(c, Initial(c, 0, 2), [Tick(w.clock)], w) && w.threads == [Idle, Idle]
    ensures Reaches(c, w, es, w') && w'.clock <= w.clock + length
    ensures w'.grants == w.grants + 2 * c.maxTokens + IntervalsWithin(length, c.RefillNs())
  {
    w := Initial(c, 0, 2).(clock := c.maxTokens * c.RefillNs() + c.RefillNs() - 1);
    assert [Tick(w.clock)][1..] == [];
    var first, w1 := DrainedTwice(c, w);
    es, w' := DrainedSlowly(c, w1, length);
    ReachesThen(c, w, first, w1, es, w');
    es := first + es;
  }

  /** A window that opens on idle threads. */
  ghost predicate IdleWindow(c: Config, before: seq<Event>, w: World, es: seq<Event>, w': World, length: nat) {
    && Reaches(c, Initial(c, 0, |w.threads|), before, w)
    && (forall t | 0 <= t < |w.threads| :: w.threads[t].Idle?)
    && Reaches(c, w, es, w')
    && w'.clock <= w.clock + length
  }

  ghost predicate KeepsMaximumConcurrently(c: Config, length: nat) {
    forall before, w, es, w' | IdleWindow(c, before, w, es, w', length) :: w'.grants <= w.grants + c.maxTokens
  }

  lemma {:induction false} NothingToGrant(c: Config, w: World, es: seq<Event>, w': World)
    requires c.maxTokens == 0 && w.bucket.tokens == 0 && Reaches(c, w, es, w')
    ensures w'.grants == w.grants
    decreases |es|
  {
    if es != [] {
      NothingToGrant(c, Step(c, w, es[0]), es[1..], w');
    }
  }

  /** Shared by threads, a limiter that refills at all exceeds its maximum in windows of every length. */
  lemma ConcurrentMaximumHoldsExactly(c: Config, length: nat)
    requires c.maxTokens < U64_LIMIT
    ensures KeepsMaximumConcurrently(c, length) <==> c.RefillNs() == 0 || c.maxTokens == 0
  {
    if c.RefillNs() > 0 && c.maxTokens > 0 {
      var w, es, w' := ConcurrentWindowBoundAttained(c, length);
      assert IdleWindow(c, [Tick(w.clock)], w, es, w', length);
    } else {
      forall before, w, es, w' | IdleWindow(c, before, w, es, w', length)
        ensures w'.grants <= w.grants + c.maxTokens
      {
        InitialPending(|w.threads|);
        RunKeepsInv(c, Initial(c, 0, |w.threads|), before, w, 0);
        RunKeepsInv(c, w, es, w', 0);
        if c.maxTokens == 0 {
          NothingToGrant(c, w, es, w');
        }
      }
    }
  }
}
