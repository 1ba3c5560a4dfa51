/**
 What a run of the probe cache answers, told from the reports of its token holders alone.

 The main results: eviction is unobservable, h2c evidence survives every interleaving of
 its overlap group, and a stored H1 decision has an exact cause in the event history.
 */
module H2cProbeHistory {
  import opened Common
  import opened H2cProbe

  // ---------------------------------------------------------------------
  // History: what the reports alone say about an endpoint
  // ---------------------------------------------------------------------

  datatype Observation = Observation(generation: nat, capability: Option<Capability>, at: nat)

  ghost predicate Overruled(last: Option<Observation>, e: Event, ttl: nat)
    requires e.Observe?
  {
    && last.Some?
    && last.value.capability == Some(SupportsH2c)
    && last.value.generation == e.token.generation
    && e.readAt < last.value.at + ttl
    && e.report != H2cConfirmed
  }

  ghost function NextAccepted(last: Option<Observation>, e: Event, key: EndpointKey, ttl: nat): Option<Observation> {
    if !e.Reports(key) || Overruled(last, e, ttl) then last
    else Some(Observation(e.token.generation, e.report.Capability(), e.storeAt))
  }

  /** The last report of `key` that took effect. It mentions no cache and never lapses. */
  ghost function LastAccepted(es: seq<Event>, key: EndpointKey, ttl: nat): Option<Observation> {
    if es == [] then None
    else NextAccepted(LastAccepted(es[..|es| - 1], key, ttl), es[|es| - 1], key, ttl)
  }

  ghost function EntryOf(endpoints: Endpoints, key: EndpointKey): Option<Entry> {
    if key in endpoints then Some(endpoints[key]) else None
  }

  /** Nothing was observed yet, or whatever was observed has been evicted. */
  ghost predicate Blank(entry: Option<Entry>) {
    entry.None? || (entry.value.generation == 0 && entry.value.capability == None)
  }

  /** The entry holds the last accepted report, or forgot one that is stale for good. */
  ghost predicate Remembers(entry: Option<Entry>, clock: nat, last: Option<Observation>, ttl: nat) {
    match last
    case None => Blank(entry)
    case Some(o) =>
      && o.at <= clock
      && (|| (Blank(entry) && o.at + ttl <= clock)
          || (entry.Some? && Observation(entry.value.generation, entry.value.capability, entry.value.observedAt) == o))
  }

  lemma EvictEntry(endpoints: Endpoints, key: EndpointKey, now: nat, ttl: nat, evicting: bool)
    ensures var before, after := EntryOf(endpoints, key), EntryOf(Evict(endpoints, now, ttl, evicting), key);
            after == before || (after.None? && !Fresh(before.value.observedAt, now, ttl))
  {
  }

  lemma AdmitEntry(s: CacheState, other: EndpointKey, insertAt: nat, key: EndpointKey)
    ensures var before, after := EntryOf(s.endpoints, key), EntryOf(Admit(s, other, insertAt).endpoints, key);
            || (Blank(before) && Blank(after))
            || (&& before.Some? && after.Some?
                && after.value.generation == before.value.generation
                && after.value.capability == before.value.capability
                && after.value.observedAt == before.value.observedAt)
  {
  }

  lemma BeginRemembers(w: World, e: Event, key: EndpointKey, last: Option<Observation>, ttl: nat, evicting: bool)
    requires Enabled(w, e) && e.Begin?
    requires Remembers(EntryOf(w.cache.endpoints, key), w.clock, last, ttl)
    ensures var w' := Step(w, e, ttl, evicting);
            Remembers(EntryOf(w'.cache.endpoints, key), w'.clock, last, ttl)
  {
    EvictEntry(w.cache.endpoints, key, e.evictAt, ttl, evicting);
    AdmitEntry(w.cache.(endpoints := Evict(w.cache.endpoints, e.evictAt, ttl, evicting)), e.key, e.insertAt, key);
  }

  lemma PublishRemembers(endpoints: Endpoints, e: Event, clock: nat, key: EndpointKey, last: Option<Observation>, ttl: nat)
    requires e.Observe? && clock <= e.readAt <= e.storeAt
    requires e.token.key in endpoints && endpoints[e.token.key].generation <= e.token.generation
    requires Remembers(EntryOf(endpoints, key), clock, last, ttl)
    ensures Remembers(
              EntryOf(Publish(endpoints, e.token, e.report.Capability(), e.readAt, e.storeAt, ttl), key),
              e.storeAt, NextAccepted(last, e, key, ttl), ttl)
  {
  }

  lemma FinishRemembers(endpoints: Endpoints, other: EndpointKey, clock: nat, key: EndpointKey, last: Option<Observation>, ttl: nat)
    requires Remembers(EntryOf(endpoints, key), clock, last, ttl)
    ensures Remembers(EntryOf(Finish(endpoints, other), key), clock, last, ttl)
  {
  }

  lemma {:induction false} RunRemembers(es: seq<Event>, key: EndpointKey, ttl: nat, evicting: bool)
    requires Legal(es, ttl, evicting)
    ensures var w := Run(es, ttl, evicting);
            Remembers(EntryOf(w.cache.endpoints, key), w.clock, LastAccepted(es, key, ttl), ttl)
  {
    if es != [] {
      var front, e := es[..|es| - 1], es[|es| - 1];
      var w, last := Run(front, ttl, evicting), LastAccepted(front, key, ttl);
      RunRemembers(front, key, ttl, evicting);
      RunKeepsInv(front, ttl, evicting);
      match e
      case Begin(_, _, _, _) =>
        BeginRemembers(w, e, key, last, ttl, evicting);
      case Observe(token, report, readAt, storeAt) =>
        PublishRemembers(w.cache.endpoints, e, w.clock, key, last, ttl);
        FinishRemembers(Publish(w.cache.endpoints, token, report.Capability(), readAt, storeAt, ttl),
                        token.key, storeAt, key, NextAccepted(last, e, key, ttl), ttl);
      case Drop(token) =>
        FinishRemembers(w.cache.endpoints, token.key, w.clock, key, last, ttl);
    }
  }

  ghost predicate Probed(live: multiset<Token>, key: EndpointKey) {
    exists t :: t in live && t.key == key
  }

  lemma InFlightIsProbed(w: World, key: EndpointKey)
    requires Inv(w)
    ensures InFlight(w.cache.endpoints, key) <==> Probed(w.live, key)
  {
    if InFlight(w.cache.endpoints, key) {
      assert Token(key, w.cache.endpoints[key].activeGeneration) in w.live;
    }
  }

  ghost function HistoryLookup(last: Option<Observation>, now: nat, ttl: nat): Option<bool> {
    if last.Some? && now < last.value.at + ttl && last.value.capability.Some?
    then Some(last.value.capability.value.SupportsH2c?)
    else None
  }

  lemma AnswersFromMemory(w: World, key: EndpointKey, last: Option<Observation>, now: nat, ttl: nat)
    requires Inv(w) && w.clock <= now && Remembers(EntryOf(w.cache.endpoints, key), w.clock, last, ttl)
    ensures Lookup(w.cache.endpoints, key, now, ttl) == HistoryLookup(last, now, ttl)
    ensures KnownH1(w.cache.endpoints, key, now, ttl) <==>
            HistoryLookup(last, now, ttl) == Some(false) && !Probed(w.live, key)
  {
    InFlightIsProbed(w, key);
  }

  /** Lookups and H1 decisions are functions of the reports and of the probes in flight. */
  lemma CacheAnswersFromHistory(es: seq<Event>, key: EndpointKey, now: nat, ttl: nat, evicting: bool)
    requires Legal(es, ttl, evicting) && Run(es, ttl, evicting).clock <= now
    ensures var w := Run(es, ttl, evicting);
            var last := LastAccepted(es, key, ttl);
            && Lookup(w.cache.endpoints, key, now, ttl) == HistoryLookup(last, now, ttl)
            && (KnownH1(w.cache.endpoints, key, now, ttl) <==>
                HistoryLookup(last, now, ttl) == Some(false) && !Probed(w.live, key))
  {
    RunKeepsInv(es, ttl, evicting);
    RunRemembers(es, key, ttl, evicting);
    AnswersFromMemory(Run(es, ttl, evicting), key, LastAccepted(es, key, ttl), now, ttl);
  }

  // ---------------------------------------------------------------------
  // Eviction is unobservable
  // ---------------------------------------------------------------------

  ghost predicate SameOutside(a: World, b: World) {
    a.live == b.live && a.clock == b.clock && a.cache.nextGeneration == b.cache.nextGeneration
  }

  lemma IssuedFromLive(w: World, key: EndpointKey, now: nat, ttl: nat, evicting: bool)
    requires Inv(w)
    ensures var issued := IssuedGeneration(w.cache.(endpoints := Evict(w.cache.endpoints, now, ttl, evicting)), key);
            if Probed(w.live, key) then Token(key, issued) in w.live else issued == w.cache.nextGeneration
  {
    InFlightIsProbed(w, key);
  }

  lemma SameDecision(es: seq<Event>, e: Event, ttl: nat)
    requires Legal(es, ttl, true) && Legal(es, ttl, false) && e.Begin?
    requires SameOutside(Run(es, ttl, true), Run(es, ttl, false))
    requires Enabled(Run(es, ttl, true), e)
    ensures Decide(Run(es, ttl, true), e, ttl, true) == Decide(Run(es, ttl, false), e, ttl, false)
  {
    CacheAnswersFromHistory(es, e.key, e.checkAt, ttl, true);
    CacheAnswersFromHistory(es, e.key, e.checkAt, ttl, false);
    RunKeepsInv(es, ttl, true);
    RunKeepsInv(es, ttl, false);
    IssuedFromLive(Run(es, ttl, true), e.key, e.evictAt, ttl, true);
    IssuedFromLive(Run(es, ttl, false), e.key, e.evictAt, ttl, false);
  }

  lemma StepOutside(a: World, b: World, e: Event, ttl: nat)
    requires Inv(a) && Inv(b) && SameOutside(a, b) && Enabled(a, e)
    requires e.Begin? ==> Decide(a, e, ttl, true) == Decide(b, e, ttl, false)
    ensures SameOutside(Step(a, e, ttl, true), Step(b, e, ttl, false))
  {
    if e.Begin? {
      InFlightIsProbed(a, e.key);
      InFlightIsProbed(b, e.key);
    }
  }

  lemma {:induction false} SameRuns(es: seq<Event>, ttl: nat)
    ensures Legal(es, ttl, true) <==> Legal(es, ttl, false)
    ensures Legal(es, ttl, true) ==> SameOutside(Run(es, ttl, true), Run(es, ttl, false))
  {
    if es != [] {
      var front, e := es[..|es| - 1], es[|es| - 1];
      SameRuns(front, ttl);
      if Legal(es, ttl, true) {
        RunKeepsInv(front, ttl, true);
        RunKeepsInv(front, ttl, false);
        if e.Begin? {
          SameDecision(front, e, ttl);
        }
        StepOutside(Run(front, ttl, true), Run(front, ttl, false), e, ttl);
      }
    }
  }

  /** An evicting and a never-evicting cache cannot be told apart by any run. */
  lemma EvictionUnobservable(es: seq<Event>, ttl: nat)
    ensures Legal(es, ttl, true) <==> Legal(es, ttl, false)
    ensures Legal(es, ttl, true) ==>
              var evicting, keeping := Run(es, ttl, true), Run(es, ttl, false);
              && evicting.live == keeping.live
              && (forall key, now | evicting.clock <= now ::
                    Lookup(evicting.cache.endpoints, key, now, ttl) == Lookup(keeping.cache.endpoints, key, now, ttl))
              && (forall e: Event | e.Begin? && Enabled(evicting, e) ::
                    Decide(evicting, e, ttl, true) == Decide(keeping, e, ttl, false))
  {
    SameRuns(es, ttl);
    if Legal(es, ttl, true) {
      forall key, now | Run(es, ttl, true).clock <= now
        ensures Lookup(Run(es, ttl, true).cache.endpoints, key, now, ttl) ==
                Lookup(Run(es, ttl, false).cache.endpoints, key, now, ttl)
      {
        CacheAnswersFromHistory(es, key, now, ttl, true);
        CacheAnswersFromHistory(es, key, now, ttl, false);
      }
      forall e: Event | e.Begin? && Enabled(Run(es, ttl, true), e)
        ensures Decide(Run(es, ttl, true), e, ttl, true) == Decide(Run(es, ttl, false), e, ttl, false)
      {
        SameDecision(es, e, ttl);
      }
    }
  }

  /** Eviction is effective: past the threshold, admitting a probe leaves no idle stale entry behind. */
  lemma AdmissionLeavesNoGarbage(w: World, e: Event, ttl: nat, other: EndpointKey)
    requires Inv(w) && Enabled(w, e) && e.Begin? && Decide(w, e, ttl, true).Probe?
    requires |w.cache.endpoints| > 64 && other != e.key
    ensures var after := Step(w, e, ttl, true).cache.endpoints;
            other in after <==>
            && other in w.cache.endpoints
            && (Probed(w.live, other) || e.evictAt < w.cache.endpoints[other].observedAt + ttl)
  {
    InFlightIsProbed(w, other);
  }

  /** Up to the threshold, admitting a probe forgets nobody. */
  lemma SmallCacheForgetsNobody(w: World, e: Event, ttl: nat, other: EndpointKey)
    requires e.Begin? && |w.cache.endpoints| <= 64 && other != e.key
    ensures EntryOf(Step(w, e, ttl, true).cache.endpoints, other) == EntryOf(w.cache.endpoints, other)
  {
  }

  // ---------------------------------------------------------------------
  // The size of the cache
  // ---------------------------------------------------------------------

  function KeyOf(e: Event): EndpointKey {
    if e.Begin? then e.key else e.token.key
  }

  /** `e` may have set the observation time of its endpoint to `at`. */
  predicate Stamps(e: Event, at: nat) {
    (e.Begin? && e.insertAt == at) || (e.Observe? && e.storeAt == at)
  }

  lemma StepStamps(w: World, e: Event, key: EndpointKey, ttl: nat, evicting: bool)
    requires key in Step(w, e, ttl, evicting).cache.endpoints
    ensures var before, after := w.cache.endpoints, Step(w, e, ttl, evicting).cache.endpoints;
            || (key in before && before[key].observedAt == after[key].observedAt)
            || (KeyOf(e) == key && Stamps(e, after[key].observedAt))
  {
  }

  /** Every observation time in the cache comes from an event on that endpoint. */
  lemma {:induction false} ObservationHasSource(es: seq<Event>, key: EndpointKey, ttl: nat, evicting: bool)
    returns (i: nat)
    requires Legal(es, ttl, evicting) && key in Run(es, ttl, evicting).cache.endpoints
    ensures i < |es| && KeyOf(es[i]) == key && Stamps(es[i], Run(es, ttl, evicting).cache.endpoints[key].observedAt)
  {
    var front, e := es[..|es| - 1], es[|es| - 1];
    var w := Run(front, ttl, evicting);
    StepStamps(w, e, key, ttl, evicting);
    if !(KeyOf(e) == key && Stamps(e, Step(w, e, ttl, evicting).cache.endpoints[key].observedAt)) {
      i := ObservationHasSource(front, key, ttl, evicting);
    } else {
      i := |es| - 1;
    }
  }

  predicate Touches(e: Event, at: nat, ttl: nat) {
    (e.Begin? && at < e.insertAt + ttl) || (e.Observe? && at < e.storeAt + ttl)
  }

  /** Endpoints with a probe in flight after the `i`th event, or with a probe or report not yet expired then. */
  ghost function Busy(es: seq<Event>, i: nat, ttl: nat): set<EndpointKey>
    requires i < |es| && es[i].Begin?
  {
    (set t | t in Run(es[..i + 1], ttl, true).live :: t.key) +
    (set j | 0 <= j < i && Touches(es[j], es[i].evictAt, ttl) :: KeyOf(es[j]))
  }

  ghost predicate BoundedBy(es: seq<Event>, i: nat, ttl: nat, keys: set<EndpointKey>) {
    i < |es| && es[i].Begin? && keys <= Busy(es, i, ttl)
  }

  lemma AdmissionKeepsBusy(es: seq<Event>, ttl: nat)
    requires Legal(es, ttl, true) && es != [] && es[|es| - 1].Begin?
    requires var w := Run(es[..|es| - 1], ttl, true);
             Decide(w, es[|es| - 1], ttl, true).Probe? && |w.cache.endpoints| > EVICTION_THRESHOLD
    ensures BoundedBy(es, |es| - 1, ttl, Run(es, ttl, true).cache.endpoints.Keys)
  {
    var front, e := es[..|es| - 1], es[|es| - 1];
    var w, w' := Run(front, ttl, true), Run(es, ttl, true);
    RunKeepsInv(front, ttl, true);
    assert es[..|es|] == es;
    forall key | key in w'.cache.endpoints
      ensures key in Busy(es, |es| - 1, ttl)
    {
      if key == e.key {
        assert Decide(w, e, ttl, true).token in w'.live;
      } else {
        AdmissionLeavesNoGarbage(w, e, ttl, key);
        if Probed(w.live, key) {
          var t :| t in w.live && t.key == key;
          assert t in w'.live;
        } else {
          var j := ObservationHasSource(front, key, ttl, true);
          assert front[j] == es[j] && Touches(es[j], e.evictAt, ttl);
        }
      }
    }
  }

  lemma OnlyAdmissionAddsKeys(w: World, e: Event, ttl: nat)
    requires !(e.Begin? && Decide(w, e, ttl, true).Probe?)
    ensures Step(w, e, ttl, true).cache.endpoints.Keys == w.cache.endpoints.Keys
  {
  }

  lemma AdmissionAddsOneKey(w: World, e: Event, ttl: nat)
    requires e.Begin? && Decide(w, e, ttl, true).Probe? && |w.cache.endpoints| <= EVICTION_THRESHOLD
    ensures |Step(w, e, ttl, true).cache.endpoints| <= EVICTION_THRESHOLD + 1
  {
    assert Step(w, e, ttl, true).cache.endpoints.Keys == w.cache.endpoints.Keys + {e.key};
  }

  lemma BoundCarries(es: seq<Event>, i: nat, ttl: nat, keys: set<EndpointKey>)
    requires es != [] && BoundedBy(es[..|es| - 1], i, ttl, keys)
    ensures BoundedBy(es, i, ttl, keys)
  {
    var front := es[..|es| - 1];
    assert front[..i + 1] == es[..i + 1];
    assert forall j | 0 <= j <= i :: front[j] == es[j];
    assert Busy(front, i, ttl) == Busy(es, i, ttl);
  }

  lemma {:induction false} KeysAreBounded(es: seq<Event>, ttl: nat)
    requires Legal(es, ttl, true)
    ensures var endpoints := Run(es, ttl, true).cache.endpoints;
            || |endpoints| <= EVICTION_THRESHOLD + 1
            || exists i: nat :: BoundedBy(es, i, ttl, endpoints.Keys)
  {
    if es != [] {
      var front, e := es[..|es| - 1], es[|es| - 1];
      var w := Run(front, ttl, true);
      KeysAreBounded(front, ttl);
      if e.Begin? && Decide(w, e, ttl, true).Probe? {
        if |w.cache.endpoints| > EVICTION_THRESHOLD {
          AdmissionKeepsBusy(es, ttl);
        } else {
          AdmissionAddsOneKey(w, e, ttl);
        }
      } else {
        OnlyAdmissionAddsKeys(w, e, ttl);
        assert |Run(es, ttl, true).cache.endpoints.Keys| == |w.cache.endpoints.Keys|;
        if |w.cache.endpoints| > EVICTION_THRESHOLD + 1 {
          var i: nat :| BoundedBy(front, i, ttl, w.cache.endpoints.Keys);
          BoundCarries(es, i, ttl, w.cache.endpoints.Keys);
        }
      }
    }
  }

  /** Eviction keeps the cache small: beyond a constant it holds no more endpoints than were busy at some admission. */
  lemma CacheIsBounded(es: seq<Event>, ttl: nat)
    requires Legal(es, ttl, true)
    ensures var size := |Run(es, ttl, true).cache.endpoints|;
            || size <= 65
            || exists i: nat :: i < |es| && es[i].Begin? && size <= |Busy(es, i, ttl)|
  {
    KeysAreBounded(es, ttl);
    var endpoints := Run(es, ttl, true).cache.endpoints;
    if |endpoints| > EVICTION_THRESHOLD + 1 {
      var i: nat :| BoundedBy(es, i, ttl, endpoints.Keys);
      var rest := Busy(es, i, ttl) - endpoints.Keys;
      assert Busy(es, i, ttl) == endpoints.Keys + rest;
      assert |Busy(es, i, ttl)| == |endpoints.Keys| + |rest|;
      assert |endpoints| == |endpoints.Keys|;
    }
  }

  // ---------------------------------------------------------------------
  // Positions in a run
  // ---------------------------------------------------------------------

  lemma {:induction false} PrefixLegal(es: seq<Event>, i: nat, ttl: nat, evicting: bool)
    requires Legal(es, ttl, evicting) && i <= |es|
    ensures Legal(es[..i], ttl, evicting)
    ensures i < |es| ==> Enabled(Run(es[..i], ttl, evicting), es[i])
  {
    if i == |es| {
      assert es[..i] == es;
    } else if i < |es| - 1 {
      PrefixLegal(es[..|es| - 1], i, ttl, evicting);
      assert es[..|es| - 1][..i] == es[..i];
    }
  }

  lemma ClockGrows(w: World, e: Event, ttl: nat, evicting: bool)
    requires Enabled(w, e)
    ensures w.clock <= Step(w, e, ttl, evicting).clock
    ensures e.Observe? ==> Step(w, e, ttl, evicting).clock == e.storeAt
  {
  }

  /** No token older than `generation` can be issued for `key` any more. */
  ghost predicate Floor(w: World, key: EndpointKey, generation: nat) {
    && generation < w.cache.nextGeneration
    && (key in w.cache.endpoints ==> generation <= w.cache.endpoints[key].activeGeneration)
  }

  lemma AdmitKeepsFloor(s: CacheState, other: EndpointKey, insertAt: nat, key: EndpointKey, generation: nat)
    requires generation < s.nextGeneration
    requires key in s.endpoints ==> generation <= s.endpoints[key].activeGeneration
    ensures var s' := Admit(s, other, insertAt);
            && generation < s'.nextGeneration
            && (key in s'.endpoints ==> generation <= s'.endpoints[key].activeGeneration)
  {
  }

  lemma BeginKeepsFloor(w: World, e: Event, key: EndpointKey, generation: nat, ttl: nat, evicting: bool)
    requires e.Begin? && Floor(w, key, generation)
    ensures Floor(Step(w, e, ttl, evicting), key, generation)
  {
    EvictEntry(w.cache.endpoints, key, e.evictAt, ttl, evicting);
    AdmitKeepsFloor(w.cache.(endpoints := Evict(w.cache.endpoints, e.evictAt, ttl, evicting)),
                    e.key, e.insertAt, key, generation);
  }

  lemma StepKeepsFloor(w: World, e: Event, key: EndpointKey, generation: nat, ttl: nat, evicting: bool)
    requires Floor(w, key, generation)
    ensures Floor(Step(w, e, ttl, evicting), key, generation)
  {
    if e.Begin? {
      BeginKeepsFloor(w, e, key, generation, ttl, evicting);
    }
  }

  lemma {:induction false} GenerationsGrow(es: seq<Event>, i: nat, token: Token, ttl: nat, evicting: bool)
    requires Legal(es, ttl, evicting) && i <= |es|
    requires Legal(es[..i], ttl, evicting) && token in Run(es[..i], ttl, evicting).live
    ensures Floor(Run(es, ttl, evicting), token.key, token.generation)
  {
    RunKeepsInv(es, ttl, evicting);
    if i == |es| {
      assert es[..i] == es;
    } else {
      var front := es[..|es| - 1];
      assert front[..i] == es[..i];
      GenerationsGrow(front, i, token, ttl, evicting);
      StepKeepsFloor(Run(front, ttl, evicting), es[|es| - 1], token.key, token.generation, ttl, evicting);
    }
  }

  /** While a token of generation g lives, everything reported since the first report of g carries g. */
  lemma GroupIsContiguous(es: seq<Event>, i: nat, j: nat, token: Token, ttl: nat, evicting: bool)
    requires Legal(es, ttl, evicting) && i < j < |es|
    requires es[i].Observe? && es[i].token == token && es[j].Reports(token.key)
    requires token in Run(es, ttl, evicting).live
    ensures es[j].token == token
  {
    PrefixLegal(es, i, ttl, evicting);
    PrefixLegal(es, j, ttl, evicting);
    assert es[..j][..i] == es[..i];
    GenerationsGrow(es[..j], i, token, ttl, evicting);
    GenerationsGrow(es, j, es[j].token, ttl, evicting);
    RunKeepsInv(es[..j], ttl, evicting);
    RunKeepsInv(es, ttl, evicting);
  }

  // ---------------------------------------------------------------------
  // Overlap-order independence
  // ---------------------------------------------------------------------

  ghost predicate Confirms(e: Event, token: Token) {
    e.Observe? && e.token == token && e.report == H2cConfirmed
  }

  ghost predicate Evidence(last: Option<Observation>, token: Token, now: nat, ttl: nat) {
    && last.Some?
    && last.value.generation == token.generation
    && last.value.capability == Some(SupportsH2c)
    && now < last.value.at + ttl
  }

  lemma EvidenceKept(last: Option<Observation>, e: Event, token: Token, now: nat, ttl: nat)
    requires Evidence(last, token, now, ttl)
    requires e.Reports(token.key) ==> e.token == token && e.readAt <= e.storeAt <= now && last.value.at <= e.storeAt
    ensures Evidence(NextAccepted(last, e, token.key, ttl), token, now, ttl)
  {
  }

  lemma {:induction false} EvidenceStands(es: seq<Event>, i: nat, token: Token, now: nat, ttl: nat, evicting: bool)
    requires Legal(es, ttl, evicting) && i < |es| && Confirms(es[i], token)
    requires forall j | i < j < |es| && es[j].Reports(token.key) :: es[j].token == token
    requires Run(es, ttl, evicting).clock <= now < es[i].storeAt + ttl
    ensures var last := LastAccepted(es, token.key, ttl);
            Evidence(last, token, now, ttl) && last.value.at <= Run(es, ttl, evicting).clock
  {
    var front, e := es[..|es| - 1], es[|es| - 1];
    ClockGrows(Run(front, ttl, evicting), e, ttl, evicting);
    if i < |front| {
      assert forall j | 0 <= j < |front| :: front[j] == es[j];
      EvidenceStands(front, i, token, now, ttl, evicting);
      EvidenceKept(LastAccepted(front, token.key, ttl), e, token, now, ttl);
    }
  }

  /**
   Once any probe confirms h2c, no interleaving of rejections, H1 confirmations and drops by its
   overlap group changes the answer before the confirmation expires.
   */
  lemma OverlapOrderIndependence(es: seq<Event>, i: nat, token: Token, now: nat, ttl: nat, evicting: bool)
    requires Legal(es, ttl, evicting) && i < |es| && Confirms(es[i], token)
    requires Run(es, ttl, evicting).clock <= now < es[i].storeAt + ttl
    requires || token in Run(es, ttl, evicting).live
             || (forall j | i < j < |es| && es[j].Reports(token.key) :: es[j].token.generation == token.generation)
    ensures Lookup(Run(es, ttl, evicting).cache.endpoints, token.key, now, ttl) == Some(true)
  {
    forall j | i < j < |es| && es[j].Reports(token.key)
      ensures es[j].token == token
    {
      if token in Run(es, ttl, evicting).live {
        GroupIsContiguous(es, i, j, token, ttl, evicting);
      }
    }
    EvidenceStands(es, i, token, now, ttl, evicting);
    CacheAnswersFromHistory(es, token.key, now, ttl, evicting);
  }

  // ---------------------------------------------------------------------
  // The exact cause of a UseH1 decision
  // ---------------------------------------------------------------------

  /** The accepted report behind `LastAccepted`; a report other than h2c is the last of its key. */
  lemma {:induction false} AcceptedSource(es: seq<Event>, key: EndpointKey, ttl: nat) returns (i: nat)
    requires LastAccepted(es, key, ttl).Some?
    ensures i < |es| && es[i].Reports(key) && !Overruled(LastAccepted(es[..i], key, ttl), es[i], ttl)
    ensures LastAccepted(es, key, ttl) ==
            Some(Observation(es[i].token.generation, es[i].report.Capability(), es[i].storeAt))
    ensures es[i].report != H2cConfirmed ==> forall j | i < j < |es| :: !es[j].Reports(key)
    ensures forall j | i < j < |es| && es[j].Reports(key) :: es[j].token.generation == es[i].token.generation
  {
    var front, e := es[..|es| - 1], es[|es| - 1];
    if e.Reports(key) && !Overruled(LastAccepted(front, key, ttl), e, ttl) {
      i := |es| - 1;
    } else {
      i := AcceptedSource(front, key, ttl);
      assert front[..i] == es[..i];
    }
  }

  lemma {:induction false} SilenceKeepsAccepted(es: seq<Event>, i: nat, key: EndpointKey, ttl: nat)
    requires i <= |es| && forall j | i <= j < |es| :: !es[j].Reports(key)
    ensures LastAccepted(es, key, ttl) == LastAccepted(es[..i], key, ttl)
  {
    if i == |es| {
      assert es[..i] == es;
    } else {
      var front := es[..|es| - 1];
      assert front[..i] == es[..i];
      SilenceKeepsAccepted(front, i, key, ttl);
    }
  }

  /** An h2c confirmation of the same overlap group, still fresh when `e` is reported. */
  ghost predicate OutvotedBy(earlier: Event, e: Event, ttl: nat)
    requires e.Observe?
  {
    Confirms(earlier, e.token) && e.readAt < earlier.storeAt + ttl
  }

  /** Being overruled is a fact about earlier events of the run. */
  lemma OverruledIsOutvoted(es: seq<Event>, i: nat, ttl: nat, evicting: bool)
    requires Legal(es, ttl, evicting) && i < |es| && es[i].Observe? && es[i].report != H2cConfirmed
    ensures Overruled(LastAccepted(es[..i], es[i].token.key, ttl), es[i], ttl) <==>
            exists j | 0 <= j < i :: OutvotedBy(es[j], es[i], ttl)
  {
    var before, token := es[..i], es[i].token;
    PrefixLegal(es, i, ttl, evicting);
    if Overruled(LastAccepted(before, token.key, ttl), es[i], ttl) {
      var j := AcceptedSource(before, token.key, ttl);
      assert OutvotedBy(es[j], es[i], ttl);
    }
    forall j | 0 <= j < i && OutvotedBy(es[j], es[i], ttl)
      ensures Overruled(LastAccepted(before, token.key, ttl), es[i], ttl)
    {
      forall k | j < k < |before| && before[k].Reports(token.key)
        ensures before[k].token == token
      {
        GroupIsContiguous(before, j, k, token, ttl, evicting);
      }
      EvidenceStands(before, j, token, es[i].readAt, ttl, evicting);
    }
  }

  /** An H1 confirmation that was not outvoted and that nobody has reported over since. */
  ghost predicate DecisiveH1(es: seq<Event>, i: nat, key: EndpointKey, ttl: nat) {
    && i < |es|
    && es[i].Reports(key)
    && es[i].report == H1Confirmed
    && (forall j | i < j < |es| :: !es[j].Reports(key))
    && (forall j | 0 <= j < i :: !OutvotedBy(es[j], es[i], ttl))
  }

  lemma AcceptedWhenReported(es: seq<Event>, i: nat, key: EndpointKey, ttl: nat)
    requires i < |es| && es[i].Reports(key) && !Overruled(LastAccepted(es[..i], key, ttl), es[i], ttl)
    ensures LastAccepted(es[..i + 1], key, ttl) ==
            Some(Observation(es[i].token.generation, es[i].report.Capability(), es[i].storeAt))
  {
    var prefix := es[..i + 1];
    assert prefix[..|prefix| - 1] == es[..i] && prefix[|prefix| - 1] == es[i];
  }

  lemma DecisiveIsAccepted(es: seq<Event>, i: nat, key: EndpointKey, ttl: nat, evicting: bool)
    requires Legal(es, ttl, evicting) && DecisiveH1(es, i, key, ttl)
    ensures LastAccepted(es, key, ttl) == Some(Observation(es[i].token.generation, Some(H1Only), es[i].storeAt))
  {
    OverruledIsOutvoted(es, i, ttl, evicting);
    AcceptedWhenReported(es, i, key, ttl);
    SilenceKeepsAccepted(es, i + 1, key, ttl);
  }

  /** A lookup says H1 exactly when a decisive H1 confirmation is younger than `ttl`. */
  lemma LookupH1Exactly(es: seq<Event>, key: EndpointKey, now: nat, ttl: nat, evicting: bool)
    requires Legal(es, ttl, evicting) && Run(es, ttl, evicting).clock <= now
    ensures Lookup(Run(es, ttl, evicting).cache.endpoints, key, now, ttl) == Some(false) <==>
            exists i: nat :: DecisiveH1(es, i, key, ttl) && now < es[i].storeAt + ttl
  {
    CacheAnswersFromHistory(es, key, now, ttl, evicting);
    var last := LastAccepted(es, key, ttl);
    if HistoryLookup(last, now, ttl) == Some(false) {
      var i := AcceptedSource(es, key, ttl);
      OverruledIsOutvoted(es, i, ttl, evicting);
      assert DecisiveH1(es, i, key, ttl);
    }
    forall i: nat | DecisiveH1(es, i, key, ttl) && now < es[i].storeAt + ttl
      ensures HistoryLookup(last, now, ttl) == Some(false)
    {
      DecisiveIsAccepted(es, i, key, ttl, evicting);
    }
  }

  /** UseH1 is answered exactly when such a confirmation exists and no probe is in flight. */
  lemma UseH1Exactly(es: seq<Event>, e: Event, ttl: nat, evicting: bool)
    requires Legal(es, ttl, evicting) && e.Begin? && Enabled(Run(es, ttl, evicting), e)
    ensures Decide(Run(es, ttl, evicting), e, ttl, evicting) == UseH1 <==>
            && !Probed(Run(es, ttl, evicting).live, e.key)
            && exists i: nat :: DecisiveH1(es, i, e.key, ttl) && e.checkAt < es[i].storeAt + ttl
  {
    CacheAnswersFromHistory(es, e.key, e.checkAt, ttl, evicting);
    LookupH1Exactly(es, e.key, e.checkAt, ttl, evicting);
  }

  /** An h2c confirmation after which only its own overlap group has reported. */
  ghost predicate DecisiveH2c(es: seq<Event>, i: nat, key: EndpointKey) {
    && i < |es|
    && es[i].Reports(key)
    && es[i].report == H2cConfirmed
    && (forall j | i < j < |es| && es[j].Reports(key) :: es[j].token.generation == es[i].token.generation)
  }

  /** A lookup says h2c exactly when such a confirmation is younger than `ttl`, whatever its group said since. */
  lemma LookupH2cExactly(es: seq<Event>, key: EndpointKey, now: nat, ttl: nat, evicting: bool)
    requires Legal(es, ttl, evicting) && Run(es, ttl, evicting).clock <= now
    ensures Lookup(Run(es, ttl, evicting).cache.endpoints, key, now, ttl) == Some(true) <==>
            exists i: nat :: DecisiveH2c(es, i, key) && now < es[i].storeAt + ttl
  {
    CacheAnswersFromHistory(es, key, now, ttl, evicting);
    if HistoryLookup(LastAccepted(es, key, ttl), now, ttl) == Some(true) {
      var i := AcceptedSource(es, key, ttl);
      assert DecisiveH2c(es, i, key);
    }
    forall i: nat | DecisiveH2c(es, i, key) && now < es[i].storeAt + ttl
      ensures Lookup(Run(es, ttl, evicting).cache.endpoints, key, now, ttl) == Some(true)
    {
      OverlapOrderIndependence(es, i, es[i].token, now, ttl, evicting);
    }
  }
}
