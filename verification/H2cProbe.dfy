/**
 The adaptive-h2c probe cache: a lock-protected map from endpoint to capability,
 driven by overlapping probes that hold ownership tokens.

 Every lock-protected operation is one atomic step. `Instant::now()` and `elapsed()`
 become clock readings passed to the step. Generations are natural numbers.
 */
module H2cProbe {
  import opened Common

  datatype RouteKey = RouteKey(
    scheme: string, host: string, port: nat, proxyRoute: string, forcedAddr: Option<SocketAddr>)

  datatype ProxyTargets = ProxyTargets(first: Option<SocketAddr>, second: Option<SocketAddr>)

  datatype EndpointKey = EndpointKey(
    route: RouteKey, remoteAddr: SocketAddr, proxyTargets: Option<ProxyTargets>)

  datatype Capability = SupportsH2c | H1Only

  datatype Entry = Entry(
    generation: nat,
    activeGeneration: nat,
    capability: Option<Capability>,
    observedAt: nat,
    activeProbes: nat)

  type Endpoints = map<EndpointKey, Entry>

  datatype CacheState = CacheState(endpoints: Endpoints, nextGeneration: nat)

  /** Two live probes of one key always carry one generation, so tokens need no identity. */
  datatype Token = Token(key: EndpointKey, generation: nat)

  datatype Action = UseH1 | Probe(token: Token)

  const EVICTION_THRESHOLD := 64

  // ---------------------------------------------------------------------
  // One step per lock-protected operation
  // ---------------------------------------------------------------------

  predicate Fresh(observedAt: nat, now: nat, ttl: nat) {
    SaturatingSub(now, observedAt) < ttl
  }

  predicate KnownH1(endpoints: Endpoints, key: EndpointKey, now: nat, ttl: nat) {
    && key in endpoints
    && endpoints[key].activeProbes == 0
    && Fresh(endpoints[key].observedAt, now, ttl)
    && endpoints[key].capability == Some(H1Only)
  }

  function Lookup(endpoints: Endpoints, key: EndpointKey, now: nat, ttl: nat): Option<bool> {
    if key !in endpoints || !Fresh(endpoints[key].observedAt, now, ttl) then None
    else match endpoints[key].capability
      case None => None
      case Some(c) => Some(c.SupportsH2c?)
  }

  predicate Retained(e: Entry, now: nat, ttl: nat) {
    e.activeProbes > 0 || Fresh(e.observedAt, now, ttl)
  }

  /** With `evicting` false this is the cache that never forgets, the reference for eviction. */
  function Evict(endpoints: Endpoints, now: nat, ttl: nat, evicting: bool): Endpoints {
    if !evicting || |endpoints| <= EVICTION_THRESHOLD then endpoints
    else map k | k in endpoints && Retained(endpoints[k], now, ttl) :: endpoints[k]
  }

  predicate InFlight(endpoints: Endpoints, key: EndpointKey) {
    key in endpoints && endpoints[key].activeProbes > 0
  }

  function IssuedGeneration(s: CacheState, key: EndpointKey): nat {
    if InFlight(s.endpoints, key) then s.endpoints[key].activeGeneration else s.nextGeneration
  }

  function Admit(s: CacheState, key: EndpointKey, insertAt: nat): CacheState {
    var generation := IssuedGeneration(s, key);
    var entry := if key in s.endpoints then s.endpoints[key] else Entry(0, generation, None, insertAt, 0);
    CacheState(
      s.endpoints[key := entry.(
        activeGeneration := if entry.activeProbes == 0 then generation else entry.activeGeneration,
        activeProbes := entry.activeProbes + 1)],
      if InFlight(s.endpoints, key) then s.nextGeneration else s.nextGeneration + 1)
  }

  /** An observation that loses against fresh h2c evidence of its own overlap group. */
  predicate Outranked(e: Entry, generation: nat, capability: Option<Capability>, now: nat, ttl: nat) {
    && generation == e.generation
    && e.capability == Some(SupportsH2c)
    && Fresh(e.observedAt, now, ttl)
    && capability != Some(SupportsH2c)
  }

  function Publish(endpoints: Endpoints, token: Token, capability: Option<Capability>,
                   readAt: nat, storeAt: nat, ttl: nat): Endpoints
  {
    if token.key !in endpoints then endpoints
    else
      var e := endpoints[token.key];
      if token.generation < e.generation then endpoints
      else if Outranked(e, token.generation, capability, readAt, ttl) then endpoints
      else endpoints[token.key := e.(
             generation := token.generation, capability := capability, observedAt := storeAt)]
  }

  function Finish(endpoints: Endpoints, key: EndpointKey): Endpoints {
    if key !in endpoints then endpoints
    else endpoints[key := endpoints[key].(activeProbes := SaturatingSub(endpoints[key].activeProbes, 1))]
  }

  // ---------------------------------------------------------------------
  // Runs: any interleaving of steps under a monotone clock
  // ---------------------------------------------------------------------

  /** What a token holder reports. Rejecting borrows the token, the confirmations consume it. */
  datatype Report = H2cConfirmed | H2cRejected | H1Confirmed {
    function Capability(): Option<Capability> {
      match this
      case H2cConfirmed => Some(SupportsH2c)
      case H2cRejected => None
      case H1Confirmed => Some(H1Only)
    }
  }

  datatype Event =
    | Begin(key: EndpointKey, checkAt: nat, evictAt: nat, insertAt: nat)
    | Observe(token: Token, report: Report, readAt: nat, storeAt: nat)
    | Drop(token: Token)
  {
    predicate Reports(key: EndpointKey) {
      Observe? && token.key == key
    }
  }

  /** The cache, the tokens its callers still hold, and the latest clock reading. */
  datatype World = World(cache: CacheState, live: multiset<Token>, clock: nat)

  const INITIAL := World(CacheState(map[], 1), multiset{}, 0)

  predicate Enabled(w: World, e: Event) {
    match e
    case Begin(_, checkAt, evictAt, insertAt) => w.clock <= checkAt <= evictAt <= insertAt
    case Observe(token, _, readAt, storeAt) => token in w.live && w.clock <= readAt <= storeAt
    case Drop(token) => token in w.live
  }

  function Decide(w: World, e: Event, ttl: nat, evicting: bool): Action
    requires e.Begin?
  {
    if KnownH1(w.cache.endpoints, e.key, e.checkAt, ttl) then UseH1
    else
      var evicted := w.cache.(endpoints := Evict(w.cache.endpoints, e.evictAt, ttl, evicting));
      Probe(Token(e.key, IssuedGeneration(evicted, e.key)))
  }

  function Step(w: World, e: Event, ttl: nat, evicting: bool): World {
    match e
    case Begin(key, checkAt, evictAt, insertAt) =>
      (match Decide(w, e, ttl, evicting)
       case UseH1 => w.(clock := checkAt)
       case Probe(token) =>
         var evicted := w.cache.(endpoints := Evict(w.cache.endpoints, evictAt, ttl, evicting));
         World(Admit(evicted, key, insertAt), w.live + multiset{token}, insertAt))
    case Observe(token, report, readAt, storeAt) =>
      var published := Publish(w.cache.endpoints, token, report.Capability(), readAt, storeAt, ttl);
      if report == H2cRejected then
        World(w.cache.(endpoints := published), w.live, storeAt)
      else
        World(w.cache.(endpoints := Finish(published, token.key)), w.live - multiset{token}, storeAt)
    case Drop(token) =>
      World(w.cache.(endpoints := Finish(w.cache.endpoints, token.key)), w.live - multiset{token}, w.clock)
  }

  function Run(es: seq<Event>, ttl: nat, evicting: bool): World {
    if es == [] then INITIAL
    else Step(Run(es[..|es| - 1], ttl, evicting), es[|es| - 1], ttl, evicting)
  }

  predicate Legal(es: seq<Event>, ttl: nat, evicting: bool) {
    es == [] ||
    (Legal(es[..|es| - 1], ttl, evicting) && Enabled(Run(es[..|es| - 1], ttl, evicting), es[|es| - 1]))
  }

  // ---------------------------------------------------------------------
  // The token/entry invariant
  // ---------------------------------------------------------------------

  /** Live tokens and entries agree. All tokens of a key are equal, so a multiplicity counts them. */
  ghost predicate Inv(w: World) {
    && w.cache.nextGeneration >= 1
    && (forall t :: t in w.live ==>
          t.key in w.cache.endpoints && t.generation == w.cache.endpoints[t.key].activeGeneration)
    && (forall k :: k in w.cache.endpoints ==>
          var e := w.cache.endpoints[k];
          && e.activeProbes == w.live[Token(k, e.activeGeneration)]
          && e.generation <= e.activeGeneration < w.cache.nextGeneration
          && 1 <= e.activeGeneration
          && e.observedAt <= w.clock)
  }

  lemma FinishKeepsInv(w: World, token: Token)
    requires Inv(w) && token in w.live
    ensures w.cache.endpoints[token.key].activeProbes > 0
    ensures Inv(World(w.cache.(endpoints := Finish(w.cache.endpoints, token.key)), w.live - multiset{token}, w.clock))
  {
  }

  lemma PublishKeepsInv(w: World, token: Token, capability: Option<Capability>,
                        readAt: nat, storeAt: nat, ttl: nat)
    requires Inv(w) && token in w.live && w.clock <= readAt <= storeAt
    ensures token.generation >= w.cache.endpoints[token.key].generation
    ensures Inv(World(
                  w.cache.(endpoints := Publish(w.cache.endpoints, token, capability, readAt, storeAt, ttl)),
                  w.live, storeAt))
  {
  }

  lemma PublishKeepsActive(endpoints: Endpoints, token: Token, capability: Option<Capability>,
                           readAt: nat, storeAt: nat, ttl: nat)
    ensures var published := Publish(endpoints, token, capability, readAt, storeAt, ttl);
            && published.Keys == endpoints.Keys
            && (token.key in endpoints ==>
                  published[token.key].activeProbes == endpoints[token.key].activeProbes)
  {
  }

  lemma EvictKeepsInv(w: World, now: nat, ttl: nat, evicting: bool)
    requires Inv(w)
    ensures Inv(w.(cache := w.cache.(endpoints := Evict(w.cache.endpoints, now, ttl, evicting))))
  {
  }

  lemma AdmitKeepsInv(w: World, key: EndpointKey, insertAt: nat)
    requires Inv(w) && w.clock <= insertAt
    ensures Inv(World(Admit(w.cache, key, insertAt),
                      w.live + multiset{Token(key, IssuedGeneration(w.cache, key))}, insertAt))
  {
    var token := Token(key, IssuedGeneration(w.cache, key));
    if !InFlight(w.cache.endpoints, key) {
      assert token !in w.live;
      assert forall t :: t in w.live ==> t.key != key;
    }
  }

  lemma StepKeepsInv(w: World, e: Event, ttl: nat, evicting: bool)
    requires Inv(w) && Enabled(w, e)
    ensures Inv(Step(w, e, ttl, evicting))
  {
    match e
    case Begin(key, checkAt, evictAt, insertAt) =>
      if !Decide(w, e, ttl, evicting).UseH1? {
        EvictKeepsInv(w, evictAt, ttl, evicting);
        AdmitKeepsInv(w.(cache := w.cache.(endpoints := Evict(w.cache.endpoints, evictAt, ttl, evicting))), key, insertAt);
      }
    case Observe(token, report, readAt, storeAt) =>
      PublishKeepsInv(w, token, report.Capability(), readAt, storeAt, ttl);
      if report != H2cRejected {
        var published := Publish(w.cache.endpoints, token, report.Capability(), readAt, storeAt, ttl);
        FinishKeepsInv(World(w.cache.(endpoints := published), w.live, storeAt), token);
      }
    case Drop(token) =>
      FinishKeepsInv(w, token);
  }

  lemma {:induction false} RunKeepsInv(es: seq<Event>, ttl: nat, evicting: bool)
    requires Legal(es, ttl, evicting)
    ensures Inv(Run(es, ttl, evicting))
  {
    if es != [] {
      RunKeepsInv(es[..|es| - 1], ttl, evicting);
      StepKeepsInv(Run(es[..|es| - 1], ttl, evicting), es[|es| - 1], ttl, evicting);
    }
  }

  /** `debug_assert!(active_probes > 0)` and the stale-generation guard, over every run. */
  lemma LiveTokenIsCurrent(es: seq<Event>, ttl: nat, evicting: bool, token: Token)
    requires Legal(es, ttl, evicting) && token in Run(es, ttl, evicting).live
    ensures var w := Run(es, ttl, evicting);
            && token.key in w.cache.endpoints
            && w.cache.endpoints[token.key].activeProbes == w.live[token] > 0
            && w.cache.endpoints[token.key].activeGeneration == token.generation
            && token.generation >= w.cache.endpoints[token.key].generation
            && (forall t :: t in w.live && t.key == token.key ==> t == token)
  {
    RunKeepsInv(es, ttl, evicting);
  }

  // ---------------------------------------------------------------------
  // The cache object
  // ---------------------------------------------------------------------

  /** `H2cProbeCache` with its lock taken around every method; `live` and `clock` are ghost. */
  class H2cProbeCache {
    const ttl: nat
    var endpoints: Endpoints
    var nextGeneration: nat
    ghost var live: multiset<Token>
    ghost var clock: nat

    ghost function Abstract(): World
      reads this
    {
      World(CacheState(endpoints, nextGeneration), live, clock)
    }

    ghost predicate Valid()
      reads this
    {
      Inv(Abstract())
    }

    constructor (ttl: nat)
      ensures this.ttl == ttl && Valid() && Abstract() == INITIAL
    {
      this.ttl := ttl;
      endpoints := map[];
      nextGeneration := 1;
      live := multiset{};
      clock := 0;
    }

    method LookupEndpoint(key: EndpointKey, now: nat) returns (known: Option<bool>)
      ensures known == Lookup(endpoints, key, now, ttl)
    {
      if key !in endpoints {
        return None;
      }
      var entry := endpoints[key];
      if SaturatingSub(now, entry.observedAt) >= ttl {
        return None;
      }
      if entry.capability.None? {
        return None;
      }
      return Some(entry.capability.value == SupportsH2c);
    }

    method BeginEndpointProbe(key: EndpointKey, checkAt: nat, evictAt: nat, insertAt: nat) returns (action: Action)
      requires Valid() && clock <= checkAt <= evictAt <= insertAt
      modifies this
      ensures Valid()
      ensures action == Decide(old(Abstract()), Begin(key, checkAt, evictAt, insertAt), ttl, true)
      ensures Abstract() == Step(old(Abstract()), Begin(key, checkAt, evictAt, insertAt), ttl, true)
    {
      StepKeepsInv(Abstract(), Begin(key, checkAt, evictAt, insertAt), ttl, true);
      if key in endpoints {
        var entry := endpoints[key];
        if entry.activeProbes == 0 && SaturatingSub(checkAt, entry.observedAt) < ttl && entry.capability == Some(H1Only) {
          clock := checkAt;
          return UseH1;
        }
      }
      EvictExpired(evictAt);
      var token := AdmitProbe(key, insertAt);
      live := live + multiset{token};
      clock := insertAt;
      return Probe(token);
    }

    /** Joins the probes in flight or opens a new generation. */
    method AdmitProbe(key: EndpointKey, insertAt: nat) returns (token: Token)
      modifies this`endpoints, this`nextGeneration
      ensures token == Token(key, IssuedGeneration(CacheState(old(endpoints), old(nextGeneration)), key))
      ensures CacheState(endpoints, nextGeneration) == Admit(CacheState(old(endpoints), old(nextGeneration)), key, insertAt)
    {
      var generation: nat;
      if key in endpoints && endpoints[key].activeProbes > 0 {
        generation := endpoints[key].activeGeneration;
      } else {
        generation := nextGeneration;
        nextGeneration := nextGeneration + 1;
      }
      var entry := if key in endpoints then endpoints[key] else Entry(0, generation, None, insertAt, 0);
      if entry.activeProbes == 0 {
        entry := entry.(activeGeneration := generation);
      }
      entry := entry.(activeProbes := entry.activeProbes + 1);
      endpoints := endpoints[key := entry];
      token := Token(key, generation);
    }

    method EvictExpired(now: nat)
      modifies this`endpoints
      ensures endpoints == Evict(old(endpoints), now, ttl, true)
    {
      if |endpoints| <= EVICTION_THRESHOLD {
        return;
      }
      endpoints := map k | k in endpoints &&
                           (endpoints[k].activeProbes > 0 || SaturatingSub(now, endpoints[k].observedAt) < ttl)
                         :: endpoints[k];
    }

    method PublishObservation(token: Token, capability: Option<Capability>, readAt: nat, storeAt: nat)
      modifies this`endpoints
      ensures endpoints == Publish(old(endpoints), token, capability, readAt, storeAt, ttl)
    {
      if token.key !in endpoints {
        return;
      }
      var entry := endpoints[token.key];
      if token.generation < entry.generation {
        return;
      }
      if token.generation == entry.generation
         && entry.capability == Some(SupportsH2c)
         && SaturatingSub(readAt, entry.observedAt) < ttl
         && capability != Some(SupportsH2c) {
        return;
      }
      endpoints := endpoints[token.key := entry.(
        generation := token.generation, capability := capability, observedAt := storeAt)];
    }

    /** The precondition is the source's debug assertion. */
    method FinishProbe(key: EndpointKey)
      requires key in endpoints ==> endpoints[key].activeProbes > 0
      modifies this`endpoints
      ensures endpoints == Finish(old(endpoints), key)
    {
      if key !in endpoints {
        return;
      }
      var entry := endpoints[key];
      endpoints := endpoints[key := entry.(activeProbes := SaturatingSub(entry.activeProbes, 1))];
    }

    /** Both halves of `complete_probe`, under one lock. */
    method PublishAndFinish(token: Token, capability: Option<Capability>, readAt: nat, storeAt: nat)
      requires token.key in endpoints ==> endpoints[token.key].activeProbes > 0
      modifies this`endpoints
      ensures endpoints == Finish(Publish(old(endpoints), token, capability, readAt, storeAt, ttl), token.key)
    {
      PublishKeepsActive(endpoints, token, capability, readAt, storeAt, ttl);
      PublishObservation(token, capability, readAt, storeAt);
      FinishProbe(token.key);
    }

    /** `confirm_h2c_endpoint` and `confirm_h1_endpoint`: the token is consumed. */
    method CompleteProbe(token: Token, report: Report, readAt: nat, storeAt: nat)
      requires Valid() && token in live && clock <= readAt <= storeAt && report != H2cRejected
      modifies this
      ensures Valid()
      ensures Abstract() == Step(old(Abstract()), Observe(token, report, readAt, storeAt), ttl, true)
    {
      StepKeepsInv(Abstract(), Observe(token, report, readAt, storeAt), ttl, true);
      PublishAndFinish(token, report.Capability(), readAt, storeAt);
      live := live - multiset{token};
      clock := storeAt;
    }

    method RejectH2cEndpoint(token: Token, readAt: nat, storeAt: nat)
      requires Valid() && token in live && clock <= readAt <= storeAt
      modifies this
      ensures Valid()
      ensures Abstract() == Step(old(Abstract()), Observe(token, H2cRejected, readAt, storeAt), ttl, true)
    {
      StepKeepsInv(Abstract(), Observe(token, H2cRejected, readAt, storeAt), ttl, true);
      PublishObservation(token, None, readAt, storeAt);
      clock := storeAt;
    }

    method DropToken(token: Token)
      requires Valid() && token in live
      modifies this
      ensures Valid()
      ensures Abstract() == Step(old(Abstract()), Drop(token), ttl, true)
    {
      StepKeepsInv(Abstract(), Drop(token), ttl, true);
      FinishProbe(token.key);
      live := live - multiset{token};
    }
  }
}
