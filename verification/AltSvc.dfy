/**
 The Alt-Svc cache with HTTP/3 failure suppression (RFC 7838).

 The source guards the entries and the suppressions with two locks and takes them one after the
 other, so each operation is a sequence of sections that other threads can interleave with.
 A run here is any sequence of sections, which covers every interleaving of operations.
 */
module AltSvc {
  import opened Common

  /** One minute. Instants and ages are in nanoseconds, the resolution of the source's clock. */
  const H3_FAILURE_BACKOFF := 60_000_000_000

  type Authority = string

  datatype Entry = Entry(protocol: string, host: Option<string>, port: nat, maxAge: nat, recordedAt: nat) {
    predicate Expired(now: nat) {
      SaturatingSub(now, recordedAt) >= maxAge
    }

    predicate SupportsH3() {
      protocol == "h3"
    }
  }

  type Alternative = (Option<string>, nat)

  datatype Cache = Cache(entries: map<Authority, seq<Entry>>, suppressedUntil: map<Authority, nat>)

  const EMPTY := Cache(map[], map[])

  /** One critical section; `now` is the clock reading taken inside it, if any. */
  datatype Section =
    | LiftSuppression(a: Authority)
    | ClearEntries(a: Authority)
    | Advertise(a: Authority, entries: seq<Entry>)
    | CheckSuppression(a: Authority, now: nat)
    | ReadEntries(a: Authority, now: nat)
    | Suppress(a: Authority, now: nat)
    | DropH3(a: Authority)
  {
    predicate Timed() {
      CheckSuppression? || ReadEntries? || Suppress?
    }
  }

  // ---------------------------------------------------------------------
  // Sections
  // ---------------------------------------------------------------------

  function Alive(es: seq<Entry>, now: nat): seq<Entry> {
    if es == [] then []
    else if es[0].Expired(now) then Alive(es[1..], now)
    else [es[0]] + Alive(es[1..], now)
  }

  function WithoutH3(es: seq<Entry>): seq<Entry> {
    if es == [] then []
    else if es[0].SupportsH3() then WithoutH3(es[1..])
    else [es[0]] + WithoutH3(es[1..])
  }

  function FirstH3(es: seq<Entry>): Option<Alternative> {
    if es == [] then None
    else if es[0].SupportsH3() then Some((es[0].host, es[0].port))
    else FirstH3(es[1..])
  }

  function Stored(m: map<Authority, seq<Entry>>, a: Authority): seq<Entry> {
    if a in m then m[a] else []
  }

  /** The source removes a key rather than keep an empty list under it. */
  function Store(m: map<Authority, seq<Entry>>, a: Authority, es: seq<Entry>): map<Authority, seq<Entry>> {
    if es == [] then m - {a} else m[a := es]
  }

  predicate Suppressed(c: Cache, a: Authority, now: nat) {
    a in c.suppressedUntil && c.suppressedUntil[a] > now
  }

  function Step(c: Cache, s: Section): Cache {
    match s
    case LiftSuppression(a) => c.(suppressedUntil := c.suppressedUntil - {a})
    case ClearEntries(a) => c.(entries := c.entries - {a})
    case Advertise(a, es) => c.(entries := Store(c.entries, a, es))
    case CheckSuppression(a, now) =>
      if Suppressed(c, a, now) then c else c.(suppressedUntil := c.suppressedUntil - {a})
    case ReadEntries(a, now) => c.(entries := Store(c.entries, a, Alive(Stored(c.entries, a), now)))
    case Suppress(a, now) => c.(suppressedUntil := c.suppressedUntil[a := now + H3_FAILURE_BACKOFF])
    case DropH3(a) => c.(entries := Store(c.entries, a, WithoutH3(Stored(c.entries, a))))
  }

  /** What a lookup returns from its second section. */
  function Found(c: Cache, a: Authority, now: nat): Option<Alternative> {
    FirstH3(Alive(Stored(c.entries, a), now))
  }

  function Run(ss: seq<Section>): Cache {
    if ss == [] then EMPTY else Step(Run(ss[..|ss| - 1]), ss[|ss| - 1])
  }

  /** The clock is monotone across sections; `Instant::now` is read while the lock is held. */
  ghost predicate Legal(ss: seq<Section>) {
    && (forall i, j | 0 <= i < j < |ss| && ss[i].Timed() && ss[j].Timed() :: ss[i].now <= ss[j].now)
    && (forall i | 0 <= i < |ss| && ss[i].Advertise? :: ss[i].entries != [])
  }

  // ---------------------------------------------------------------------
  // The cache object
  // ---------------------------------------------------------------------

  class AltSvcCache {
    var entries: map<Authority, seq<Entry>>
    var suppressedUntil: map<Authority, nat>

    ghost function Abstract(): Cache
      reads this
    {
      Cache(entries, suppressedUntil)
    }

    /** No authority maps to an empty list. */
    ghost predicate Valid()
      reads this
    {
      forall a | a in entries :: entries[a] != []
    }

    constructor ()
      ensures Valid() && Abstract() == EMPTY
    {
      entries := map[];
      suppressedUntil := map[];
    }

    method Insert(a: Authority, es: seq<Entry>)
      requires Valid()
      modifies this
      ensures Valid()
      ensures Abstract() == if es == [] then Step(Step(old(Abstract()), LiftSuppression(a)), ClearEntries(a))
                            else Step(old(Abstract()), Advertise(a, es))
    {
      if es == [] {
        suppressedUntil := suppressedUntil - {a};
        entries := entries - {a};
        return;
      }
      entries := entries[a := es];
    }

    /** The first section of a lookup. */
    method CheckSuppressed(a: Authority, now: nat) returns (blocked: bool)
      modifies this`suppressedUntil
      ensures blocked == old(Suppressed(Abstract(), a, now))
      ensures Abstract() == Step(old(Abstract()), CheckSuppression(a, now))
    {
      if a in suppressedUntil {
        if suppressedUntil[a] > now {
          return true;
        }
        suppressedUntil := suppressedUntil - {a};
      }
      assert a !in old(suppressedUntil) ==> old(suppressedUntil) - {a} == old(suppressedUntil);
      return false;
    }

    /** The second section of a lookup. */
    method ReadH3(a: Authority, now: nat) returns (found: Option<Alternative>)
      requires Valid()
      modifies this`entries
      ensures Valid()
      ensures found == old(Found(Abstract(), a, now))
      ensures Abstract() == Step(old(Abstract()), ReadEntries(a, now))
    {
      if a !in entries {
        assert entries - {a} == entries;
        return None;
      }
      var alive := Alive(entries[a], now);
      if alive == [] {
        entries := entries - {a};
        return None;
      }
      entries := entries[a := alive];
      found := FirstH3(alive);
    }

    method LookupH3(a: Authority, checkAt: nat, readAt: nat) returns (found: Option<Alternative>)
      requires Valid()
      modifies this
      ensures Valid()
      ensures if old(Suppressed(Abstract(), a, checkAt)) then found == None && Abstract() == old(Abstract())
              else && found == old(Found(Abstract(), a, readAt))
                   && Abstract() == Step(Step(old(Abstract()), CheckSuppression(a, checkAt)), ReadEntries(a, readAt))
    {
      var blocked := CheckSuppressed(a, checkAt);
      if blocked {
        return None;
      }
      found := ReadH3(a, readAt);
    }

    method SuppressH3(a: Authority, now: nat)
      requires Valid()
      modifies this
      ensures Valid()
      ensures Abstract() == Step(Step(old(Abstract()), Suppress(a, now)), DropH3(a))
    {
      suppressedUntil := suppressedUntil[a := now + H3_FAILURE_BACKOFF];
      if a !in entries {
        assert entries - {a} == entries;
        return;
      }
      var kept := WithoutH3(entries[a]);
      if kept == [] {
        entries := entries - {a};
      } else {
        entries := entries[a := kept];
      }
    }
  }

  // ---------------------------------------------------------------------
  // Suppression
  // ---------------------------------------------------------------------

  ghost predicate Lifts(s: Section, a: Authority) {
    s.LiftSuppression? && s.a == a
  }

  /** A suppression of `a` at position `i` that is still running at `now` and was never lifted. */
  ghost predicate InForce(ss: seq<Section>, i: nat, a: Authority, now: nat) {
    && i < |ss| && ss[i].Suppress? && ss[i].a == a
    && now < ss[i].now + 60_000_000_000
    && (forall j | i < j < |ss| :: !Lifts(ss[j], a))
  }

  lemma LegalPrefix(ss: seq<Section>)
    requires Legal(ss) && ss != []
    ensures Legal(ss[..|ss| - 1])
  {
  }

  lemma {:induction false} InForceIsRecorded(ss: seq<Section>, i: nat, a: Authority, now: nat)
    requires Legal(ss) && InForce(ss, i, a, now)
    requires forall j | 0 <= j < |ss| && ss[j].Timed() :: ss[j].now <= now
    ensures var c := Run(ss);
            a in c.suppressedUntil && ss[i].now + H3_FAILURE_BACKOFF <= c.suppressedUntil[a]
  {
    if i < |ss| - 1 {
      LegalPrefix(ss);
      InForceIsRecorded(ss[..|ss| - 1], i, a, now);
      var last := ss[|ss| - 1];
      assert last.Timed() ==> ss[i].now <= last.now <= now;
    }
  }

  lemma {:induction false} RecordedHasSource(ss: seq<Section>, a: Authority) returns (i: nat)
    requires a in Run(ss).suppressedUntil
    ensures i < |ss| && ss[i].Suppress? && ss[i].a == a
    ensures Run(ss).suppressedUntil[a] == ss[i].now + H3_FAILURE_BACKOFF
    ensures forall j | i < j < |ss| :: !Lifts(ss[j], a)
  {
    var last := ss[|ss| - 1];
    if last.Suppress? && last.a == a {
      i := |ss| - 1;
    } else {
      i := RecordedHasSource(ss[..|ss| - 1], a);
    }
  }

  /**
   Under every interleaving of sections, a lookup is turned away exactly when some suppression of
   that authority less than a minute old was not lifted by an empty advertisement since. What is
   advertised in between makes no difference.
   */
  lemma SuppressionExactly(ss: seq<Section>, a: Authority, now: nat)
    requires Legal(ss + [CheckSuppression(a, now)])
    ensures Suppressed(Run(ss), a, now) <==> exists i: nat :: InForce(ss, i, a, now)
  {
    var all := ss + [CheckSuppression(a, now)];
    assert all[..|ss|] == ss && all[|ss|] == CheckSuppression(a, now);
    LegalPrefix(all);
    forall j | 0 <= j < |ss| && ss[j].Timed()
      ensures ss[j].now <= now
    {
      assert all[j] == ss[j];
    }
    if Suppressed(Run(ss), a, now) {
      var i := RecordedHasSource(ss, a);
      assert InForce(ss, i, a, now);
    }
    forall i: nat | InForce(ss, i, a, now)
      ensures Suppressed(Run(ss), a, now)
    {
      InForceIsRecorded(ss, i, a, now);
    }
  }

  // ---------------------------------------------------------------------
  // Entries
  // ---------------------------------------------------------------------

  lemma {:induction false} NoEmptyLists(ss: seq<Section>, a: Authority)
    ensures a in Run(ss).entries ==> Run(ss).entries[a] != []
  {
    if ss != [] {
      NoEmptyLists(ss[..|ss| - 1], a);
    }
  }

  lemma {:induction false} WithoutH3Twice(es: seq<Entry>)
    ensures WithoutH3(WithoutH3(es)) == WithoutH3(es)
    ensures FirstH3(WithoutH3(es)) == None
  {
    if es != [] {
      WithoutH3Twice(es[1..]);
      assert ([es[0]] + WithoutH3(es[1..]))[1..] == WithoutH3(es[1..]);
    }
  }

  /** Suppression removes every h3 entry of its authority, no other entry, and touches no one else. */
  lemma DropH3KeepsTheRest(c: Cache, a: Authority, other: Authority)
    ensures var c' := Step(c, DropH3(a));
            && WithoutH3(Stored(c'.entries, a)) == WithoutH3(Stored(c.entries, a))
            && FirstH3(Stored(c'.entries, a)) == None
            && (other != a ==> Stored(c'.entries, other) == Stored(c.entries, other))
            && c'.suppressedUntil == c.suppressedUntil
  {
    WithoutH3Twice(Stored(c.entries, a));
  }

  /** The entries advertised for `a`, minus those a suppression dropped. Expiry plays no part. */
  function Advertised(ss: seq<Section>, a: Authority): seq<Entry> {
    if ss == [] then []
    else
      var before, s := Advertised(ss[..|ss| - 1], a), ss[|ss| - 1];
      if s.a != a then before
      else match s
        case Advertise(_, es) => es
        case ClearEntries(_) => []
        case DropH3(_) => WithoutH3(before)
        case _ => before
  }

  lemma {:induction false} AliveTwice(es: seq<Entry>, earlier: nat, now: nat)
    requires earlier <= now
    ensures Alive(Alive(es, earlier), now) == Alive(es, now)
  {
    if es != [] {
      AliveTwice(es[1..], earlier, now);
      assert ([es[0]] + Alive(es[1..], earlier))[1..] == Alive(es[1..], earlier);
    }
  }

  lemma {:induction false} FiltersCommute(es: seq<Entry>, now: nat)
    ensures Alive(WithoutH3(es), now) == WithoutH3(Alive(es, now))
  {
    if es != [] {
      FiltersCommute(es[1..], now);
      assert ([es[0]] + WithoutH3(es[1..]))[1..] == WithoutH3(es[1..]);
      assert ([es[0]] + Alive(es[1..], now))[1..] == Alive(es[1..], now);
    }
  }

  lemma StoredAfterStore(m: map<Authority, seq<Entry>>, a: Authority, es: seq<Entry>, b: Authority)
    ensures Stored(Store(m, a, es), b) == if a == b then es else Stored(m, b)
  {
  }

  lemma {:induction false} StoredIsAdvertised(ss: seq<Section>, a: Authority, now: nat)
    requires Legal(ss) && forall j | 0 <= j < |ss| && ss[j].Timed() :: ss[j].now <= now
    ensures Alive(Stored(Run(ss).entries, a), now) == Alive(Advertised(ss, a), now)
  {
    if ss != [] {
      var front, s := ss[..|ss| - 1], ss[|ss| - 1];
      LegalPrefix(ss);
      StoredIsAdvertised(front, a, now);
      var m := Run(front).entries;
      match s
      case ReadEntries(b, t) =>
        AliveTwice(Stored(m, b), t, now);
        StoredAfterStore(m, b, Alive(Stored(m, b), t), a);
      case DropH3(b) =>
        StoredAfterStore(m, b, WithoutH3(Stored(m, b)), a);
        FiltersCommute(Stored(m, a), now);
        FiltersCommute(Advertised(front, a), now);
      case Advertise(b, es) =>
        StoredAfterStore(m, b, es, a);
      case _ =>
    }
  }

  /** Purging expired entries on the way is unobservable: a lookup answers from what was advertised. */
  lemma LookupAnswersFromAdvertisements(ss: seq<Section>, a: Authority, now: nat)
    requires Legal(ss + [ReadEntries(a, now)])
    ensures Found(Run(ss), a, now) == FirstH3(Alive(Advertised(ss, a), now))
  {
    var all := ss + [ReadEntries(a, now)];
    assert all[..|ss|] == ss && all[|ss|] == ReadEntries(a, now);
    LegalPrefix(all);
    forall j | 0 <= j < |ss| && ss[j].Timed()
      ensures ss[j].now <= now
    {
      assert all[j] == ss[j];
    }
    StoredIsAdvertised(ss, a, now);
  }

  // ---------------------------------------------------------------------
  // The answer, by section and index
  // ---------------------------------------------------------------------

  /** The entry at `i` offers HTTP/3 and has not reached its maximum age; a clock behind it counts as no age. */
  ghost predicate Offers(es: seq<Entry>, i: nat, now: nat) {
    && i < |es|
    && es[i].protocol == "h3"
    && (if now <= es[i].recordedAt then es[i].maxAge > 0 else now < es[i].recordedAt + es[i].maxAge)
  }

  ghost predicate FirstOffer(es: seq<Entry>, i: nat, now: nat) {
    Offers(es, i, now) && forall j: nat | j < i :: !Offers(es, j, now)
  }

  lemma {:induction false} FirstOfferIsFound(es: seq<Entry>, i: nat, now: nat)
    requires FirstOffer(es, i, now)
    ensures FirstH3(Alive(es, now)) == Some((es[i].host, es[i].port))
  {
    if i > 0 {
      assert !Offers(es, 0, now);
      assert forall j: nat | j < |es[1..]| :: Offers(es[1..], j, now) <==> Offers(es, j + 1, now);
      FirstOfferIsFound(es[1..], i - 1, now);
    }
  }

  lemma {:induction false} NoOfferIsNone(es: seq<Entry>, now: nat)
    requires forall i: nat :: !Offers(es, i, now)
    ensures FirstH3(Alive(es, now)) == None
  {
    if es != [] {
      assert !Offers(es, 0, now);
      assert forall j: nat | j < |es[1..]| :: Offers(es[1..], j, now) <==> Offers(es, j + 1, now);
      NoOfferIsNone(es[1..], now);
    }
  }

  lemma {:induction false} OfferHasFirst(es: seq<Entry>, i: nat, now: nat) returns (k: nat)
    requires Offers(es, i, now)
    ensures k <= i && FirstOffer(es, k, now)
    decreases i
  {
    if FirstOffer(es, i, now) {
      k := i;
    } else {
      var j: nat :| j < i && Offers(es, j, now);
      k := OfferHasFirst(es, j, now);
    }
  }

  ghost predicate Replaces(s: Section, a: Authority) {
    s.a == a && (s.Advertise? || s.ClearEntries? || s.DropH3?)
  }

  /** The advertisement at `k` is the last word on the HTTP/3 entries of `a`. */
  ghost predicate Stands(ss: seq<Section>, k: nat, a: Authority) {
    && k < |ss| && ss[k].Advertise? && ss[k].a == a
    && (forall j | k < j < |ss| :: !Replaces(ss[j], a))
  }

  lemma {:induction false} StandingIsAdvertised(ss: seq<Section>, k: nat, a: Authority)
    requires Stands(ss, k, a)
    ensures Advertised(ss, a) == ss[k].entries
  {
    if k < |ss| - 1 {
      assert !Replaces(ss[|ss| - 1], a);
      StandingIsAdvertised(ss[..|ss| - 1], k, a);
    }
  }

  lemma {:induction false} WithoutH3HasNone(es: seq<Entry>, i: nat)
    requires i < |WithoutH3(es)|
    ensures WithoutH3(es)[i].protocol != "h3"
  {
    if es[0].protocol == "h3" {
      WithoutH3HasNone(es[1..], i);
    } else if i > 0 {
      WithoutH3HasNone(es[1..], i - 1);
    }
  }

  lemma {:induction false} NothingStands(ss: seq<Section>, a: Authority, i: nat, now: nat)
    requires forall k: nat :: !Stands(ss, k, a)
    ensures !Offers(Advertised(ss, a), i, now)
  {
    if ss != [] {
      var front, s := ss[..|ss| - 1], ss[|ss| - 1];
      assert !Stands(ss, |ss| - 1, a);
      if !Replaces(s, a) {
        forall k: nat
          ensures !Stands(front, k, a)
        {
          if Stands(front, k, a) {
            assert Stands(ss, k, a);
          }
        }
        NothingStands(front, a, i, now);
      } else if s.DropH3? && i < |WithoutH3(Advertised(front, a))| {
        WithoutH3HasNone(Advertised(front, a), i);
      }
    }
  }

  /**
   A lookup finds host and port of the first live h3 entry of the last advertisement, unless the entries
   were cleared or dropped since, and nothing otherwise.
   */
  lemma LookupExactly(ss: seq<Section>, a: Authority, now: nat)
    requires Legal(ss + [ReadEntries(a, now)])
    ensures forall k: nat, i: nat | Stands(ss, k, a) && FirstOffer(ss[k].entries, i, now) ::
              Found(Run(ss), a, now) == Some((ss[k].entries[i].host, ss[k].entries[i].port))
    ensures Found(Run(ss), a, now).Some? ==>
              exists k: nat, i: nat :: Stands(ss, k, a) && FirstOffer(ss[k].entries, i, now)
  {
    LookupAnswersFromAdvertisements(ss, a, now);
    forall k: nat, i: nat | Stands(ss, k, a) && FirstOffer(ss[k].entries, i, now)
      ensures Found(Run(ss), a, now) == Some((ss[k].entries[i].host, ss[k].entries[i].port))
    {
      StandingIsAdvertised(ss, k, a);
      FirstOfferIsFound(ss[k].entries, i, now);
    }
    if Found(Run(ss), a, now).Some? {
      FoundHasOffer(ss, a, now);
    }
  }

  lemma FoundHasOffer(ss: seq<Section>, a: Authority, now: nat)
    requires FirstH3(Alive(Advertised(ss, a), now)).Some?
    ensures exists k: nat, i: nat :: Stands(ss, k, a) && FirstOffer(ss[k].entries, i, now)
  {
    if forall i: nat :: !Offers(Advertised(ss, a), i, now) {
      NoOfferIsNone(Advertised(ss, a), now);
    }
    var i: nat :| Offers(Advertised(ss, a), i, now);
    if forall k: nat :: !Stands(ss, k, a) {
      NothingStands(ss, a, i, now);
    }
    var k: nat :| Stands(ss, k, a);
    StandingIsAdvertised(ss, k, a);
    var first := OfferHasFirst(ss[k].entries, i, now);
  }
}
