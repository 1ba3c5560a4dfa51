/**
 The HSTS store (section 8.2 of RFC 6797): a bounded map of hosts that require HTTPS.
 Hosts are canonical already, and a header is given by its max-age and includeSubDomains flag.
 */
module Hsts {
  import opened Common

  const CAPACITY := 1024

  type Host = string

  datatype Entry = Entry(includeSubdomains: bool, expiresAt: nat)

  type Store = map<Host, Entry>

  predicate Current(m: Store, host: Host, now: nat) {
    host in m && now < m[host].expiresAt
  }

  // ---------------------------------------------------------------------
  // Lookup
  // ---------------------------------------------------------------------

  /** `host[i..]` is a parent domain of `host`: what follows one of its dots. */
  ghost predicate DotSuffix(host: Host, i: nat) {
    0 < i <= |host| && host[i - 1] == '.'
  }

  /** The host itself is known, or a parent domain is known with includeSubDomains. */
  ghost predicate MustUpgrade(m: Store, host: Host, now: nat) {
    || Current(m, host, now)
    || exists i: nat :: DotSuffix(host, i) && Current(m, host[i..], now) && m[host[i..]].includeSubdomains
  }

  /** `str::find('.')`. */
  function FindDot(s: Host): (r: Option<nat>)
    ensures r.Some? ==> r.value < |s| && s[r.value] == '.' && forall j | 0 <= j < r.value :: s[j] != '.'
    ensures r.None? ==> forall j | 0 <= j < |s| :: s[j] != '.'
  {
    if s == "" then None
    else if s[0] == '.' then Some(0)
    else match FindDot(s[1..])
      case None =>
        assert forall j | 0 < j < |s| :: s[j] == s[1..][j - 1];
        None
      case Some(i) =>
        assert forall j | 0 < j < |s| :: s[j] == s[1..][j - 1];
        Some(i + 1)
  }

  // ---------------------------------------------------------------------
  // Insertion
  // ---------------------------------------------------------------------

  function Purged(m: Store, now: nat): Store {
    map h | h in m && now < m[h].expiresAt :: m[h]
  }

  function Kept(m: Store, now: nat): Store {
    if |m| >= CAPACITY then Purged(m, now) else m
  }

  ghost predicate Earliest(m: Store, victim: Host) {
    victim in m && forall h | h in m :: m[victim].expiresAt <= m[h].expiresAt
  }

  /** The effect of one header on the store; among entries that expire together any may be displaced. */
  ghost predicate Stores(m: Store, m': Store, host: Host, maxAge: nat, includeSubdomains: bool, now: nat) {
    var entry := Entry(includeSubdomains, now + maxAge);
    if maxAge == 0 then m' == m - {host}
    else if |Kept(m, now)| < CAPACITY then m' == Kept(m, now)[host := entry]
    else exists victim :: Earliest(Kept(m, now), victim) && m' == (Kept(m, now) - {victim})[host := entry]
  }

  lemma {:induction false} EarliestExists(m: Store) returns (victim: Host)
    requires |m| > 0
    ensures Earliest(m, victim)
    decreases |m|
  {
    var h :| h in m;
    var rest := m - {h};
    assert m.Keys == rest.Keys + {h};
    if |rest| == 0 {
      victim := h;
    } else {
      victim := EarliestExists(rest);
      if m[h].expiresAt < m[victim].expiresAt {
        victim := h;
      }
      assert forall k | k in m :: k == h || k in rest;
    }
  }

  class HstsStore {
    var inner: Store

    /** The store never grows past its capacity. */
    ghost predicate Valid()
      reads this
    {
      |inner| <= CAPACITY
    }

    constructor ()
      ensures Valid() && inner == map[]
    {
      inner := map[];
    }

    method StoreFromResponse(host: Host, maxAge: nat, includeSubdomains: bool, now: nat)
      requires Valid()
      modifies this
      ensures Valid()
      ensures Stores(old(inner), inner, host, maxAge, includeSubdomains, now)
    {
      if maxAge == 0 {
        RemoveSize(inner, host);
        inner := inner - {host};
        return;
      }
      if |inner| >= CAPACITY {
        PurgedSize(inner, now);
        inner := map h | h in inner && now < inner[h].expiresAt :: inner[h];
      }
      ghost var kept := inner;
      if |inner| >= CAPACITY {
        ghost var candidate := EarliestExists(inner);
        var oldest :| oldest in inner && forall h | h in inner :: inner[oldest].expiresAt <= inner[h].expiresAt;
        RemoveSize(inner, oldest);
        inner := inner - {oldest};
        assert Earliest(kept, oldest);
      }
      InsertSize(inner, host, Entry(includeSubdomains, now + maxAge));
      inner := inner[host := Entry(includeSubdomains, now + maxAge)];
    }

    method ShouldUpgrade(host: Host, now: nat) returns (upgrade: bool)
      ensures upgrade <==> MustUpgrade(inner, host, now)
    {
      if host in inner && now < inner[host].expiresAt {
        return true;
      }
      var at := 0;
      while true
        invariant at <= |host|
        invariant forall i: nat | DotSuffix(host, i) && i <= at ::
                    !(Current(inner, host[i..], now) && inner[host[i..]].includeSubdomains)
        decreases |host| - at
      {
        var domain := host[at..];
        var dot := FindDot(domain);
        assert forall j | at <= j < |host| :: host[j] == domain[j - at];
        if dot.None? {
          return false;
        }
        var next := at + dot.value + 1;
        assert DotSuffix(host, next);
        if host[next..] in inner && inner[host[next..]].includeSubdomains && now < inner[host[next..]].expiresAt {
          return true;
        }
        at := next;
      }
    }

    method Clear()
      modifies this
      ensures Valid() && inner == map[]
    {
      inner := map[];
    }
  }

  lemma RemoveSize(m: Store, h: Host)
    ensures |m - {h}| <= |m|
    ensures h in m ==> |m - {h}| == |m| - 1
  {
    assert (m - {h}).Keys == m.Keys - {h};
    if h in m {
      assert m.Keys == (m - {h}).Keys + {h};
    } else {
      assert m - {h} == m;
    }
  }

  lemma PurgedSize(m: Store, now: nat)
    ensures |Purged(m, now)| <= |m|
  {
    SubsetSize(Purged(m, now).Keys, m.Keys);
  }

  lemma {:induction false} SubsetSize(a: set<Host>, b: set<Host>)
    requires a <= b
    ensures |a| <= |b|
    ensures |a| == |b| ==> a == b
  {
    assert b == a + (b - a);
  }

  lemma InsertSize(m: Store, h: Host, e: Entry)
    ensures |m[h := e]| == if h in m then |m| else |m| + 1
  {
    assert m[h := e].Keys == m.Keys + {h};
    if h in m {
      assert m.Keys + {h} == m.Keys;
    }
  }

  // ---------------------------------------------------------------------
  // Displacement
  // ---------------------------------------------------------------------

  /**
   A current entry of another host disappears only when the store is full of current entries and
   that entry is the earliest of them to expire.
   */
  lemma DisplacedOnlyUnderPressure(m: Store, m': Store, host: Host, maxAge: nat, includeSubdomains: bool, now: nat, lost: Host)
    requires |m| <= CAPACITY && Stores(m, m', host, maxAge, includeSubdomains, now)
    requires lost != host && Current(m, lost, now) && lost !in m'
    ensures |m| == CAPACITY && maxAge > 0
    ensures forall h | h in m :: Current(m, h, now)
    ensures Earliest(m, lost)
  {
    assert lost in Kept(m, now);
    SubsetSize(Purged(m, now).Keys, m.Keys);
    assert Purged(m, now).Keys == m.Keys;
    assert Purged(m, now) == m;
    var victim :| Earliest(Kept(m, now), victim) && m' == (Kept(m, now) - {victim})[host := Entry(includeSubdomains, now + maxAge)];
    assert victim == lost;
  }

  /** One way of storing the header costs `lost`, another host, its current entry. */
  ghost predicate Displaces(
      m: Store, m': Store, host: Host, maxAge: nat, includeSubdomains: bool, now: nat, lost: Host)
  {
    Stores(m, m', host, maxAge, includeSubdomains, now) && lost != host && Current(m, lost, now) && lost !in m'
  }

  /** The store is full of current entries, and a host other than `host` is among the first to expire. */
  ghost predicate UnderPressure(m: Store, host: Host, now: nat) {
    && |m| == 1024
    && (forall h | h in m :: Current(m, h, now))
    && exists other :: other != host && Earliest(m, other)
  }

  /** A header can cost another host its entry exactly under pressure, whether or not its own host is known. */
  lemma DisplacementExactly(m: Store, host: Host, maxAge: nat, includeSubdomains: bool, now: nat)
    requires |m| <= CAPACITY
    ensures (exists m', lost :: Displaces(m, m', host, maxAge, includeSubdomains, now, lost)) <==>
            maxAge > 0 && UnderPressure(m, host, now)
  {
    forall m', lost | Displaces(m, m', host, maxAge, includeSubdomains, now, lost)
      ensures maxAge > 0 && UnderPressure(m, host, now)
    {
      DisplacedOnlyUnderPressure(m, m', host, maxAge, includeSubdomains, now, lost);
    }
    if maxAge > 0 && UnderPressure(m, host, now) {
      var lost :| lost != host && Earliest(m, lost);
      var m' := DisplaceEarliest(m, host, maxAge, includeSubdomains, now, lost);
    }
  }

  lemma DisplaceEarliest(m: Store, host: Host, maxAge: nat, includeSubdomains: bool, now: nat, lost: Host)
    returns (m': Store)
    requires |m| == CAPACITY && maxAge > 0 && lost != host && Earliest(m, lost)
    requires forall h | h in m :: Current(m, h, now)
    ensures Displaces(m, m', host, maxAge, includeSubdomains, now, lost)
  {
    assert Purged(m, now) == m;
    m' := (m - {lost})[host := Entry(includeSubdomains, now + maxAge)];
  }

  /** Refreshing a host of a full store frees a slot that was not needed, unless the host itself is picked. */
  lemma RefreshInFullStore(m: Store, m': Store, host: Host, maxAge: nat, includeSubdomains: bool, now: nat)
    returns (victim: Host)
    requires |m| == CAPACITY && host in m && maxAge > 0
    requires forall h | h in m :: Current(m, h, now)
    requires Stores(m, m', host, maxAge, includeSubdomains, now)
    ensures Earliest(m, victim) && m'.Keys == m.Keys - {victim} + {host}
    ensures |m'| == if victim == host then CAPACITY else CAPACITY - 1
  {
    assert Purged(m, now) == m;
    var entry := Entry(includeSubdomains, now + maxAge);
    victim :| Earliest(m, victim) && m' == (m - {victim})[host := entry];
    ReplaceSize(m, victim, host, entry);
  }

  lemma ReplaceSize(m: Store, victim: Host, host: Host, entry: Entry)
    requires victim in m && host in m
    ensures (m - {victim})[host := entry].Keys == m.Keys - {victim} + {host}
    ensures |(m - {victim})[host := entry]| == if victim == host then |m| else |m| - 1
  {
    RemoveSize(m, victim);
    InsertSize(m - {victim}, host, entry);
  }

  // ---------------------------------------------------------------------
  // Runs against a store without bound
  // ---------------------------------------------------------------------

  datatype Event =
    | Response(host: Host, maxAge: nat, includeSubdomains: bool, now: nat)
    | ClearAll

  ghost predicate Steps(m: Store, e: Event, m': Store) {
    match e
    case Response(host, maxAge, includeSubdomains, now) => Stores(m, m', host, maxAge, includeSubdomains, now)
    case ClearAll => m' == map[]
  }

  /** A run: the stores it passes through, under a monotone clock. */
  ghost predicate IsRun(es: seq<Event>, ms: seq<Store>) {
    && |ms| == |es| + 1
    && ms[0] == map[]
    && (forall i | 0 <= i < |es| :: Steps(ms[i], es[i], ms[i + 1]))
    && (forall i, j | 0 <= i < j < |es| && es[i].Response? && es[j].Response? :: es[i].now <= es[j].now)
  }

  function RecordHeader(r: Store, e: Event): Store {
    match e
    case Response(host, maxAge, includeSubdomains, now) =>
      if maxAge == 0 then r - {host} else r[host := Entry(includeSubdomains, now + maxAge)]
    case ClearAll => map[]
  }

  /** The last header of every host since the last clear, kept forever. */
  function Reference(es: seq<Event>): Store {
    if es == [] then map[] else RecordHeader(Reference(es[..|es| - 1]), es[|es| - 1])
  }

  lemma RunPrefix(es: seq<Event>, ms: seq<Store>)
    requires IsRun(es, ms) && es != []
    ensures IsRun(es[..|es| - 1], ms[..|es|]) && ms[..|es|][|es| - 1] == ms[|es| - 1]
    ensures Steps(ms[|es| - 1], es[|es| - 1], ms[|es|])
  {
    var front, prefix := es[..|es| - 1], ms[..|es|];
    forall i | 0 <= i < |front|
      ensures Steps(prefix[i], front[i], prefix[i + 1])
    {
      assert Steps(ms[i], es[i], ms[i + 1]);
    }
  }

  lemma StoresWithinCapacity(m: Store, m': Store, host: Host, maxAge: nat, includeSubdomains: bool, now: nat)
    requires |m| <= CAPACITY && Stores(m, m', host, maxAge, includeSubdomains, now)
    ensures |m'| <= CAPACITY
  {
    var entry := Entry(includeSubdomains, now + maxAge);
    RemoveSize(m, host);
    PurgedSize(m, now);
    var kept := Kept(m, now);
    InsertSize(kept, host, entry);
    if maxAge > 0 && |kept| >= CAPACITY {
      var victim :| Earliest(kept, victim) && m' == (kept - {victim})[host := entry];
      RemoveSize(kept, victim);
      InsertSize(kept - {victim}, host, entry);
    }
  }

  ghost predicate SubStore(m: Store, r: Store) {
    forall h | h in m :: h in r && r[h] == m[h]
  }

  lemma StepIsSound(m: Store, e: Event, m': Store, r: Store)
    requires |m| <= CAPACITY && SubStore(m, r) && Steps(m, e, m')
    ensures |m'| <= CAPACITY && SubStore(m', RecordHeader(r, e))
  {
    if e.Response? {
      StoresWithinCapacity(m, m', e.host, e.maxAge, e.includeSubdomains, e.now);
    }
  }

  /** Every run stays within capacity and never holds an entry that the headers do not justify. */
  lemma {:induction false} RunIsSound(es: seq<Event>, ms: seq<Store>)
    requires IsRun(es, ms)
    ensures |ms[|es|]| <= 1024
    ensures SubStore(ms[|es|], Reference(es))
  {
    if es != [] {
      RunPrefix(es, ms);
      RunIsSound(es[..|es| - 1], ms[..|es|]);
      StepIsSound(ms[|es| - 1], es[|es| - 1], ms[|es|], Reference(es[..|es| - 1]));
    }
  }

  /** At no header that stores something were there as many current hosts as the store can hold. */
  ghost predicate NeverFull(es: seq<Event>) {
    forall i | 0 <= i < |es| && es[i].Response? && es[i].maxAge > 0 ::
      |Purged(Reference(es[..i]), es[i].now)| < 1024
  }

  /** The store holds whatever of the reference is current at `now`. */
  ghost predicate HoldsCurrent(m: Store, r: Store, now: nat) {
    forall h | h in r && now < r[h].expiresAt :: h in m && m[h] == r[h]
  }

  lemma HeaderKeepsCurrent(m: Store, m': Store, r: Store, e: Event, now: nat)
    requires e.Response? && Steps(m, e, m') && SubStore(m, r)
    requires HoldsCurrent(m, r, e.now) && e.now <= now
    requires e.maxAge > 0 ==> |Purged(r, e.now)| < CAPACITY
    ensures HoldsCurrent(m', RecordHeader(r, e), now)
  {
    SubsetSize(Purged(m, e.now).Keys, Purged(r, e.now).Keys);
  }

  lemma {:induction false} RunIsComplete(es: seq<Event>, ms: seq<Store>, now: nat)
    requires IsRun(es, ms) && NeverFull(es)
    requires forall i | 0 <= i < |es| && es[i].Response? :: es[i].now <= now
    ensures HoldsCurrent(ms[|es|], Reference(es), now)
  {
    if es != [] {
      var front, e := es[..|es| - 1], es[|es| - 1];
      RunPrefix(es, ms);
      if e.Response? {
        assert NeverFull(front) by {
          assert forall i | 0 <= i < |front| :: front[..i] == es[..i] && front[i] == es[i];
        }
        RunIsSound(front, ms[..|es|]);
        RunIsComplete(front, ms[..|es|], e.now);
        HeaderKeepsCurrent(ms[|es| - 1], ms[|es|], Reference(front), e, now);
      }
    }
  }

  /** Upgrades are always justified by headers; short of capacity, none that headers call for is missed. */
  lemma UpgradesFollowHeaders(es: seq<Event>, ms: seq<Store>, host: Host, now: nat)
    requires IsRun(es, ms)
    requires forall i | 0 <= i < |es| && es[i].Response? :: es[i].now <= now
    ensures MustUpgrade(ms[|es|], host, now) ==> MustUpgrade(Reference(es), host, now)
    ensures NeverFull(es) && MustUpgrade(Reference(es), host, now) ==> MustUpgrade(ms[|es|], host, now)
  {
    RunIsSound(es, ms);
    if NeverFull(es) {
      RunIsComplete(es, ms, now);
    }
  }

  // ---------------------------------------------------------------------
  // Upgrades, header by header
  // ---------------------------------------------------------------------

  /** The header at `i` is the last one for its host, and nothing was cleared since. */
  ghost predicate LastWord(es: seq<Event>, i: nat) {
    && i < |es| && es[i].Response?
    && (forall j | i < j < |es| :: es[j].Response? && es[j].host != es[i].host)
  }

  /** `host` is a subdomain of `parent`. */
  ghost predicate Below(host: Host, parent: Host) {
    var dot := |host| - |parent| - 1;
    0 <= dot && host[dot] == '.' && host[dot + 1..] == parent
  }

  /** The header at `i` demands HTTPS for `host` at `now`. */
  ghost predicate Demands(es: seq<Event>, i: nat, host: Host, now: nat) {
    && LastWord(es, i)
    && now < es[i].now + es[i].maxAge
    && (es[i].host == host || (es[i].includeSubdomains && Below(host, es[i].host)))
  }

  lemma {:induction false} RecordedByLastWord(es: seq<Event>, i: nat)
    requires LastWord(es, i) && es[i].maxAge > 0
    ensures es[i].host in Reference(es)
    ensures Reference(es)[es[i].host] == Entry(es[i].includeSubdomains, es[i].now + es[i].maxAge)
  {
    if i < |es| - 1 {
      assert es[|es| - 1].Response? && es[|es| - 1].host != es[i].host;
      RecordedByLastWord(es[..|es| - 1], i);
    }
  }

  lemma {:induction false} RecordHasLastWord(es: seq<Event>, host: Host) returns (i: nat)
    requires host in Reference(es)
    ensures LastWord(es, i) && es[i].host == host
    ensures Reference(es)[host] == Entry(es[i].includeSubdomains, es[i].now + es[i].maxAge)
  {
    var front, e := es[..|es| - 1], es[|es| - 1];
    if e.Response? && e.host == host {
      i := |es| - 1;
    } else {
      i := RecordHasLastWord(front, host);
    }
  }

  lemma CurrentIsDemanded(es: seq<Event>, host: Host, at: nat, now: nat)
    requires at <= |host| && Current(Reference(es), host[at..], now)
    requires at == 0 || (DotSuffix(host, at) && Reference(es)[host[at..]].includeSubdomains)
    ensures exists i: nat :: Demands(es, i, host, now)
  {
    var i := RecordHasLastWord(es, host[at..]);
    if at > 0 {
      assert Below(host, es[i].host);
    } else {
      assert host[at..] == host;
    }
    assert Demands(es, i, host, now);
  }

  lemma DemandIsRecorded(es: seq<Event>, i: nat, host: Host, now: nat)
    requires Demands(es, i, host, now) && es[i].now <= now
    ensures MustUpgrade(Reference(es), host, now)
  {
    RecordedByLastWord(es, i);
    if es[i].host != host {
      assert DotSuffix(host, |host| - |es[i].host|);
    }
  }

  lemma ReferenceDemands(es: seq<Event>, host: Host, now: nat)
    requires forall i | 0 <= i < |es| && es[i].Response? :: es[i].now <= now
    ensures MustUpgrade(Reference(es), host, now) <==> exists i: nat :: Demands(es, i, host, now)
  {
    if Current(Reference(es), host, now) {
      assert host[0..] == host;
      CurrentIsDemanded(es, host, 0, now);
    } else if MustUpgrade(Reference(es), host, now) {
      var at: nat :| DotSuffix(host, at) && Current(Reference(es), host[at..], now) &&
                     Reference(es)[host[at..]].includeSubdomains;
      CurrentIsDemanded(es, host, at, now);
    }
    forall i: nat | Demands(es, i, host, now)
      ensures MustUpgrade(Reference(es), host, now)
    {
      DemandIsRecorded(es, i, host, now);
    }
  }

  /** An upgrade goes back to a header that demands it; short of capacity, every such header is obeyed. */
  lemma UpgradeExactly(es: seq<Event>, ms: seq<Store>, host: Host, now: nat)
    requires IsRun(es, ms)
    requires forall i | 0 <= i < |es| && es[i].Response? :: es[i].now <= now
    ensures MustUpgrade(ms[|es|], host, now) ==> exists i: nat :: Demands(es, i, host, now)
    ensures NeverFull(es) ==> (MustUpgrade(ms[|es|], host, now) <==> exists i: nat :: Demands(es, i, host, now))
  {
    UpgradesFollowHeaders(es, ms, host, now);
    ReferenceDemands(es, host, now);
  }

  // ---------------------------------------------------------------------
  // A run into a full store
  // ---------------------------------------------------------------------

  function Name(i: nat): Host {
    seq(i + 1, _ => 'a')
  }

  /** `n` hosts, told apart by length, that expire one after another. */
  function Filled(n: nat): Store {
    if n == 0 then map[] else Filled(n - 1)[Name(n - 1) := Entry(false, n)]
  }

  lemma {:induction false} FilledHolds(n: nat)
    ensures |Filled(n)| == n
    ensures forall h | h in Filled(n) :: 1 <= |h| <= n && Filled(n)[h].expiresAt == |h|
    ensures forall i: nat | i < n :: Name(i) in Filled(n)
  {
    if n > 0 {
      FilledHolds(n - 1);
      assert |Name(n - 1)| == n;
      InsertSize(Filled(n - 1), Name(n - 1), Entry(false, n));
    }
  }

  lemma FillingIsRun(n: nat, es: seq<Event>, ms: seq<Store>)
    requires n <= CAPACITY
    requires es == seq(n, i requires 0 <= i => Response(Name(i), i + 1, false, 0))
    requires ms == seq(n + 1, i requires 0 <= i => Filled(i))
    ensures IsRun(es, ms)
  {
    forall i | 0 <= i < |es|
      ensures Steps(ms[i], es[i], ms[i + 1])
    {
      FilledHolds(i);
    }
  }

  lemma RefreshAfterFilling(n: nat) returns (es: seq<Event>, ms: seq<Store>, last: Event, lost: Host)
    requires n == CAPACITY
    ensures last.Response? && IsRun(es + [last], ms) && last.host in ms[|es|]
    ensures Displaces(ms[|es|], ms[|es| + 1], last.host, last.maxAge, last.includeSubdomains, last.now, lost)
  {
    es := seq(n, i requires 0 <= i => Response(Name(i), i + 1, false, 0));
    var filling := seq(n + 1, i requires 0 <= i => Filled(i));
    FillingIsRun(n, es, filling);
    FilledHolds(n);
    lost, last := Name(0), Response(Name(1), 5, false, 0);
    assert |lost| == 1 && |Name(1)| == 2;
    assert filling[|es|] == Filled(n) && Earliest(Filled(n), lost);
    ms := DisplacingRun(es, filling, last, lost);
  }

  /** A run into a full store of current entries can go on to displace any of the first to expire. */
  lemma DisplacingRun(es: seq<Event>, ms: seq<Store>, last: Event, lost: Host) returns (ms': seq<Store>)
    requires IsRun(es, ms) && last.Response? && last.maxAge > 0 && last.host != lost
    requires forall i | 0 <= i < |es| && es[i].Response? :: es[i].now <= last.now
    requires var m := ms[|es|];
             |m| == CAPACITY && Earliest(m, lost) && forall h | h in m :: Current(m, h, last.now)
    ensures IsRun(es + [last], ms') && ms'[|es|] == ms[|es|]
    ensures Displaces(ms'[|es|], ms'[|es| + 1], last.host, last.maxAge, last.includeSubdomains, last.now, lost)
  {
    var m := DisplaceEarliest(ms[|es|], last.host, last.maxAge, last.includeSubdomains, last.now, lost);
    RunExtends(es, ms, last, m);
    ms' := ms + [m];
  }

  /** A run that ends with the refresh of a known host and costs another host its current entry. */
  lemma RefreshCanDisplace() returns (es: seq<Event>, ms: seq<Store>, last: Event, lost: Host)
    ensures last.Response? && IsRun(es + [last], ms) && last.host in ms[|es|]
    ensures Displaces(ms[|es|], ms[|es| + 1], last.host, last.maxAge, last.includeSubdomains, last.now, lost)
  {
    es, ms, last, lost := RefreshAfterFilling(CAPACITY);
  }

  lemma RunExtends(es: seq<Event>, ms: seq<Store>, e: Event, m: Store)
    requires IsRun(es, ms) && Steps(ms[|es|], e, m)
    requires e.Response? ==> forall i | 0 <= i < |es| && es[i].Response? :: es[i].now <= e.now
    ensures IsRun(es + [e], ms + [m])
  {
    var all, stores := es + [e], ms + [m];
    forall i | 0 <= i < |all|
      ensures Steps(stores[i], all[i], stores[i + 1])
    {
      if i < |es| {
        assert Steps(ms[i], es[i], ms[i + 1]);
      }
    }
  }
}
