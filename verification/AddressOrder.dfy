/**
 Candidate ordering (section 4 of RFC 8305): the family preference applied to resolver results,
 then the interleaving that the racer attempts in order.
 */
module AddressOrder {
  import opened Common
  import HappyEyeballs
  import HappyEyeballsRuns

  datatype AddressFamily = Any | Ipv4Only | Ipv6Only | PreferIpv4 | PreferIpv6

  predicate IsV6(a: SocketAddr) {
    a.ip.V6?
  }

  /** The addresses of one family, in order: one half of the source's `partition`. */
  function OfFamily(addrs: seq<SocketAddr>, v6: bool): seq<SocketAddr> {
    if addrs == [] then []
    else (if IsV6(addrs[0]) == v6 then [addrs[0]] else []) + OfFamily(addrs[1..], v6)
  }

  function Apply(family: AddressFamily, addrs: seq<SocketAddr>): seq<SocketAddr> {
    match family
    case Any => addrs
    case Ipv4Only => OfFamily(addrs, false)
    case Ipv6Only => OfFamily(addrs, true)
    case PreferIpv4 => OfFamily(addrs, false) + OfFamily(addrs, true)
    case PreferIpv6 => OfFamily(addrs, true) + OfFamily(addrs, false)
  }

  function LeadIsV6(addrs: seq<SocketAddr>): bool {
    addrs == [] || IsV6(addrs[0])
  }

  function Weave(first: seq<SocketAddr>, second: seq<SocketAddr>): seq<SocketAddr>
    decreases |first| + |second|
  {
    if first == [] then second
    else if second == [] then first
    else [first[0], second[0]] + Weave(first[1..], second[1..])
  }

  function Interleave(addrs: seq<SocketAddr>): seq<SocketAddr> {
    Weave(OfFamily(addrs, LeadIsV6(addrs)), OfFamily(addrs, !LeadIsV6(addrs)))
  }

  function Head(xs: seq<SocketAddr>): seq<SocketAddr> {
    if xs == [] then [] else [xs[0]]
  }

  function Rest(xs: seq<SocketAddr>): seq<SocketAddr> {
    if xs == [] then [] else xs[1..]
  }

  lemma WeaveStep(done: seq<SocketAddr>, first: seq<SocketAddr>, second: seq<SocketAddr>)
    ensures done + Weave(first, second) == done + Head(first) + Head(second) + Weave(Rest(first), Rest(second))
  {
    assert Weave(first, second) == Head(first) + Head(second) + Weave(Rest(first), Rest(second));
  }

  /** The source's loop: take one from each iterator until both are exhausted. */
  method InterleaveAddrs(addrs: seq<SocketAddr>) returns (result: seq<SocketAddr>)
    ensures result == Interleave(addrs)
  {
    var leadIsV6 := LeadIsV6(addrs);
    var first, second := OfFamily(addrs, leadIsV6), OfFamily(addrs, !leadIsV6);
    ghost var whole := Weave(first, second);
    result := [];
    while first != [] || second != []
      invariant result + Weave(first, second) == whole
      decreases |first| + |second|
    {
      WeaveStep(result, first, second);
      ghost var before := result;
      if first != [] {
        result := result + [first[0]];
      }
      assert result == before + Head(first);
      if second != [] {
        result := result + [second[0]];
      }
      assert result == before + Head(first) + Head(second);
      first, second := Rest(first), Rest(second);
    }
  }

  // ---------------------------------------------------------------------
  // A stable, fair permutation
  // ---------------------------------------------------------------------

  lemma {:induction false} FamilyConcat(a: seq<SocketAddr>, b: seq<SocketAddr>, v6: bool)
    ensures OfFamily(a + b, v6) == OfFamily(a, v6) + OfFamily(b, v6)
  {
    if a == [] {
      assert a + b == b;
    } else {
      assert (a + b)[0] == a[0] && (a + b)[1..] == a[1..] + b;
      FamilyConcat(a[1..], b, v6);
      var head := if IsV6(a[0]) == v6 then [a[0]] else [];
      assert head + (OfFamily(a[1..], v6) + OfFamily(b, v6)) == head + OfFamily(a[1..], v6) + OfFamily(b, v6);
    }
  }

  ghost predicate AllOf(addrs: seq<SocketAddr>, v6: bool) {
    forall i | 0 <= i < |addrs| :: IsV6(addrs[i]) == v6
  }

  lemma {:induction false} FamilyIsUniform(addrs: seq<SocketAddr>, v6: bool)
    ensures AllOf(OfFamily(addrs, v6), v6)
  {
    if addrs != [] {
      FamilyIsUniform(addrs[1..], v6);
    }
  }

  lemma {:induction false} FamilyOfUniform(addrs: seq<SocketAddr>, kind: bool, v6: bool)
    requires AllOf(addrs, kind)
    ensures OfFamily(addrs, v6) == if kind == v6 then addrs else []
  {
    if addrs != [] {
      FamilyOfUniform(addrs[1..], kind, v6);
    }
  }

  lemma {:induction false} PartitionKeepsAll(addrs: seq<SocketAddr>)
    ensures multiset(OfFamily(addrs, true)) + multiset(OfFamily(addrs, false)) == multiset(addrs)
  {
    if addrs != [] {
      PartitionKeepsAll(addrs[1..]);
      assert addrs == [addrs[0]] + addrs[1..];
    }
  }

  lemma {:induction false} WeaveKeepsFamilies(first: seq<SocketAddr>, second: seq<SocketAddr>, lead: bool, v6: bool)
    requires AllOf(first, lead) && AllOf(second, !lead)
    ensures OfFamily(Weave(first, second), v6) == if v6 == lead then first else second
    decreases |first| + |second|
  {
    if first == [] {
      FamilyOfUniform(second, !lead, v6);
    } else if second == [] {
      FamilyOfUniform(first, lead, v6);
    } else {
      WeaveKeepsFamilies(first[1..], second[1..], lead, v6);
      var rest := Weave(first[1..], second[1..]);
      FamilyConcat([first[0], second[0]], rest, v6);
      assert OfFamily([first[0], second[0]], v6) == if v6 == lead then [first[0]] else [second[0]];
    }
  }

  /** Order within each family survives, so no address is lost, invented or duplicated. */
  lemma InterleaveIsStable(addrs: seq<SocketAddr>, v6: bool)
    ensures OfFamily(Interleave(addrs), v6) == OfFamily(addrs, v6)
    ensures multiset(Interleave(addrs)) == multiset(addrs)
  {
    var lead := LeadIsV6(addrs);
    FamilyIsUniform(addrs, true);
    FamilyIsUniform(addrs, false);
    WeaveKeepsFamilies(OfFamily(addrs, lead), OfFamily(addrs, !lead), lead, true);
    WeaveKeepsFamilies(OfFamily(addrs, lead), OfFamily(addrs, !lead), lead, false);
    PartitionKeepsAll(addrs);
    PartitionKeepsAll(Interleave(addrs));
  }

  /** While both families last, positions alternate starting with `lead`; then one family remains. */
  ghost predicate Alternates(xs: seq<SocketAddr>, lead: bool, pairs: nat) {
    && 2 * pairs <= |xs|
    && (forall i | 0 <= i < 2 * pairs :: IsV6(xs[i]) == (if i % 2 == 0 then lead else !lead))
    && (forall i, j | 2 * pairs <= i < j < |xs| :: IsV6(xs[i]) == IsV6(xs[j]))
  }

  lemma AlternatesPrepend(x: SocketAddr, y: SocketAddr, rest: seq<SocketAddr>, lead: bool, pairs: nat)
    requires IsV6(x) == lead && IsV6(y) == !lead && Alternates(rest, lead, pairs)
    ensures Alternates([x, y] + rest, lead, pairs + 1)
  {
    var xs := [x, y] + rest;
    forall i | 0 <= i < 2 * (pairs + 1)
      ensures IsV6(xs[i]) == (if i % 2 == 0 then lead else !lead)
    {
      if i >= 2 {
        assert xs[i] == rest[i - 2];
      }
    }
    forall i, j | 2 * (pairs + 1) <= i < j < |xs|
      ensures IsV6(xs[i]) == IsV6(xs[j])
    {
      assert xs[i] == rest[i - 2] && xs[j] == rest[j - 2];
    }
  }

  lemma {:induction false} WeaveAlternates(first: seq<SocketAddr>, second: seq<SocketAddr>, lead: bool)
    requires AllOf(first, lead) && AllOf(second, !lead)
    ensures Alternates(Weave(first, second), lead, Min(|first|, |second|))
    decreases |first| + |second|
  {
    if first != [] && second != [] {
      WeaveAlternates(first[1..], second[1..], lead);
      AlternatesPrepend(first[0], second[0], Weave(first[1..], second[1..]), lead, Min(|first|, |second|) - 1);
    }
  }

  lemma {:induction false} LeadFamilyFirst(addrs: seq<SocketAddr>)
    requires addrs != []
    ensures OfFamily(addrs, LeadIsV6(addrs)) != [] && OfFamily(addrs, LeadIsV6(addrs))[0] == addrs[0]
  {
  }

  /** The first address leads, and the families alternate until one runs out. */
  lemma InterleaveIsFair(addrs: seq<SocketAddr>)
    ensures addrs != [] ==> Interleave(addrs) != [] && Interleave(addrs)[0] == addrs[0]
    ensures Alternates(Interleave(addrs), LeadIsV6(addrs),
                       Min(|OfFamily(addrs, true)|, |OfFamily(addrs, false)|))
  {
    FamilyIsUniform(addrs, true);
    FamilyIsUniform(addrs, false);
    WeaveAlternates(OfFamily(addrs, LeadIsV6(addrs)), OfFamily(addrs, !LeadIsV6(addrs)), LeadIsV6(addrs));
    if addrs != [] {
      LeadFamilyFirst(addrs);
    }
  }

  lemma InterleaveIsIdempotent(addrs: seq<SocketAddr>)
    ensures Interleave(Interleave(addrs)) == Interleave(addrs)
  {
    InterleaveIsFair(addrs);
    InterleaveIsStable(addrs, true);
    InterleaveIsStable(addrs, false);
    if addrs == [] {
      assert Interleave(addrs) == [];
    }
  }

  // ---------------------------------------------------------------------
  // Preference, ordering and race together
  // ---------------------------------------------------------------------

  lemma {:induction false} FamilyMembers(addrs: seq<SocketAddr>, v6: bool, a: SocketAddr)
    ensures a in OfFamily(addrs, v6) <==> a in addrs && (a.ip.V6? <==> v6)
  {
    if addrs != [] {
      FamilyMembers(addrs[1..], v6, a);
      assert addrs == [addrs[0]] + addrs[1..];
    }
  }

  /** What each family setting admits: `Any` changes nothing, the exclusive ones keep one family, in order. */
  lemma ApplyExactly(family: AddressFamily, addrs: seq<SocketAddr>, a: SocketAddr, v6: bool)
    ensures a in Apply(family, addrs) <==>
            a in addrs && (family.Ipv4Only? ==> a.ip.V4?) && (family.Ipv6Only? ==> a.ip.V6?)
    ensures OfFamily(Apply(family, addrs), v6) ==
            if (family.Ipv4Only? && v6) || (family.Ipv6Only? && !v6) then [] else OfFamily(addrs, v6)
    ensures family.Any? ==> Apply(family, addrs) == addrs
  {
    FamilyMembers(addrs, true, a);
    FamilyMembers(addrs, false, a);
    if family.PreferIpv4? || family.PreferIpv6? {
      PreferenceIsStable(family, addrs, v6);
    } else if !family.Any? {
      FamilyIsUniform(addrs, family.Ipv6Only?);
      FamilyOfUniform(Apply(family, addrs), family.Ipv6Only?, v6);
    }
  }

  /** A preference only reorders: each family keeps its order, and none is lost. */
  lemma PreferenceIsStable(family: AddressFamily, addrs: seq<SocketAddr>, v6: bool)
    requires family.PreferIpv4? || family.PreferIpv6?
    ensures OfFamily(Apply(family, addrs), v6) == OfFamily(addrs, v6)
    ensures multiset(Apply(family, addrs)) == multiset(addrs)
  {
    var x, y := OfFamily(addrs, family.PreferIpv6?), OfFamily(addrs, !family.PreferIpv6?);
    FamilyIsUniform(addrs, true);
    FamilyIsUniform(addrs, false);
    FamilyConcat(x, y, v6);
    FamilyOfUniform(x, family.PreferIpv6?, v6);
    FamilyOfUniform(y, !family.PreferIpv6?, v6);
    PartitionKeepsAll(addrs);
  }

  /** The preferred family is attempted first whenever it is present, even after interleaving. */
  lemma PreferenceSurvivesInterleave(family: AddressFamily, addrs: seq<SocketAddr>)
    requires family.PreferIpv4? || family.PreferIpv6?
    requires OfFamily(addrs, family.PreferIpv6?) != []
    ensures var attempted := Interleave(Apply(family, addrs));
            && attempted != []
            && attempted[0] == OfFamily(addrs, family.PreferIpv6?)[0]
            && IsV6(attempted[0]) == family.PreferIpv6?
            && Alternates(attempted, family.PreferIpv6?,
                          Min(|OfFamily(addrs, true)|, |OfFamily(addrs, false)|))
  {
    FamilyIsUniform(addrs, family.PreferIpv6?);
    PreferenceIsStable(family, addrs, true);
    PreferenceIsStable(family, addrs, false);
    InterleaveIsFair(Apply(family, addrs));
  }

  /** An error return means that every candidate the preference admits was attempted and failed. */
  lemma ErrorMeansEveryCandidateFailed(
      family: AddressFamily, resolved: seq<SocketAddr>, inputs: seq<HappyEyeballs.Input>, addr: SocketAddr)
    requires addr in Apply(family, resolved)
    requires Interleave(Apply(family, resolved)) != []
    requires HappyEyeballs.Run(Interleave(Apply(family, resolved)), inputs).outcome.Exhausted?
    ensures var attempted := Interleave(Apply(family, resolved));
            var log := HappyEyeballs.Run(attempted, inputs).log;
            && multiset(attempted) == multiset(Apply(family, resolved))
            && exists i: nat ::
                 i < |attempted| && attempted[i] == addr &&
                 HappyEyeballsRuns.TallyOf(log, i) == HappyEyeballsRuns.Tally(1, 0, 1, 0)
  {
    var attempted := Interleave(Apply(family, resolved));
    InterleaveIsStable(Apply(family, resolved), true);
    assert addr in multiset(attempted);
    var i: nat :| i < |attempted| && attempted[i] == addr;
    HappyEyeballsRuns.RaceOutcome(attempted, inputs);
  }
}
