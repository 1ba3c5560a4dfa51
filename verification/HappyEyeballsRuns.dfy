/** Accounting, exhaustiveness, termination and poll discipline of every run of the racer. */
module HappyEyeballsRuns {
  import opened Common
  import opened HappyEyeballs

  // ---------------------------------------------------------------------
  // What a log says about one attempt
  // ---------------------------------------------------------------------

  /** The numbers of the attempts reported as started, in the order of the log. */
  function Starts(log: seq<ObserverEvent>): seq<nat> {
    if log == [] then []
    else
      var e := log[|log| - 1];
      Starts(log[..|log| - 1]) + (if e.Started? then [e.sequence] else [])
  }

  function UpTo(n: nat): seq<nat> {
    seq(n, i requires 0 <= i => i)
  }

  datatype Tally = Tally(started: nat, succeeded: nat, failed: nat, cancelled: nat) {
    function Ended(): nat {
      succeeded + failed + cancelled
    }
  }

  /** How often the attempt number `i` was reported, by kind of event. */
  function TallyOf(log: seq<ObserverEvent>, i: nat): Tally {
    if log == [] then Tally(0, 0, 0, 0)
    else
      var before, e := TallyOf(log[..|log| - 1], i), log[|log| - 1];
      if e.sequence != i then before
      else match e
        case Started(_, _) => before.(started := before.started + 1)
        case Succeeded(_, _) => before.(succeeded := before.succeeded + 1)
        case Failed(_, _) => before.(failed := before.failed + 1)
        case Cancelled(_, _) => before.(cancelled := before.cancelled + 1)
  }

  /** Every event names the address its number stands for, and an ending follows its start. */
  ghost predicate WellFormed(log: seq<ObserverEvent>, addrs: seq<SocketAddr>) {
    forall p | 0 <= p < |log| ::
      && log[p].sequence < |addrs|
      && log[p].addr == addrs[log[p].sequence]
      && (log[p].Started? || Started(log[p].sequence, log[p].addr) in log[..p])
  }

  lemma TallyExtend(log: seq<ObserverEvent>, e: ObserverEvent, i: nat)
    ensures e.sequence != i ==> TallyOf(log + [e], i) == TallyOf(log, i)
    ensures e.sequence == i ==>
              TallyOf(log + [e], i) ==
              match e
              case Started(_, _) => TallyOf(log, i).(started := TallyOf(log, i).started + 1)
              case Succeeded(_, _) => TallyOf(log, i).(succeeded := TallyOf(log, i).succeeded + 1)
              case Failed(_, _) => TallyOf(log, i).(failed := TallyOf(log, i).failed + 1)
              case Cancelled(_, _) => TallyOf(log, i).(cancelled := TallyOf(log, i).cancelled + 1)
  {
    assert (log + [e])[..|log|] == log;
  }

  lemma {:induction false} StartedIsLogged(log: seq<ObserverEvent>, addrs: seq<SocketAddr>, i: nat)
    requires WellFormed(log, addrs) && TallyOf(log, i).started > 0
    ensures i < |addrs| && Started(i, addrs[i]) in log
  {
    var front, e := log[..|log| - 1], log[|log| - 1];
    if e != Started(i, e.addr) {
      WellFormedPrefix(log, addrs);
      StartedIsLogged(front, addrs, i);
    }
  }

  lemma WellFormedPrefix(log: seq<ObserverEvent>, addrs: seq<SocketAddr>)
    requires WellFormed(log, addrs) && log != []
    ensures WellFormed(log[..|log| - 1], addrs)
  {
    var front := log[..|log| - 1];
    assert forall p | 0 <= p < |front| :: front[..p] == log[..p] && front[p] == log[p];
  }

  lemma StartsExtend(log: seq<ObserverEvent>, e: ObserverEvent)
    ensures Starts(log + [e]) == Starts(log) + (if e.Started? then [e.sequence] else [])
  {
    assert (log + [e])[..|log|] == log;
  }

  lemma WellFormedExtend(log: seq<ObserverEvent>, addrs: seq<SocketAddr>, e: ObserverEvent)
    requires WellFormed(log, addrs)
    requires e.sequence < |addrs| && e.addr == addrs[e.sequence]
    requires e.Started? || Started(e.sequence, e.addr) in log
    ensures WellFormed(log + [e], addrs)
  {
    forall p | 0 <= p < |log + [e]|
      ensures var x := (log + [e])[p];
              && x.sequence < |addrs| && x.addr == addrs[x.sequence]
              && (x.Started? || Started(x.sequence, x.addr) in (log + [e])[..p])
    {
      if p < |log| {
        assert (log + [e])[..p] == log[..p];
      } else {
        assert (log + [e])[..p] == log;
      }
    }
  }

  // ---------------------------------------------------------------------
  // The invariant of a race in progress
  // ---------------------------------------------------------------------

  function Expected(phase: Phase): Tally {
    match phase
    case Unpolled => Tally(0, 0, 0, 0)
    case Connecting => Tally(1, 0, 0, 0)
    case Completed(connected) => if connected then Tally(1, 1, 0, 0) else Tally(1, 0, 1, 0)
  }

  ghost predicate InRace(attempts: seq<Attempt>, i: nat) {
    exists p :: 0 <= p < |attempts| && attempts[p].sequence == i
  }

  ghost predicate HasUnpolled(attempts: seq<Attempt>) {
    exists p :: 0 <= p < |attempts| && attempts[p].phase.Unpolled?
  }

  ghost predicate Shape(r: Race) {
    && r.nextIdx <= |r.addrs|
    && (forall p | 0 <= p < |r.attempts| ::
          && r.attempts[p].sequence < r.nextIdx
          && r.attempts[p].addr == r.addrs[r.attempts[p].sequence]
          && (r.attempts[p].phase.Unpolled? ==> r.attempts[p].sequence == r.nextIdx - 1))
    && (forall p, q | 0 <= p < q < |r.attempts| :: r.attempts[p].sequence != r.attempts[q].sequence)
  }

  ghost predicate Booked(r: Race)
    requires Shape(r)
  {
    && (forall p | 0 <= p < |r.attempts| ::
          TallyOf(r.log, r.attempts[p].sequence) == Expected(r.attempts[p].phase))
    && (forall i | 0 <= i < |r.addrs| && !InRace(r.attempts, i) ::
          TallyOf(r.log, i) == if i < r.nextIdx then Tally(1, 0, 1, 0) else Tally(0, 0, 0, 0))
  }

  ghost function StartedCount(r: Race): int {
    if HasUnpolled(r.attempts) then r.nextIdx - 1 else r.nextIdx
  }

  ghost predicate Inv(r: Race) {
    && Shape(r)
    && Booked(r)
    && WellFormed(r.log, r.addrs)
    && 0 <= StartedCount(r)
    && Starts(r.log) == UpTo(StartedCount(r))
  }

  function Polled(r: Race, i: nat, answer: Poll): Race
    requires i < |r.attempts|
  {
    r.(attempts := r.attempts[i := r.attempts[i].(phase := PolledPhase(answer))],
       log := r.log + PollEvents(r.attempts[i], answer))
  }

  lemma PolledShape(r: Race, i: nat, answer: Poll)
    requires Inv(r) && i < |r.attempts| && !r.attempts[i].phase.Completed?
    ensures var r' := Polled(r, i, answer);
            && Shape(r')
            && (forall j :: InRace(r'.attempts, j) <==> InRace(r.attempts, j))
            && (HasUnpolled(r'.attempts) <==> HasUnpolled(r.attempts) && !r.attempts[i].phase.Unpolled?)
  {
    var r' := Polled(r, i, answer);
    assert forall p | 0 <= p < |r.attempts| :: r'.attempts[p].sequence == r.attempts[p].sequence;
    if r.attempts[i].phase.Unpolled? {
      assert forall p | 0 <= p < |r.attempts| && p != i :: !r.attempts[p].phase.Unpolled?;
    } else if HasUnpolled(r.attempts) {
      var p :| 0 <= p < |r.attempts| && r.attempts[p].phase.Unpolled?;
      assert r'.attempts[p].phase.Unpolled?;
    }
  }

  lemma TallyPolled(log: seq<ObserverEvent>, a: Attempt, answer: Poll, i: nat)
    requires !a.phase.Completed? && TallyOf(log, a.sequence) == Expected(a.phase)
    ensures TallyOf(log + PollEvents(a, answer), i) ==
            if i == a.sequence then Expected(PolledPhase(answer)) else TallyOf(log, i)
  {
    var started := if a.phase.Unpolled? then log + [Started(a.sequence, a.addr)] else log;
    TallyExtend(log, Started(a.sequence, a.addr), i);
    match answer
    case Pending =>
      assert log + PollEvents(a, answer) == started;
    case Connected =>
      TallyExtend(started, Succeeded(a.sequence, a.addr), i);
      assert log + PollEvents(a, answer) == started + [Succeeded(a.sequence, a.addr)];
    case Refused =>
      TallyExtend(started, Failed(a.sequence, a.addr), i);
      assert log + PollEvents(a, answer) == started + [Failed(a.sequence, a.addr)];
  }

  lemma PolledBooked(r: Race, i: nat, answer: Poll)
    requires Inv(r) && i < |r.attempts| && !r.attempts[i].phase.Completed?
    ensures Shape(Polled(r, i, answer)) && Booked(Polled(r, i, answer))
  {
    PolledShape(r, i, answer);
    var r', a := Polled(r, i, answer), r.attempts[i];
    forall p | 0 <= p < |r'.attempts|
      ensures TallyOf(r'.log, r'.attempts[p].sequence) == Expected(r'.attempts[p].phase)
    {
      TallyPolled(r.log, a, answer, r.attempts[p].sequence);
    }
    forall j | 0 <= j < |r.addrs| && !InRace(r'.attempts, j)
      ensures TallyOf(r'.log, j) == TallyOf(r.log, j)
    {
      TallyPolled(r.log, a, answer, j);
    }
  }

  lemma LogExtend(log: seq<ObserverEvent>, addrs: seq<SocketAddr>, e: ObserverEvent)
    requires WellFormed(log, addrs)
    requires e.sequence < |addrs| && e.addr == addrs[e.sequence]
    requires e.Started? || Started(e.sequence, e.addr) in log
    ensures WellFormed(log + [e], addrs)
    ensures Starts(log + [e]) == Starts(log) + (if e.Started? then [e.sequence] else [])
    ensures e in log + [e]
  {
    StartsExtend(log, e);
    WellFormedExtend(log, addrs, e);
    assert (log + [e])[|log|] == e;
  }

  lemma PolledLog(log: seq<ObserverEvent>, addrs: seq<SocketAddr>, a: Attempt, answer: Poll)
    requires WellFormed(log, addrs) && a.sequence < |addrs| && a.addr == addrs[a.sequence]
    requires !a.phase.Completed? && TallyOf(log, a.sequence) == Expected(a.phase)
    ensures WellFormed(log + PollEvents(a, answer), addrs)
    ensures Starts(log + PollEvents(a, answer)) ==
            Starts(log) + (if a.phase.Unpolled? then [a.sequence] else [])
  {
    var start := Started(a.sequence, a.addr);
    var log1 := if a.phase.Unpolled? then log + [start] else log;
    if a.phase.Unpolled? {
      LogExtend(log, addrs, start);
    } else {
      StartedIsLogged(log, addrs, a.sequence);
    }
    PollEventsSplit(log, a, answer);
    if !answer.Pending? {
      LogExtend(log1, addrs, Ending(a, answer));
    }
  }

  function Ending(a: Attempt, answer: Poll): ObserverEvent {
    if answer.Connected? then Succeeded(a.sequence, a.addr) else Failed(a.sequence, a.addr)
  }

  lemma PollEventsSplit(log: seq<ObserverEvent>, a: Attempt, answer: Poll)
    ensures var log1 := if a.phase.Unpolled? then log + [Started(a.sequence, a.addr)] else log;
            log + PollEvents(a, answer) == if answer.Pending? then log1 else log1 + [Ending(a, answer)]
  {
  }

  lemma UpToExtend(n: nat)
    ensures UpTo(n) + [n] == UpTo(n + 1)
  {
  }

  lemma PolledKeepsInv(r: Race, i: nat, answer: Poll)
    requires Inv(r) && i < |r.attempts| && !r.attempts[i].phase.Completed?
    ensures Inv(Polled(r, i, answer))
  {
    PolledBooked(r, i, answer);
    PolledLog(r.log, r.addrs, r.attempts[i], answer);
    var r' := Polled(r, i, answer);
    assert Starts(r'.log) == UpTo(StartedCount(r')) by {
      PolledShape(r, i, answer);
      if r.attempts[i].phase.Unpolled? {
        assert HasUnpolled(r.attempts);
        UpToExtend(r.nextIdx - 1);
      }
    }
  }

  /** A race between two rounds: something is in flight, nothing in flight has completed. */
  ghost predicate InProgress(r: Race) {
    && Inv(r)
    && r.outcome.Racing?
    && r.attempts != []
    && r.delay == ArmedDelay(r.addrs, r.nextIdx)
    && (forall p | 0 <= p < |r.attempts| :: !r.attempts[p].phase.Completed?)
  }

  ghost predicate AllConnecting(attempts: seq<Attempt>, n: nat)
    requires n <= |attempts|
  {
    forall p | 0 <= p < n :: attempts[p].phase == Connecting
  }

  /** What a scan from `i` on leaves behind: everything before the ready attempt is connecting. */
  ghost predicate Scanned(r: Race, connect: seq<Poll>, polled: Race, ready: Option<nat>) {
    && |polled.attempts| == |r.attempts|
    && (forall p | 0 <= p < |r.attempts| :: polled.attempts[p].sequence == r.attempts[p].sequence)
    && (ready.None? ==> AllConnecting(polled.attempts, |polled.attempts|))
    && (ready.Some? ==>
          && ready.value < |r.attempts|
          && !Answer(connect, r.attempts[ready.value].sequence).Pending?
          && polled.attempts[ready.value].phase == PolledPhase(Answer(connect, r.attempts[ready.value].sequence))
          && (forall p | 0 <= p < |r.attempts| && p != ready.value :: !polled.attempts[p].phase.Completed?))
  }

  lemma {:induction false} PollFromScans(r: Race, connect: seq<Poll>, i: nat)
    requires i <= |r.attempts| && AllConnecting(r.attempts, i)
    requires forall p | i <= p < |r.attempts| :: !r.attempts[p].phase.Completed?
    ensures Scanned(r, connect, PollFrom(r, connect, i).0, PollFrom(r, connect, i).1)
    decreases |r.attempts| - i
  {
    if i < |r.attempts| {
      PollFromStep(r, connect, i);
      if Answer(connect, r.attempts[i].sequence).Pending? {
        PollFromScans(Polled(r, i, Pending), connect, i + 1);
      }
    }
  }

  lemma {:induction false} PollFromInv(r: Race, connect: seq<Poll>, i: nat)
    requires Inv(r) && i <= |r.attempts|
    requires forall p | i <= p < |r.attempts| :: !r.attempts[p].phase.Completed?
    ensures Inv(PollFrom(r, connect, i).0)
    decreases |r.attempts| - i
  {
    if i < |r.attempts| {
      PollFromStep(r, connect, i);
      PolledKeepsInv(r, i, Answer(connect, r.attempts[i].sequence));
      if Answer(connect, r.attempts[i].sequence).Pending? {
        PollFromInv(Polled(r, i, Pending), connect, i + 1);
      }
    }
  }

  /** A round's scan visits futures that have not completed, and stops at the first that is ready. */
  lemma PollFromKeepsInv(r: Race, connect: seq<Poll>)
    requires Inv(r) && forall p | 0 <= p < |r.attempts| :: !r.attempts[p].phase.Completed?
    ensures Inv(PollFrom(r, connect, 0).0)
    ensures Scanned(r, connect, PollFrom(r, connect, 0).0, PollFrom(r, connect, 0).1)
  {
    PollFromInv(r, connect, 0);
    PollFromScans(r, connect, 0);
  }

  lemma SwapRemoveKeeps(attempts: seq<Attempt>, index: nat)
    requires index < |attempts|
    requires forall p, q | 0 <= p < q < |attempts| :: attempts[p].sequence != attempts[q].sequence
    ensures var rest := SwapRemove(attempts, index);
            && |rest| == |attempts| - 1
            && (forall p | 0 <= p < |rest| :: rest[p] == attempts[if p == index then |attempts| - 1 else p])
            && (forall p, q | 0 <= p < q < |rest| :: rest[p].sequence != rest[q].sequence)
            && (forall i :: InRace(rest, i) <==> InRace(attempts, i) && i != attempts[index].sequence)
  {
    var rest := SwapRemove(attempts, index);
    forall i | InRace(attempts, i) && i != attempts[index].sequence
      ensures InRace(rest, i)
    {
      var p :| 0 <= p < |attempts| && attempts[p].sequence == i;
      assert rest[if p == |attempts| - 1 then index else p].sequence == i;
    }
    forall i | InRace(rest, i)
      ensures InRace(attempts, i) && i != attempts[index].sequence
    {
      var p :| 0 <= p < |rest| && rest[p].sequence == i;
    }
  }

  lemma UnpolledSurvives(attempts: seq<Attempt>, index: nat)
    requires index < |attempts| && !attempts[index].phase.Unpolled?
    ensures HasUnpolled(SwapRemove(attempts, index)) <==> HasUnpolled(attempts)
  {
    var rest := SwapRemove(attempts, index);
    if HasUnpolled(attempts) {
      var p :| 0 <= p < |attempts| && attempts[p].phase.Unpolled?;
      assert rest[if p == |attempts| - 1 then index else p].phase.Unpolled?;
    }
  }

  lemma RemoveFailedKeepsInv(r: Race, index: nat)
    requires Inv(r) && index < |r.attempts| && r.attempts[index].phase == Completed(false)
    ensures Inv(r.(attempts := SwapRemove(r.attempts, index)))
  {
    SwapRemoveKeeps(r.attempts, index);
    UnpolledSurvives(r.attempts, index);
  }

  lemma InRaceExtend(attempts: seq<Attempt>, a: Attempt, i: nat)
    ensures InRace(attempts + [a], i) <==> InRace(attempts, i) || i == a.sequence
  {
    var more := attempts + [a];
    assert more[|attempts|] == a;
    assert forall p | 0 <= p < |attempts| :: more[p] == attempts[p];
  }

  lemma LaunchBooked(r: Race)
    requires Shape(r) && Booked(r) && !HasUnpolled(r.attempts) && r.nextIdx < |r.addrs|
    ensures Shape(Launch(r)) && Booked(Launch(r))
  {
    var r' := Launch(r);
    var a := Attempt(r.nextIdx, r.addrs[r.nextIdx], Unpolled);
    assert forall p | 0 <= p < |r.attempts| :: r'.attempts[p] == r.attempts[p];
    assert !InRace(r.attempts, r.nextIdx);
    forall i | 0 <= i < |r.addrs|
      ensures InRace(r'.attempts, i) <==> InRace(r.attempts, i) || i == r.nextIdx
    {
      InRaceExtend(r.attempts, a, i);
    }
  }

  lemma LaunchKeepsInv(r: Race)
    requires Inv(r) && !HasUnpolled(r.attempts) && r.nextIdx < |r.addrs|
    ensures Inv(Launch(r))
  {
    LaunchBooked(r);
    assert Launch(r).attempts[|r.attempts|].phase.Unpolled?;
  }

  // ---------------------------------------------------------------------
  // Dropping what is in flight
  // ---------------------------------------------------------------------

  lemma DropAllStep(log: seq<ObserverEvent>, attempts: seq<Attempt>)
    requires attempts != []
    ensures log + DropAll(attempts) == (log + DropEvents(attempts[0])) + DropAll(attempts[1..])
  {
  }

  /** Dropping adds one cancellation to every attempt that was connecting, and nothing else. */
  lemma {:induction false} DropAllTally(log: seq<ObserverEvent>, attempts: seq<Attempt>, i: nat)
    requires forall p, q | 0 <= p < q < |attempts| :: attempts[p].sequence != attempts[q].sequence
    ensures var before, after := TallyOf(log, i), TallyOf(log + DropAll(attempts), i);
            if exists p :: 0 <= p < |attempts| && attempts[p].sequence == i && attempts[p].phase.Connecting?
            then after == before.(cancelled := before.cancelled + 1)
            else after == before
    decreases |attempts|
  {
    if attempts == [] {
      assert log + DropAll(attempts) == log;
    } else {
      var a := attempts[0];
      DropAllStep(log, attempts);
      TallyExtend(log, Cancelled(a.sequence, a.addr), i);
      assert !a.phase.Connecting? ==> log + DropEvents(a) == log;
      DropAllTally(log + DropEvents(a), attempts[1..], i);
      if p :| 0 <= p < |attempts| && attempts[p].sequence == i && attempts[p].phase.Connecting? {
        assert p > 0 ==> attempts[1..][p - 1] == attempts[p];
      }
    }
  }

  lemma {:induction false} DropAllLog(log: seq<ObserverEvent>, addrs: seq<SocketAddr>, attempts: seq<Attempt>)
    requires WellFormed(log, addrs)
    requires forall p | 0 <= p < |attempts| ::
               && attempts[p].sequence < |addrs| && attempts[p].addr == addrs[attempts[p].sequence]
               && (attempts[p].phase.Connecting? ==> Started(attempts[p].sequence, attempts[p].addr) in log)
    ensures WellFormed(log + DropAll(attempts), addrs)
    ensures Starts(log + DropAll(attempts)) == Starts(log)
    decreases |attempts|
  {
    if attempts == [] {
      assert log + DropAll(attempts) == log;
    } else {
      var a := attempts[0];
      var cancelled := Cancelled(a.sequence, a.addr);
      DropAllStep(log, attempts);
      if a.phase.Connecting? {
        StartsExtend(log, cancelled);
        WellFormedExtend(log, addrs, cancelled);
      } else {
        assert log + DropEvents(a) == log;
      }
      DropAllLog(log + DropEvents(a), addrs, attempts[1..]);
    }
  }

  // ---------------------------------------------------------------------
  // A race that returned, or whose caller was dropped
  // ---------------------------------------------------------------------

  /** Attempts below `k` started and ended exactly once; the others left no trace. */
  ghost predicate ClosedBooks(log: seq<ObserverEvent>, addrs: seq<SocketAddr>, k: nat) {
    && k <= |addrs|
    && WellFormed(log, addrs)
    && Starts(log) == UpTo(k)
    && (forall i | 0 <= i < k :: TallyOf(log, i).started == 1 && TallyOf(log, i).Ended() == 1)
    && (forall i | k <= i < |addrs| :: TallyOf(log, i) == Tally(0, 0, 0, 0))
  }

  ghost predicate Finished(r: Race) {
    && r.attempts == []
    && ClosedBooks(r.log, r.addrs, |Starts(r.log)|)
    && match r.outcome
       case Racing => false
       case Won(s, addr) =>
         && s < |r.addrs| && addr == r.addrs[s]
         && (forall i | 0 <= i < |r.addrs| :: TallyOf(r.log, i).succeeded == if i == s then 1 else 0)
       case Exhausted =>
         forall i | 0 <= i < |r.addrs| :: TallyOf(r.log, i) == Tally(1, 0, 1, 0)
       case Abandoned =>
         forall i | 0 <= i < |r.addrs| :: TallyOf(r.log, i).succeeded == 0
  }

  lemma StartedCountBounds(r: Race, i: nat)
    requires Inv(r) && i < |r.addrs|
    ensures i < StartedCount(r) <==> TallyOf(r.log, i).started == 1
    ensures i >= StartedCount(r) ==> TallyOf(r.log, i) == Tally(0, 0, 0, 0)
  {
    if HasUnpolled(r.attempts) {
      var p :| 0 <= p < |r.attempts| && r.attempts[p].phase.Unpolled?;
      assert InRace(r.attempts, r.nextIdx - 1);
    }
    if InRace(r.attempts, i) {
      var p :| 0 <= p < |r.attempts| && r.attempts[p].sequence == i;
      assert r.attempts[p].phase.Unpolled? ==> HasUnpolled(r.attempts);
    }
  }

  /** An attempt in flight whose log entries match its phase. */
  ghost predicate Open(log: seq<ObserverEvent>, addrs: seq<SocketAddr>, a: Attempt) {
    && a.sequence < |addrs|
    && a.addr == addrs[a.sequence]
    && !a.phase.Completed?
    && TallyOf(log, a.sequence) == Expected(a.phase)
  }

  lemma DropLog(log: seq<ObserverEvent>, addrs: seq<SocketAddr>, rest: seq<Attempt>)
    requires WellFormed(log, addrs) && forall p | 0 <= p < |rest| :: Open(log, addrs, rest[p])
    ensures WellFormed(log + DropAll(rest), addrs)
    ensures Starts(log + DropAll(rest)) == Starts(log)
  {
    forall p | 0 <= p < |rest|
      ensures rest[p].sequence < |addrs| && rest[p].addr == addrs[rest[p].sequence]
      ensures rest[p].phase.Connecting? ==> Started(rest[p].sequence, rest[p].addr) in log
    {
      assert Open(log, addrs, rest[p]);
      if rest[p].phase.Connecting? {
        StartedIsLogged(log, addrs, rest[p].sequence);
      }
    }
    DropAllLog(log, addrs, rest);
  }

  /** Once `rest` is dropped, a started attempt that had not ended is cancelled. */
  lemma DropTally(log: seq<ObserverEvent>, addrs: seq<SocketAddr>, rest: seq<Attempt>, i: nat)
    requires forall p | 0 <= p < |rest| :: Open(log, addrs, rest[p])
    requires forall p, q | 0 <= p < q < |rest| :: rest[p].sequence != rest[q].sequence
    requires InRace(rest, i) || TallyOf(log, i).Ended() == TallyOf(log, i).started
    ensures var t, t' := TallyOf(log, i), TallyOf(log + DropAll(rest), i);
            t' == t.(cancelled := t'.cancelled) && t'.Ended() == t'.started
  {
    DropAllTally(log, rest, i);
    if InRace(rest, i) {
      var p :| 0 <= p < |rest| && rest[p].sequence == i;
      assert Open(log, addrs, rest[p]);
    }
  }

  /** The books an open race keeps on attempt `i`, of which the first `k` have started. */
  ghost predicate OpenSlot(log: seq<ObserverEvent>, rest: seq<Attempt>, i: nat, k: int) {
    var t := TallyOf(log, i);
    && (if i < k then t.started == 1 else t == Tally(0, 0, 0, 0))
    && (InRace(rest, i) || t.Ended() == t.started)
  }

  lemma SlotOfRace(r: Race, i: nat)
    requires Inv(r) && i < |r.addrs|
    ensures InRace(r.attempts, i) || TallyOf(r.log, i).Ended() == TallyOf(r.log, i).started
    ensures if i < StartedCount(r) then TallyOf(r.log, i).started == 1 else TallyOf(r.log, i) == Tally(0, 0, 0, 0)
  {
    StartedCountBounds(r, i);
  }

  ghost predicate ClosedSlot(before: Tally, after: Tally, started: bool) {
    && after.succeeded == before.succeeded
    && (started ==> after.started == 1 && after.Ended() == 1)
    && (!started ==> after == Tally(0, 0, 0, 0))
  }

  lemma ClosesSlot(before: Tally, after: Tally, started: bool)
    requires if started then before.started == 1 else before == Tally(0, 0, 0, 0)
    requires after == before.(cancelled := after.cancelled) && after.Ended() == after.started
    ensures ClosedSlot(before, after, started)
  {
  }

  /** The books close when everything in flight, except a completed winner, is dropped. */
  lemma DropCloses(log: seq<ObserverEvent>, addrs: seq<SocketAddr>, rest: seq<Attempt>, k: nat)
    requires WellFormed(log, addrs) && Starts(log) == UpTo(k) && k <= |addrs|
    requires forall p | 0 <= p < |rest| :: Open(log, addrs, rest[p])
    requires forall p, q | 0 <= p < q < |rest| :: rest[p].sequence != rest[q].sequence
    requires forall i: nat | i < |addrs| :: OpenSlot(log, rest, i, k)
    ensures var log' := log + DropAll(rest);
            && ClosedBooks(log', addrs, |Starts(log')|)
            && (forall i: nat | i < |addrs| :: TallyOf(log', i).succeeded == TallyOf(log, i).succeeded)
  {
    var log' := log + DropAll(rest);
    DropLog(log, addrs, rest);
    forall i: nat | i < |addrs|
      ensures ClosedSlot(TallyOf(log, i), TallyOf(log', i), i < k)
    {
      assert OpenSlot(log, rest, i, k);
      DropTally(log, addrs, rest, i);
      ClosesSlot(TallyOf(log, i), TallyOf(log', i), i < k);
    }
    assert |UpTo(k)| == k;
  }

  /** Dropping `rest` finishes a race that has no other attempt in flight. */
  lemma DropFinishes(r: Race, rest: seq<Attempt>, k: nat, outcome: Outcome)
    requires outcome.Won? || outcome.Abandoned?
    requires WellFormed(r.log, r.addrs) && Starts(r.log) == UpTo(k) && k <= |r.addrs|
    requires forall p | 0 <= p < |rest| :: Open(r.log, r.addrs, rest[p])
    requires forall p, q | 0 <= p < q < |rest| :: rest[p].sequence != rest[q].sequence
    requires forall i: nat | i < |r.addrs| :: OpenSlot(r.log, rest, i, k)
    requires outcome.Won? ==> outcome.sequence < |r.addrs| && outcome.addr == r.addrs[outcome.sequence]
    requires forall i: nat | i < |r.addrs| ::
               TallyOf(r.log, i).succeeded == if outcome.Won? && outcome.sequence == i then 1 else 0
    ensures Finished(r.(attempts := [], log := r.log + DropAll(rest), outcome := outcome))
  {
    DropCloses(r.log, r.addrs, rest, k);
  }

  lemma AbandonSlots(r: Race)
    requires InProgress(r)
    ensures forall p | 0 <= p < |r.attempts| :: Open(r.log, r.addrs, r.attempts[p])
    ensures forall i: nat | i < |r.addrs| ::
              OpenSlot(r.log, r.attempts, i, StartedCount(r)) && TallyOf(r.log, i).succeeded == 0
  {
    forall i: nat | i < |r.addrs|
      ensures OpenSlot(r.log, r.attempts, i, StartedCount(r)) && TallyOf(r.log, i).succeeded == 0
    {
      SlotOfRace(r, i);
      NobodyWonYet(r, i);
    }
  }

  lemma AbandonFinishes(r: Race)
    requires InProgress(r)
    ensures Finished(r.(attempts := [], log := r.log + DropAll(r.attempts), outcome := Abandoned))
  {
    AbandonSlots(r);
    DropFinishes(r, r.attempts, StartedCount(r), Abandoned);
  }

  lemma NobodyWonYet(r: Race, i: nat)
    requires Inv(r) && i < |r.addrs|
    requires forall p | 0 <= p < |r.attempts| && r.attempts[p].sequence == i :: r.attempts[p].phase != Completed(true)
    ensures TallyOf(r.log, i).succeeded == 0
  {
    if InRace(r.attempts, i) {
      var p :| 0 <= p < |r.attempts| && r.attempts[p].sequence == i;
    }
  }

  lemma WinSlot(r: Race, index: nat, i: nat)
    requires Inv(r) && index < |r.attempts| && r.attempts[index].phase == Completed(true)
    requires forall p | 0 <= p < |r.attempts| && p != index :: !r.attempts[p].phase.Completed?
    requires i < |r.addrs|
    ensures OpenSlot(r.log, SwapRemove(r.attempts, index), i, StartedCount(r))
    ensures TallyOf(r.log, i).succeeded == if i == r.attempts[index].sequence then 1 else 0
  {
    SwapRemoveKeeps(r.attempts, index);
    SlotOfRace(r, i);
    if i != r.attempts[index].sequence {
      NobodyWonYet(r, i);
    }
  }

  lemma WinSlots(r: Race, index: nat)
    requires Inv(r) && index < |r.attempts| && r.attempts[index].phase == Completed(true)
    requires forall p | 0 <= p < |r.attempts| && p != index :: !r.attempts[p].phase.Completed?
    ensures forall i: nat | i < |r.addrs| ::
              && OpenSlot(r.log, SwapRemove(r.attempts, index), i, StartedCount(r))
              && TallyOf(r.log, i).succeeded == if i == r.attempts[index].sequence then 1 else 0
  {
    forall i: nat | i < |r.addrs|
      ensures OpenSlot(r.log, SwapRemove(r.attempts, index), i, StartedCount(r))
      ensures TallyOf(r.log, i).succeeded == if i == r.attempts[index].sequence then 1 else 0
    {
      WinSlot(r, index, i);
    }
  }

  lemma WinOpen(r: Race, index: nat)
    requires Inv(r) && index < |r.attempts|
    requires forall p | 0 <= p < |r.attempts| && p != index :: !r.attempts[p].phase.Completed?
    ensures var rest := SwapRemove(r.attempts, index);
            && (forall p | 0 <= p < |rest| :: Open(r.log, r.addrs, rest[p]))
            && (forall p, q | 0 <= p < q < |rest| :: rest[p].sequence != rest[q].sequence)
  {
    SwapRemoveKeeps(r.attempts, index);
    var rest := SwapRemove(r.attempts, index);
    forall p | 0 <= p < |rest|
      ensures Open(r.log, r.addrs, rest[p])
    {
      assert rest[p] == r.attempts[if p == index then |r.attempts| - 1 else p];
    }
  }

  lemma WinFinishes(r: Race, index: nat)
    requires Inv(r) && index < |r.attempts| && r.attempts[index].phase == Completed(true)
    requires forall p | 0 <= p < |r.attempts| && p != index :: !r.attempts[p].phase.Completed?
    ensures Finished(OnAttempt(r, index, Connected))
  {
    var a := r.attempts[index];
    WinSlots(r, index);
    WinOpen(r, index);
    DropFinishes(r, SwapRemove(r.attempts, index), StartedCount(r), Won(a.sequence, a.addr));
  }

  lemma ExhaustedFinishes(r: Race)
    requires Inv(r) && r.attempts == [] && r.nextIdx == |r.addrs|
    ensures Finished(r.(outcome := Exhausted))
  {
    assert forall i :: !InRace(r.attempts, i);
  }

  // ---------------------------------------------------------------------
  // Every run
  // ---------------------------------------------------------------------

  lemma OnAttemptProgress(r: Race, index: nat, answer: Poll)
    requires Inv(r) && r.outcome.Racing? && r.delay == ArmedDelay(r.addrs, r.nextIdx)
    requires index < |r.attempts| && !answer.Pending? && r.attempts[index].phase == PolledPhase(answer)
    requires forall p | 0 <= p < |r.attempts| && p != index :: !r.attempts[p].phase.Completed?
    ensures var r' := OnAttempt(r, index, answer);
            InProgress(r') || Finished(r')
  {
    if answer.Connected? {
      WinFinishes(r, index);
    } else {
      var rest := r.(attempts := SwapRemove(r.attempts, index));
      SwapRemoveKeeps(r.attempts, index);
      RemoveFailedKeepsInv(r, index);
      if rest.attempts == [] {
        if rest.nextIdx >= |rest.addrs| {
          ExhaustedFinishes(rest);
        } else {
          LaunchKeepsInv(rest);
        }
      }
    }
  }

  lemma OnDelayProgress(r: Race)
    requires Inv(r) && r.outcome.Racing? && r.nextIdx < |r.addrs|
    requires AllConnecting(r.attempts, |r.attempts|)
    ensures InProgress(OnDelay(r))
  {
    LaunchKeepsInv(r);
  }

  lemma StepProgress(r: Race, input: Input)
    requires InProgress(r)
    ensures InProgress(Step(r, input)) || Finished(Step(r, input))
  {
    match input
    case DropCaller =>
      AbandonFinishes(r);
    case Round(connect, timer) =>
      PollFromKeepsInv(r, connect);
      var (polled, ready) := PollFrom(r, connect, 0);
      if ready.Some? {
        OnAttemptProgress(polled, ready.value, Answer(connect, r.attempts[ready.value].sequence));
      } else if polled.delay.Sleep? && timer {
        OnDelayProgress(polled.(delay := Sleep(true)));
      }
  }

  lemma StartInProgress(addrs: seq<SocketAddr>)
    requires addrs != []
    ensures InProgress(Start(addrs))
  {
    var empty := Race(addrs, [], 0, Never, [], Racing);
    assert forall i :: !InRace(empty.attempts, i);
    assert UpTo(0) == [];
    LaunchKeepsInv(empty);
  }

  lemma {:induction false} RunInvariant(addrs: seq<SocketAddr>, inputs: seq<Input>)
    requires addrs != []
    ensures InProgress(Run(addrs, inputs)) || Finished(Run(addrs, inputs))
    ensures Run(addrs, inputs).addrs == addrs
  {
    if inputs == [] {
      StartInProgress(addrs);
    } else {
      var front := inputs[..|inputs| - 1];
      RunInvariant(addrs, front);
      if InProgress(Run(addrs, front)) {
        StepProgress(Run(addrs, front), inputs[|inputs| - 1]);
      }
    }
  }

  lemma OpenBooks(r: Race, i: nat)
    requires InProgress(r) && i < |r.addrs|
    ensures TallyOf(r.log, i).started == if i < StartedCount(r) then 1 else 0
    ensures TallyOf(r.log, i).Ended() <= TallyOf(r.log, i).started && TallyOf(r.log, i).succeeded == 0
  {
    StartedCountBounds(r, i);
    NobodyWonYet(r, i);
    if InRace(r.attempts, i) {
      var p :| 0 <= p < |r.attempts| && r.attempts[p].sequence == i;
    }
  }

  /**
   Every run, cut anywhere: attempts start in order, end at most once, and have all ended exactly
   once when the race returned or its caller was dropped.
   */
  lemma RaceAccounting(addrs: seq<SocketAddr>, inputs: seq<Input>, i: nat)
    requires i < |addrs|
    ensures var r := Run(addrs, inputs);
            var k, t := |Starts(r.log)|, TallyOf(r.log, i);
            && WellFormed(r.log, addrs)
            && Starts(r.log) == UpTo(k)
            && t.started == (if i < k then 1 else 0)
            && t.Ended() <= t.started
            && (!r.outcome.Racing? ==> t.Ended() == t.started)
            && t.succeeded == (if r.outcome.Won? && r.outcome.sequence == i then 1 else 0)
  {
    RunInvariant(addrs, inputs);
    var r := Run(addrs, inputs);
    if r.outcome.Racing? {
      OpenBooks(r, i);
      assert |UpTo(StartedCount(r))| == StartedCount(r);
    }
  }

  /** The outcome is earned: a win names its attempt, an error follows the failure of every address. */
  lemma RaceOutcome(addrs: seq<SocketAddr>, inputs: seq<Input>)
    requires addrs != []
    ensures var r := Run(addrs, inputs);
            && (r.outcome.Won? ==>
                  && r.outcome.sequence < |addrs|
                  && r.outcome.addr == addrs[r.outcome.sequence]
                  && TallyOf(r.log, r.outcome.sequence) == Tally(1, 1, 0, 0))
            && (r.outcome.Exhausted? ==> forall i | 0 <= i < |addrs| :: TallyOf(r.log, i) == Tally(1, 0, 1, 0))
            && (r.outcome.Abandoned? ==> DropCaller in inputs)
  {
    RunInvariant(addrs, inputs);
    var r := Run(addrs, inputs);
    match r.outcome
    case Racing =>
    case Won(s, _) =>
      WinnerTally(r, s);
    case Exhausted =>
    case Abandoned =>
      AbandonedWasDropped(addrs, inputs);
  }

  lemma WinnerTally(r: Race, s: nat)
    requires Finished(r) && r.outcome.Won? && r.outcome.sequence == s
    ensures TallyOf(r.log, s) == Tally(1, 1, 0, 0)
  {
    assert TallyOf(r.log, s).succeeded == 1;
  }

  lemma {:induction false} AbandonedWasDropped(addrs: seq<SocketAddr>, inputs: seq<Input>)
    requires addrs != [] && Run(addrs, inputs).outcome.Abandoned?
    ensures DropCaller in inputs
  {
    if inputs != [] && inputs[|inputs| - 1] != DropCaller {
      AbandonedWasDropped(addrs, inputs[..|inputs| - 1]);
    }
  }

  // ---------------------------------------------------------------------
  // Termination and poll discipline
  // ---------------------------------------------------------------------

  function Measure(r: Race): int {
    2 * (|r.addrs| - r.nextIdx) + |r.attempts|
  }

  /** The round produces an event instead of leaving the caller pending. */
  predicate Productive(r: Race, input: Input) {
    && r.outcome.Racing?
    && input.Round?
    && (PollFrom(r, input.connect, 0).1.Some? || (r.delay.Sleep? && input.timer))
  }

  /** Every event that does not end the race shrinks the measure; a pending round leaves it alone. */
  lemma RoundMeasure(r: Race, input: Input)
    requires r.outcome.Racing? && r.attempts != []
    requires r.nextIdx <= |r.addrs| && r.delay == ArmedDelay(r.addrs, r.nextIdx)
    requires Step(r, input).outcome.Racing?
    ensures Measure(Step(r, input)) >= 1
    ensures if Productive(r, input) then Measure(Step(r, input)) < Measure(r) else Measure(Step(r, input)) == Measure(r)
  {
  }

  function Events(addrs: seq<SocketAddr>, inputs: seq<Input>): nat
    requires addrs != []
  {
    if inputs == [] then 0
    else
      var front := inputs[..|inputs| - 1];
      Events(addrs, front) + (if Productive(Run(addrs, front), inputs[|inputs| - 1]) then 1 else 0)
  }

  /** A race over n addresses handles at most 2n - 1 events, whatever the environment answers. */
  lemma {:induction false} RaceTerminates(addrs: seq<SocketAddr>, inputs: seq<Input>)
    requires addrs != []
    ensures var r := Run(addrs, inputs);
            Events(addrs, inputs) + (if r.outcome.Racing? then Measure(r) else 0) <= 2 * |addrs| - 1
  {
    if inputs != [] {
      var front, input := inputs[..|inputs| - 1], inputs[|inputs| - 1];
      RaceTerminates(addrs, front);
      RunInvariant(addrs, front);
      if Run(addrs, inputs).outcome.Racing? {
        RoundMeasure(Run(addrs, front), input);
      }
    }
  }

  /** Between rounds no future that will be polled has completed, and the sleep runs iff candidates remain. */
  lemma PollDiscipline(addrs: seq<SocketAddr>, inputs: seq<Input>)
    requires addrs != [] && Run(addrs, inputs).outcome.Racing?
    ensures var r := Run(addrs, inputs);
            && r.attempts != []
            && (forall p | 0 <= p < |r.attempts| :: !r.attempts[p].phase.Completed?)
            && (forall p, q | 0 <= p < q < |r.attempts| :: r.attempts[p].sequence != r.attempts[q].sequence)
            && r.delay == if r.nextIdx < |addrs| then Sleep(false) else Never
  {
    RunInvariant(addrs, inputs);
  }

  lemma PollFromStep(r: Race, connect: seq<Poll>, i: nat)
    requires i < |r.attempts|
    ensures var answer := Answer(connect, r.attempts[i].sequence);
            PollFrom(r, connect, i) ==
            if answer.Pending? then PollFrom(Polled(r, i, answer), connect, i + 1) else (Polled(r, i, answer), Some(i))
  {
  }

  /** The environment answers the attempt number `s` with `answer` in this round. */
  ghost predicate Says(connect: seq<Poll>, s: nat, answer: Poll) {
    s < |connect| && connect[s] == answer
  }

  /** The attempt number `s` has nothing to report in this round. */
  ghost predicate Silent(connect: seq<Poll>, s: nat) {
    s < |connect| ==> connect[s] == Pending
  }

  ghost predicate AllPending(attempts: seq<Attempt>, connect: seq<Poll>, i: nat)
    requires i <= |attempts|
  {
    forall p | i <= p < |attempts| :: Silent(connect, attempts[p].sequence)
  }

  lemma {:induction false} ReadyIffNotPending(r: Race, connect: seq<Poll>, i: nat)
    requires i <= |r.attempts|
    ensures PollFrom(r, connect, i).1.None? <==> AllPending(r.attempts, connect, i)
    decreases |r.attempts| - i
  {
    if i < |r.attempts| {
      var answer := Answer(connect, r.attempts[i].sequence);
      if answer.Pending? {
        var r' := Polled(r, i, answer);
        ReadyIffNotPending(r', connect, i + 1);
        assert forall p | i < p < |r.attempts| :: r'.attempts[p] == r.attempts[p];
      }
    }
  }

  /** A new attempt is launched only when the delay elapses over pending attempts or nothing is left in flight. */
  lemma LaunchDiscipline(r: Race, connect: seq<Poll>, timer: bool)
    requires InProgress(r) && PlayRound(r, connect, timer).nextIdx != r.nextIdx
    ensures PlayRound(r, connect, timer).nextIdx == r.nextIdx + 1
    ensures || (timer && r.delay == Sleep(false) && AllPending(r.attempts, connect, 0))
            || (|r.attempts| == 1 && Says(connect, r.attempts[0].sequence, Refused))
  {
    ReadyIffNotPending(r, connect, 0);
    PollFromScans(r, connect, 0);
  }
}
