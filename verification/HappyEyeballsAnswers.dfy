/**
 What a race makes of the answers of its connect futures: which round decides what, and that every
 report and every outcome goes back to an answer of the environment.
 */
module HappyEyeballsAnswers {
  import opened Common
  import opened HappyEyeballs
  import opened HappyEyeballsRuns

  // ---------------------------------------------------------------------
  // One round
  // ---------------------------------------------------------------------

  /** The attempt at `p` is the first in the list, from `i` on, that has something to report. */
  ghost predicate FirstReady(attempts: seq<Attempt>, connect: seq<Poll>, i: nat, p: nat) {
    && i <= p < |attempts|
    && !Silent(connect, attempts[p].sequence)
    && (forall q | i <= q < p :: Silent(connect, attempts[q].sequence))
  }

  ghost predicate SameAttempt(a: Attempt, b: Attempt) {
    a.sequence == b.sequence && a.addr == b.addr
  }

  lemma {:induction false} ScanStopsAtFirst(r: Race, connect: seq<Poll>, i: nat, p: nat)
    requires FirstReady(r.attempts, connect, i, p)
    ensures PollFrom(r, connect, i).1 == Some(p)
    decreases |r.attempts| - i
  {
    PollFromStep(r, connect, i);
    if i < p {
      var r' := Polled(r, i, Pending);
      assert forall q | i < q < |r.attempts| :: r'.attempts[q] == r.attempts[q];
      ScanStopsAtFirst(r', connect, i + 1, p);
    }
  }

  lemma {:induction false} ScanKeepsAttempts(r: Race, connect: seq<Poll>, i: nat)
    requires i <= |r.attempts|
    ensures forall q | 0 <= q < |r.attempts| :: SameAttempt(PollFrom(r, connect, i).0.attempts[q], r.attempts[q])
    decreases |r.attempts| - i
  {
    if i < |r.attempts| {
      PollFromStep(r, connect, i);
      var answer := Answer(connect, r.attempts[i].sequence);
      ScanKeepsAttempts(Polled(r, i, answer), connect, i + 1);
    }
  }

  /** The list without the attempt at `p`, whose place the last one takes. */
  ghost predicate Removed(before: seq<Attempt>, p: nat, after: seq<Attempt>) {
    && p < |before|
    && |after| == |before| - 1
    && forall q | 0 <= q < |after| :: SameAttempt(after[q], before[if q == p then |before| - 1 else q])
  }

  /** The list with the next candidate launched at its end. */
  ghost predicate Launched(before: seq<Attempt>, addrs: seq<SocketAddr>, next: nat, after: seq<Attempt>)
    requires next < |addrs|
  {
    && |after| == |before| + 1
    && (forall q | 0 <= q < |before| :: SameAttempt(after[q], before[q]))
    && after[|before|] == Attempt(next, addrs[next], Unpolled)
  }

  /** A round in which the first attempt to report has connected is won by that attempt. */
  lemma ConnectedWins(r: Race, connect: seq<Poll>, timer: bool, p: nat)
    requires r.outcome.Racing? && FirstReady(r.attempts, connect, 0, p)
    requires Says(connect, r.attempts[p].sequence, Connected)
    ensures Step(r, Round(connect, timer)).outcome == Won(r.attempts[p].sequence, r.attempts[p].addr)
    ensures Step(r, Round(connect, timer)).attempts == []
  {
    ScanStopsAtFirst(r, connect, 0, p);
    ScanKeepsAttempts(r, connect, 0);
  }

  /** A round in which the first attempt to report was refused removes it, launches only into an empty list, and fails only when nothing is left. */
  lemma RefusedIsRemoved(r: Race, connect: seq<Poll>, timer: bool, p: nat)
    requires r.outcome.Racing? && FirstReady(r.attempts, connect, 0, p)
    requires Says(connect, r.attempts[p].sequence, Refused)
    ensures var r' := Step(r, Round(connect, timer));
            && (|r.attempts| > 1 ==>
                  r'.outcome == Racing && Removed(r.attempts, p, r'.attempts) && r'.nextIdx == r.nextIdx)
            && (|r.attempts| == 1 && r.nextIdx < |r.addrs| ==>
                  r'.outcome == Racing && Launched([], r.addrs, r.nextIdx, r'.attempts) && r'.nextIdx == r.nextIdx + 1)
            && (|r.attempts| == 1 && r.nextIdx >= |r.addrs| ==> r'.outcome == Exhausted && r'.attempts == [])
  {
    ScanStopsAtFirst(r, connect, 0, p);
    ScanKeepsAttempts(r, connect, 0);
  }

  /** A round in which nobody reports launches the next candidate exactly when the delay has elapsed. */
  lemma SilenceWaits(r: Race, connect: seq<Poll>, timer: bool)
    requires r.outcome.Racing? && AllPending(r.attempts, connect, 0)
    requires r.delay == if r.nextIdx < |r.addrs| then Sleep(false) else Never
    ensures var r' := Step(r, Round(connect, timer));
            && r'.outcome == Racing
            && (if timer && r.nextIdx < |r.addrs|
                then Launched(r.attempts, r.addrs, r.nextIdx, r'.attempts) && r'.nextIdx == r.nextIdx + 1
                else && |r'.attempts| == |r.attempts|
                     && (forall q | 0 <= q < |r.attempts| :: SameAttempt(r'.attempts[q], r.attempts[q]))
                     && r'.nextIdx == r.nextIdx && r'.delay == r.delay)
  {
    ReadyIffNotPending(r, connect, 0);
    ScanKeepsAttempts(r, connect, 0);
  }

  // ---------------------------------------------------------------------
  // Every run
  // ---------------------------------------------------------------------

  /** Some round of the run answered the attempt number `s` with `answer`. */
  ghost predicate Answered(inputs: seq<Input>, s: nat, answer: Poll) {
    exists k :: 0 <= k < |inputs| && inputs[k].Round? && Says(inputs[k].connect, s, answer)
  }

  /** The report goes back to an answer. */
  ghost predicate Caused(e: ObserverEvent, inputs: seq<Input>) {
    match e
    case Started(_, _) => true
    case Succeeded(s, _) => Answered(inputs, s, Connected)
    case Failed(s, _) => Answered(inputs, s, Refused)
    case Cancelled(_, _) => true
  }

  lemma {:induction false} ScanReportsAnswers(r: Race, connect: seq<Poll>, i: nat, e: ObserverEvent)
    requires i <= |r.attempts| && e in PollFrom(r, connect, i).0.log && e !in r.log
    ensures e.Succeeded? ==> Says(connect, e.sequence, Connected)
    ensures e.Failed? ==> Says(connect, e.sequence, Refused)
    decreases |r.attempts| - i
  {
    if i < |r.attempts| {
      PollFromStep(r, connect, i);
      var answer := Answer(connect, r.attempts[i].sequence);
      var r' := Polled(r, i, answer);
      if answer.Pending? && e !in r'.log {
        ScanReportsAnswers(r', connect, i + 1, e);
      }
    }
  }

  lemma {:induction false} DropsOnlyCancel(attempts: seq<Attempt>, e: ObserverEvent)
    requires e in DropAll(attempts)
    ensures e.Cancelled?
  {
    if e !in DropEvents(attempts[0]) {
      DropsOnlyCancel(attempts[1..], e);
    }
  }

  lemma StepReportsAnswers(r: Race, input: Input, e: ObserverEvent)
    requires e in Step(r, input).log && e !in r.log && (e.Succeeded? || e.Failed?)
    ensures input.Round? && Says(input.connect, e.sequence, if e.Succeeded? then Connected else Refused)
  {
    match input
    case DropCaller =>
      if e in DropAll(r.attempts) {
        DropsOnlyCancel(r.attempts, e);
      }
    case Round(connect, timer) =>
      var (polled, ready) := PollFrom(r, connect, 0);
      if e in polled.log {
        ScanReportsAnswers(r, connect, 0, e);
      } else {
        DropsOnlyCancel(SwapRemove(polled.attempts, ready.value), e);
      }
  }

  lemma AnsweredBefore(inputs: seq<Input>, s: nat, answer: Poll)
    requires inputs != [] && Answered(inputs[..|inputs| - 1], s, answer)
    ensures Answered(inputs, s, answer)
  {
    var front := inputs[..|inputs| - 1];
    var k :| 0 <= k < |front| && front[k].Round? && Says(front[k].connect, s, answer);
    assert inputs[k] == front[k];
  }

  /** Every success and every failure reported in a run was answered in one of its rounds. */
  lemma {:induction false} ReportsAreAnswered(addrs: seq<SocketAddr>, inputs: seq<Input>, e: ObserverEvent)
    requires addrs != [] && e in Run(addrs, inputs).log
    ensures Caused(e, inputs)
  {
    if inputs != [] && (e.Succeeded? || e.Failed?) {
      var front, input := inputs[..|inputs| - 1], inputs[|inputs| - 1];
      if e in Run(addrs, front).log {
        ReportsAreAnswered(addrs, front, e);
        AnsweredBefore(inputs, e.sequence, if e.Succeeded? then Connected else Refused);
      } else {
        StepReportsAnswers(Run(addrs, front), input, e);
        assert Says(inputs[|inputs| - 1].connect, e.sequence, if e.Succeeded? then Connected else Refused);
      }
    }
  }

  lemma {:induction false} TalliedIsLogged(log: seq<ObserverEvent>, i: nat) returns (e: ObserverEvent)
    requires TallyOf(log, i).succeeded > 0 || TallyOf(log, i).failed > 0
    ensures e in log && e.sequence == i
    ensures if TallyOf(log, i).succeeded > 0 then e.Succeeded? else e.Failed?
  {
    var front := log[..|log| - 1];
    e := log[|log| - 1];
    var wanted := TallyOf(log, i).succeeded > 0;
    if !(e.sequence == i && (if wanted then e.Succeeded? else e.Failed?)) {
      e := TalliedIsLogged(front, i);
    }
  }

  /** The outcome of a race goes back to the answers: a win to a connection, an error to a refusal by every address. */
  lemma OutcomeIsAnswered(addrs: seq<SocketAddr>, inputs: seq<Input>)
    requires addrs != []
    ensures var outcome := Run(addrs, inputs).outcome;
            && (outcome.Won? ==>
                  && outcome.sequence < |addrs| && outcome.addr == addrs[outcome.sequence]
                  && Answered(inputs, outcome.sequence, Connected))
            && (outcome.Exhausted? ==> forall i: nat | i < |addrs| :: Answered(inputs, i, Refused))
  {
    RaceOutcome(addrs, inputs);
    var r := Run(addrs, inputs);
    if r.outcome.Won? {
      var e := TalliedIsLogged(r.log, r.outcome.sequence);
      ReportsAreAnswered(addrs, inputs, e);
    } else if r.outcome.Exhausted? {
      forall i: nat | i < |addrs|
        ensures Answered(inputs, i, Refused)
      {
        var e := TalliedIsLogged(r.log, i);
        ReportsAreAnswered(addrs, inputs, e);
      }
    }
  }
}
