/** The race loop as the source runs it: fields updated in place, proved against `Step`. */
module HappyEyeballsRacer {
  import opened Common
  import opened HappyEyeballs
  import opened HappyEyeballsRuns

  class Racer {
    const addrs: seq<SocketAddr>
    var attempts: seq<Attempt>
    var nextIdx: nat
    var delay: Delay
    var log: seq<ObserverEvent>
    var outcome: Outcome

    ghost function Abstract(): Race
      reads this
    {
      Race(addrs, attempts, nextIdx, delay, log, outcome)
    }

    /** A pending caller can be polled again, and what it polls has not completed. */
    ghost predicate Valid()
      reads this
    {
      InProgress(Abstract()) || Finished(Abstract())
    }

    constructor (addrs: seq<SocketAddr>)
      requires addrs != []
      ensures Valid() && this.addrs == addrs && Abstract() == Start(addrs)
    {
      this.addrs := addrs;
      attempts := [Attempt(0, addrs[0], Unpolled)];
      nextIdx := 1;
      delay := if 1 < |addrs| then Sleep(false) else Never;
      log := [];
      outcome := Racing;
      new;
      StartInProgress(addrs);
    }

    /** One poll of the attempt future at `index`; a completed future must not be polled. */
    method PollAttempt(index: nat, answer: Poll)
      requires index < |attempts| && !attempts[index].phase.Completed?
      modifies this`attempts, this`log
      ensures Abstract() == Polled(old(Abstract()), index, answer)
    {
      var a := attempts[index];
      if a.phase.Unpolled? {
        log := log + [Started(a.sequence, a.addr)];
      }
      match answer {
        case Pending =>
          attempts := attempts[index := a.(phase := Connecting)];
        case Connected =>
          attempts := attempts[index := a.(phase := Completed(true))];
          log := log + [Succeeded(a.sequence, a.addr)];
        case Refused =>
          attempts := attempts[index := a.(phase := Completed(false))];
          log := log + [Failed(a.sequence, a.addr)];
      }
      assert log == old(log) + PollEvents(a, answer);
    }

    /** Polls the attempts in vector order up to the first that is ready. */
    method PollAttempts(connect: seq<Poll>) returns (ready: Option<nat>, result: Poll)
      requires forall p | 0 <= p < |attempts| :: !attempts[p].phase.Completed?
      modifies this`attempts, this`log
      ensures (Abstract(), ready) == PollFrom(old(Abstract()), connect, 0)
      ensures ready.Some? ==> !result.Pending? && result == Answer(connect, old(attempts)[ready.value].sequence)
    {
      ghost var start := Abstract();
      var index := 0;
      while index < |attempts|
        invariant index <= |attempts| == |old(attempts)|
        invariant forall p | index <= p < |attempts| :: attempts[p] == old(attempts)[p]
        invariant forall p | index <= p < |attempts| :: !attempts[p].phase.Completed?
        invariant PollFrom(Abstract(), connect, index) == PollFrom(start, connect, 0)
      {
        var answer := Answer(connect, attempts[index].sequence);
        PollFromStep(Abstract(), connect, index);
        PollAttempt(index, answer);
        if !answer.Pending? {
          return Some(index), answer;
        }
        index := index + 1;
      }
      return None, Pending;
    }

    method LaunchNext()
      requires nextIdx < |addrs|
      modifies this`attempts, this`nextIdx, this`delay
      ensures Abstract() == Launch(old(Abstract()))
    {
      attempts := attempts + [Attempt(nextIdx, addrs[nextIdx], Unpolled)];
      nextIdx := nextIdx + 1;
      delay := if nextIdx < |addrs| then Sleep(false) else Never;
    }

    /** Runs the drop glue of every attempt left, in vector order. */
    method DropAttempts()
      modifies this`attempts, this`log
      ensures Abstract() == old(Abstract()).(attempts := [], log := old(log) + DropAll(old(attempts)))
    {
      while attempts != []
        invariant log + DropAll(attempts) == old(log) + DropAll(old(attempts))
        decreases |attempts|
      {
        DropAllStep(log, attempts);
        if attempts[0].phase.Connecting? {
          log := log + [Cancelled(attempts[0].sequence, attempts[0].addr)];
        } else {
          assert log + DropEvents(attempts[0]) == log;
        }
        attempts := attempts[1..];
      }
      assert log + DropAll(attempts) == log;
    }

    /** Handles the completion of the attempt at `index`; returning drops what is left. */
    method HandleAttempt(index: nat, answer: Poll)
      requires index < |attempts| && !answer.Pending?
      modifies this
      ensures Abstract() == OnAttempt(old(Abstract()), index, answer)
    {
      var completed := attempts[index];
      attempts := attempts[index := attempts[|attempts| - 1]];
      attempts := attempts[..|attempts| - 1];
      if answer.Connected? {
        DropAttempts();
        outcome := Won(completed.sequence, completed.addr);
      } else if attempts == [] {
        if nextIdx >= |addrs| {
          outcome := Exhausted;
        } else {
          LaunchNext();
        }
      }
    }

    method PollRound(connect: seq<Poll>, timer: bool)
      requires Valid() && outcome.Racing?
      modifies this
      ensures Valid()
      ensures Abstract() == Step(old(Abstract()), Round(connect, timer))
    {
      StepProgress(Abstract(), Round(connect, timer));
      var ready, result := PollAttempts(connect);
      if ready.Some? {
        HandleAttempt(ready.value, result);
      } else if delay.Sleep? && timer {
        delay := Sleep(true);
        if nextIdx < |addrs| {
          LaunchNext();
        }
      }
    }

    method DropCallerFuture()
      requires Valid() && outcome.Racing?
      modifies this
      ensures Valid()
      ensures Abstract() == Step(old(Abstract()), DropCaller)
    {
      StepProgress(Abstract(), DropCaller);
      DropAttempts();
      outcome := Abandoned;
    }
  }
}
