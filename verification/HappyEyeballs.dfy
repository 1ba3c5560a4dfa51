/**
 The Happy Eyeballs racer (section 5 of RFC 8305) as a poll-driven machine.

 One round is one execution of the closure given to `poll_fn`, followed by the handling of the
 event it produced. What a connect future or the sleep answers when polled is chosen by the
 environment, and the caller may be dropped between any two rounds.
 */
module HappyEyeballs {
  import opened Common

  datatype Poll = Pending | Connected | Refused

  /** `Unpolled` futures have not reached the observer yet; polling a `Completed` one would panic. */
  datatype Phase = Unpolled | Connecting | Completed(connected: bool)

  datatype Attempt = Attempt(sequence: nat, addr: SocketAddr, phase: Phase)

  /** `R::sleep` of the Connection Attempt Delay, or `std::future::pending`. */
  datatype Delay = Sleep(fired: bool) | Never

  datatype ObserverEvent =
    | Started(sequence: nat, addr: SocketAddr)
    | Succeeded(sequence: nat, addr: SocketAddr)
    | Failed(sequence: nat, addr: SocketAddr)
    | Cancelled(sequence: nat, addr: SocketAddr)

  datatype Outcome = Racing | Won(sequence: nat, addr: SocketAddr) | Exhausted | Abandoned

  datatype Race = Race(
    addrs: seq<SocketAddr>,
    attempts: seq<Attempt>,
    nextIdx: nat,
    delay: Delay,
    log: seq<ObserverEvent>,
    outcome: Outcome)

  /** Answers of the environment in one round: per attempt, and whether the sleep elapsed. */
  datatype Input = Round(connect: seq<Poll>, timer: bool) | DropCaller

  function Answer(connect: seq<Poll>, sequence: nat): Poll {
    if sequence < |connect| then connect[sequence] else Pending
  }

  // ---------------------------------------------------------------------
  // Attempt futures and their guards
  // ---------------------------------------------------------------------

  function PolledPhase(answer: Poll): Phase {
    if answer.Pending? then Connecting else Completed(answer.Connected?)
  }

  /** What one poll of an attempt reports: the start on its first poll, then its completion. */
  function PollEvents(a: Attempt, answer: Poll): seq<ObserverEvent> {
    (if a.phase.Unpolled? then [Started(a.sequence, a.addr)] else []) +
    (match answer
     case Pending => []
     case Connected => [Succeeded(a.sequence, a.addr)]
     case Refused => [Failed(a.sequence, a.addr)])
  }

  /** What dropping an attempt reports: the guard exists only after the first poll. */
  function DropEvents(a: Attempt): seq<ObserverEvent> {
    if a.phase.Connecting? then [Cancelled(a.sequence, a.addr)] else []
  }

  function DropAll(attempts: seq<Attempt>): seq<ObserverEvent> {
    if attempts == [] then [] else DropEvents(attempts[0]) + DropAll(attempts[1..])
  }

  // ---------------------------------------------------------------------
  // One round
  // ---------------------------------------------------------------------

  /** Polls the attempts from `i` on, stopping at the first that is ready; `ready` is its index. */
  function PollFrom(r: Race, connect: seq<Poll>, i: nat): (p: (Race, Option<nat>))
    requires i <= |r.attempts|
    ensures p.1.Some? ==> i <= p.1.value < |r.attempts|
    ensures p.0 == r.(attempts := p.0.attempts, log := p.0.log)
    ensures |p.0.attempts| == |r.attempts|
    decreases |r.attempts| - i
  {
    if i == |r.attempts| then (r, None)
    else
      var a := r.attempts[i];
      var answer := Answer(connect, a.sequence);
      var r' := r.(attempts := r.attempts[i := a.(phase := PolledPhase(answer))],
                   log := r.log + PollEvents(a, answer));
      if answer.Pending? then PollFrom(r', connect, i + 1) else (r', Some(i))
  }

  function SwapRemove<T>(s: seq<T>, i: nat): seq<T>
    requires i < |s|
  {
    s[i := s[|s| - 1]][..|s| - 1]
  }

  function ArmedDelay(addrs: seq<SocketAddr>, nextIdx: nat): Delay {
    if nextIdx < |addrs| then Sleep(false) else Never
  }

  function Launch(r: Race): Race
    requires r.nextIdx < |r.addrs|
  {
    r.(attempts := r.attempts + [Attempt(r.nextIdx, r.addrs[r.nextIdx], Unpolled)],
       nextIdx := r.nextIdx + 1,
       delay := ArmedDelay(r.addrs, r.nextIdx + 1))
  }

  /** The event of an attempt that completed at `index`; returning drops the attempts left. */
  function OnAttempt(r: Race, index: nat, answer: Poll): Race
    requires index < |r.attempts|
  {
    var a := r.attempts[index];
    var rest := r.(attempts := SwapRemove(r.attempts, index));
    if answer.Connected? then
      rest.(attempts := [], log := rest.log + DropAll(rest.attempts), outcome := Won(a.sequence, a.addr))
    else if rest.attempts != [] then rest
    else if rest.nextIdx >= |rest.addrs| then rest.(outcome := Exhausted)
    else Launch(rest)
  }

  function OnDelay(r: Race): Race {
    if r.nextIdx < |r.addrs| then Launch(r) else r
  }

  function PlayRound(r: Race, connect: seq<Poll>, timer: bool): Race {
    var (polled, ready) := PollFrom(r, connect, 0);
    match ready
    case Some(index) => OnAttempt(polled, index, Answer(connect, r.attempts[index].sequence))
    case None =>
      if polled.delay.Sleep? && timer then OnDelay(polled.(delay := Sleep(true))) else polled
  }

  function Step(r: Race, input: Input): Race {
    if !r.outcome.Racing? then r
    else match input
      case Round(connect, timer) => PlayRound(r, connect, timer)
      case DropCaller => r.(attempts := [], log := r.log + DropAll(r.attempts), outcome := Abandoned)
  }

  function Start(addrs: seq<SocketAddr>): Race
    requires addrs != []
  {
    Launch(Race(addrs, [], 0, Never, [], Racing))
  }

  function Run(addrs: seq<SocketAddr>, inputs: seq<Input>): Race
    requires addrs != []
  {
    if inputs == [] then Start(addrs)
    else Step(Run(addrs, inputs[..|inputs| - 1]), inputs[|inputs| - 1])
  }
}
