/** A multi-sender event flag with one waiting receiver, as interleaved atomic steps. A sender stores the flag
    and then wakes whatever waker is registered; the receiver swaps the flag, registers its waker, and swaps
    the flag again before it parks. The waker is an atomic cell: registering fills it, waking empties it and
    schedules the receiver. */
module EventWatch {

  datatype Receiver = Idle | Polling | Checked | Registered | Parked

  /** `storing` holds the senders between their store and their wake; `woken` is set while the receiver has
      been scheduled and not polled since. `stored` and `resolved` count stores and resolved waits. */
  datatype State = State(signaled: bool, registered: bool, woken: bool, receiver: Receiver,
                         storing: set<nat>, stored: nat, resolved: nat)

  datatype Action =
    | StoreFlag(sender: nat)
    | Wake(sender: nat)
    | Begin
    | Repoll
    | FirstSwap
    | Register
    | SecondSwap
    | Abandon

  predicate Enabled(s: State, a: Action) {
    match a
    case StoreFlag(id) => id !in s.storing
    case Wake(id) => id in s.storing
    case Begin => s.receiver == Idle
    case Repoll => s.receiver == Parked && s.woken
    case FirstSwap => s.receiver == Polling
    case Register => s.receiver == Checked
    case SecondSwap => s.receiver == Registered
    case Abandon => s.receiver == Parked
  }

  function Resolve(s: State, otherwise: Receiver): State {
    if s.signaled then s.(signaled := false, receiver := Idle, resolved := s.resolved + 1)
    else s.(receiver := otherwise)
  }

  function Next(s: State, a: Action): State
    requires Enabled(s, a)
  {
    match a
    case StoreFlag(id) => s.(signaled := true, storing := s.storing + {id}, stored := s.stored + 1)
    case Wake(id) =>
      s.(storing := s.storing - {id}, woken := s.woken || s.registered, registered := false)
    case Begin => s.(receiver := Polling, woken := false)
    case Repoll => s.(receiver := Polling, woken := false)
    case FirstSwap => Resolve(s, Checked)
    case Register => s.(registered := true, receiver := Registered)
    case SecondSwap => Resolve(s, Parked)
    case Abandon => s.(receiver := Idle)
  }

  predicate Init(s: State) {
    s == State(false, false, false, Idle, {}, 0, 0)
  }

  predicate Run(ss: seq<State>, acts: seq<Action>) {
    && |ss| == |acts| + 1
    && forall i :: 0 <= i < |acts| ==> Enabled(ss[i], acts[i]) && ss[i + 1] == Next(ss[i], acts[i])
  }

  /** A receiver that has registered has its waker in place unless it has been woken since; and a parked
      receiver sleeps over a set flag only while some sender still has its wake to come. */
  predicate Inv(s: State) {
    && (s.receiver.Registered? || s.receiver.Parked? ==> s.registered || s.woken)
    && (s.receiver.Parked? && s.signaled && !s.woken ==> s.storing != {})
    && s.resolved + (if s.signaled then 1 else 0) <= s.stored
  }

  lemma {:induction false} RunKeepsInv(ss: seq<State>, acts: seq<Action>, i: nat)
    requires Run(ss, acts) && Init(ss[0]) && i < |ss|
    ensures Inv(ss[i])
  {
    if i > 0 {
      RunKeepsInv(ss, acts, i - 1);
    }
  }

  /** Step `j` of the run is a sender's signal. */
  predicate Signals(acts: seq<Action>, j: nat)
    requires j < |acts|
  {
    acts[j].StoreFlag?
  }

  /** Some sender has signalled, and no wait has resolved since. */
  predicate Unheard(ss: seq<State>, acts: seq<Action>, i: nat)
    requires |ss| == |acts| + 1 && i < |ss|
  {
    exists j :: 0 <= j < i && Signals(acts, j) && ss[i].resolved == ss[j].resolved
  }

  /** The flag is set exactly while there is a signal that no wait has taken. */
  lemma {:induction false} FlagMeansUnheard(ss: seq<State>, acts: seq<Action>, i: nat)
    requires Run(ss, acts) && Init(ss[0]) && i < |ss|
    ensures ss[i].signaled <==> Unheard(ss, acts, i)
  {
    if i > 0 {
      FlagMeansUnheard(ss, acts, i - 1);
      forall j | 0 <= j < i ensures ss[j].resolved <= ss[i - 1].resolved {
        ResolvedGrows(ss, acts, j, i - 1);
      }
      assert Signals(acts, i - 1) <==> acts[i - 1].StoreFlag?;
      assert ss[i] == Next(ss[i - 1], acts[i - 1]);
      assert ss[i].resolved == ss[i - 1].resolved && Unheard(ss, acts, i - 1) ==> Unheard(ss, acts, i);
    }
  }

  lemma {:induction false} ResolvedGrows(ss: seq<State>, acts: seq<Action>, j: nat, i: nat)
    requires Run(ss, acts) && j <= i < |ss|
    ensures ss[j].resolved <= ss[i].resolved && ss[j].stored <= ss[i].stored
    decreases i
  {
    if j < i {
      ResolvedGrows(ss, acts, j, i - 1);
      assert ss[i] == Next(ss[i - 1], acts[i - 1]);
    }
  }

  /** A waker is in place exactly from a registration to the next wake, which uses it up. */
  lemma {:induction false} WakerUsedOnce(ss: seq<State>, acts: seq<Action>, i: nat)
    requires Run(ss, acts) && Init(ss[0]) && i < |ss|
    ensures ss[i].registered <==> exists j :: 0 <= j < i && acts[j] == Register && Unused(acts, j, i)
  {
    if i > 0 {
      WakerUsedOnce(ss, acts, i - 1);
      assert ss[i] == Next(ss[i - 1], acts[i - 1]);
      forall j | 0 <= j < i - 1
        ensures Unused(acts, j, i) <==> Unused(acts, j, i - 1) && !acts[i - 1].Wake?
      {
      }
      assert Unused(acts, i - 1, i);
    }
  }

  /** No sender has woken the receiver since step `j`. */
  predicate Unused(acts: seq<Action>, j: nat, i: nat)
    requires j < i <= |acts|
  {
    forall k :: j < k < i ==> !acts[k].Wake?
  }

  /** Signals are not counted: between two moments waits resolve at most once for each signal in between, and once more
      if there was one waiting. */
  lemma {:induction false} WaitsNeedSignals(ss: seq<State>, acts: seq<Action>, j: nat, i: nat)
    requires Run(ss, acts) && Init(ss[0]) && j <= i < |ss|
    ensures ss[i].resolved - ss[j].resolved <= ss[i].stored - ss[j].stored + if Unheard(ss, acts, j) then 1 else 0
    ensures ss[i].stored - ss[j].stored == |SignalsIn(acts[j..i])|
  {
    FlagMeansUnheard(ss, acts, j);
    CapacityOne(ss, acts, j, i);
  }

  /** The signals among the actions. */
  function SignalsIn(acts: seq<Action>): seq<Action> {
    if acts == [] then []
    else SignalsIn(acts[..|acts| - 1]) + if acts[|acts| - 1].StoreFlag? then [acts[|acts| - 1]] else []
  }

  lemma {:induction false} CapacityOne(ss: seq<State>, acts: seq<Action>, j: nat, i: nat)
    requires Run(ss, acts) && j <= i < |ss|
    ensures ss[i].resolved + (if ss[i].signaled then 1 else 0) - ss[j].resolved - (if ss[j].signaled then 1 else 0)
            <= ss[i].stored - ss[j].stored == |SignalsIn(acts[j..i])|
    decreases i
  {
    if j < i {
      CapacityOne(ss, acts, j, i - 1);
      assert acts[j..i][..i - 1 - j] == acts[j..i - 1];
      assert ss[i] == Next(ss[i - 1], acts[i - 1]);
    }
  }

  /** No signal is lost: in every reachable state in which there is a signal that no wait has taken, a parked receiver
      has been scheduled, or a sender has its wake still to come; once the senders are done it has been scheduled. */
  lemma {:induction false} NoLostSignal(ss: seq<State>, acts: seq<Action>, i: nat)
    requires Run(ss, acts) && Init(ss[0]) && i < |ss|
    ensures Unheard(ss, acts, i) && ss[i].receiver.Parked? ==> ss[i].woken || ss[i].storing != {}
    ensures Unheard(ss, acts, i) && ss[i].receiver.Parked? && ss[i].storing == {} ==> Enabled(ss[i], Repoll)
    ensures (ss[i].signaled <==> Unheard(ss, acts, i)) && ss[i].resolved <= ss[i].stored
  {
    RunKeepsInv(ss, acts, i);
    FlagMeansUnheard(ss, acts, i);
  }

  /** The receiver's own next step, when it has one. */
  function Own(s: State): Action {
    match s.receiver
    case Idle => Begin
    case Polling => FirstSwap
    case Checked => Register
    case Registered => SecondSwap
    case Parked => Repoll
  }

  /** The receiver takes up to `n` steps of its own until a wait resolves. */
  function Alone(s: State, n: nat): State
    decreases n
  {
    if n == 0 || !Enabled(s, Own(s)) then s
    else
      var s' := Next(s, Own(s));
      if s'.resolved > s.resolved then s' else Alone(s', n - 1)
  }

  /** Once all senders are done, a receiver in a wait, or one that starts one, resolves it within two steps of
      its own if and only if there is a signal that no wait has taken; and then that signal is taken. */
  lemma {:induction false} SignalReachesWait(ss: seq<State>, acts: seq<Action>, i: nat)
    requires Run(ss, acts) && Init(ss[0]) && i < |ss| && ss[i].storing == {}
    ensures Unheard(ss, acts, i) <==> Alone(ss[i], 2).resolved == ss[i].resolved + 1
    ensures Unheard(ss, acts, i) ==> !Alone(ss[i], 2).signaled
  {
    RunKeepsInv(ss, acts, i);
    FlagMeansUnheard(ss, acts, i);
  }

  /** Any sender can signal once no other is at it, and then the next wait resolves at once. */
  lemma {:induction false} SignalIsTaken(ss: seq<State>, acts: seq<Action>, i: nat, sender: nat)
    requires Run(ss, acts) && Init(ss[0]) && i < |ss| && ss[i].storing == {}
    ensures Enabled(ss[i], StoreFlag(sender))
    ensures var stored := Next(ss[i], StoreFlag(sender));
            && Enabled(stored, Wake(sender))
            && Alone(Next(stored, Wake(sender)), 2).resolved == ss[i].resolved + 1
  {
    RunKeepsInv(ss, acts, i);
  }
}
