/**
 LightweightSemaphore with its one waiter and one signaller, interleaved one atomic access at a time.

 A positive count is units to take without the kernel; -1 says the waiter has committed itself to the kernel
 semaphore, so the next signal has to post to it.
 */
module Semaphore {
  import opened Options

  /** Where the waiter stands in tryWait and waitWithPartialSpinning. */
  datatype Waiter =
    | Idle
    | Looking(spins: nat)     // about to load m_count; spins rounds left before it commits
    | LookingOnce             // the same, in a bare tryWait
    | Seen                    // loaded a positive count, about to decrement
    | Committing              // about to decrement whatever the count is
    | Parked                  // decremented to below zero, in m_sema.wait or timed_wait
    | Restoring               // timed out, about to add the unit back
    | Restored                // added it back but was too late, about to decrement again
    | Retrying                // about to try_wait

  datatype Signaller = Quiet | Owes

  datatype State = State(
    count: int,               // m_count
    kernel: nat,              // posts in m_sema
    waiter: Waiter,
    signaller: Signaller,
    initial: nat,             // bookkeeping: constructor argument,
    signalled: nat,           //   units signalled so far,
    taken: nat,               //   waits that returned true,
    timedOut: nat)            //   waits that returned false

  datatype Action =
    | TryWait
    | Wait
    | Step                    // the waiter's next access
    | Obtain                  // m_sema.wait returns true
    | TimeOut                 // it returns false, or was never entered
    | Signal(units: nat)
    | Post

  const SPINS: nat := 1024

  predicate Enabled(s: State, a: Action) {
    match a
    case TryWait => s.waiter.Idle?
    case Wait => s.waiter.Idle?
    case Step => !s.waiter.Idle? && !s.waiter.Parked?
    case Obtain => s.waiter.Parked? && 0 < s.kernel
    case TimeOut => s.waiter.Parked?
    case Signal(_) => s.signaller.Quiet?
    case Post => s.signaller.Owes?
  }

  function Succeed(s: State): State {
    s.(waiter := Idle, taken := s.taken + 1)
  }

  function Fail(s: State): State {
    s.(waiter := Idle, timedOut := s.timedOut + 1)
  }

  function Apply(s: State, a: Action): State
    requires Enabled(s, a)
  {
    match a
    case TryWait => s.(waiter := LookingOnce)
    case Wait => s.(waiter := Looking(SPINS + 1))
    case Obtain => Succeed(s.(kernel := s.kernel - 1))
    case TimeOut => s.(waiter := Restoring)
    case Signal(units) =>
      s.(count := s.count + units, signalled := s.signalled + units, signaller := if s.count < 0 then Owes else Quiet)
    case Post => s.(kernel := s.kernel + 1, signaller := Quiet)
    case Step =>
      match s.waiter
      case LookingOnce => if s.count > 0 then s.(waiter := Seen) else Fail(s)
      case Looking(n) =>
        if s.count > 0 then s.(waiter := Seen) else if n > 1 then s.(waiter := Looking(n - 1)) else s.(waiter := Committing)
      case Seen => Succeed(s.(count := s.count - 1))
      case Committing => if s.count > 0 then Succeed(s.(count := s.count - 1)) else s.(count := s.count - 1, waiter := Parked)
      case Restoring => if s.count < 0 then Fail(s.(count := s.count + 1)) else s.(count := s.count + 1, waiter := Restored)
      case Restored => s.(count := s.count - 1, waiter := if s.count > 0 then Retrying else Restoring)
      case Retrying => if 0 < s.kernel then Succeed(s.(kernel := s.kernel - 1)) else s.(waiter := Restoring)
  }

  function Initial(units: nat): State {
    State(units, 0, Idle, Quiet, units, 0, 0, 0)
  }

  /** The state a run leads to from s, or None if some step of it could not be taken. */
  function Onward(s: State, acts: seq<Action>): Option<State> {
    if acts == [] then Some(s)
    else
      var before := Onward(s, acts[..|acts| - 1]);
      var a := acts[|acts| - 1];
      if before.Some? && Enabled(before.value, a) then Some(Apply(before.value, a)) else None
  }

  function After(units: nat, acts: seq<Action>): Option<State> {
    Onward(Initial(units), acts)
  }

  /** Every signal in the run adds at least one unit. */
  predicate Generous(acts: seq<Action>) {
    forall i :: 0 <= i < |acts| && acts[i].Signal? ==> acts[i].units >= 1
  }

  /** The waiter's own decrement is in the count without a unit having been taken for it. */
  function Debt(w: Waiter): int {
    if w.Parked? || w.Restoring? || w.Retrying? then 1 else 0
  }

  function Pending(s: State): int {
    s.kernel + if s.signaller.Owes? then 1 else 0
  }

  function Available(s: State): int {
    s.initial + s.signalled - s.taken
  }

  ghost predicate Inv(s: State) {
    && s.count + Debt(s.waiter) == Available(s)
    && s.count >= -Debt(s.waiter)
    && (s.waiter.Seen? ==> s.count >= 1)
    && (s.waiter.Restored? ==> s.count >= 1)
    && (s.waiter.Retrying? ==> s.count >= 0)
    && Pending(s) == (if s.waiter.Restored? || (Debt(s.waiter) == 1 && s.count >= 0) then 1 else 0)
  }

  lemma StepKeeps(s: State, a: Action)
    requires Inv(s) && Enabled(s, a) && (a.Signal? ==> a.units >= 1)
    ensures Inv(Apply(s, a))
  {
  }

  lemma {:induction false} ReachableInv(units: nat, acts: seq<Action>)
    requires After(units, acts).Some? && Generous(acts)
    ensures Inv(After(units, acts).value)
  {
    if acts != [] {
      var earlier, a := acts[..|acts| - 1], acts[|acts| - 1];
      assert Generous(earlier) && (a.Signal? ==> a.units >= 1);
      ReachableInv(units, earlier);
      hide Inv, Apply, Enabled;
      StepKeeps(After(units, earlier).value, a);
    }
  }

  /** The units that the run signals. */
  function SignalledIn(acts: seq<Action>): nat {
    if acts == [] then 0
    else SignalledIn(acts[..|acts| - 1]) + if acts[|acts| - 1].Signal? then acts[|acts| - 1].units else 0
  }

  /** The bookkeeping is that of the run. */
  lemma {:induction false} BooksAreTrue(units: nat, acts: seq<Action>)
    requires After(units, acts).Some?
    ensures After(units, acts).value.initial == units && After(units, acts).value.signalled == SignalledIn(acts)
  {
    if acts != [] { BooksAreTrue(units, acts[..|acts| - 1]); }
  }

  /** Units are conserved: the count, plus the waiter's debt, is what was put in minus what was taken out. */
  lemma Conservation(units: nat, acts: seq<Action>)
    requires After(units, acts).Some? && Generous(acts)
    ensures var s := After(units, acts).value;
            && s.count >= -1
            && s.count + Debt(s.waiter) == units + SignalledIn(acts) - s.taken
            && s.taken <= units + SignalledIn(acts)
  {
    ReachableInv(units, acts);
    BooksAreTrue(units, acts);
  }

  /** Between waits no kernel post is left over and no unit is missing, however the last wait ended. */
  lemma NothingLeftBehind(units: nat, acts: seq<Action>)
    requires After(units, acts).Some? && Generous(acts) && After(units, acts).value.waiter.Idle?
    ensures var s := After(units, acts).value;
            s.kernel == 0 && s.signaller.Quiet? && s.count == s.initial + s.signalled - s.taken
  {
    ReachableInv(units, acts);
  }

  /** A committed waiter for whom a unit was signalled finds a post, now or as soon as the signaller has made it. */
  lemma ParkedIsServed(units: nat, acts: seq<Action>)
    requires After(units, acts).Some? && Generous(acts) && After(units, acts).value.waiter.Parked?
    ensures var s := After(units, acts).value;
            if s.initial + s.signalled > s.taken then s.kernel == 1 || (s.kernel == 0 && s.signaller.Owes?)
            else s.kernel == 0 && s.signaller.Quiet?
  {
    ReachableInv(units, acts);
  }

  /**
   A signal keeps the books if and only if it adds a unit or no waiter is committed; the assertion count >= 0
   in the source also lets the other case through.
   */
  lemma SignalKeepsBooksExactly(s: State, units: nat)
    requires Inv(s) && Enabled(s, Signal(units))
    ensures Inv(Apply(s, Signal(units))) <==> units >= 1 || s.count >= 0
  {
  }

  lemma OneMore(units: nat, acts: seq<Action>, a: Action)
    requires After(units, acts).Some? && Enabled(After(units, acts).value, a)
    ensures After(units, acts + [a]) == Some(Apply(After(units, acts).value, a))
  {
    assert (acts + [a])[..|acts|] == acts;
  }

  /** A wait without units that takes k steps. */
  function Waiting(k: nat): seq<Action> {
    if k == 0 then [Wait] else Waiting(k - 1) + [Step]
  }

  /** It spins, looking in vain. */
  lemma {:induction false} Spins(k: nat)
    requires k <= SPINS
    ensures After(0, Waiting(k)) == Some(State(0, 0, Looking(SPINS + 1 - k), Quiet, 0, 0, 0, 0))
  {
    if k == 0 {
      OneMore(0, [], Wait);
      assert [] + [Wait] == Waiting(0);
    } else {
      Spins(k - 1);
      OneMore(0, Waiting(k - 1), Step);
    }
  }

  /** After all spins it commits itself. */
  lemma Commits()
    ensures After(0, Waiting(SPINS + 2)) == Some(State(-1, 0, Parked, Quiet, 0, 0, 0, 0))
  {
    Spins(SPINS);
    OneMore(0, Waiting(SPINS), Step);
    OneMore(0, Waiting(SPINS + 1), Step);
  }

  /** What goes wrong otherwise, in a run: the waiter returns true although there was no unit to take. */
  lemma SignalZeroForgesUnit()
    ensures var s := After(0, Waiting(SPINS + 2) + [Signal(0)] + [Post] + [Obtain]);
            s.Some? && s.value.waiter.Idle? && s.value.taken == 1 && s.value.initial + s.value.signalled == 0
  {
    Commits();
    var acts := Waiting(SPINS + 2);
    hide Waiting, After;
    OneMore(0, acts, Signal(0));
    OneMore(0, acts + [Signal(0)], Post);
    OneMore(0, acts + [Signal(0)] + [Post], Obtain);
  }

  // ---------------------------------------------------------------------------------------------
  // What a wait returns
  // ---------------------------------------------------------------------------------------------

  predicate ByWaiter(a: Action) {
    a.TryWait? || a.Wait? || a.Step? || a.Obtain? || a.TimeOut?
  }

  /** Signals in between take nothing from the waiter. */
  lemma {:induction false} SignalsOnlyAdd(s: State, acts: seq<Action>)
    requires Onward(s, acts).Some? && forall i :: 0 <= i < |acts| ==> !ByWaiter(acts[i])
    ensures var t := Onward(s, acts).value;
            t.waiter == s.waiter && t.taken == s.taken && t.timedOut == s.timedOut && t.count >= s.count
  {
    if acts != [] { SignalsOnlyAdd(s, acts[..|acts| - 1]); }
  }

  /**
   A tryWait finds out by one look: with a unit available it goes on to take one, whatever is signalled meanwhile,
   and returns true; without one it returns false.
   */
  lemma TryWaitExactly(units: nat, acts: seq<Action>, signals: seq<Action>)
    requires After(units, acts).Some? && Generous(acts) && After(units, acts).value.waiter.LookingOnce?
    requires forall i :: 0 <= i < |signals| ==> !ByWaiter(signals[i])
    ensures var s := After(units, acts).value;
            var looked := Apply(s, Step);
            if s.initial + s.signalled > s.taken then
              Onward(looked, signals).Some? ==>
                && Enabled(Onward(looked, signals).value, Step)
                && (var t := Apply(Onward(looked, signals).value, Step);
                    t.waiter.Idle? && t.taken == s.taken + 1 && t.timedOut == s.timedOut)
            else looked.waiter.Idle? && looked.taken == s.taken && looked.timedOut == s.timedOut + 1
  {
    ReachableInv(units, acts);
    var looked := Apply(After(units, acts).value, Step);
    if Onward(looked, signals).Some? { SignalsOnlyAdd(looked, signals); }
  }

  /** A wait that looks while a unit is available takes one too. */
  lemma WaitTakesAvailable(units: nat, acts: seq<Action>)
    requires After(units, acts).Some? && Generous(acts)
    requires var s := After(units, acts).value; (s.waiter.Looking? || s.waiter.Committing?) && s.initial + s.signalled > s.taken
    ensures var s := After(units, acts).value;
            var t := Apply(s, Step);
            if s.waiter.Looking? then t.waiter.Seen? && Apply(t, Step).waiter.Idle? && Apply(t, Step).taken == s.taken + 1
            else t.waiter.Idle? && t.taken == s.taken + 1
  {
    ReachableInv(units, acts);
  }

  /** A wait without timeout never returns false. */
  lemma {:induction false} WaitsDoNotFail(units: nat, acts: seq<Action>)
    requires After(units, acts).Some? && forall i :: 0 <= i < |acts| ==> !acts[i].TryWait? && !acts[i].TimeOut?
    ensures var s := After(units, acts).value;
            s.timedOut == 0 && !s.waiter.LookingOnce? && !s.waiter.Restoring? && !s.waiter.Restored? && !s.waiter.Retrying?
  {
    if acts != [] { WaitsDoNotFail(units, acts[..|acts| - 1]); }
  }
}
