/**
 The hand-off protocol of Fiber::YieldTo as a machine of small steps, any number of threads interleaved.

 A switch is: take the target's guard; leave the baton (previous_fiber) in it; jump; and then, already on
 the target, save the previous fiber's suspension point, release its guard and drop the baton.
 */
module Fiber {
  import opened Options

  type FiberId = nat
  type ThreadId = nat

  /** Where a fiber stopped: nullptr, its entry point, its rewind point, its n-th suspension, or for good. */
  datatype Point = Null | Entry | RewindEntry | Suspended(n: nat) | Gone

  datatype FiberState = FiberState(
    isThread: bool,            // is_thread_fiber
    released: bool,
    guard: Option<ThreadId>,   // the OS thread that locked the mutex
    context: Point,
    rewindContext: Point,
    baton: Option<FiberId>,    // previous_fiber
    stackLimit: nat,           // which of the two stacks
    rewindStackLimit: nat,
    latest: Point,             // bookkeeping: where the fiber last stopped
    switches: nat,             // bookkeeping: how often it stopped
    runsOn: nat)               // bookkeeping: the stack it executes on

  datatype Phase =
    | Running
    | Waiting(to: FiberId)     // in guard.lock()
    | Locked(to: FiberId)
    | Linked(to: FiberId)      // baton left, about to jump
    | Arrived(fctx: Point)     // on the new fiber, transfer.fctx in hand
    | Saved                    // previous context stored
    | Unlocked                 // previous guard released
    | Rewinding                // jumped to RewindStartFunc
    | Exited

  datatype ThreadState = ThreadState(cur: FiberId, home: FiberId, phase: Phase)

  datatype State = State(fibers: map<FiberId, FiberState>, threads: map<ThreadId, ThreadState>)

  datatype Action =
    | NewFiber(f: FiberId)
    | ThreadToFiber(t: ThreadId, f: FiberId)
    | Yield(t: ThreadId, to: FiberId)
    | Lock(t: ThreadId)
    | Link(t: ThreadId)
    | Jump(t: ThreadId)
    | Save(t: ThreadId)
    | Unlock(t: ThreadId)
    | Clear(t: ThreadId)
    | Rewind(t: ThreadId)
    | OnRewind(t: ThreadId)
    | Exit(t: ThreadId)

  const INITIAL := State(map[], map[])

  /**
   When a step can be taken. Only a lock can block; the rest is where each thread stands in the code. A jump to a
   fiber that has exited is not a step: its context is not one to jump to (see JumpResumesLatest).
   */
  predicate Enabled(s: State, a: Action) {
    match a
    case NewFiber(f) => f !in s.fibers
    case ThreadToFiber(t, f) => t !in s.threads && f !in s.fibers
    case Yield(t, to) => t in s.threads && s.threads[t].phase.Running? && to in s.fibers
    case Lock(t) =>
      t in s.threads && s.threads[t].phase.Waiting? &&
      (var to := s.threads[t].phase.to; to in s.fibers && s.fibers[to].guard == None)
    case Link(t) => t in s.threads && s.threads[t].phase.Locked? && s.threads[t].phase.to in s.fibers
    case Jump(t) =>
      && t in s.threads && s.threads[t].phase.Linked? && s.threads[t].phase.to in s.fibers && s.threads[t].cur in s.fibers
      && !s.fibers[s.threads[t].phase.to].released
    case Save(t) => t in s.threads && s.threads[t].phase.Arrived? && BatonInHand(s, t)
    case Unlock(t) => t in s.threads && s.threads[t].phase.Saved? && BatonInHand(s, t)
    case Clear(t) => t in s.threads && s.threads[t].phase.Unlocked? && s.threads[t].cur in s.fibers
    case Rewind(t) =>
      t in s.threads && s.threads[t].phase.Running? && s.threads[t].cur in s.fibers && !s.fibers[s.threads[t].cur].isThread
    case OnRewind(t) => t in s.threads && s.threads[t].phase.Rewinding? && s.threads[t].cur in s.fibers
    case Exit(t) =>
      t in s.threads && s.threads[t].phase.Running? && s.threads[t].cur in s.fibers && s.fibers[s.threads[t].cur].isThread
  }

  /** The assertion on previous_fiber: the fiber t runs holds a baton naming a fiber. */
  predicate BatonInHand(s: State, t: ThreadId)
    requires t in s.threads
  {
    var c := s.threads[t].cur;
    c in s.fibers && s.fibers[c].baton.Some? && s.fibers[c].baton.value in s.fibers
  }

  function Move(s: State, t: ThreadId, phase: Phase): State
    requires t in s.threads
  {
    s.(threads := s.threads[t := s.threads[t].(phase := phase)])
  }

  function Apply(s: State, a: Action): State
    requires Enabled(s, a)
  {
    match a
    case NewFiber(f) =>
      s.(fibers := s.fibers[f := FiberState(false, false, None, Entry, Null, None, 0, 1, Entry, 0, 0)])
    case ThreadToFiber(t, f) =>
      State(s.fibers[f := FiberState(true, false, Some(t), Null, Null, None, 0, 1, Null, 0, 0)],
            s.threads[t := ThreadState(f, f, Running)])
    case Yield(t, to) => Move(s, t, Waiting(to))
    case Lock(t) =>
      var to := s.threads[t].phase.to;
      Move(s, t, Locked(to)).(fibers := s.fibers[to := s.fibers[to].(guard := Some(t))])
    case Link(t) =>
      var to := s.threads[t].phase.to;
      Move(s, t, Linked(to)).(fibers := s.fibers[to := s.fibers[to].(baton := Some(s.threads[t].cur))])
    case Jump(t) =>
      var to, from := s.threads[t].phase.to, s.threads[t].cur;
      var point := Suspended(s.fibers[from].switches + 1);
      State(s.fibers[from := s.fibers[from].(latest := point, switches := s.fibers[from].switches + 1)],
            s.threads[t := s.threads[t].(cur := to, phase := Arrived(point))])
    case Save(t) =>
      var prev := s.fibers[s.threads[t].cur].baton.value;
      Move(s, t, Saved).(fibers := s.fibers[prev := s.fibers[prev].(context := s.threads[t].phase.fctx)])
    case Unlock(t) =>
      var prev := s.fibers[s.threads[t].cur].baton.value;
      Move(s, t, Unlocked).(fibers := s.fibers[prev := s.fibers[prev].(guard := None)])
    case Clear(t) =>
      var c := s.threads[t].cur;
      Move(s, t, Running).(fibers := s.fibers[c := s.fibers[c].(baton := None)])
    case Rewind(t) =>
      var c := s.threads[t].cur;
      Move(s, t, Rewinding).(fibers := s.fibers[c := s.fibers[c].(rewindContext := RewindEntry,
                                                                  runsOn := s.fibers[c].rewindStackLimit)])
    case OnRewind(t) =>
      var c := s.threads[t].cur;
      var x := s.fibers[c];
      Move(s, t, Running).(fibers := s.fibers[c := x.(context := x.rewindContext, rewindContext := Null,
                                                      stackLimit := x.rewindStackLimit, rewindStackLimit := x.stackLimit)])
    case Exit(t) =>
      var c := s.threads[t].cur;
      Move(s, t, Exited).(fibers := s.fibers[c := s.fibers[c].(guard := None, released := true, latest := Gone)])
  }

  /** The state an interleaving leads to from s, or None if some step of it cannot be taken. */
  function Onward(s: State, acts: seq<Action>): Option<State> {
    if acts == [] then Some(s)
    else
      var before := Onward(s, acts[..|acts| - 1]);
      if before.Some? && Enabled(before.value, acts[|acts| - 1])
      then Some(Apply(before.value, acts[|acts| - 1])) else None
  }

  function After(acts: seq<Action>): Option<State> {
    Onward(INITIAL, acts)
  }

  // ---------------------------------------------------------------------------------------------
  // The invariant
  // ---------------------------------------------------------------------------------------------

  /** Thread t is the one that may touch fiber f: it runs it, is entering it, or has just left it. */
  ghost predicate Owns(s: State, t: ThreadId, f: FiberId)
  {
    t in s.threads &&
    var x := s.threads[t];
    || (x.cur == f && !x.phase.Exited?)
    || ((x.phase.Locked? || x.phase.Linked?) && x.phase.to == f)
    || ((x.phase.Arrived? || x.phase.Saved?) && x.cur in s.fibers && s.fibers[x.cur].baton == Some(f))
  }

  /** A fiber can be resumed where it last stopped. */
  ghost predicate Resumable(x: FiberState) {
    x.context == x.latest && x.context != Null && x.baton == None && x.rewindContext == Null && x.runsOn == x.stackLimit
  }

  ghost predicate FiberOk(s: State, f: FiberId)
    requires f in s.fibers
  {
    var x := s.fibers[f];
    && x.stackLimit != x.rewindStackLimit
    && (x.guard.Some? ==> Owns(s, x.guard.value, f))
    && (x.guard == None ==> x.released || Resumable(x))
    && (x.released <==> x.latest == Gone) && x.context != Gone && x.rewindContext != Gone
    && (!x.isThread ==> x.context != Null && !x.released)
  }

  ghost predicate ThreadOk(s: State, t: ThreadId)
    requires t in s.threads
  {
    var x := s.threads[t];
    && x.cur in s.fibers && x.home in s.fibers
    && (x.phase.Exited? || (s.fibers[x.cur].guard == Some(t) && !s.fibers[x.cur].released))
    && (!x.phase.Rewinding? && !x.phase.Exited? ==>
          s.fibers[x.cur].rewindContext == Null && s.fibers[x.cur].runsOn == s.fibers[x.cur].stackLimit)
    && match x.phase
       case Running => s.fibers[x.cur].baton == None
       case Waiting(to) => s.fibers[x.cur].baton == None && to in s.fibers
       case Locked(to) =>
         s.fibers[x.cur].baton == None && to in s.fibers && to != x.cur && s.fibers[to].guard == Some(t)
         && (s.fibers[to].released || Resumable(s.fibers[to]))
       case Linked(to) =>
         && s.fibers[x.cur].baton == None && to in s.fibers && to != x.cur && s.fibers[to].guard == Some(t)
         && (s.fibers[to].released || Resumable(s.fibers[to].(baton := None))) && s.fibers[to].baton == Some(x.cur)
       case Arrived(p) =>
         && BatonInHand(s, t)
         && (var prev := s.fibers[x.cur].baton.value;
             && prev != x.cur && s.fibers[prev].guard == Some(t) && s.fibers[prev].latest == p && p != Null && p != Gone
             && Resumable(s.fibers[prev].(context := p)))
       case Saved =>
         && BatonInHand(s, t)
         && (var prev := s.fibers[x.cur].baton.value;
             prev != x.cur && s.fibers[prev].guard == Some(t) && Resumable(s.fibers[prev]))
       case Unlocked => true
       case Rewinding =>
         && s.fibers[x.cur].baton == None && !s.fibers[x.cur].isThread
         && s.fibers[x.cur].rewindContext == RewindEntry && s.fibers[x.cur].runsOn == s.fibers[x.cur].rewindStackLimit
       case Exited => s.fibers[x.cur].released
  }

  ghost predicate Inv(s: State) {
    && (forall f <- s.fibers :: FiberOk(s, f))
    && (forall t <- s.threads :: ThreadOk(s, t))
  }

  /** The thread that takes a step, if there is one already, is in order. */
  ghost predicate ActorOk(s: State, a: Action) {
    !a.NewFiber? && a.t in s.threads ==> ThreadOk(s, a.t)
  }

  /** The step belongs to the second half of a switch, on the new fiber. */
  predicate SecondHalf(a: Action) {
    a.Jump? || a.Save? || a.Unlock? || a.Clear?
  }

  ghost predicate FiberAndHolderOk(s: State, f: FiberId) {
    f in s.fibers ==> FiberOk(s, f) && (s.fibers[f].guard.Some? ==> ThreadOk(s, s.fibers[f].guard.value))
  }

  lemma FiberKeptLate(s: State, a: Action, f: FiberId)
    requires Enabled(s, a) && f in Apply(s, a).fibers && ActorOk(s, a) && FiberAndHolderOk(s, f) && SecondHalf(a)
    ensures FiberOk(Apply(s, a), f)
  {
  }

  lemma FiberKept(s: State, a: Action, f: FiberId)
    requires Enabled(s, a) && f in Apply(s, a).fibers && ActorOk(s, a) && FiberAndHolderOk(s, f)
    ensures FiberOk(Apply(s, a), f)
  {
    if SecondHalf(a) { FiberKeptLate(s, a, f); }
  }

  lemma ActorKept(s: State, a: Action)
    requires Enabled(s, a) && !a.NewFiber? && ActorOk(s, a)
    requires a.Lock? ==> FiberOk(s, s.threads[a.t].phase.to)
    requires a.Rewind? ==> FiberOk(s, s.threads[a.t].cur)
    ensures ThreadOk(Apply(s, a), a.t)
  {
  }

  lemma OtherKept(s: State, a: Action, u: ThreadId)
    requires Enabled(s, a) && ActorOk(s, a) && u in s.threads && ThreadOk(s, u) && !StepOf(a, u)
    ensures u in Apply(s, a).threads && ThreadOk(Apply(s, a), u)
  {
  }

  lemma StepKeeps(s: State, a: Action)
    requires Inv(s) && Enabled(s, a)
    ensures Inv(Apply(s, a))
  {
    ThreadsBefore(s, a);
    HoldersOk(s);
    hide Apply, FiberOk, ThreadOk;
    var s' := Apply(s, a);
    forall f <- s'.fibers ensures FiberOk(s', f) { FiberKept(s, a, f); }
    forall u <- s'.threads ensures ThreadOk(s', u) {
      if StepOf(a, u) { ActorKept(s, a); } else { OtherKept(s, a, u); }
    }
  }

  lemma HoldersOk(s: State)
    requires Inv(s)
    ensures forall f <- s.fibers :: s.fibers[f].guard.Some? ==> s.fibers[f].guard.value in s.threads
  {
    forall f <- s.fibers ensures s.fibers[f].guard.Some? ==> s.fibers[f].guard.value in s.threads {
      assert FiberOk(s, f);
    }
  }

  lemma ThreadsBefore(s: State, a: Action)
    requires Inv(s) && Enabled(s, a)
    ensures forall u <- Apply(s, a).threads :: u in s.threads || StepOf(a, u)
    ensures a.Rewind? ==> FiberOk(s, s.threads[a.t].cur)
  {
    hide FiberOk, ThreadOk;
  }

  lemma {:induction false} ReachableInv(acts: seq<Action>)
    requires After(acts).Some?
    ensures Inv(After(acts).value)
  {
    hide Inv, Apply, Enabled;
    if acts == [] {
      EmptyInv();
    } else {
      ReachableInv(acts[..|acts| - 1]);
      StepKeeps(After(acts[..|acts| - 1]).value, acts[|acts| - 1]);
    }
  }

  lemma EmptyInv()
    ensures Inv(INITIAL)
  {
  }

  // ---------------------------------------------------------------------------------------------
  // Safety of every interleaving
  // ---------------------------------------------------------------------------------------------

  /** No fiber executes on two threads at once. */
  lemma OneThreadPerFiber(acts: seq<Action>, t: ThreadId, u: ThreadId)
    requires After(acts).Some?
    requires var s := After(acts).value;
             && t in s.threads && u in s.threads && s.threads[t].cur == s.threads[u].cur
             && !s.threads[t].phase.Exited? && !s.threads[u].phase.Exited?
    ensures t == u
  {
    ReachableInv(acts);
    var s := After(acts).value;
    assert ThreadOk(s, t) && ThreadOk(s, u);
  }

  /** A fiber whose guard is free can be resumed exactly where it last stopped, if and only if it has not exited. */
  lemma FreeMeansSaved(acts: seq<Action>, f: FiberId)
    requires After(acts).Some? && f in After(acts).value.fibers && After(acts).value.fibers[f].guard == None
    ensures var x := After(acts).value.fibers[f];
            && (x.context == x.latest && x.context != Null <==> !x.released)
            && (!x.released ==> x.baton == None)
  {
    ReachableInv(acts);
    assert FiberOk(After(acts).value, f);
  }

  /**
   A thread about to jump, to whatever fiber, jumps to that fiber's latest suspension point, never to nullptr and
   never to a stale one, if and only if the fiber has not exited.
   */
  lemma JumpResumesLatest(acts: seq<Action>, t: ThreadId)
    requires After(acts).Some?
    requires t in After(acts).value.threads && After(acts).value.threads[t].phase.Linked?
    ensures var s := After(acts).value;
            && s.threads[t].phase.to in s.fibers
            && (var x := s.fibers[s.threads[t].phase.to];
                && (x.context == x.latest && x.context != Null <==> !x.released)
                && (Enabled(s, Jump(t)) <==> !x.released))
  {
    ReachableInv(acts);
    var s := After(acts).value;
    assert ThreadOk(s, t) && FiberOk(s, s.threads[t].phase.to);
  }

  /** After a jump the baton is there (neither assertion on previous_fiber fires) and names a fiber this thread locked. */
  lemma UnlockedByLocker(acts: seq<Action>, t: ThreadId)
    requires After(acts).Some? && t in After(acts).value.threads
    ensures var s := After(acts).value;
            var x := s.threads[t];
            && (x.phase.Arrived? ==> Enabled(s, Save(t)))
            && (x.phase.Saved? ==> Enabled(s, Unlock(t)) && s.fibers[s.fibers[x.cur].baton.value].guard == Some(t))
            && (Enabled(s, Exit(t)) ==> s.fibers[x.cur].guard == Some(t))
  {
    ReachableInv(acts);
    assert ThreadOk(After(acts).value, t);
  }

  // ---------------------------------------------------------------------------------------------
  // Where switches lead
  // ---------------------------------------------------------------------------------------------

  /** What a thread asked for: to leave the fiber it runs for another. */
  datatype Switch = Switch(from: FiberId, to: FiberId)

  /** The switch that t asked for last, read off the calls alone. */
  function Asked(acts: seq<Action>, t: ThreadId): Option<Switch>
    decreases |acts|, 0
  {
    if acts == [] then None
    else
      var earlier, a := acts[..|acts| - 1], acts[|acts| - 1];
      if a.Yield? && a.t == t && Runs(earlier, t).Some? then Some(Switch(Runs(earlier, t).value, a.to)) else Asked(earlier, t)
  }

  /** The fiber that t runs: its thread fiber, and after every jump the one it asked for. */
  function Runs(acts: seq<Action>, t: ThreadId): Option<FiberId>
    decreases |acts|, 1
  {
    if acts == [] then None
    else
      var earlier, a := acts[..|acts| - 1], acts[|acts| - 1];
      if a.ThreadToFiber? && a.t == t then Some(a.f)
      else if a.Jump? && a.t == t then (if Asked(earlier, t).Some? then Some(Asked(earlier, t).value.to) else None)
      else Runs(earlier, t)
  }

  /** Where t stands in the switch it asked for. */
  ghost predicate OnItsWay(s: State, t: ThreadId, runs: Option<FiberId>, asked: Option<Switch>)
    requires t in s.threads
  {
    var x := s.threads[t];
    && runs == Some(x.cur)
    && (x.phase.Waiting? || x.phase.Locked? || x.phase.Linked? ==> asked == Some(Switch(x.cur, x.phase.to)))
    && (x.phase.Arrived? || x.phase.Saved? || x.phase.Unlocked? ==> asked.Some? && asked.value.to == x.cur)
    && (x.phase.Arrived? || x.phase.Saved? ==> x.cur in s.fibers && s.fibers[x.cur].baton == Some(asked.value.from))
  }

  lemma OwnStepOnItsWay(s: State, a: Action, runs: Option<FiberId>, asked: Option<Switch>)
    requires Enabled(s, a) && !a.NewFiber? && ActorOk(s, a)
    requires a.t in s.threads ==> OnItsWay(s, a.t, runs, asked)
    ensures OnItsWay(Apply(s, a), a.t,
                     if a.ThreadToFiber? then Some(a.f) else if a.Jump? then Some(asked.value.to) else runs,
                     if a.Yield? then Some(Switch(runs.value, a.to)) else asked)
  {
  }

  lemma OtherStepOnItsWay(s: State, a: Action, t: ThreadId, runs: Option<FiberId>, asked: Option<Switch>)
    requires Enabled(s, a) && ActorOk(s, a) && t in s.threads && ThreadOk(s, t) && !StepOf(a, t)
    requires OnItsWay(s, t, runs, asked)
    ensures t in Apply(s, a).threads && OnItsWay(Apply(s, a), t, runs, asked)
  {
  }

  lemma {:induction false} ReachableOnItsWay(acts: seq<Action>, t: ThreadId)
    requires After(acts).Some? && t in After(acts).value.threads
    ensures OnItsWay(After(acts).value, t, Runs(acts, t), Asked(acts, t))
    decreases |acts|
  {
    var earlier, a := acts[..|acts| - 1], acts[|acts| - 1];
    var s := After(earlier).value;
    ReachableInv(earlier);
    ThreadsBefore(s, a);
    if t in s.threads {
      assert ThreadOk(s, t);
      ReachableOnItsWay(earlier, t);
    }
    hide OnItsWay, Apply, Enabled, ThreadOk, FiberOk;
    if StepOf(a, t) {
      RunsKnown(s, t, Runs(earlier, t), Asked(earlier, t));
      OwnStepOnItsWay(s, a, Runs(earlier, t), Asked(earlier, t));
      JumpWasAsked(s, a, Runs(earlier, t), Asked(earlier, t));
    } else {
      OtherStepOnItsWay(s, a, t, Runs(earlier, t), Asked(earlier, t));
    }
  }

  lemma RunsKnown(s: State, t: ThreadId, runs: Option<FiberId>, asked: Option<Switch>)
    requires t in s.threads ==> OnItsWay(s, t, runs, asked)
    ensures t in s.threads ==> runs == Some(s.threads[t].cur)
  {
  }

  lemma JumpWasAsked(s: State, a: Action, runs: Option<FiberId>, asked: Option<Switch>)
    requires Enabled(s, a) && !a.NewFiber? && (a.t in s.threads ==> OnItsWay(s, a.t, runs, asked))
    ensures a.Jump? ==> asked.Some?
    ensures a.Yield? ==> runs.Some?
  {
  }

  /** Under every interleaving a thread runs its thread fiber and then, jump by jump, the fibers it named. */
  lemma RunsWhatItAskedFor(acts: seq<Action>, t: ThreadId)
    requires After(acts).Some? && t in After(acts).value.threads
    ensures Runs(acts, t) == Some(After(acts).value.threads[t].cur)
  {
    ReachableOnItsWay(acts, t);
  }

  /** After Yield(t, to) the next fiber that t runs is to, whatever happens in between. */
  lemma YieldLeadsThere(before: seq<Action>, t: ThreadId, to: FiberId, between: seq<Action>)
    requires After(before + [Yield(t, to)] + between + [Jump(t)]).Some?
    requires forall i :: 0 <= i < |between| && StepOf(between[i], t) ==> !between[i].Yield? && !between[i].ThreadToFiber?
    ensures t in After(before + [Yield(t, to)] + between + [Jump(t)]).value.threads
    ensures After(before + [Yield(t, to)] + between + [Jump(t)]).value.threads[t].cur == to
  {
    var acts := before + [Yield(t, to)];
    assert (acts + between + [Jump(t)])[..|acts + between|] == acts + between;
    RunsKept(before, t, to, between);
    ReachableOnItsWay(acts + between, t);
  }

  lemma {:induction false} RunsKept(before: seq<Action>, t: ThreadId, to: FiberId, between: seq<Action>)
    requires After(before + [Yield(t, to)] + between).Some?
    requires forall i :: 0 <= i < |between| && StepOf(between[i], t) ==> !between[i].Yield? && !between[i].ThreadToFiber?
    ensures var asked := Asked(before + [Yield(t, to)] + between, t); asked.Some? && asked.value.to == to
    decreases |between|
  {
    var acts := before + [Yield(t, to)];
    if between == [] {
      assert acts + between == acts && acts[..|before|] == before;
      ReachableOnItsWay(before, t);
    } else {
      var n := |between| - 1;
      assert (acts + between)[..|acts| + n] == acts + between[..n];
      RunsKept(before, t, to, between[..n]);
    }
  }

  /** The steps of a switch up to the jump concern the fiber named: it is locked, and the baton left in it. */
  ghost predicate EntersNamed(s: State, t: ThreadId, w: Switch)
    requires t in s.threads
  {
    && (s.threads[t].phase.Waiting? ==> s.threads[t].phase.to == w.to && s.threads[t].cur == w.from)
    && (Enabled(s, Lock(t)) ==>
          w.to in s.fibers && Apply(s, Lock(t)).fibers == s.fibers[w.to := s.fibers[w.to].(guard := Some(t))])
    && (Enabled(s, Link(t)) ==>
          w.to in s.fibers && Apply(s, Link(t)).fibers == s.fibers[w.to := s.fibers[w.to].(baton := Some(w.from))])
    && (Enabled(s, Jump(t)) ==> Apply(s, Jump(t)).threads[t].cur == w.to)
  }

  /** The steps after it concern the fiber left: it is saved where it stopped and unlocked, and the baton dropped. */
  ghost predicate ReleasesLeft(s: State, t: ThreadId, w: Switch)
    requires t in s.threads
  {
    && (Enabled(s, Save(t)) ==>
          && w.from in s.fibers
          && Apply(s, Save(t)).fibers == s.fibers[w.from := s.fibers[w.from].(context := s.fibers[w.from].latest)])
    && (Enabled(s, Unlock(t)) ==>
          w.from in s.fibers && Apply(s, Unlock(t)).fibers == s.fibers[w.from := s.fibers[w.from].(guard := None)])
    && (Enabled(s, Clear(t)) ==>
          w.to in s.fibers && Apply(s, Clear(t)).fibers == s.fibers[w.to := s.fibers[w.to].(baton := None)])
  }

  lemma FollowsSwitch(s: State, t: ThreadId, runs: Option<FiberId>, w: Switch)
    requires t in s.threads && ThreadOk(s, t) && OnItsWay(s, t, runs, Some(w))
    ensures EntersNamed(s, t, w) && ReleasesLeft(s, t, w)
  {
  }

  /** Each step of a switch concerns the two fibers of that switch and changes no other. */
  lemma SwitchSteps(acts: seq<Action>, t: ThreadId)
    requires After(acts).Some? && t in After(acts).value.threads && Asked(acts, t).Some?
    ensures EntersNamed(After(acts).value, t, Asked(acts, t).value) && ReleasesLeft(After(acts).value, t, Asked(acts, t).value)
  {
    hide OnItsWay, ThreadOk, EntersNamed, ReleasesLeft;
    ReachableOnItsWay(acts, t);
    ReachableInv(acts);
    FollowsSwitch(After(acts).value, t, Runs(acts, t), Asked(acts, t).value);
  }

  /** How often a fiber was left, read off the calls alone. */
  function LeftCount(acts: seq<Action>, f: FiberId): nat {
    if acts == [] then 0
    else
      var earlier, a := acts[..|acts| - 1], acts[|acts| - 1];
      LeftCount(earlier, f) + if a.Jump? && Runs(earlier, a.t) == Some(f) then 1 else 0
  }

  /** Where a fiber that was left n times stopped last. */
  ghost predicate StoppedAt(x: FiberState, n: nat) {
    && x.switches == n
    && (x.released || x.latest == if n > 0 then Suspended(n) else if x.isThread then Null else Entry)
  }

  lemma StepStops(s: State, a: Action, f: FiberId, n: nat)
    requires Enabled(s, a) && f in Apply(s, a).fibers && (f in s.fibers ==> StoppedAt(s.fibers[f], n)) && (f !in s.fibers ==> n == 0)
    ensures StoppedAt(Apply(s, a).fibers[f], n + if a.Jump? && s.threads[a.t].cur == f then 1 else 0)
  {
  }

  lemma {:induction false} ReachableStoppedAt(acts: seq<Action>, f: FiberId)
    requires After(acts).Some?
    ensures if f in After(acts).value.fibers then StoppedAt(After(acts).value.fibers[f], LeftCount(acts, f)) else LeftCount(acts, f) == 0
    decreases |acts|
  {
    if acts != [] {
      var earlier, a := acts[..|acts| - 1], acts[|acts| - 1];
      var s := After(earlier).value;
      ReachableStoppedAt(earlier, f);
      if a.Jump? { RunsWhatItAskedFor(earlier, a.t); }
      hide StoppedAt;
      if f in Apply(s, a).fibers { StepStops(s, a, f, LeftCount(earlier, f)); } else { FibersStay(s, a, f); }
    }
  }

  lemma FibersStay(s: State, a: Action, f: FiberId)
    requires Enabled(s, a) && f !in Apply(s, a).fibers
    ensures f !in s.fibers && !(a.Jump? && s.threads[a.t].cur == f)
  {
  }

  /** A jump starts a fiber that was never left at its entry point, and resumes any other where it was left last. */
  lemma JumpLandsWhereLeft(acts: seq<Action>, t: ThreadId)
    requires After(acts).Some? && Enabled(After(acts).value, Jump(t))
    ensures var s := After(acts).value;
            var to := s.threads[t].phase.to;
            s.fibers[to].context == if LeftCount(acts, to) > 0 then Suspended(LeftCount(acts, to)) else Entry
  {
    JumpResumesLatest(acts, t);
    ReachableStoppedAt(acts, After(acts).value.threads[t].phase.to);
  }

  /** The point saved is where the fiber stopped when it was left: a new one, after its last. */
  lemma JumpStops(acts: seq<Action>, t: ThreadId)
    requires After(acts).Some? && Enabled(After(acts).value, Jump(t))
    ensures var s := After(acts).value;
            && Asked(acts, t).Some? && Asked(acts, t).value.from in s.fibers
            && (var f := Asked(acts, t).value.from;
                && Apply(s, Jump(t)).fibers[f].latest == Suspended(s.fibers[f].switches + 1)
                && Apply(s, Jump(t)).threads[t].phase == Arrived(Apply(s, Jump(t)).fibers[f].latest))
  {
    ReachableOnItsWay(acts, t);
    ReachableInv(acts);
    assert ThreadOk(After(acts).value, t);
  }

  /** Rewind builds its context on the stack the fiber is not executing on, and leaves it executing there. */
  lemma RewindChangesStack(acts: seq<Action>, t: ThreadId)
    requires After(acts).Some? && Enabled(After(acts).value, Rewind(t))
    ensures var s := After(acts).value;
            var s1 := Apply(s, Rewind(t));
            var c := s.threads[t].cur;
            && s.fibers[c].rewindStackLimit != s.fibers[c].runsOn && s.fibers[c].context != Null
            && Enabled(s1, OnRewind(t))
            && (var x := Apply(s1, OnRewind(t)).fibers[c];
                x.runsOn == x.stackLimit == s.fibers[c].rewindStackLimit && x.rewindStackLimit == s.fibers[c].stackLimit)
  {
    ReachableInv(acts);
    var s := After(acts).value;
    assert ThreadOk(s, t) && FiberOk(s, s.threads[t].cur);
  }

  /** Exit frees the guard without saving a context, so that a switch to the fiber would jump to a null one. */
  lemma ExitedFiberIsNotResumable()
    ensures var s := Apply(Apply(INITIAL, ThreadToFiber(0, 0)), Exit(0));
            && After([ThreadToFiber(0, 0), Exit(0)]) == Some(s)
            && s.fibers[0].guard == None && s.fibers[0].released && s.fibers[0].context == Null
  {
    var acts := [ThreadToFiber(0, 0), Exit(0)];
    assert acts[..1] == [ThreadToFiber(0, 0)] && acts[..1][..0] == [];
    assert Onward(INITIAL, acts[..1][..0]) == Some(INITIAL);
    assert Onward(INITIAL, acts[..1]) == Some(Apply(INITIAL, ThreadToFiber(0, 0)));
  }

  // ---------------------------------------------------------------------------------------------
  // Deadlock
  // ---------------------------------------------------------------------------------------------

  /** t is in guard.lock() on a guard that u holds. */
  predicate BlockedOn(s: State, t: ThreadId, u: ThreadId) {
    && t in s.threads && s.threads[t].phase.Waiting?
    && s.threads[t].phase.to in s.fibers && s.fibers[s.threads[t].phase.to].guard == Some(u)
  }

  /** Threads each blocked on the next, the last on the first. */
  predicate WaitCycle(s: State, ts: seq<ThreadId>) {
    ts != [] && forall i :: 0 <= i < |ts| ==> BlockedOn(s, ts[i], ts[Next(i, |ts|)])
  }

  function Next(i: nat, n: nat): (r: nat)
    requires i < n
    ensures r < n
  {
    if i + 1 == n then 0 else i + 1
  }

  /** The thread a step belongs to. */
  predicate StepOf(a: Action, t: ThreadId) {
    !a.NewFiber? && a.t == t
  }

  /** A thread blocked on another stays blocked on it until that other one steps. */
  lemma BlockedStays(s: State, a: Action, t: ThreadId, u: ThreadId)
    requires Inv(s) && Enabled(s, a) && BlockedOn(s, t, u) && !StepOf(a, u)
    ensures BlockedOn(Apply(s, a), t, u)
  {
    hide ThreadOk, FiberOk, Apply, Enabled, BlockedOn;
    ActorKeepsBlocked(s, a, t, u);
  }

  lemma ActorKeepsBlocked(s: State, a: Action, t: ThreadId, u: ThreadId)
    requires ActorOk(s, a) && Enabled(s, a) && BlockedOn(s, t, u) && !StepOf(a, u)
    ensures BlockedOn(Apply(s, a), t, u)
  {
  }

  lemma CycleStays(s: State, a: Action, ts: seq<ThreadId>)
    requires Inv(s) && Enabled(s, a) && WaitCycle(s, ts)
    ensures WaitCycle(Apply(s, a), ts)
    ensures forall i :: 0 <= i < |ts| ==> !StepOf(a, ts[i])
  {
    forall i | 0 <= i < |ts| ensures BlockedOn(Apply(s, a), ts[i], ts[Next(i, |ts|)]) && !StepOf(a, ts[i]) {
      var j := Next(i, |ts|);
      assert BlockedOn(s, ts[i], ts[j]) && BlockedOn(s, ts[j], ts[Next(j, |ts|)]);
      BlockedStays(s, a, ts[i], ts[j]);
    }
  }

  /** A wait cycle is forever: whatever happens afterwards, it is still there, and none of its threads took a step. */
  lemma {:induction false} CycleIsForever(s: State, acts: seq<Action>, ts: seq<ThreadId>)
    requires Inv(s) && WaitCycle(s, ts) && Onward(s, acts).Some?
    ensures Inv(Onward(s, acts).value) && WaitCycle(Onward(s, acts).value, ts)
    ensures forall k, i :: 0 <= k < |acts| && 0 <= i < |ts| ==> !StepOf(acts[k], ts[i])
  {
    hide Inv, Apply, Enabled, WaitCycle, StepOf;
    if acts != [] {
      var n := |acts| - 1;
      CycleIsForever(s, acts[..n], ts);
      StepKeeps(Onward(s, acts[..n]).value, acts[n]);
      CycleStays(Onward(s, acts[..n]).value, acts[n], ts);
      assert forall k :: 0 <= k < n ==> acts[k] == acts[..n][k];
    }
  }

  /** The documented warning: two threads that exchange the fibers they are running are in such a cycle, */
  lemma ExchangeDeadlocks(s: State, t: ThreadId, u: ThreadId)
    requires Inv(s) && t != u && t in s.threads && u in s.threads
    requires s.threads[t].phase.Running? && s.threads[u].phase.Running?
    ensures var y1, y2 := Yield(t, s.threads[u].cur), Yield(u, s.threads[t].cur);
            && Enabled(s, y1) && Enabled(Apply(s, y1), y2)
            && WaitCycle(Apply(Apply(s, y1), y2), [t, u])
  {
    assert ThreadOk(s, t) && ThreadOk(s, u);
  }

  /** and neither of them ever takes a step again. */
  lemma ExchangeDeadlocksForGood(s: State, t: ThreadId, u: ThreadId, acts: seq<Action>)
    requires Inv(s) && t != u && t in s.threads && u in s.threads
    requires s.threads[t].phase.Running? && s.threads[u].phase.Running?
    requires var y1, y2 := Yield(t, s.threads[u].cur), Yield(u, s.threads[t].cur);
             Enabled(s, y1) && Enabled(Apply(s, y1), y2) && Onward(Apply(Apply(s, y1), y2), acts).Some?
    ensures forall k :: 0 <= k < |acts| ==> !StepOf(acts[k], t) && !StepOf(acts[k], u)
  {
    ExchangeDeadlocks(s, t, u);
    var y1, y2 := Yield(t, s.threads[u].cur), Yield(u, s.threads[t].cur);
    hide Inv, Apply, Enabled, WaitCycle, StepOf;
    StepKeeps(s, y1);
    StepKeeps(Apply(s, y1), y2);
    CycleIsForever(Apply(Apply(s, y1), y2), acts, [t, u]);
    assert [t, u][0] == t && [t, u][1] == u;
  }

  /** The documented rule: from its own thread fiber a thread goes to a worker, from a worker only back. */
  predicate ByTheRule(s: State, a: Action)
    requires Enabled(s, a)
  {
    a.Yield? ==>
      var x := s.threads[a.t];
      if x.cur == x.home then !s.fibers[a.to].isThread else a.to == x.home
  }

  /** As After, for interleavings in which every switch follows the rule. */
  function AfterByTheRule(acts: seq<Action>): Option<State> {
    if acts == [] then Some(INITIAL)
    else
      var before := AfterByTheRule(acts[..|acts| - 1]);
      var a := acts[|acts| - 1];
      if before.Some? && Enabled(before.value, a) && ByTheRule(before.value, a)
      then Some(Apply(before.value, a)) else None
  }

  /** Thread t is between taking a guard and having released the one it left. */
  predicate MidSwitch(p: Phase) {
    p.Locked? || p.Linked? || p.Arrived? || p.Saved?
  }

  /** t's thread fiber is touched by t alone, and is free while t executes a worker. */
  ghost predicate HomeOk(s: State, t: ThreadId)
    requires t in s.threads && ThreadOk(s, t)
  {
    var x := s.threads[t];
    && s.fibers[x.home].isThread
    && (s.fibers[x.home].guard.Some? ==> s.fibers[x.home].guard.value == t)
    && (s.fibers[x.cur].isThread ==> x.cur == x.home)
    && (x.cur != x.home && !MidSwitch(x.phase) ==> s.fibers[x.home].guard == None && !s.fibers[x.home].released)
    && (x.phase.Waiting? || x.phase.Locked? || x.phase.Linked? ==>
          if x.cur == x.home then !s.fibers[x.phase.to].isThread else x.phase.to == x.home)
    && (x.phase.Arrived? || x.phase.Saved? ==>
          var prev := s.fibers[x.cur].baton.value;
          if x.cur == x.home then !s.fibers[prev].isThread else prev == x.home)
    && (s.fibers[x.home].released ==> x.phase.Exited?)
  }

  ghost predicate RuleInv(s: State) {
    && Inv(s)
    && (forall t <- s.threads :: ThreadOk(s, t) && HomeOk(s, t))
    && (forall t, u :: t in s.threads && u in s.threads && s.threads[t].home == s.threads[u].home ==> t == u)
  }

  /** A step keeps the rule's invariant for the thread that takes it. */
  lemma HomeKeptOwn(s: State, a: Action)
    requires Enabled(s, a) && ByTheRule(s, a) && !a.NewFiber? && a.t in s.threads
    requires ThreadOk(s, a.t) && HomeOk(s, a.t) && ThreadOk(Apply(s, a), a.t)
    ensures HomeOk(Apply(s, a), a.t)
  {
  }

  /** ... and for every other thread, whose thread fiber it does not touch. */
  lemma HomeKeptOther(s: State, a: Action, u: ThreadId)
    requires Enabled(s, a) && u in s.threads && ThreadOk(s, u) && HomeOk(s, u)
    requires !a.NewFiber? ==> a.t != u
    requires !a.NewFiber? && a.t in s.threads ==>
               ThreadOk(s, a.t) && HomeOk(s, a.t) && s.threads[a.t].home != s.threads[u].home
    requires u in Apply(s, a).threads && ThreadOk(Apply(s, a), u)
    ensures HomeOk(Apply(s, a), u)
  {
  }

  lemma RuleKept(s: State, a: Action)
    requires RuleInv(s) && Enabled(s, a) && ByTheRule(s, a)
    ensures RuleInv(Apply(s, a))
  {
    StepKeeps(s, a);
    var s' := Apply(s, a);
    forall u <- s'.threads ensures ThreadOk(s', u) && HomeOk(s', u) {
      if u in s.threads {
        if StepOf(a, u) { HomeKeptOwn(s, a); } else { HomeKeptOther(s, a, u); }
      }
    }
    HomesDiffer(s, a);
  }

  lemma HomesDiffer(s: State, a: Action)
    requires RuleInv(s) && Enabled(s, a)
    ensures var s' := Apply(s, a);
            forall t, u :: t in s'.threads && u in s'.threads && s'.threads[t].home == s'.threads[u].home ==> t == u
  {
    if a.ThreadToFiber? {
      forall t <- s.threads ensures s.threads[t].home != a.f { assert ThreadOk(s, t); }
    }
  }

  lemma {:induction false} RuleReachable(acts: seq<Action>)
    requires AfterByTheRule(acts).Some?
    ensures RuleInv(AfterByTheRule(acts).value)
  {
    hide RuleInv, Apply, Enabled, ByTheRule;
    if acts == [] {
      EmptyRuleInv();
    } else {
      RuleReachable(acts[..|acts| - 1]);
      RuleKept(AfterByTheRule(acts[..|acts| - 1]).value, acts[|acts| - 1]);
    }
  }

  lemma EmptyRuleInv()
    ensures RuleInv(INITIAL)
  {
  }

  /** Under the rule the switch back to the thread fiber never blocks. */
  lemma ReturnNeverBlocks(acts: seq<Action>, t: ThreadId)
    requires AfterByTheRule(acts).Some?
    requires var s := AfterByTheRule(acts).value;
             t in s.threads && s.threads[t].phase == Waiting(s.threads[t].home)
    ensures Enabled(AfterByTheRule(acts).value, Lock(t))
  {
    RuleReachable(acts);
    var s := AfterByTheRule(acts).value;
    assert ThreadOk(s, t) && HomeOk(s, t);
  }

  /** Under the rule no thread ever switches to a fiber that has exited. */
  lemma NeverToExited(acts: seq<Action>, t: ThreadId)
    requires AfterByTheRule(acts).Some?
    requires var s := AfterByTheRule(acts).value;
             t in s.threads && (s.threads[t].phase.Waiting? || s.threads[t].phase.Locked? || s.threads[t].phase.Linked?)
    ensures var s := AfterByTheRule(acts).value;
            s.threads[t].phase.to in s.fibers && !s.fibers[s.threads[t].phase.to].released
  {
    RuleReachable(acts);
    var s := AfterByTheRule(acts).value;
    assert ThreadOk(s, t) && HomeOk(s, t) && FiberOk(s, s.threads[t].phase.to);
  }

  /** Under the rule a thread holding a guard somebody waits for is itself not blocked. */
  lemma HolderIsNotBlocked(s: State, t: ThreadId, u: ThreadId, v: ThreadId)
    requires RuleInv(s) && BlockedOn(s, t, u)
    ensures !BlockedOn(s, u, v)
  {
    var to := s.threads[t].phase.to;
    assert FiberOk(s, to) && ThreadOk(s, t) && HomeOk(s, t);
    assert ThreadOk(s, u) && HomeOk(s, u);
  }

  /** Under the rule no reachable state has a cycle of threads blocked on each other. */
  lemma NoDeadlock(acts: seq<Action>, ts: seq<ThreadId>)
    requires AfterByTheRule(acts).Some?
    ensures !WaitCycle(AfterByTheRule(acts).value, ts)
  {
    RuleReachable(acts);
    var s := AfterByTheRule(acts).value;
    hide RuleInv, BlockedOn;
    if WaitCycle(s, ts) {
      var j := Next(0, |ts|);
      HolderIsNotBlocked(s, ts[0], ts[j], ts[Next(j, |ts|)]);
    }
  }
}
