/**
 MicroProfile's per-thread log: entries packed into 64 bits, the ring range of a frame, and the replay that
 turns enter and leave entries into inclusive and exclusive ticks.
 */
module MicroProfile {
  import opened Arithmetic

  const TICK48 := 0x1_0000_0000_0000
  const HALF48 := 0x8000_0000_0000
  const TIMERS := 0x4000
  const WORD64 := 0x1_0000_0000_0000_0000
  const STACK_MAX := 32

  // ---------------------------------------------------------------------------------------------
  // Log entries
  // ---------------------------------------------------------------------------------------------

  const LEAVE := 0
  const ENTER := 1

  function LogType(e: nat): nat {
    e / (TICK48 * TIMERS) % 4
  }

  function TimerIndex(e: nat): (t: nat)
    ensures t < TIMERS
  {
    e / TICK48 % TIMERS
  }

  function GetTick(e: nat): nat {
    e % TICK48
  }

  /** Two bits of type, fourteen of timer and the low 48 bits of the tick; the fields do not overlap, so the or adds them. */
  function MakeLogIndex(begin: nat, token: nat, tick: int): (e: nat)
    ensures e < WORD64
    ensures LogType(e) == begin % 4 && TimerIndex(e) == token % TIMERS && GetTick(e) == tick % TICK48
  {
    (begin % 4) * (TICK48 * TIMERS) + (token % TIMERS) * TICK48 + tick % TICK48
  }

  lemma PackInvertsUnpack(e: nat)
    requires e < WORD64
    ensures MakeLogIndex(LogType(e), TimerIndex(e), GetTick(e)) == e
  {
    var high, tick := e / TICK48, e % TICK48;
    var begin, timer := high / TIMERS, high % TIMERS;
    DivModUnique(e, TICK48 * TIMERS, begin, timer * TICK48 + tick);
  }

  /** An enter entry of timer 2 at tick 3, and a leave entry, as the words they are. */
  lemma EntryExamples()
    ensures MakeLogIndex(ENTER, 2, 3) == 0x4002_0000_0000_0003 && MakeLogIndex(LEAVE, 2, 3) == 0x0002_0000_0000_0003
  {
  }

  /** Both entries shifted up by the 16 bits above the tick, subtracted as words, and shifted back with the sign. */
  function TickDifference(start: nat, end: nat): int {
    var d := ((end * 0x1_0000) % WORD64 - (start * 0x1_0000) % WORD64) % WORD64;
    (if d < WORD64 / 2 then d else d - WORD64) / 0x1_0000
  }

  /** The number nearest zero with the same low 48 bits. */
  function Centered(x: int): int {
    var m := x % TICK48;
    if m < HALF48 then m else m - TICK48
  }

  lemma TickDifferenceIsCentered(start: nat, end: nat)
    ensures TickDifference(start, end) == Centered(GetTick(end) - GetTick(start))
  {
    var a, b := GetTick(start), GetTick(end);
    assert (start * 0x1_0000) % WORD64 == a * 0x1_0000;
    assert (end * 0x1_0000) % WORD64 == b * 0x1_0000;
    assert ((b - a) * 0x1_0000) % WORD64 == ((b - a) % TICK48) * 0x1_0000;
  }

  /** The difference is that of the ticks, although only their low 48 bits were kept, exactly within half that range. */
  lemma TickDifferenceExactly(start: int, end: int, s: nat, e: nat)
    requires GetTick(s) == start % TICK48 && GetTick(e) == end % TICK48
    ensures TickDifference(s, e) == end - start <==> -HALF48 <= end - start < HALF48
  {
    TickDifferenceIsCentered(s, e);
    assert (end % TICK48 - start % TICK48) % TICK48 == (end - start) % TICK48;
  }

  // ---------------------------------------------------------------------------------------------
  // The range of a frame
  // ---------------------------------------------------------------------------------------------

  datatype Range = Range(start: nat, end: nat)

  function Run(r: Range): seq<nat> {
    if r.start < r.end then seq(r.end - r.start, i requires 0 <= i => r.start + i) else []
  }

  /** Positions of the ring from get up to put, in the order in which they were written. */
  function RingWalk(put: nat, get: nat, size: nat): (ks: seq<nat>)
    requires put < size && get < size
    ensures forall i :: 0 <= i < |ks| ==> ks[i] == (get + i) % size && ks[i] < size
    ensures (get + |ks|) % size == put && |ks| < size
  {
    var n := if get <= put then put - get else put + size - get;
    WalkEnd(put, get, size, n);
    seq(n, i requires 0 <= i < n => (get + i) % size)
  }

  lemma WalkEnd(put: nat, get: nat, size: nat, n: nat)
    requires put < size && get < size && n == if get <= put then put - get else put + size - get
    ensures (get + n) % size == put
  {
    if get <= put { ModSmall(put, size); } else { DivModShift(put, size, 1); ModSmall(put, size); }
  }

  /** Two runs without a wrap that together walk the ring from get to put. */
  method GetRange(put: nat, get: nat, size: nat) returns (first: Range, second: Range)
    requires put < size && get < size
    ensures first.end <= size && second.end <= size
    ensures Run(first) + Run(second) == RingWalk(put, get, size)
  {
    first, second := Range(0, 0), Range(0, 0);
    if put > get {
      first := Range(get, put);
    } else if put != get {
      var countEnd := size - get;
      first := Range(get, get + countEnd);
      second := Range(0, put);
    }
    forall i | 0 <= i < |Run(first) + Run(second)| ensures (Run(first) + Run(second))[i] == (get + i) % size {
      if get + i < size { ModSmall(get + i, size); } else { WrappedOnce(get + i, size); }
    }
    WalkUnique(Run(first) + Run(second), put, get, size);
  }

  lemma WrappedOnce(k: nat, size: nat)
    requires size <= k < 2 * size
    ensures k % size == k - size
  {
    DivModShift(k - size, size, 1);
    ModSmall(k - size, size);
  }

  lemma WalkUnique(ks: seq<nat>, put: nat, get: nat, size: nat)
    requires put < size && get < size && |ks| == |RingWalk(put, get, size)|
    requires forall i :: 0 <= i < |ks| ==> ks[i] == (get + i) % size
    ensures ks == RingWalk(put, get, size)
  {
  }

  // ---------------------------------------------------------------------------------------------
  // Replaying entries
  // ---------------------------------------------------------------------------------------------

  /**
   The open scopes, as positions of their enter entries; the ticks spent in closed children at every live depth,
   which is one more than there are open scopes; and the counters of the frame.
   */
  datatype State = State(stack: seq<nat>, child: seq<int>, ticks: seq<int>, exclusive: seq<int>, count: seq<int>)

  /** An enter entry at the deepest level is stored outside the child ticks. */
  datatype Outcome = Running(state: State) | Overrun

  ghost predicate Proper(s: State, log: seq<nat>) {
    && |s.child| == |s.stack| + 1 <= STACK_MAX
    && |s.ticks| == |s.exclusive| == |s.count| == TIMERS
    && forall i :: 0 <= i < |s.stack| ==> s.stack[i] < |log|
  }

  function Add(s: seq<int>, i: nat, d: int): seq<int>
    requires i < |s|
  {
    s[i := s[i] + d]
  }

  function Step(s: State, log: seq<nat>, k: nat): (o: Outcome)
    requires k < |log| && Proper(s, log)
    ensures o.Running? ==> Proper(o.state, log)
  {
    var e := log[k];
    var depth := |s.stack|;
    if LogType(e) == ENTER then
      if depth + 1 >= STACK_MAX then Overrun
      else Running(s.(stack := s.stack + [k], child := s.child + [0]))
    else if LogType(e) == LEAVE && depth > 0 then
      var ticks := TickDifference(log[s.stack[depth - 1]], e);
      var timer := TimerIndex(e);
      Running(State(
        s.stack[..depth - 1],
        Add(s.child[..depth], depth - 1, ticks),
        Add(s.ticks, timer, ticks),
        Add(s.exclusive, timer, ticks - s.child[depth]),
        Add(s.count, timer, 1)))
    else Running(s)
  }

  function Fold(s: State, log: seq<nat>, ks: seq<nat>): (o: Outcome)
    requires Proper(s, log) && forall i :: 0 <= i < |ks| ==> ks[i] < |log|
    ensures o.Running? ==> Proper(o.state, log)
  {
    if ks == [] then Running(s)
    else
      var n := |ks| - 1;
      var before := Fold(s, log, ks[..n]);
      if before.Overrun? then Overrun else Step(before.state, log, ks[n])
  }

  // ---------------------------------------------------------------------------------------------
  // Conservation
  // ---------------------------------------------------------------------------------------------

  function Sum(s: seq<int>): int {
    if s == [] then 0 else Sum(s[..|s| - 1]) + s[|s| - 1]
  }

  lemma {:induction false} SumAdd(s: seq<int>, i: nat, d: int)
    requires i < |s|
    ensures Sum(Add(s, i, d)) == Sum(s) + d
  {
    var n := |s| - 1;
    if i < n {
      assert Add(s, i, d)[..n] == Add(s[..n], i, d);
      SumAdd(s[..n], i, d);
    } else {
      assert Add(s, i, d)[..n] == s[..n];
    }
  }

  lemma SumSnoc(s: seq<int>, x: int)
    ensures Sum(s + [x]) == Sum(s) + x
  {
    assert (s + [x])[..|s|] == s;
  }

  lemma StepConserves(s: State, log: seq<nat>, k: nat)
    requires k < |log| && Proper(s, log) && Step(s, log, k).Running?
    ensures var t := Step(s, log, k).state; Sum(t.exclusive) - Sum(s.exclusive) == Sum(t.child) - Sum(s.child)
    ensures var t := Step(s, log, k).state;
            Sum(t.count) + |t.stack| == Sum(s.count) + |s.stack| + if LogType(log[k]) == ENTER then 1 else 0
  {
    hide Sum, TickDifference, LogType, TimerIndex;
    var e, depth := log[k], |s.stack|;
    if LogType(e) == ENTER {
      SumSnoc(s.child, 0);
    } else if LogType(e) == LEAVE && depth > 0 {
      var ticks, timer := TickDifference(log[s.stack[depth - 1]], e), TimerIndex(e);
      assert s.child == s.child[..depth] + [s.child[depth]];
      SumSnoc(s.child[..depth], s.child[depth]);
      SumAdd(s.child[..depth], depth - 1, ticks);
      SumAdd(s.exclusive, timer, ticks - s.child[depth]);
      SumAdd(s.count, timer, 1);
    }
  }

  function Enters(log: seq<nat>, ks: seq<nat>): nat
    requires forall i :: 0 <= i < |ks| ==> ks[i] < |log|
  {
    if ks == [] then 0 else
      Enters(log, ks[..|ks| - 1]) + if LogType(log[ks[|ks| - 1]]) == ENTER then 1 else 0
  }

  /**
   Whatever is replayed, from whatever stack was carried over: the exclusive ticks added are the change of the
   summed child ticks over the live depths, and every scope entered is counted or still open.
   */
  lemma {:induction false} FoldConserves(s: State, log: seq<nat>, ks: seq<nat>)
    requires Proper(s, log) && forall i :: 0 <= i < |ks| ==> ks[i] < |log|
    requires Fold(s, log, ks).Running?
    ensures var t := Fold(s, log, ks).state; Sum(t.exclusive) - Sum(s.exclusive) == Sum(t.child) - Sum(s.child)
    ensures var t := Fold(s, log, ks).state; Sum(t.count) + |t.stack| == Sum(s.count) + |s.stack| + Enters(log, ks)
  {
    hide Sum, Step;
    if ks != [] {
      var n := |ks| - 1;
      FoldConserves(s, log, ks[..n]);
      StepConserves(Fold(s, log, ks[..n]).state, log, ks[n]);
    }
  }

  // ---------------------------------------------------------------------------------------------
  // Balanced ranges
  // ---------------------------------------------------------------------------------------------

  /** Scopes entered less scopes left. */
  function Rise(log: seq<nat>, ks: seq<nat>): int
    requires forall i :: 0 <= i < |ks| ==> ks[i] < |log|
  {
    if ks == [] then 0 else
      Rise(log, ks[..|ks| - 1])
      + if LogType(log[ks[|ks| - 1]]) == ENTER then 1 else if LogType(log[ks[|ks| - 1]]) == LEAVE then -1 else 0
  }

  /** Nothing is left that was not entered in the range. */
  ghost predicate Nested(log: seq<nat>, ks: seq<nat>)
    requires forall i :: 0 <= i < |ks| ==> ks[i] < |log|
  {
    forall n :: 0 <= n <= |ks| ==> Rise(log, ks[..n]) >= 0
  }

  ghost predicate Entry(log: seq<nat>, ks: seq<nat>, kind: nat, rise: int)
    requires ks != [] && forall i :: 0 <= i < |ks| ==> ks[i] < |log|
  {
    LogType(log[ks[|ks| - 1]]) == kind && Rise(log, ks) == rise
  }

  /** Where the scope at depth d that is open, or was last, was entered. No stack is needed to say so. */
  ghost function Opened(log: seq<nat>, ks: seq<nat>, d: int): (k: nat)
    requires |log| > 0 && forall i :: 0 <= i < |ks| ==> ks[i] < |log|
    ensures k < |log|
  {
    if ks == [] then 0
    else if Entry(log, ks, ENTER, d + 1) then ks[|ks| - 1]
    else Opened(log, ks[..|ks| - 1], d)
  }

  /** The ticks of the scope that the last entry, a leave, closes. */
  ghost function Span(log: seq<nat>, ks: seq<nat>): int
    requires ks != [] && forall i :: 0 <= i < |ks| ==> ks[i] < |log|
  {
    TickDifference(log[Opened(log, ks[..|ks| - 1], Rise(log, ks))], log[ks[|ks| - 1]])
  }

  /** The ticks of the scopes closed at depth d since the scope around them was entered. */
  ghost function Closed(log: seq<nat>, ks: seq<nat>, d: int): int
    requires forall i :: 0 <= i < |ks| ==> ks[i] < |log|
  {
    if ks == [] then 0
    else if Entry(log, ks, ENTER, d) then 0
    else Closed(log, ks[..|ks| - 1], d) + if Entry(log, ks, LEAVE, d) then Span(log, ks) else 0
  }

  /** The ticks spent in all scopes of a timer, less, if exclusive, those spent in their children. */
  ghost function TimerTicks(log: seq<nat>, ks: seq<nat>, timer: nat, exclusive: bool): int
    requires forall i :: 0 <= i < |ks| ==> ks[i] < |log|
  {
    if ks == [] then 0 else
      var init := ks[..|ks| - 1];
      TimerTicks(log, init, timer, exclusive)
      + if Closes(log, ks, timer) then Span(log, ks) - (if exclusive then Closed(log, init, Rise(log, init)) else 0) else 0
  }

  ghost function TimerCount(log: seq<nat>, ks: seq<nat>, timer: nat): nat
    requires forall i :: 0 <= i < |ks| ==> ks[i] < |log|
  {
    if ks == [] then 0 else TimerCount(log, ks[..|ks| - 1], timer) + if Closes(log, ks, timer) then 1 else 0
  }

  ghost predicate Closes(log: seq<nat>, ks: seq<nat>, timer: nat)
    requires ks != [] && forall i :: 0 <= i < |ks| ==> ks[i] < |log|
  {
    LogType(log[ks[|ks| - 1]]) == LEAVE && TimerIndex(log[ks[|ks| - 1]]) == timer
  }

  /** During a nested range: below the depth it started at nothing changes; above, the stacks hold what the entries say. */
  ghost predicate During(s: State, t: State, log: seq<nat>, ks: seq<nat>)
    requires Proper(s, log) && Proper(t, log) && |log| > 0
    requires forall i :: 0 <= i < |ks| ==> ks[i] < |log|
  {
    var p := |s.stack|;
    && |t.stack| == p + Rise(log, ks) >= p
    && t.stack[..p] == s.stack
    && t.child[..p] == s.child[..p]
    && forall d :: p <= d <= |t.stack| ==> AtDepth(s, t, log, ks, d)
  }

  ghost predicate AtDepth(s: State, t: State, log: seq<nat>, ks: seq<nat>, d: nat)
    requires |s.child| == |s.stack| + 1 && |t.child| == |t.stack| + 1 && |s.stack| <= d <= |t.stack| && |log| > 0
    requires forall i :: 0 <= i < |ks| ==> ks[i] < |log|
  {
    var p := |s.stack|;
    && (d < |t.stack| ==> t.stack[d] == Opened(log, ks, d - p))
    && t.child[d] == Closed(log, ks, d - p) + if d == p then s.child[p] else 0
  }

  /** The counters of every timer. */
  ghost predicate Counted(s: State, t: State, log: seq<nat>, ks: seq<nat>)
    requires Proper(s, log) && Proper(t, log)
    requires forall i :: 0 <= i < |ks| ==> ks[i] < |log|
  {
    forall timer :: 0 <= timer < TIMERS ==>
      && t.ticks[timer] == s.ticks[timer] + TimerTicks(log, ks, timer, false)
      && t.exclusive[timer] == s.exclusive[timer] + TimerTicks(log, ks, timer, true)
      && t.count[timer] == s.count[timer] + TimerCount(log, ks, timer)
  }

  /** In a nested range every leave closes the scope that the nesting pairs it with, and every timer gets its due. */
  lemma {:induction false} NestedRange(s: State, log: seq<nat>, ks: seq<nat>)
    requires Proper(s, log) && |log| > 0 && (forall i :: 0 <= i < |ks| ==> ks[i] < |log|)
    requires Fold(s, log, ks).Running? && Nested(log, ks)
    ensures During(s, Fold(s, log, ks).state, log, ks)
    ensures Counted(s, Fold(s, log, ks).state, log, ks)
  {
    if ks != [] {
      var n := |ks| - 1;
      hide During, Counted, Step;
      PrefixNested(log, ks);
      NestedRange(s, log, ks[..n]);
      DuringStep(s, Fold(s, log, ks[..n]).state, log, ks);
      CountedStep(s, Fold(s, log, ks[..n]).state, log, ks);
    }
  }

  /**
   A frame that closes scopes opened in earlier frames: what it adds for every timer is what all the entries since
   then give it, less what the earlier ones gave it.
   */
  lemma CarriedRange(s: State, log: seq<nat>, ks: seq<nat>, ls: seq<nat>)
    requires Proper(s, log) && |log| > 0
    requires (forall i :: 0 <= i < |ks| ==> ks[i] < |log|) && (forall i :: 0 <= i < |ls| ==> ls[i] < |log|)
    requires Fold(s, log, ks + ls).Running? && Nested(log, ks + ls)
    ensures Fold(s, log, ks).Running? && Fold(Fold(s, log, ks).state, log, ls).Running?
    ensures var t := Fold(s, log, ks).state;
            var u := Fold(t, log, ls).state;
            forall timer :: 0 <= timer < TIMERS ==>
              && u.ticks[timer] - t.ticks[timer] == TimerTicks(log, ks + ls, timer, false) - TimerTicks(log, ks, timer, false)
              && u.exclusive[timer] - t.exclusive[timer] == TimerTicks(log, ks + ls, timer, true) - TimerTicks(log, ks, timer, true)
              && u.count[timer] - t.count[timer] == TimerCount(log, ks + ls, timer) - TimerCount(log, ks, timer)
  {
    hide Fold, TimerTicks, TimerCount, During, Rise;
    assert (ks + ls)[..|ks|] == ks;
    if Fold(s, log, ks).Overrun? { FoldStops(s, log, ks + ls, |ks|); }
    FoldConcat(s, log, ks, ls);
    forall n | 0 <= n <= |ks| ensures Rise(log, ks[..n]) >= 0 { assert ks[..n] == (ks + ls)[..n]; }
    NestedRange(s, log, ks);
    NestedRange(s, log, ks + ls);
  }

  lemma PrefixNested(log: seq<nat>, ks: seq<nat>)
    requires ks != [] && (forall i :: 0 <= i < |ks| ==> ks[i] < |log|) && Nested(log, ks)
    ensures Nested(log, ks[..|ks| - 1]) && Rise(log, ks) >= 0
  {
    assert ks[..|ks|] == ks;
    var init := ks[..|ks| - 1];
    forall n | 0 <= n <= |init| ensures Rise(log, init[..n]) >= 0 {
      assert init[..n] == ks[..n];
    }
  }

  lemma DuringStep(s: State, t: State, log: seq<nat>, ks: seq<nat>)
    requires ks != [] && Proper(s, log) && Proper(t, log) && |log| > 0
    requires (forall i :: 0 <= i < |ks| ==> ks[i] < |log|) && Rise(log, ks) >= 0
    requires During(s, t, log, ks[..|ks| - 1]) && Step(t, log, ks[|ks| - 1]).Running?
    ensures During(s, Step(t, log, ks[|ks| - 1]).state, log, ks)
  {
    hide TickDifference, LogType, TimerIndex, Opened, Closed, Span, Step, AtDepth;
    var init, k, p := ks[..|ks| - 1], ks[|ks| - 1], |s.stack|;
    if LogType(log[k]) == LEAVE { LeaveFinds(s, t, log, ks); }
    StepShape(t, log, k);
    var u := Step(t, log, k).state;
    assert u.stack[..p] == t.stack[..p] && u.child[..p] == t.child[..p];
    forall d | p <= d <= |u.stack| ensures AtDepth(s, u, log, ks, d) {
      DepthStep(s, t, log, ks, d);
    }
  }

  lemma DepthStep(s: State, t: State, log: seq<nat>, ks: seq<nat>, d: nat)
    requires ks != [] && Proper(s, log) && Proper(t, log) && |log| > 0
    requires (forall i :: 0 <= i < |ks| ==> ks[i] < |log|) && Rise(log, ks) >= 0
    requires During(s, t, log, ks[..|ks| - 1]) && Step(t, log, ks[|ks| - 1]).Running?
    requires |s.stack| <= d <= |Step(t, log, ks[|ks| - 1]).state.stack|
    ensures AtDepth(s, Step(t, log, ks[|ks| - 1]).state, log, ks, d)
  {
    hide TickDifference, LogType, TimerIndex, Opened, Closed, Span, Step, Rise;
    var init, k, p := ks[..|ks| - 1], ks[|ks| - 1], |s.stack|;
    if LogType(log[k]) == LEAVE { LeaveFinds(s, t, log, ks); }
    StepShape(t, log, k);
    if d <= |t.stack| { assert AtDepth(s, t, log, init, d); }
    OneMore(log, ks, d - p);
  }

  /** A step, index by index. */
  lemma StepShape(t: State, log: seq<nat>, k: nat)
    requires k < |log| && Proper(t, log) && Step(t, log, k).Running?
    ensures var u, depth := Step(t, log, k).state, |t.stack|;
            if LogType(log[k]) == ENTER then
              && |u.stack| == depth + 1 && u.stack[depth] == k && u.child[depth + 1] == 0
              && (forall i :: 0 <= i < depth ==> u.stack[i] == t.stack[i])
              && (forall i :: 0 <= i <= depth ==> u.child[i] == t.child[i])
            else if LogType(log[k]) == LEAVE && depth > 0 then
              && |u.stack| == depth - 1
              && (forall i :: 0 <= i < depth - 1 ==> u.stack[i] == t.stack[i])
              && (forall i :: 0 <= i < depth - 1 ==> u.child[i] == t.child[i])
              && u.child[depth - 1] == t.child[depth - 1] + TickDifference(log[t.stack[depth - 1]], log[k])
            else u == t
  {
    hide TickDifference, LogType, TimerIndex;
  }

  /** How the last entry changes what the entries say of depth d. */
  lemma OneMore(log: seq<nat>, ks: seq<nat>, d: nat)
    requires ks != [] && |log| > 0 && (forall i :: 0 <= i < |ks| ==> ks[i] < |log|)
    ensures var init, k := ks[..|ks| - 1], ks[|ks| - 1];
            var r := Rise(log, ks);
            if LogType(log[k]) == ENTER then
              && r == Rise(log, init) + 1
              && Opened(log, ks, d) == (if d == r - 1 then k else Opened(log, init, d))
              && Closed(log, ks, d) == if d == r then 0 else Closed(log, init, d)
            else if LogType(log[k]) == LEAVE then
              && r == Rise(log, init) - 1
              && Opened(log, ks, d) == Opened(log, init, d)
              && Closed(log, ks, d) == Closed(log, init, d) + if d == r then Span(log, ks) else 0
            else
              r == Rise(log, init) && Opened(log, ks, d) == Opened(log, init, d) && Closed(log, ks, d) == Closed(log, init, d)
  {
    hide LogType;
  }

  /** What a leave entry of the range finds on the stacks. */
  lemma LeaveFinds(s: State, t: State, log: seq<nat>, ks: seq<nat>)
    requires ks != [] && Proper(s, log) && Proper(t, log) && |log| > 0
    requires (forall i :: 0 <= i < |ks| ==> ks[i] < |log|) && Rise(log, ks) >= 0 && LogType(log[ks[|ks| - 1]]) == LEAVE
    requires During(s, t, log, ks[..|ks| - 1])
    ensures var depth := |t.stack|;
            && depth > 0 && TickDifference(log[t.stack[depth - 1]], log[ks[|ks| - 1]]) == Span(log, ks)
            && t.child[depth] == Closed(log, ks[..|ks| - 1], Rise(log, ks[..|ks| - 1]))
  {
    hide TickDifference, LogType, TimerIndex, Opened, Closed, Rise, Span, During;
    OneMore(log, ks, 0);
    TopOfStack(s, t, log, ks[..|ks| - 1]);
    SpanIs(log, ks);
  }

  lemma TopOfStack(s: State, t: State, log: seq<nat>, ks: seq<nat>)
    requires Proper(s, log) && Proper(t, log) && |log| > 0 && (forall i :: 0 <= i < |ks| ==> ks[i] < |log|)
    requires During(s, t, log, ks) && Rise(log, ks) > 0
    ensures var depth := |t.stack|;
            && depth > 0 && t.stack[depth - 1] == Opened(log, ks, Rise(log, ks) - 1)
            && t.child[depth] == Closed(log, ks, Rise(log, ks))
  {
    hide Opened, Closed, Rise;
    var depth := |t.stack|;
    assert AtDepth(s, t, log, ks, depth - 1) && AtDepth(s, t, log, ks, depth);
  }

  lemma SpanIs(log: seq<nat>, ks: seq<nat>)
    requires ks != [] && |log| > 0 && (forall i :: 0 <= i < |ks| ==> ks[i] < |log|)
    ensures Span(log, ks) == TickDifference(log[Opened(log, ks[..|ks| - 1], Rise(log, ks))], log[ks[|ks| - 1]])
  {
    hide TickDifference, Opened, Rise;
  }

  lemma CountedStep(s: State, t: State, log: seq<nat>, ks: seq<nat>)
    requires ks != [] && Proper(s, log) && Proper(t, log) && |log| > 0
    requires (forall i :: 0 <= i < |ks| ==> ks[i] < |log|) && Rise(log, ks) >= 0
    requires During(s, t, log, ks[..|ks| - 1]) && Step(t, log, ks[|ks| - 1]).Running?
    requires Counted(s, t, log, ks[..|ks| - 1])
    ensures Counted(s, Step(t, log, ks[|ks| - 1]).state, log, ks)
  {
    hide TickDifference, LogType, TimerIndex, During, Span, Closed, Rise;
    var e := log[ks[|ks| - 1]];
    if LogType(e) == LEAVE {
      LeaveFinds(s, t, log, ks);
    }
  }

  /** The exclusive ticks of a balanced range total its outermost spans, and the stack is as before. */
  lemma BalancedTotals(s: State, log: seq<nat>, ks: seq<nat>)
    requires Proper(s, log) && |log| > 0 && (forall i :: 0 <= i < |ks| ==> ks[i] < |log|)
    requires Fold(s, log, ks).Running? && Nested(log, ks) && Rise(log, ks) == 0
    ensures Fold(s, log, ks).state.stack == s.stack
    ensures Sum(Fold(s, log, ks).state.exclusive) - Sum(s.exclusive) == Closed(log, ks, 0)
    ensures Sum(Fold(s, log, ks).state.count) - Sum(s.count) == Enters(log, ks)
  {
    hide Fold, Closed, Rise, Nested, Opened, Enters, During, Sum, Counted;
    NestedRange(s, log, ks);
    FoldConserves(s, log, ks);
    OnlyLastChanged(s, Fold(s, log, ks).state, log, ks);
    SumAdd(s.child, |s.stack|, Closed(log, ks, 0));
  }

  lemma OnlyLastChanged(s: State, t: State, log: seq<nat>, ks: seq<nat>)
    requires Proper(s, log) && Proper(t, log) && |log| > 0 && (forall i :: 0 <= i < |ks| ==> ks[i] < |log|)
    requires During(s, t, log, ks) && Rise(log, ks) == 0
    ensures t.stack == s.stack && t.child == Add(s.child, |s.stack|, Closed(log, ks, 0))
  {
    hide Closed, Rise, Opened;
    var p := |s.stack|;
    assert t.stack == t.stack[..p];
    assert AtDepth(s, t, log, ks, p);
    assert t.child == t.child[..p] + [t.child[p]] && s.child == s.child[..p] + [s.child[p]];
  }

  // ---------------------------------------------------------------------------------------------
  // The depth that the stack holds
  // ---------------------------------------------------------------------------------------------

  /** The nesting depth: a leave entry without an open scope is ignored. */
  function Depth(log: seq<nat>, ks: seq<nat>, start: nat): nat
    requires forall i :: 0 <= i < |ks| ==> ks[i] < |log|
  {
    if ks == [] then start else
      var d := Depth(log, ks[..|ks| - 1], start);
      var e := log[ks[|ks| - 1]];
      if LogType(e) == ENTER then d + 1 else if LogType(e) == LEAVE && d > 0 then d - 1 else d
  }

  /** The replay stays inside its stacks exactly if the nesting stays below MICROPROFILE_STACK_MAX. */
  lemma {:induction false} OverrunExactly(s: State, log: seq<nat>, ks: seq<nat>)
    requires Proper(s, log) && forall i :: 0 <= i < |ks| ==> ks[i] < |log|
    ensures Fold(s, log, ks).Running? <==> forall n :: 0 <= n <= |ks| ==> Depth(log, ks[..n], |s.stack|) < 32
    ensures Fold(s, log, ks).Running? ==> |Fold(s, log, ks).state.stack| == Depth(log, ks, |s.stack|)
  {
    var d := |s.stack|;
    if ks != [] {
      var n := |ks| - 1;
      OverrunExactly(s, log, ks[..n]);
      forall i | 0 <= i <= n ensures ks[..n][..i] == ks[..i] {}
      assert ks[..|ks|] == ks;
    }
  }

  /** A leave entry when no scope is open, and an entry of another type, changes nothing. */
  lemma StrayEntryIgnored(s: State, log: seq<nat>, ks: seq<nat>, k: nat)
    requires Proper(s, log) && k < |log| && (forall i :: 0 <= i < |ks| ==> ks[i] < |log|) && Fold(s, log, ks).Running?
    requires LogType(log[k]) != ENTER && (LogType(log[k]) == LEAVE ==> Depth(log, ks, |s.stack|) == 0)
    ensures Fold(s, log, ks + [k]) == Fold(s, log, ks)
  {
    OverrunExactly(s, log, ks);
    assert (ks + [k])[..|ks|] == ks;
    hide LogType, Depth;
  }

  lemma {:induction false} AllEnters(log: seq<nat>, ks: seq<nat>, start: nat)
    requires (forall i :: 0 <= i < |ks| ==> ks[i] < |log|) && forall i :: 0 <= i < |ks| ==> LogType(log[ks[i]]) == ENTER
    ensures Depth(log, ks, start) == start + |ks|
  {
    hide LogType;
    if ks != [] { AllEnters(log, ks[..|ks| - 1], start); }
  }

  /**
   A log that overruns: STACK_MAX scopes entered one inside the other, on an empty stack. The position is below
   STACK_MAX before every one of them, so that the source's assertion lets them all through.
   */
  lemma DeepestScopeOverruns(s: State)
    requires s.stack == [] && |s.child| == 1 && |s.ticks| == |s.exclusive| == |s.count| == TIMERS
    ensures var log, ks := seq(STACK_MAX, i => MakeLogIndex(ENTER, 0, i)), seq(STACK_MAX, i => i);
            && Proper(s, log)
            && (forall n :: 0 <= n < STACK_MAX ==> Fold(s, log, ks[..n]).Running? && |Fold(s, log, ks[..n]).state.stack| < STACK_MAX)
            && Fold(s, log, ks).Overrun?
  {
    var log, ks := seq(STACK_MAX, i => MakeLogIndex(ENTER, 0, i)), seq(STACK_MAX, i => i);
    assert forall i :: 0 <= i < STACK_MAX ==> LogType(log[i]) == ENTER;
    hide MakeLogIndex, LogType, Fold, Depth;
    forall n | 0 <= n <= STACK_MAX ensures Depth(log, ks[..n], 0) == n {
      AllEnters(log, ks[..n], 0);
    }
    forall n | 0 <= n < STACK_MAX
      ensures Fold(s, log, ks[..n]).Running? && |Fold(s, log, ks[..n]).state.stack| < STACK_MAX
    {
      assert forall m :: 0 <= m <= n ==> ks[..n][..m] == ks[..m];
      OverrunExactly(s, log, ks[..n]);
    }
    assert ks[..STACK_MAX] == ks;
    OverrunExactly(s, log, ks);
  }

  // ---------------------------------------------------------------------------------------------
  // The replay loop
  // ---------------------------------------------------------------------------------------------

  /** A thread's log and stacks, with the counters of the frame that it adds to. */
  class ThreadLog {
    const log: seq<nat>
    const stack: array<nat>
    const childTicks: array<int>
    var stackPos: nat
    var ticks: seq<int>
    var exclusive: seq<int>
    var count: seq<int>

    ghost predicate Valid()
      reads this, stack, childTicks
    {
      && stack.Length == childTicks.Length == STACK_MAX
      && stackPos < STACK_MAX
      && Proper(Value(), log)
    }

    /** Only what lies below the stack position matters. */
    ghost function Value(): State
      requires stackPos < stack.Length && stackPos < childTicks.Length
      reads this, stack, childTicks
    {
      State(stack[..stackPos], childTicks[..stackPos + 1], ticks, exclusive, count)
    }

    constructor (log: seq<nat>)
      ensures Valid() && fresh(stack) && fresh(childTicks) && this.log == log
      ensures stackPos == 0 && Value().child == [0]
      ensures Sum(ticks) == Sum(exclusive) == Sum(count) == 0
    {
      this.log := log;
      stack := new nat[STACK_MAX](_ => 0);
      childTicks := new int[STACK_MAX](_ => 0);
      stackPos := 0;
      ticks, exclusive, count := seq(TIMERS, _ => 0), seq(TIMERS, _ => 0), seq(TIMERS, _ => 0);
      new;
      SumZero(ticks);
    }

    /** One entry; false where the source writes outside its stacks. */
    method Visit(k: nat) returns (ok: bool)
      requires Valid() && k < |log|
      modifies this, stack, childTicks
      ensures Valid()
      ensures ok <==> Step(old(Value()), log, k).Running?
      ensures if ok then Value() == Step(old(Value()), log, k).state else Value() == old(Value())
    {
      hide TickDifference, LogType, TimerIndex;
      var e := log[k];
      if LogType(e) == ENTER {
        if stackPos + 1 >= STACK_MAX {
          return false;
        }
        stack[stackPos] := k;
        stackPos := stackPos + 1;
        childTicks[stackPos] := 0;
        assert Value().stack == old(Value()).stack + [k];
        assert Value().child == old(Value()).child + [0];
      } else if LogType(e) == LEAVE && stackPos > 0 {
        var spent := TickDifference(log[stack[stackPos - 1]], e);
        var inChildren := childTicks[stackPos];
        stackPos := stackPos - 1;
        childTicks[stackPos] := childTicks[stackPos] + spent;
        var timer := TimerIndex(e);
        ticks := Add(ticks, timer, spent);
        exclusive := Add(exclusive, timer, spent - inChildren);
        count := Add(count, timer, 1);
        assert Value().stack == old(Value()).stack[..stackPos];
        assert Value().child == Add(old(Value()).child[..stackPos + 1], stackPos, spent);
      }
      ok := true;
    }

    /** The inner loop, over one run of the ring. */
    method ReplayRun(r: Range) returns (ok: bool)
      requires Valid() && r.end <= |log|
      modifies this, stack, childTicks
      ensures Valid()
      ensures forall i :: 0 <= i < |Run(r)| ==> Run(r)[i] < |log|
      ensures ok <==> Fold(old(Value()), log, Run(r)).Running?
      ensures ok ==> Value() == Fold(old(Value()), log, Run(r)).state
    {
      hide Step;
      var k := r.start;
      ghost var ks := Run(r);
      ghost var n := 0;
      while k < r.end
        invariant Valid() && n <= |ks| && k == r.start + n && (n == |ks| <==> k >= r.end)
        invariant Fold(old(Value()), log, ks[..n]) == Running(Value())
        decreases r.end - k
      {
        ghost var before := Value();
        assert ks[n] == k && ks[..n + 1][..n] == ks[..n];
        ok := Visit(k);
        if !ok {
          FoldStops(old(Value()), log, ks, n + 1);
          return;
        }
        k := k + 1;
        n := n + 1;
      }
      assert ks[..n] == ks;
      ok := true;
    }

    /** A frame's entries, from get to put around the ring. */
    method Replay(put: nat, get: nat) returns (ok: bool)
      requires Valid() && put < |log| && get < |log|
      modifies this, stack, childTicks
      ensures Valid()
      ensures ok <==> Fold(old(Value()), log, RingWalk(put, get, |log|)).Running?
      ensures ok ==> Value() == Fold(old(Value()), log, RingWalk(put, get, |log|)).state
    {
      hide Run, Step, RingWalk, Fold;
      var first, second := GetRange(put, get, |log|);
      ghost var s, walk := Value(), RingWalk(put, get, |log|);
      ok := ReplayRun(first);
      assert walk[..|Run(first)|] == Run(first);
      if !ok {
        FoldStops(s, log, walk, |Run(first)|);
        return;
      }
      ghost var middle := Value();
      ok := ReplayRun(second);
      FoldConcat(s, log, Run(first), Run(second));
    }
  }

  lemma {:induction false} SumZero(s: seq<int>)
    requires forall i :: 0 <= i < |s| ==> s[i] == 0
    ensures Sum(s) == 0
  {
    if s != [] { SumZero(s[..|s| - 1]); }
  }

  lemma {:induction false} FoldStops(s: State, log: seq<nat>, ks: seq<nat>, n: nat)
    requires Proper(s, log) && n <= |ks| && forall i :: 0 <= i < |ks| ==> ks[i] < |log|
    requires Fold(s, log, ks[..n]).Overrun?
    ensures Fold(s, log, ks).Overrun?
    decreases |ks|
  {
    if n == |ks| {
      assert ks[..n] == ks;
    } else {
      assert ks[..|ks| - 1][..n] == ks[..n];
      FoldStops(s, log, ks[..|ks| - 1], n);
    }
  }

  lemma {:induction false} FoldConcat(s: State, log: seq<nat>, ks: seq<nat>, ls: seq<nat>)
    requires Proper(s, log) && (forall i :: 0 <= i < |ks| ==> ks[i] < |log|) && (forall i :: 0 <= i < |ls| ==> ls[i] < |log|)
    requires Fold(s, log, ks).Running?
    ensures Fold(s, log, ks + ls) == Fold(Fold(s, log, ks).state, log, ls)
  {
    hide Step;
    if ls == [] {
      assert ks + ls == ks;
    } else {
      var n := |ls| - 1;
      assert (ks + ls)[..|ks| + n] == ks + ls[..n];
      FoldConcat(s, log, ks, ls[..n]);
    }
  }
}
