/**
 The stop_state of the jthread polyfill: callbacks registered before the stop are drained by the first
 request_stop, oldest first; callbacks inserted later run on the spot. A callback may itself call back into
 the stop_state, which is why the lock is recursive: its Script is what it does when it is run. A null
 function behaves as the script End.
 */
module StopState {
  import opened Sequences

  datatype Script =
    | End
    | Insert(callback: Script, rest: Script)
    | Remove(id: nat, rest: Script)
    | RequestStop(rest: Script)

  /** What an observer sees; a callback that runs on insertion runs under the id 0. */
  datatype Event =
    | Registered(id: nat, callback: Script)
    | Removed(id: nat)
    | Stopped
    | Ran(id: nat, callback: Script)

  datatype State = State(callbacks: map<nat, Script>, next: nat, requested: bool, log: seq<Event>)

  const INITIAL := State(map[], 0, false, [])

  // ---------------------------------------------------------------------------------------------
  // What a script does
  // ---------------------------------------------------------------------------------------------

  /** std::map's begin. */
  ghost predicate IsLeast(k: nat, keys: set<nat>) {
    k in keys && forall j :: j in keys ==> k <= j
  }

  lemma LeastExists(keys: set<nat>)
    requires keys != {}
    ensures exists k :: IsLeast(k, keys)
    decreases |keys|
  {
    var k :| k in keys;
    if keys == {k} {
      assert IsLeast(k, keys);
    } else {
      var others := keys - {k};
      assert keys == {k} + others;
      LeastExists(others);
      var l :| IsLeast(l, others);
      assert IsLeast(if k < l then k else l, keys) by {
        forall j | j in keys ensures (if k < l then k else l) <= j {
          assert j == k || j in others;
        }
      }
    }
  }

  function Least(keys: set<nat>): (k: nat)
    requires keys != {}
    ensures IsLeast(k, keys)
  {
    LeastExists(keys);
    var k :| k in keys && forall j :: j in keys ==> k <= j;
    k
  }

  /** Once the stop is requested it stays so, and nothing is added to the map. */
  ghost predicate Shrinks(s: State, t: State) {
    s.requested ==> t.requested && t.callbacks.Keys <= s.callbacks.Keys && t.next == s.next
  }

  function Inserted(s: State, callback: Script): (t: State)
    ensures Shrinks(s, t)
    decreases if s.requested then 0 else 3, callback, 2
  {
    if s.requested then
      Run(s, 0, callback)
    else
      s.(next := s.next + 1, callbacks := s.callbacks[s.next + 1 := callback], log := s.log + [Registered(s.next + 1, callback)])
  }

  function Erased(s: State, id: nat): (t: State)
    ensures Shrinks(s, t)
  {
    s.(callbacks := s.callbacks - {id}, log := s.log + [Removed(id)])
  }

  function Run(s: State, id: nat, callback: Script): (t: State)
    requires s.requested
    ensures Shrinks(s, t)
    decreases 0, callback, 1
  {
    Perform(s.(log := s.log + [Ran(id, callback)]), callback)
  }

  function Drain(s: State): (t: State)
    requires s.requested
    ensures t.requested && t.callbacks == map[] && t.next == s.next
    decreases 1, End, |s.callbacks|
  {
    if s.callbacks == map[] then s
    else
      var t := RunFirst(s);
      SmallerMap(t.callbacks, s.callbacks, Least(s.callbacks.Keys));
      Drain(t)
  }

  /** One round of the drain: the element is erased before its callback runs. */
  function RunFirst(s: State): (t: State)
    requires s.requested && s.callbacks != map[]
    ensures t.requested && t.next == s.next && t.callbacks.Keys <= s.callbacks.Keys - {Least(s.callbacks.Keys)}
    decreases 1, End, 0
  {
    var id := Least(s.callbacks.Keys);
    Run(s.(callbacks := s.callbacks - {id}), id, s.callbacks[id])
  }

  lemma SmallerMap(a: map<nat, Script>, b: map<nat, Script>, k: nat)
    requires k in b && a.Keys <= b.Keys - {k}
    ensures |a| < |b|
  {
    Subset(a.Keys, b.Keys - {k});
    assert |a| == |a.Keys| && |b| == |b.Keys|;
  }

  lemma {:induction false} Subset(a: set<nat>, b: set<nat>)
    requires a <= b
    ensures |a| <= |b|
    decreases a
  {
    if a != {} {
      var x :| x in a;
      Subset(a - {x}, b - {x});
    }
  }

  /** request_stop when it has not been called before; a later call does nothing. */
  function FirstStop(s: State): (t: State)
    requires !s.requested
    ensures t.requested && t.callbacks == map[] && t.next == s.next
    decreases 2, End, 0
  {
    Drain(s.(requested := true, log := s.log + [Stopped]))
  }

  function Perform(s: State, script: Script): (t: State)
    ensures Shrinks(s, t)
    decreases if s.requested then 0 else 3, script, 0
  {
    match script
    case End => s
    case Insert(callback, rest) => Perform(Inserted(s, callback), rest)
    case Remove(id, rest) => Perform(Erased(s, id), rest)
    case RequestStop(rest) => Perform(if s.requested then s else FirstStop(s), rest)
  }

  // ---------------------------------------------------------------------------------------------
  // What a log must look like
  // ---------------------------------------------------------------------------------------------

  /** The callbacks registered and since then neither removed nor run. */
  ghost function Live(log: seq<Event>): map<nat, Script> {
    if log == [] then map[] else Advance(Live(log[..|log| - 1]), log[|log| - 1])
  }

  ghost function Advance(live: map<nat, Script>, e: Event): map<nat, Script> {
    match e
    case Registered(id, callback) => live[id := callback]
    case Removed(id) => live - {id}
    case Stopped => live
    case Ran(id, _) => live - {id}
  }

  ghost function Registrations(log: seq<Event>): nat {
    if log == [] then 0 else Registrations(log[..|log| - 1]) + if log[|log| - 1].Registered? then 1 else 0
  }

  /** An event is in order: ids are fresh, only a live callback runs, the oldest first, and only after the stop. */
  ghost predicate InOrder(before: seq<Event>, e: Event) {
    match e
    case Registered(id, _) => Stopped !in before && id == Registrations(before) + 1
    case Removed(_) => true
    case Stopped => Stopped !in before
    case Ran(id, callback) =>
      Stopped in before && (id != 0 ==> IsLeast(id, Live(before).Keys) && Live(before)[id] == callback)
  }

  ghost predicate Legal(log: seq<Event>) {
    forall i :: 0 <= i < |log| ==> InOrder(log[..i], log[i])
  }

  ghost predicate Inv(s: State) {
    && Legal(s.log)
    && s.callbacks == Live(s.log)
    && s.next == Registrations(s.log)
    && (s.requested <==> Stopped in s.log)
    && 0 !in s.callbacks
  }

  ghost predicate Extends(log: seq<Event>, longer: seq<Event>) {
    |log| <= |longer| && longer[..|log|] == log
  }

  lemma Snoc(log: seq<Event>, e: Event)
    requires Legal(log) && InOrder(log, e)
    ensures Legal(log + [e])
    ensures Registrations(log + [e]) == Registrations(log) + if e.Registered? then 1 else 0
    ensures Live(log + [e]) == Advance(Live(log), e)
  {
    var longer := log + [e];
    assert longer[..|longer| - 1] == log;
    forall i | 0 <= i < |longer| ensures InOrder(longer[..i], longer[i]) {
      if i < |log| {
        assert longer[..i] == log[..i] && longer[i] == log[i];
      } else {
        assert longer[..i] == log;
      }
    }
  }

  // ---------------------------------------------------------------------------------------------
  // Every run is in order
  // ---------------------------------------------------------------------------------------------

  /** One event. */
  lemma Step(s: State, e: Event, t: State)
    requires Inv(s) && InOrder(s.log, e) && t.log == s.log + [e]
    requires t.callbacks == Advance(s.callbacks, e) && t.next == s.next + if e.Registered? then 1 else 0
    requires t.requested == (s.requested || e == Stopped)
    ensures Inv(t) && Extends(s.log, t.log)
  {
    hide Legal, Live, Registrations;
    Snoc(s.log, e);
    assert t.log[..|s.log|] == s.log;
    assert Stopped in t.log <==> Stopped in s.log || e == Stopped;
    RegisteredIsPositive(s.log, e);
  }

  lemma RegisteredIsPositive(log: seq<Event>, e: Event)
    requires InOrder(log, e)
    ensures e.Registered? ==> e.id > 0
  {
  }

  lemma {:induction false} InsertedInOrder(s: State, callback: Script)
    requires Inv(s)
    ensures Inv(Inserted(s, callback)) && Extends(s.log, Inserted(s, callback).log)
    decreases if s.requested then 0 else 3, callback, 2
  {
    hide Legal, Live, Registrations, Extends;
    if s.requested {
      RunInOrder(s, s, 0, callback);
    } else {
      Step(s, Registered(s.next + 1, callback), Inserted(s, callback));
    }
  }

  /** Running a callback that was just taken out of the map, or one that never was in it. */
  lemma {:induction false} RunInOrder(before: State, s: State, id: nat, callback: Script)
    requires s.requested && Inv(before) && s == before.(callbacks := before.callbacks - {id})
    requires InOrder(s.log, Ran(id, callback))
    ensures Inv(Run(s, id, callback)) && Extends(s.log, Run(s, id, callback).log)
    ensures Extends(s.log + [Ran(id, callback)], Run(s, id, callback).log)
    decreases 0, callback, 1
  {
    hide Legal, Live, Registrations, InOrder, Extends, Inv, Perform;
    var t := s.(log := s.log + [Ran(id, callback)]);
    Step(before, Ran(id, callback), t);
    PerformInOrder(t, callback);
    Longer(s.log, t.log, Perform(t, callback).log);
  }

  lemma {:induction false} DrainInOrder(s: State)
    requires s.requested && Inv(s)
    ensures Inv(Drain(s)) && Extends(s.log, Drain(s).log)
    decreases 1, End, |s.callbacks|
  {
    if s.callbacks == map[] {
      assert s.log[..|s.log|] == s.log;
    } else {
      hide Legal, Registrations, Extends, Run;
      var id := Least(s.callbacks.Keys);
      OldestMayRun(s, id);
      RunInOrder(s, s.(callbacks := s.callbacks - {id}), id, s.callbacks[id]);
      var t := RunFirst(s);
      SmallerMap(t.callbacks, s.callbacks, id);
      DrainInOrder(t);
      Longer(s.log, t.log, Drain(t).log);
    }
  }

  lemma OldestMayRun(s: State, id: nat)
    requires s.requested && Inv(s) && s.callbacks != map[] && id == Least(s.callbacks.Keys)
    ensures InOrder(s.log, Ran(id, s.callbacks[id]))
  {
    hide Legal, Live, Registrations;
  }

  lemma {:induction false} FirstStopInOrder(s: State)
    requires !s.requested && Inv(s)
    ensures Inv(FirstStop(s)) && Extends(s.log, FirstStop(s).log)
    decreases 2, End, 0
  {
    hide Legal, Live, Registrations, Extends, Drain;
    var t := s.(requested := true, log := s.log + [Stopped]);
    Step(s, Stopped, t);
    DrainInOrder(t);
    Longer(s.log, t.log, Drain(t).log);
  }

  lemma {:induction false} PerformInOrder(s: State, script: Script)
    requires Inv(s)
    ensures Inv(Perform(s, script)) && Extends(s.log, Perform(s, script).log)
    decreases if s.requested then 0 else 3, script, 0
  {
    hide Inv, Extends, Inserted, Erased, FirstStop;
    match script
    case End => Itself(s.log);
    case Insert(callback, rest) =>
      InsertedInOrder(s, callback);
      PerformInOrder(Inserted(s, callback), rest);
      Longer(s.log, Inserted(s, callback).log, Perform(s, script).log);
    case Remove(id, rest) =>
      ErasedInOrder(s, id);
      PerformInOrder(Erased(s, id), rest);
      Longer(s.log, Erased(s, id).log, Perform(s, script).log);
    case RequestStop(rest) =>
      if s.requested {
        PerformInOrder(s, rest);
      } else {
        FirstStopInOrder(s);
        PerformInOrder(FirstStop(s), rest);
        Longer(s.log, FirstStop(s).log, Perform(s, script).log);
      }
  }

  lemma ErasedInOrder(s: State, id: nat)
    requires Inv(s)
    ensures Inv(Erased(s, id)) && Extends(s.log, Erased(s, id).log)
  {
    hide Legal, Live, Registrations, Extends;
    Step(s, Removed(id), Erased(s, id));
  }

  lemma Itself(log: seq<Event>)
    ensures Extends(log, log)
  {
    assert log[..|log|] == log;
  }

  lemma Longer(a: seq<Event>, b: seq<Event>, c: seq<Event>)
    requires Extends(a, b) && Extends(b, c)
    ensures Extends(a, c)
  {
    assert c[..|a|] == b[..|a|];
  }

  // ---------------------------------------------------------------------------------------------
  // What follows from the order
  // ---------------------------------------------------------------------------------------------

  lemma PrefixLegal(log: seq<Event>, n: nat)
    requires Legal(log) && n <= |log|
    ensures Legal(log[..n])
  {
    forall i | 0 <= i < n ensures InOrder(log[..n][..i], log[..n][i]) {
      assert log[..n][..i] == log[..i];
    }
  }

  /** Live ids were given out. */
  lemma {:induction false} LiveIsRegistered(log: seq<Event>)
    requires Legal(log)
    ensures forall id :: id in Live(log) ==> id <= Registrations(log)
  {
    if log != [] {
      var n := |log| - 1;
      PrefixLegal(log, n);
      LiveIsRegistered(log[..n]);
      assert InOrder(log[..n], log[n]);
    }
  }

  lemma {:induction false} RegistrationsGrow(log: seq<Event>, i: nat)
    requires i <= |log|
    ensures Registrations(log[..i]) <= Registrations(log)
    decreases |log|
  {
    if i == |log| {
      assert log[..i] == log;
    } else {
      assert log[..|log| - 1][..i] == log[..i];
      RegistrationsGrow(log[..|log| - 1], i);
    }
  }

  /** An id that was given out and is not live never is again. */
  lemma {:induction false} GoneForever(log: seq<Event>, i: nat, id: nat)
    requires Legal(log) && i <= |log| && id <= Registrations(log[..i]) && id !in Live(log[..i])
    ensures id !in Live(log)
    decreases |log|
  {
    if i == |log| {
      assert log[..i] == log;
    } else {
      var n := |log| - 1;
      assert log[..n][..i] == log[..i];
      PrefixLegal(log, n);
      GoneForever(log[..n], i, id);
      RegistrationsGrow(log[..n], i);
      assert InOrder(log[..n], log[n]);
    }
  }

  /** No callback runs after its removal. */
  lemma NeverAfterRemoval(log: seq<Event>, h: nat, i: nat, j: nat)
    requires Legal(log) && h < i < j < |log|
    requires log[h].Registered? && log[i] == Removed(log[h].id) && log[j].Ran?
    ensures log[j].id != log[h].id
  {
    hide Live, Legal, Registrations, InOrder;
    GoneOnRemoval(log, h, i);
    PrefixLegal(log, j);
    Prefixes(log, i + 1, j);
    GoneForever(log[..j], i + 1, log[h].id);
    LiveAt(log, j);
    RanWasLive(log[..j], log[j]);
  }

  lemma GoneOnRemoval(log: seq<Event>, h: nat, i: nat)
    requires Legal(log) && h < i < |log| && log[h].Registered? && log[i] == Removed(log[h].id)
    ensures 0 < log[h].id <= Registrations(log[..i + 1]) && log[h].id !in Live(log[..i + 1])
  {
    hide Live, Legal, Registrations, InOrder;
    GivenOut(log, h, i + 1);
    LiveAt(log, i);
  }

  lemma RanWasLive(before: seq<Event>, e: Event)
    requires InOrder(before, e) && e.Ran?
    ensures e.id == 0 || e.id in Live(before)
  {
    hide Live, Registrations;
  }

  lemma LiveAt(log: seq<Event>, i: nat)
    requires Legal(log) && i < |log|
    ensures InOrder(log[..i], log[i])
    ensures Live(log[..i + 1]) == Advance(Live(log[..i]), log[i])
  {
    assert log[..i + 1][..i] == log[..i];
  }

  lemma GivenOut(log: seq<Event>, h: nat, n: nat)
    requires Legal(log) && h < n <= |log| && log[h].Registered?
    ensures 0 < log[h].id <= Registrations(log[..n])
  {
    assert InOrder(log[..h], log[h]);
    assert log[..h + 1][..h] == log[..h];
    assert log[..n][..h + 1] == log[..h + 1];
    RegistrationsGrow(log[..n], h + 1);
  }

  /** After the stop the live callbacks only become fewer. */
  lemma {:induction false} OnlyFewer(log: seq<Event>, i: nat)
    requires Legal(log) && i <= |log| && Stopped in log[..i]
    ensures Live(log).Keys <= Live(log[..i]).Keys
    decreases |log|
  {
    if i == |log| {
      assert log[..i] == log;
    } else {
      var n := |log| - 1;
      assert log[..n][..i] == log[..i];
      PrefixLegal(log, n);
      OnlyFewer(log[..n], i);
      assert InOrder(log[..n], log[n]);
      assert Stopped in log[..n] by {
        var k :| 0 <= k < i && log[..i][k] == Stopped;
        assert log[..n][k] == Stopped;
      }
    }
  }

  /** Registered callbacks run in the order of their registration, so none of them runs twice. */
  lemma OldestFirst(log: seq<Event>, i: nat, j: nat)
    requires Legal(log) && i < j < |log| && log[i].Ran? && log[j].Ran? && log[i].id != 0 && log[j].id != 0
    ensures log[i].id < log[j].id
  {
    hide Live, Legal, Registrations;
    LiveAt(log, i);
    LiveAt(log, j);
    PrefixLegal(log, j);
    Prefixes(log, i, i + 1);
    Prefixes(log, i + 1, j);
    OnlyFewer(log[..j], i + 1);
  }

  lemma Prefixes(log: seq<Event>, i: nat, j: nat)
    requires i <= j <= |log|
    ensures log[..j][..i] == log[..i]
    ensures Stopped in log[..i] ==> Stopped in log[..j]
  {
    if Stopped in log[..i] {
      var k :| 0 <= k < i && log[..i][k] == Stopped;
      assert log[..j][k] == Stopped;
    }
  }

  /** What is no longer live was removed or run, and run as it was registered. */
  lemma {:induction false} RanOrRemoved(log: seq<Event>, h: nat) returns (j: nat)
    requires Legal(log) && h < |log| && log[h].Registered? && log[h].id !in Live(log)
    ensures h < j < |log| && log[j] in {Removed(log[h].id), Ran(log[h].id, log[h].callback)}
    ensures log[h].id in Live(log[..j])
    decreases |log|
  {
    var n := |log| - 1;
    var id := log[h].id;
    assert h < n;
    PrefixLegal(log, n);
    if id !in Live(log[..n]) {
      j := RanOrRemoved(log[..n], h);
      assert log[..n][..j] == log[..j];
    } else {
      j := n;
      if log[n].Ran? {
        StillTheSame(log[..n], h);
        assert InOrder(log[..n], log[n]);
      }
    }
  }

  lemma {:induction false} StillTheSame(log: seq<Event>, h: nat)
    requires Legal(log) && h < |log| && log[h].Registered? && log[h].id in Live(log)
    ensures Live(log)[log[h].id] == log[h].callback && log[h].id != 0
    decreases |log|
  {
    var n := |log| - 1;
    GivenOut(log, h, h + 1);
    if h < n {
      PrefixLegal(log, n);
      GivenOut(log, h, n);
      assert InOrder(log[..n], log[n]);
      assert log[n].Registered? ==> log[n].id != log[h].id;
      StillTheSame(log[..n], h);
    }
  }

  /** The laws, for whatever callers and callbacks do from the start on. */
  lemma EveryRun(script: Script)
    ensures Legal(Perform(INITIAL, script).log)
    ensures Perform(INITIAL, script).requested ==> Perform(INITIAL, script).callbacks == map[]
  {
    PerformInOrder(INITIAL, script);
    DrainedAfterwards(INITIAL, script);
  }

  /** Between calls a stopped state has no callbacks left. */
  lemma {:induction false} DrainedAfterwards(s: State, script: Script)
    requires s.requested ==> s.callbacks == map[]
    ensures Perform(s, script).requested ==> Perform(s, script).callbacks == map[]
    decreases script
  {
    match script
    case End =>
    case Insert(callback, rest) => DrainedAfterwards(Inserted(s, callback), rest);
    case Remove(id, rest) => DrainedAfterwards(Erased(s, id), rest);
    case RequestStop(rest) => DrainedAfterwards(if s.requested then s else FirstStop(s), rest);
  }

  /** When the first request_stop returns, every callback registered earlier has run or was removed. */
  lemma FirstStopServesAll(s: State, h: nat) returns (j: nat)
    requires Inv(s) && !s.requested && h < |s.log| && s.log[h].Registered?
    ensures Extends(s.log, FirstStop(s).log) && h < j < |FirstStop(s).log|
    ensures FirstStop(s).log[j] in {Removed(s.log[h].id), Ran(s.log[h].id, s.log[h].callback)}
  {
    hide Legal, Live, Registrations, FirstStop;
    FirstStopInOrder(s);
    var log := FirstStop(s).log;
    assert log[h] == log[..|s.log|][h] == s.log[h];
    j := RanOrRemoved(log, h);
  }

  /** What a script does once the stop was requested, whatever the state: every insertion runs on the spot. */
  function Trace(script: Script): seq<Event> {
    match script
    case End => []
    case Insert(callback, rest) => [Ran(0, callback)] + Trace(callback) + Trace(rest)
    case Remove(id, rest) => [Removed(id)] + Trace(rest)
    case RequestStop(rest) => Trace(rest)
  }

  ghost function RemovedIn(events: seq<Event>): set<nat> {
    set e <- events | e.Removed? :: e.id
  }

  /** After the stop a script is performed in full and in order, nested callbacks included, and only removes callbacks. */
  lemma {:induction false} PerformedInFull(s: State, script: Script)
    requires s.requested
    ensures Perform(s, script).log == s.log + Trace(script)
    ensures Perform(s, script).callbacks == s.callbacks - RemovedIn(Trace(script))
    decreases script
  {
    match script
    case End =>
      assert s.callbacks - {} == s.callbacks;
    case Insert(callback, rest) =>
      var t := s.(log := s.log + [Ran(0, callback)]);
      assert Inserted(s, callback) == Run(s, 0, callback) == Perform(t, callback);
      PerformedInFull(t, callback);
      PerformedInFull(Perform(t, callback), rest);
      Assoc(s.log, [Ran(0, callback)], Trace(callback));
      Assoc(s.log, [Ran(0, callback)] + Trace(callback), Trace(rest));
      RemovedConcat([Ran(0, callback)] + Trace(callback), Trace(rest));
      RemovedConcat([Ran(0, callback)], Trace(callback));
      assert RemovedIn([Ran(0, callback)]) == {};
    case Remove(id, rest) =>
      PerformedInFull(Erased(s, id), rest);
      Assoc(s.log, [Removed(id)], Trace(rest));
      RemovedConcat([Removed(id)], Trace(rest));
      assert RemovedIn([Removed(id)]) == {id};
    case RequestStop(rest) =>
      PerformedInFull(s, rest);
  }

  lemma RemovedConcat(a: seq<Event>, b: seq<Event>)
    ensures RemovedIn(a + b) == RemovedIn(a) + RemovedIn(b)
  {
  }

  /** So a round of the drain is the callback's run followed by all that the callback does. */
  lemma RoundInFull(s: State)
    requires s.requested && s.callbacks != map[]
    ensures var id := Least(s.callbacks.Keys);
            RunFirst(s).log == s.log + [Ran(id, s.callbacks[id])] + Trace(s.callbacks[id])
  {
    hide Perform;
    var id := Least(s.callbacks.Keys);
    var t := s.(callbacks := s.callbacks - {id}, log := s.log + [Ran(id, s.callbacks[id])]);
    PerformedInFull(t, s.callbacks[id]);
  }

  /** A callback inserted after the stop runs at once, before anything that its insertion causes. */
  lemma InsertedLateRuns(s: State, callback: Script)
    requires Inv(s) && s.requested
    ensures Extends(s.log + [Ran(0, callback)], Inserted(s, callback).log)
  {
    hide Legal, Live, Registrations, Extends;
    RunInOrder(s, s, 0, callback);
  }

  // ---------------------------------------------------------------------------------------------
  // Who removes, and who runs
  // ---------------------------------------------------------------------------------------------

  /** The ids that a script removes itself, not counting what callbacks it inserts do. */
  function Spine(script: Script): set<nat> {
    match script
    case End => {}
    case Insert(_, rest) => Spine(rest)
    case Remove(id, rest) => {id} + Spine(rest)
    case RequestStop(rest) => Spine(rest)
  }

  /** Event j was caused by a callback that ran before it, from event n on. */
  ghost predicate CallbackRemoves(log: seq<Event>, n: nat, j: nat)
    requires j < |log| && log[j].Removed?
  {
    exists i :: n <= i < j && log[i].Ran? && log[j].id in Spine(log[i].callback)
  }

  /** From event n on, every removal is one of ids or was done by a callback that had run. */
  ghost predicate Caused(log: seq<Event>, n: nat, ids: set<nat>) {
    forall j :: n <= j < |log| && log[j].Removed? ==> log[j].id in ids || CallbackRemoves(log, n, j)
  }

  lemma CausedOn(a: seq<Event>, b: seq<Event>, n: nat, ids: set<nat>, more: set<nat>)
    requires n <= |a| && Extends(a, b) && Caused(a, n, ids) && Caused(b, |a|, more)
    ensures Caused(b, n, ids + more)
  {
    assert forall j :: 0 <= j < |a| ==> a[j] == b[..|a|][j] == b[j];
    forall j | n <= j < |b| && b[j].Removed? ensures b[j].id in ids + more || CallbackRemoves(b, n, j) {
      if j < |a| {
        assert a[j] == b[j];
        if CallbackRemoves(a, n, j) {
          var i :| n <= i < j && a[i].Ran? && a[j].id in Spine(a[i].callback);
          assert b[i] == a[i];
        }
      } else if CallbackRemoves(b, |a|, j) {
        var i :| |a| <= i < j && b[i].Ran? && b[j].id in Spine(b[i].callback);
      }
    }
  }

  /** What a callback does, it is the cause of. */
  lemma RunCauses(log: seq<Event>, id: nat, callback: Script, after: seq<Event>)
    requires Extends(log + [Ran(id, callback)], after) && Caused(after, |log| + 1, Spine(callback))
    ensures Caused(after, |log|, {})
  {
    assert after[|log|] == after[..|log| + 1][|log|] == Ran(id, callback);
    forall j | |log| <= j < |after| && after[j].Removed? ensures CallbackRemoves(after, |log|, j) {
      if after[j].id in Spine(callback) {
        assert |log| <= |log| < j;
      } else {
        assert CallbackRemoves(after, |log| + 1, j);
        var i :| |log| + 1 <= i < j && after[i].Ran? && after[j].id in Spine(after[i].callback);
      }
    }
  }

  lemma {:induction false} RunCaused(before: State, s: State, id: nat, callback: Script)
    requires s.requested && Inv(before) && s == before.(callbacks := before.callbacks - {id})
    requires InOrder(s.log, Ran(id, callback))
    ensures Caused(Run(s, id, callback).log, |s.log|, {})
    decreases 0, callback, 1
  {
    hide Legal, Live, Registrations, InOrder, Extends, Inv, Perform, Caused, Spine;
    var t := s.(log := s.log + [Ran(id, callback)]);
    Step(before, Ran(id, callback), t);
    PerformInOrder(t, callback);
    PerformCaused(t, callback);
    RunCauses(s.log, id, callback, Perform(t, callback).log);
  }

  lemma {:induction false} InsertedCaused(s: State, callback: Script)
    requires Inv(s)
    ensures Caused(Inserted(s, callback).log, |s.log|, {})
    decreases if s.requested then 0 else 3, callback, 2
  {
    hide Legal, Live, Registrations, Extends;
    if s.requested { RunCaused(s, s, 0, callback); }
  }

  lemma {:induction false} DrainCaused(s: State)
    requires s.requested && Inv(s)
    ensures Caused(Drain(s).log, |s.log|, {})
    decreases 1, End, |s.callbacks|
  {
    if s.callbacks != map[] {
      hide Legal, Registrations, Extends, Run, Caused;
      var id := Least(s.callbacks.Keys);
      OldestMayRun(s, id);
      RunInOrder(s, s.(callbacks := s.callbacks - {id}), id, s.callbacks[id]);
      RunCaused(s, s.(callbacks := s.callbacks - {id}), id, s.callbacks[id]);
      var t := RunFirst(s);
      SmallerMap(t.callbacks, s.callbacks, id);
      DrainInOrder(t);
      DrainCaused(t);
      LogGrows(s.log, t.log);
      CausedOn(t.log, Drain(t).log, |s.log|, {}, {});
    }
  }

  lemma LogGrows(a: seq<Event>, b: seq<Event>)
    requires Extends(a, b)
    ensures |a| <= |b|
  {
  }

  lemma {:induction false} FirstStopCaused(s: State)
    requires !s.requested && Inv(s)
    ensures Caused(FirstStop(s).log, |s.log|, {})
    decreases 2, End, 0
  {
    var t := s.(requested := true, log := s.log + [Stopped]);
    assert Caused(t.log, |s.log|, {});
    hide Legal, Live, Registrations, Extends, Drain, Caused;
    Step(s, Stopped, t);
    DrainInOrder(t);
    DrainCaused(t);
    CausedOn(t.log, Drain(t).log, |s.log|, {}, {});
  }

  /** Removals happen only where a Remove is performed: by the script, or by a callback that has run. */
  lemma {:induction false} PerformCaused(s: State, script: Script)
    requires Inv(s)
    ensures Caused(Perform(s, script).log, |s.log|, Spine(script))
    decreases if s.requested then 0 else 3, script, 0
  {
    hide Inv, Extends, Inserted, Erased, FirstStop, Caused;
    match script
    case End =>
      NothingCaused(s.log);
    case Insert(callback, rest) =>
      InsertedInOrder(s, callback);
      InsertedCaused(s, callback);
      PerformInOrder(Inserted(s, callback), rest);
      PerformCaused(Inserted(s, callback), rest);
      LogGrows(s.log, Inserted(s, callback).log);
      CausedOn(Inserted(s, callback).log, Perform(s, script).log, |s.log|, {}, Spine(rest));
      assert {} + Spine(rest) == Spine(script);
    case Remove(id, rest) =>
      ErasedInOrder(s, id);
      ErasedCaused(s, id);
      PerformInOrder(Erased(s, id), rest);
      PerformCaused(Erased(s, id), rest);
      LogGrows(s.log, Erased(s, id).log);
      CausedOn(Erased(s, id).log, Perform(s, script).log, |s.log|, {id}, Spine(rest));
    case RequestStop(rest) =>
      if s.requested {
        PerformCaused(s, rest);
      } else {
        FirstStopInOrder(s);
        FirstStopCaused(s);
        PerformInOrder(FirstStop(s), rest);
        PerformCaused(FirstStop(s), rest);
        LogGrows(s.log, FirstStop(s).log);
        CausedOn(FirstStop(s).log, Perform(s, script).log, |s.log|, {}, Spine(rest));
        assert {} + Spine(rest) == Spine(script);
      }
  }

  lemma NothingCaused(log: seq<Event>)
    ensures Caused(log, |log|, {})
  {
  }

  lemma ErasedCaused(s: State, id: nat)
    ensures Caused(Erased(s, id).log, |s.log|, {id})
  {
  }

  /** In every history: a callback is removed only by its caller or by a callback that ran before. */
  lemma RemovedHasCause(script: Script)
    ensures Caused(Perform(INITIAL, script).log, 0, Spine(script))
  {
    InitialInv();
    PerformCaused(INITIAL, script);
  }

  /** One script after the other. */
  function Then(a: Script, b: Script): Script {
    match a
    case End => b
    case Insert(callback, rest) => Insert(callback, Then(rest, b))
    case Remove(id, rest) => Remove(id, Then(rest, b))
    case RequestStop(rest) => RequestStop(Then(rest, b))
  }

  lemma {:induction false} PerformThen(s: State, a: Script, b: Script)
    ensures Perform(s, Then(a, b)) == Perform(Perform(s, a), b)
    decreases a
  {
    match a
    case End =>
    case Insert(callback, rest) => PerformThen(Inserted(s, callback), rest, b);
    case Remove(id, rest) => PerformThen(Erased(s, id), rest, b);
    case RequestStop(rest) => PerformThen(if s.requested then s else FirstStop(s), rest, b);
  }

  /** The script itself requests no stop. */
  predicate StopFree(script: Script) {
    match script
    case End => true
    case Insert(_, rest) => StopFree(rest)
    case Remove(_, rest) => StopFree(rest)
    case RequestStop(_) => false
  }

  /** How many callbacks the script itself inserts. */
  function Inserts(script: Script): nat {
    match script
    case End => 0
    case Insert(_, rest) => 1 + Inserts(rest)
    case Remove(_, rest) => Inserts(rest)
    case RequestStop(rest) => Inserts(rest)
  }

  lemma {:induction false} BeforeTheStop(s: State, script: Script)
    requires !s.requested && StopFree(script)
    ensures !Perform(s, script).requested && Perform(s, script).next == s.next + Inserts(script)
    decreases script
  {
    match script
    case End =>
    case Insert(callback, rest) => BeforeTheStop(Inserted(s, callback), rest);
    case Remove(id, rest) => BeforeTheStop(Erased(s, id), rest);
  }

  /** A script that is stop-free performs its removals, and the log says so. */
  lemma {:induction false} SpineRemoves(s: State, script: Script, id: nat) returns (j: nat)
    requires Inv(s) && !s.requested && StopFree(script) && id in Spine(script)
    ensures |s.log| <= j < |Perform(s, script).log| && Perform(s, script).log[j] == Removed(id)
    decreases script
  {
    match script
    case Insert(callback, rest) =>
      InsertedInOrder(s, callback);
      j := SpineRemoves(Inserted(s, callback), rest, id);
    case Remove(first, rest) =>
      ErasedInOrder(s, first);
      if first == id {
        PerformInOrder(Erased(s, id), rest);
        j := |s.log|;
        assert Perform(s, script).log[j] == Perform(s, script).log[..j + 1][j] == Erased(s, id).log[j];
      } else {
        j := SpineRemoves(Erased(s, first), rest, id);
      }
  }

  /** A caller that inserts a callback and later requests the first stop. */
  function Scenario(before: Script, callback: Script, between: Script, after: Script): Script {
    Then(before, Insert(callback, Then(between, RequestStop(after))))
  }

  /** Its log when the callback is registered, when the stop is requested, when that returns, and at the end. */
  datatype Stages = Stages(inserted: seq<Event>, asked: seq<Event>, stopped: seq<Event>, end: seq<Event>)

  ghost predicate Staged(x: Stages, id: nat, callback: Script, removed: set<nat>) {
    && x.inserted != [] && x.inserted[|x.inserted| - 1] == Registered(id, callback)
    && Extends(x.inserted, x.asked) && Extends(x.asked + [Stopped], x.stopped) && Extends(x.stopped, x.end)
    && Legal(x.asked) && Legal(x.stopped) && Legal(x.end)
    && Stopped !in x.asked && Live(x.stopped) == map[]
    && Caused(x.asked, |x.inserted|, removed) && Caused(x.stopped, |x.asked|, {})
  }

  lemma Logs(s: State)
    requires Inv(s)
    ensures Legal(s.log) && s.callbacks == Live(s.log) && (s.requested <==> Stopped in s.log)
  {
  }

  lemma InitialInv()
    ensures Inv(INITIAL)
  {
  }

  lemma ScenarioStages(before: Script, callback: Script, between: Script, after: Script) returns (x: Stages)
    requires StopFree(before) && StopFree(between)
    ensures x.end == Perform(INITIAL, Scenario(before, callback, between, after)).log
    ensures Staged(x, Inserts(before) + 1, callback, Spine(between))
    ensures Inserts(before) + 1 in Spine(between) ==>
              exists k :: |x.inserted| <= k < |x.asked| && x.asked[k] == Removed(Inserts(before) + 1)
  {
    hide Inv, Extends, Caused, FirstStop, Legal, Live, Spine;
    InitialInv();
    var s := Perform(INITIAL, before);
    PerformInOrder(INITIAL, before);
    BeforeTheStop(INITIAL, before);
    PerformThen(INITIAL, before, Insert(callback, Then(between, RequestStop(after))));
    var a := Inserted(s, callback);
    InsertedInOrder(s, callback);
    assert Registers(s, callback, a);
    hide Inserted;
    PerformThen(a, between, RequestStop(after));
    var b := Perform(a, between);
    PerformInOrder(a, between);
    PerformCaused(a, between);
    BeforeTheStop(a, between);
    var c := FirstStop(b);
    FirstStopInOrder(b);
    StopIsLogged(b);
    FirstStopCaused(b);
    PerformInOrder(c, after);
    Logs(b);
    Logs(c);
    Logs(Perform(c, after));
    x := Stages(a.log, b.log, c.log, Perform(c, after).log);
    if Inserts(before) + 1 in Spine(between) { var _ := SpineRemoves(a, between, Inserts(before) + 1); }
  }

  ghost predicate Registers(s: State, callback: Script, a: State) {
    !a.requested && a.log == s.log + [Registered(s.next + 1, callback)]
  }

  lemma StopIsLogged(s: State)
    requires Inv(s) && !s.requested
    ensures Extends(s.log + [Stopped], FirstStop(s).log)
  {
    var t := s.(requested := true, log := s.log + [Stopped]);
    hide Legal, Live, Registrations, Extends, Drain;
    Step(s, Stopped, t);
    DrainInOrder(t);
  }

  /** What nobody removed is still there when the stop is requested. */
  lemma LiveAtTheStop(x: Stages, id: nat, callback: Script, removed: set<nat>)
    requires Staged(x, id, callback, removed) && id !in removed
    ensures id in Live(x.asked)
  {
    SameStart(x.inserted, x.asked);
    hide Live, Registrations, Caused, CallbackRemoves, Extends, Legal;
    if id !in Live(x.asked) {
      var j := RanOrRemoved(x.asked, |x.inserted| - 1);
      NothingRan(x.asked);
      NoCallbackRemoves(x.asked, |x.inserted|, removed, j);
    }
  }

  lemma NothingRan(log: seq<Event>)
    requires Legal(log) && Stopped !in log
    ensures forall i :: 0 <= i < |log| ==> !log[i].Ran?
  {
    forall i | 0 <= i < |log| ensures !log[i].Ran? { assert InOrder(log[..i], log[i]); }
  }

  lemma NoCallbackRemoves(log: seq<Event>, n: nat, ids: set<nat>, j: nat)
    requires Caused(log, n, ids) && n <= j < |log| && log[j].Removed? && forall i :: 0 <= i < |log| ==> !log[i].Ran?
    ensures log[j].id in ids
  {
  }

  /** A callback that is live has not run. */
  lemma NotRunYet(log: seq<Event>, h: nat, j: nat, i: nat)
    requires Legal(log) && h < j <= |log| && log[h].Registered? && log[h].id in Live(log[..j]) && i < j && log[i].Ran?
    ensures log[i].id != log[h].id
  {
    hide Live, Registrations, Legal, InOrder;
    var id := log[h].id;
    GivenOut(log, h, h + 1);
    LiveAt(log, i);
    RanWasLive(log[..i], log[i]);
    if log[i].id == id && i > h {
      GivenOut(log, h, i + 1);
      PrefixLegal(log, j);
      Prefixes(log, i + 1, j);
      GoneForever(log[..j], i + 1, id);
    } else if log[i].id == id {
      FreshId(log, h, i);
    }
  }

  lemma FreshId(log: seq<Event>, h: nat, i: nat)
    requires Legal(log) && i <= h < |log| && log[h].Registered?
    ensures log[h].id !in Live(log[..i])
  {
    PrefixLegal(log, i);
    LiveIsRegistered(log[..i]);
    assert InOrder(log[..h], log[h]);
    Prefixes(log, i, h);
    RegistrationsGrow(log[..h], i);
  }

  /**
   A callback that its caller does not remove before the first stop runs exactly once, after the stop was
   requested, unless a callback that ran then removed it, and then it does not run at all.
   */
  lemma RunsExactlyOnce(before: Script, callback: Script, between: Script, after: Script) returns (j: nat)
    requires StopFree(before) && StopFree(between) && Inserts(before) + 1 !in Spine(between)
    ensures var log, id := Perform(INITIAL, Scenario(before, callback, between, after)).log, Inserts(before) + 1;
            && j < |log| && Stopped in log[..j]
            && (|| (log[j] == Ran(id, callback) && forall i :: 0 <= i < |log| && log[i].Ran? && log[i].id == id ==> i == j)
                || (log[j] == Removed(id) && CallbackRemoves(log, 0, j)
                    && forall i :: 0 <= i < |log| && log[i].Ran? ==> log[i].id != id))
  {
    var x := ScenarioStages(before, callback, between, after);
    hide Scenario, Perform, Spine, Staged, CallbackRemoves;
    j := RunsOnce(x, Inserts(before) + 1, callback, Spine(between));
  }

  lemma RunsOnce(x: Stages, id: nat, callback: Script, removed: set<nat>) returns (j: nat)
    requires Staged(x, id, callback, removed) && id !in removed
    ensures j < |x.end| && Stopped in x.end[..j]
    ensures || (x.end[j] == Ran(id, callback) && forall i :: 0 <= i < |x.end| && x.end[i].Ran? && x.end[i].id == id ==> i == j)
            || (x.end[j] == Removed(id) && CallbackRemoves(x.end, 0, j)
                && forall i :: 0 <= i < |x.end| && x.end[i].Ran? ==> x.end[i].id != id)
  {
    hide Caused, CallbackRemoves, Live, Registrations, InOrder, Legal, Extends;
    var h, n := |x.inserted| - 1, |x.asked|;
    LiveAtTheStop(x, id, callback, removed);
    StageStarts(x, id, callback, removed);
    j := RanOrRemoved(x.stopped, h);
    KilledAfter(x.stopped, x.asked, h, j);
    StageSlices(x, id, callback, removed, j);
    OnlyAt(x.end, h, j);
    if x.end[j].Removed? { ByCallback(x.stopped, x.end, n, j); }
  }

  lemma StageStarts(x: Stages, id: nat, callback: Script, removed: set<nat>)
    requires Staged(x, id, callback, removed)
    ensures 0 < |x.inserted| <= |x.asked| < |x.stopped| <= |x.end|
    ensures x.asked == x.stopped[..|x.asked|] && x.stopped[|x.asked|] == Stopped
    ensures (forall i :: 0 <= i < |x.stopped| ==> x.end[i] == x.stopped[i]) && (forall i :: 0 <= i < |x.asked| ==> x.end[i] == x.asked[i])
    ensures x.stopped[|x.inserted| - 1] == x.asked[|x.inserted| - 1] == Registered(id, callback)
  {
    hide Caused, Live, Registrations, InOrder, Legal;
    SameStart(x.inserted, x.asked);
    SameStart(x.asked + [Stopped], x.stopped);
    SameStart(x.stopped, x.end);
  }

  lemma StageSlices(x: Stages, id: nat, callback: Script, removed: set<nat>, j: nat)
    requires Staged(x, id, callback, removed) && |x.asked| < j < |x.stopped|
    ensures j < |x.end| && x.end[..j] == x.stopped[..j] && x.end[j] == x.stopped[j] && Stopped in x.end[..j]
  {
    hide Caused, Live, Registrations, InOrder, Legal;
    StageStarts(x, id, callback, removed);
    assert x.end[..j][|x.asked|] == Stopped;
  }

  /** An event that takes out a callback comes after a time at which it was live. */
  lemma KilledAfter(log: seq<Event>, earlier: seq<Event>, h: nat, j: nat)
    requires Legal(log) && h < |earlier| < |log| && earlier == log[..|earlier|] && log[h].Registered? && h < j < |log|
    requires log[h].id in Live(earlier) && log[j] in {Removed(log[h].id), Ran(log[h].id, log[h].callback)}
    requires log[|earlier|] == Stopped
    ensures j > |earlier|
  {
    hide Live, Registrations, Legal, InOrder;
    if j < |earlier| {
      GivenOut(log, h, j + 1);
      LiveAt(log, j);
      PrefixLegal(log, |earlier|);
      Prefixes(log, j + 1, |earlier|);
      GoneForever(earlier, j + 1, log[h].id);
    }
  }

  /** If event j takes out the callback registered at h, the callback runs there or nowhere. */
  lemma OnlyAt(log: seq<Event>, h: nat, j: nat)
    requires Legal(log) && h < j < |log| && log[h].Registered? && log[h].id in Live(log[..j])
    requires log[j] in {Removed(log[h].id), Ran(log[h].id, log[h].callback)}
    ensures forall i :: 0 <= i < |log| && log[i].Ran? && log[i].id == log[h].id ==> i == j
  {
    hide Live, Registrations, InOrder, Legal;
    GivenOut(log, h, h + 1);
    forall i | 0 <= i < |log| && log[i].Ran? && log[i].id == log[h].id ensures i == j {
      if i < j {
        NotRunYet(log, h, j, i);
      } else if i > j {
        if log[j].Ran? { OldestFirst(log, j, i); } else { NeverAfterRemoval(log, h, j, i); }
      }
    }
  }

  lemma ByCallback(a: seq<Event>, b: seq<Event>, n: nat, j: nat)
    requires Caused(a, n, {}) && n <= j < |a| <= |b| && a[j].Removed? && forall i :: 0 <= i < |a| ==> b[i] == a[i]
    ensures CallbackRemoves(b, 0, j)
  {
    assert CallbackRemoves(a, n, j);
    var i :| n <= i < j && a[i].Ran? && a[j].id in Spine(a[i].callback);
    assert b[i] == a[i];
  }

  /** A callback that its caller removes before the first stop never runs. */
  lemma RemovedNeverRuns(before: Script, callback: Script, between: Script, after: Script)
    requires StopFree(before) && StopFree(between) && Inserts(before) + 1 in Spine(between)
    ensures var log, id := Perform(INITIAL, Scenario(before, callback, between, after)).log, Inserts(before) + 1;
            forall i :: 0 <= i < |log| && log[i].Ran? ==> log[i].id != id
  {
    var x := ScenarioStages(before, callback, between, after);
    hide Scenario, Perform, Spine, Staged;
    RemovedIsSilent(x, Inserts(before) + 1, callback, Spine(between));
  }

  lemma RemovedIsSilent(x: Stages, id: nat, callback: Script, removed: set<nat>)
    requires Staged(x, id, callback, removed)
    requires exists k :: |x.inserted| <= k < |x.asked| && x.asked[k] == Removed(id)
    ensures forall i :: 0 <= i < |x.end| && x.end[i].Ran? ==> x.end[i].id != id
  {
    hide Caused, Live, Registrations, InOrder, Legal, Extends;
    var k :| |x.inserted| <= k < |x.asked| && x.asked[k] == Removed(id);
    StageStarts(x, id, callback, removed);
    NothingRan(x.asked);
    forall i | 0 <= i < |x.end| && x.end[i].Ran? ensures x.end[i].id != id {
      NeverAfterRemoval(x.end, |x.inserted| - 1, k, i);
    }
  }

  lemma SameStart(a: seq<Event>, b: seq<Event>)
    requires Extends(a, b)
    ensures |a| <= |b| && forall i :: 0 <= i < |a| ==> b[i] == a[i]
  {
    assert forall i :: 0 <= i < |a| ==> b[..|a|][i] == b[i];
  }

  // ---------------------------------------------------------------------------------------------
  // The class
  // ---------------------------------------------------------------------------------------------

  class StopState {
    var callbacks: map<nat, Script>
    var next: nat
    var requested: bool
    ghost var log: seq<Event>

    ghost function Value(): State
      reads this
    {
      State(callbacks, next, requested, log)
    }

    constructor ()
      ensures Value() == INITIAL
    {
      callbacks, next, requested, log := map[], 0, false, [];
    }

    method RequestStop() returns (first: bool)
      modifies this
      ensures first == !old(requested)
      ensures Value() == if old(requested) then old(Value()) else FirstStop(old(Value()))
      decreases if requested then 0 else 3, End, 0
    {
      if requested {
        return false;
      }
      requested := true;
      log := log + [Stopped];
      ghost var start := Value();
      while callbacks != map[]
        invariant requested && Drain(Value()) == Drain(start)
        decreases |callbacks|
      {
        var id := Least(callbacks.Keys);
        ghost var before := Value();
        var f := callbacks[id];
        callbacks := callbacks - {id};
        Invoke(id, f);
        assert Value() == RunFirst(before);
        SmallerMap(callbacks, before.callbacks, id);
      }
      return true;
    }

    /** Calls a callback, which may call back into this object. */
    method Invoke(ghost id: nat, f: Script)
      requires requested
      modifies this
      ensures Value() == Run(old(Value()), id, f)
      decreases 1, f, 1
    {
      log := log + [Ran(id, f)];
      Play(f);
    }

    method InsertCallback(f: Script) returns (id: nat)
      modifies this
      ensures Value() == Inserted(old(Value()), f)
      ensures if old(requested) then id == 0 else 0 < id == next && id in callbacks
      decreases if requested then 1 else 4, f, 2
    {
      if requested {
        Invoke(0, f);
        return 0;
      }
      next := next + 1;
      id := next;
      callbacks := callbacks[id := f];
      log := log + [Registered(id, f)];
    }

    method RemoveCallback(id: nat)
      modifies this
      ensures Value() == Erased(old(Value()), id)
    {
      callbacks := callbacks - {id};
      log := log + [Removed(id)];
    }

    /** The calls a script makes, one after the other. */
    method Play(script: Script)
      modifies this
      ensures Value() == Perform(old(Value()), script)
      decreases if requested then 1 else 4, script, 0
    {
      match script
      case End =>
      case Insert(callback, rest) =>
        var _ := InsertCallback(callback);
        Play(rest);
      case Remove(id, rest) =>
        RemoveCallback(id);
        Play(rest);
      case RequestStop(rest) =>
        var _ := RequestStop();
        Play(rest);
    }
  }
}
