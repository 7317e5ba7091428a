/**
 SPSCQueue and its MPSC/MPMC wrappers as a machine of small steps.

 Any number of threads emplace and pop; each step is one atomic access, one mutex operation or one
 condition-variable operation of the source. A queue with a single producer or consumer is the same machine
 with one thread on that side, for which the wrapper's mutex steps are always free.
 */
module BoundedQueue {
  import opened Options
  import opened Arithmetic

  type ThreadId = nat

  /** Indices are std::atomic_size_t. */
  const WORD: nat := 0x1_0000_0000_0000_0000

  datatype PopMode = TryPop | PopWait | PopWaitStop

  datatype Phase<T> =
    // Emplace
    | WantWrite(v: T, wait: bool)               // at write_mutex
    | Entered(v: T, wait: bool)                 // about to load m_write_index
    | Loaded(v: T, wait: bool, wi: nat)         // about to test, or to lock producer_cv_mutex
    | Checking(v: T, wi: nat)                   // holds producer_cv_mutex, about to evaluate the predicate
    | Dozing(v: T, wi: nat)                     // predicate was false, about to sleep
    | Asleep(v: T, wi: nat)                     // in producer_cv.wait
    | Woken(v: T, wi: nat)                      // about to lock producer_cv_mutex again
    | Ready(v: T, wi: nat)                      // there is room
    | Wrote(v: T)                               // slot constructed, about to advance m_write_index
    | Owes                                      // advanced, about to lock consumer_cv_mutex
    | Notifying                                 // holds consumer_cv_mutex, about to notify
    | Notified                                  // about to return
    // Pop
    | WantRead(mode: PopMode)
    | PopEntered(mode: PopMode)
    | PopLoaded(mode: PopMode, ri: nat)
    | PopChecking(mode: PopMode, ri: nat)
    | PopDozing(mode: PopMode, ri: nat)
    | PopAsleep(mode: PopMode, ri: nat)
    | PopWoken(mode: PopMode, ri: nat)
    | PopReady(ri: nat)
    | Took(got: T)                              // slot moved from, about to advance m_read_index
    | PopOwes
    | PopNotifying
    | PopNotified

  datatype State<T> = State(
    cap: nat,
    writeIndex: nat, readIndex: nat,
    data: seq<Option<T>>,                       // None: nothing constructed there, or moved from
    writeMutex: Option<ThreadId>, readMutex: Option<ThreadId>,
    producerMutex: Option<ThreadId>, consumerMutex: Option<ThreadId>,
    threads: map<ThreadId, Phase<T>>,           // threads inside an operation
    pushed: seq<T>, popped: seq<T>,             // bookkeeping: everything that went in and came out,
    results: Results<T>)                        //   and what callers got

  /** What each thread's last successful pop moved out, and what its last call returned. */
  datatype Results<T> = Results(out: map<ThreadId, T>, returned: map<ThreadId, bool>)

  datatype Action<T> =
    | CallEmplace(t: ThreadId, v: T, wait: bool)
    | CallPop(t: ThreadId, mode: PopMode)
    | Step(t: ThreadId)                         // the one thing thread t does next
    | Wake(t: ThreadId)                         // a spurious wakeup, or one caused by a stop request
    | Stop(t: ThreadId)                         // a stoppable pop sees the stop request
    | Notify(t: ThreadId, woken: Option<ThreadId>)

  /** Subtraction of size_t. */
  function WrapSub(a: int, b: int): (r: nat)
    requires 0 <= a < WORD && 0 <= b < WORD
    ensures r == if a >= b then a - b else a - b + WORD
  {
    (a - b) % WORD
  }

  function Increment(a: nat): nat {
    (a + 1) % WORD
  }

  function Slot(i: nat, cap: nat): (r: nat)
    requires 0 < cap
    ensures r < cap
  {
    i % cap
  }

  // ---------------------------------------------------------------------------------------------
  // The steps
  // ---------------------------------------------------------------------------------------------

  ghost predicate Enabled<T>(s: State<T>, a: Action<T>) {
    match a
    case CallEmplace(t, _, _) => t !in s.threads
    case CallPop(t, _) => t !in s.threads
    case Step(t) => t in s.threads && CanStep(s, s.threads[t])
    case Wake(t) => t in s.threads && (s.threads[t].Asleep? || s.threads[t].PopAsleep?)
    case Stop(t) => t in s.threads && s.threads[t].PopChecking? && s.threads[t].mode == PopWaitStop
    case Notify(t, woken) =>
      && t in s.threads
      && (s.threads[t].Notifying? || s.threads[t].PopNotifying?)
      && (woken == None ==> forall u <- s.threads :: !WaitsFor(s.threads[t], s.threads[u]))
      && (woken.Some? ==> woken.value in s.threads && WaitsFor(s.threads[t], s.threads[woken.value]))
  }

  /** The notifier in phase p wakes sleepers in phase q. */
  predicate WaitsFor<T>(p: Phase<T>, q: Phase<T>) {
    (p.Notifying? && q.PopAsleep?) || (p.PopNotifying? && q.Asleep?)
  }

  /** Only taking a mutex can block. */
  predicate CanStep<T>(s: State<T>, p: Phase<T>) {
    match p
    case WantWrite(_, _) => s.writeMutex == None
    case Loaded(_, wait, _) => wait ==> s.producerMutex == None
    case Woken(_, _) => s.producerMutex == None
    case Owes => s.consumerMutex == None
    case WantRead(_) => s.readMutex == None
    case PopLoaded(mode, _) => mode != TryPop ==> s.consumerMutex == None
    case PopWoken(_, _) => s.consumerMutex == None
    case PopOwes => s.producerMutex == None
    case Ready(_, wi) => 0 < s.cap == |s.data|
    case PopReady(ri) => 0 < s.cap == |s.data| && s.data[Slot(ri, s.cap)].Some?
    case Checking(_, wi) => wi < WORD && s.readIndex < WORD
    case Asleep(_, _) => false
    case PopAsleep(_, _) => false
    case Notifying => false
    case PopNotifying => false
    case _ => true
  }

  function Go<T>(s: State<T>, t: ThreadId, p: Phase<T>): State<T> {
    s.(threads := s.threads[t := p])
  }

  /** The call returns. */
  function Leave<T>(s: State<T>, t: ThreadId, result: bool): State<T> {
    s.(threads := s.threads - {t}, results := s.results.(returned := s.results.returned[t := result]))
  }

  /** The test of TryEmplace: the queue is full. */
  predicate FullTest<T>(s: State<T>, wi: nat) {
    wi < WORD && s.readIndex < WORD && WrapSub(wi, s.readIndex) == s.cap
  }

  /** Emplace, behind the mutex of the producers. */
  ghost function EmplaceStep<T>(s: State<T>, t: ThreadId): State<T>
    requires t in s.threads && CanStep(s, s.threads[t]) && Emplacing(s.threads[t])
  {
    match s.threads[t]
    case WantWrite(v, wait) => Go(s, t, Entered(v, wait)).(writeMutex := Some(t))
    case Entered(v, wait) => Go(s, t, Loaded(v, wait, s.writeIndex))
    case Loaded(v, wait, wi) =>
      if wait then Go(s, t, Checking(v, wi)).(producerMutex := Some(t))
      else if FullTest(s, wi) then Leave(s, t, false).(writeMutex := None)
      else Go(s, t, Ready(v, wi))
    case Checking(v, wi) =>
      if WrapSub(wi, s.readIndex) < s.cap then Go(s, t, Ready(v, wi)).(producerMutex := None)
      else Go(s, t, Dozing(v, wi))
    case Dozing(v, wi) => Go(s, t, Asleep(v, wi)).(producerMutex := None)
    case Woken(v, wi) => Go(s, t, Checking(v, wi)).(producerMutex := Some(t))
    case Ready(v, wi) => Go(s, t, Wrote(v)).(data := s.data[Slot(wi, s.cap) := Some(v)])
    case Wrote(v) => Go(s, t, Owes).(writeIndex := Increment(s.writeIndex), pushed := s.pushed + [v])
    case Owes => Go(s, t, Notifying).(consumerMutex := Some(t))
    case Notified => Leave(s, t, true).(consumerMutex := None, writeMutex := None)
  }

  /** Pop, behind the mutex of the consumers. */
  ghost function PopStep<T>(s: State<T>, t: ThreadId): State<T>
    requires t in s.threads && CanStep(s, s.threads[t]) && !Emplacing(s.threads[t])
  {
    match s.threads[t]
    case WantRead(mode) => Go(s, t, PopEntered(mode)).(readMutex := Some(t))
    case PopEntered(mode) => Go(s, t, PopLoaded(mode, s.readIndex))
    case PopLoaded(mode, ri) =>
      if mode != TryPop then Go(s, t, PopChecking(mode, ri)).(consumerMutex := Some(t))
      else if ri == s.writeIndex then Leave(s, t, false).(readMutex := None)
      else Go(s, t, PopReady(ri))
    case PopChecking(mode, ri) =>
      if ri != s.writeIndex then Go(s, t, PopReady(ri)).(consumerMutex := None)
      else Go(s, t, PopDozing(mode, ri))
    case PopDozing(mode, ri) => Go(s, t, PopAsleep(mode, ri)).(consumerMutex := None)
    case PopWoken(mode, ri) => Go(s, t, PopChecking(mode, ri)).(consumerMutex := Some(t))
    case PopReady(ri) =>
      var v := s.data[Slot(ri, s.cap)].value;
      Go(s, t, Took(v)).(data := s.data[Slot(ri, s.cap) := None], results := s.results.(out := s.results.out[t := v]))
    case Took(v) => Go(s, t, PopOwes).(readIndex := Increment(s.readIndex), popped := s.popped + [v])
    case PopOwes => Go(s, t, PopNotifying).(producerMutex := Some(t))
    case PopNotified => Leave(s, t, true).(producerMutex := None, readMutex := None)
  }

  ghost function StepOf<T>(s: State<T>, t: ThreadId): State<T>
    requires t in s.threads && CanStep(s, s.threads[t])
  {
    if Emplacing(s.threads[t]) then EmplaceStep(s, t) else PopStep(s, t)
  }

  function Rouse<T>(p: Phase<T>): Phase<T> {
    match p
    case Asleep(v, wi) => Woken(v, wi)
    case PopAsleep(mode, ri) => PopWoken(mode, ri)
    case _ => p
  }

  ghost function Apply<T>(s: State<T>, a: Action<T>): State<T>
    requires Enabled(s, a)
  {
    match a
    case CallEmplace(t, v, wait) => Go(s, t, WantWrite(v, wait))
    case CallPop(t, mode) => Go(s, t, WantRead(mode))
    case Step(t) => StepOf(s, t)
    case Wake(t) => Go(s, t, Rouse(s.threads[t]))
    case Stop(t) => Leave(s, t, false).(consumerMutex := None, readMutex := None)
    case Notify(t, woken) =>
      var s' := if woken.Some? then Go(s, woken.value, Rouse(s.threads[woken.value])) else s;
      Go(s', t, if s.threads[t].Notifying? then Notified else PopNotified)
  }

  ghost function Initial<T>(cap: nat): State<T> {
    State(cap, 0, 0, seq(cap, _ => None), None, None, None, None, map[], [], [], Results(map[], map[]))
  }

  ghost function After<T>(cap: nat, acts: seq<Action<T>>): Option<State<T>> {
    if acts == [] then Some(Initial(cap))
    else
      var before := After(cap, acts[..|acts| - 1]);
      if before.Some? && Enabled(before.value, acts[|acts| - 1])
      then Some(Apply(before.value, acts[|acts| - 1])) else None
  }

  // ---------------------------------------------------------------------------------------------
  // The invariant
  // ---------------------------------------------------------------------------------------------

  predicate InEmplace<T>(p: Phase<T>) {
    p.Entered? || p.Loaded? || p.Checking? || p.Dozing? || p.Asleep? || p.Woken? || p.Ready? || p.Wrote?
    || p.Owes? || p.Notifying? || p.Notified?
  }

  predicate InPop<T>(p: Phase<T>) {
    p.PopEntered? || p.PopLoaded? || p.PopChecking? || p.PopDozing? || p.PopAsleep? || p.PopWoken? || p.PopReady?
    || p.Took? || p.PopOwes? || p.PopNotifying? || p.PopNotified?
  }

  predicate HoldsProducerMutex<T>(p: Phase<T>) {
    p.Checking? || p.Dozing? || p.PopNotifying? || p.PopNotified?
  }

  predicate HoldsConsumerMutex<T>(p: Phase<T>) {
    p.PopChecking? || p.PopDozing? || p.Notifying? || p.Notified?
  }

  ghost predicate MutexOk<T>(s: State<T>, t: ThreadId)
    requires t in s.threads
  {
    var p := s.threads[t];
    && (InEmplace(p) ==> s.writeMutex == Some(t))
    && (InPop(p) ==> s.readMutex == Some(t))
    && (HoldsProducerMutex(p) ==> s.producerMutex == Some(t))
    && (HoldsConsumerMutex(p) ==> s.consumerMutex == Some(t))
  }

  ghost function Room<T>(s: State<T>): int { s.cap - (|s.pushed| - |s.popped|) }

  /** What a thread inside an operation knows about the queue. */
  ghost predicate LocalOk<T>(s: State<T>, p: Phase<T>) {
    && ((p.Loaded? || p.Checking? || p.Dozing? || p.Asleep? || p.Woken? || p.Ready?) ==> p.wi == s.writeIndex)
    && ((p.Ready? || p.Wrote?) ==> 0 < Room(s))
    && ((p.PopLoaded? || p.PopChecking? || p.PopDozing? || p.PopAsleep? || p.PopWoken? || p.PopReady?) ==> p.ri == s.readIndex)
    && ((p.PopReady? || p.Took?) ==> |s.popped| < |s.pushed|)
    && (p.Took? && |s.popped| < |s.pushed| ==> p.got == s.pushed[|s.popped|])
  }

  /** A producer has filled the next slot but not advanced the index yet. */
  ghost predicate WriteInFlight<T>(s: State<T>) {
    s.writeMutex.Some? && s.writeMutex.value in s.threads && s.threads[s.writeMutex.value].Wrote?
  }

  /** A consumer has emptied the oldest slot but not advanced the index yet. */
  ghost predicate ReadInFlight<T>(s: State<T>) {
    s.readMutex.Some? && s.readMutex.value in s.threads && s.threads[s.readMutex.value].Took?
  }

  /** The ring and its history, without the threads. */
  datatype Ring<T> = Ring(
    cap: nat, writeIndex: nat, readIndex: nat, data: seq<Option<T>>,
    pushed: seq<T>, popped: seq<T>, writing: Option<T>, reading: bool)

  ghost function RingOf<T>(s: State<T>): Ring<T> {
    Ring(s.cap, s.writeIndex, s.readIndex, s.data, s.pushed, s.popped,
         if WriteInFlight(s) then Some(s.threads[s.writeMutex.value].v) else None, ReadInFlight(s))
  }

  ghost predicate Shape<T>(r: Ring<T>) {
    && 0 < r.cap < WORD && |r.data| == r.cap
    && |r.popped| <= |r.pushed| <= |r.popped| + r.cap
    && r.popped == r.pushed[..|r.popped|]
    && (r.writing.Some? ==> |r.pushed| < |r.popped| + r.cap)
    && (r.reading ==> |r.popped| < |r.pushed|)
  }

  /** The atomic indices are the numbers of pushes and pops, wrapped; and wrapping does not disturb the slots. */
  ghost predicate Indices<T>(r: Ring<T>) {
    0 < r.cap && WORD % r.cap == 0 && r.writeIndex == |r.pushed| % WORD && r.readIndex == |r.popped| % WORD
  }

  /** What lies in the slot of index i, counted from the first push ever. */
  ghost function At<T>(r: Ring<T>, i: nat): Option<T>
    requires 0 < r.cap == |r.data|
  {
    r.data[Slot(i, r.cap)]
  }

  /** Exactly the unread values are in the ring, each in its own slot. */
  ghost predicate Slots<T>(r: Ring<T>)
    requires 0 < r.cap == |r.data|
  {
    && (forall i :: |r.popped| <= i < |r.pushed| && !(i == |r.popped| && r.reading) ==> At(r, i) == Some(r.pushed[i]))
    && (forall i :: |r.pushed| <= i < |r.popped| + r.cap && !(i == |r.pushed| && r.writing.Some?) ==> At(r, i) == None)
    && (r.reading ==> At(r, |r.popped|) == None)
    && (r.writing.Some? ==> At(r, |r.pushed|) == r.writing)
  }

  ghost predicate RingOk<T>(r: Ring<T>) {
    Shape(r) && Indices(r) && Slots(r)
  }

  /** A producer that is about to sleep, or sleeps, although there is room is owed a notification. */
  ghost predicate ProducerOwed<T>(s: State<T>, p: Phase<T>) {
    (p.Dozing? || p.Asleep?) && 0 < Room(s) ==>
      && s.readMutex.Some? && s.readMutex.value in s.threads
      && (var q := s.threads[s.readMutex.value]; q.PopOwes? || (q.PopNotifying? && p.Asleep?))
  }

  /** A consumer that is about to sleep, or sleeps, although there is a value is owed a notification. */
  ghost predicate ConsumerOwed<T>(s: State<T>, p: Phase<T>) {
    (p.PopDozing? || p.PopAsleep?) && |s.popped| < |s.pushed| ==>
      && s.writeMutex.Some? && s.writeMutex.value in s.threads
      && (var q := s.threads[s.writeMutex.value]; q.Owes? || (q.Notifying? && p.PopAsleep?))
  }

  ghost predicate ThreadOk<T>(s: State<T>, t: ThreadId)
    requires t in s.threads
  {
    MutexOk(s, t) && LocalOk(s, s.threads[t]) && ProducerOwed(s, s.threads[t]) && ConsumerOwed(s, s.threads[t])
  }

  ghost predicate Threads<T>(s: State<T>) {
    forall t <- s.threads :: ThreadOk(s, t)
  }

  ghost predicate Inv<T>(s: State<T>) {
    RingOk(RingOf(s)) && Threads(s)
  }

  /** The index tests are exact although the indices wrap. */
  lemma Tests<T>(s: State<T>)
    requires RingOk(RingOf(s))
    ensures s.writeIndex < WORD && s.readIndex < WORD && Room(s) >= 0
    ensures WrapSub(s.writeIndex, s.readIndex) == |s.pushed| - |s.popped|
    ensures s.readIndex == s.writeIndex <==> |s.popped| == |s.pushed|
  {
    WrapDistance(|s.popped|, |s.pushed| - |s.popped|);
  }

  lemma WrapDistance(r: nat, d: nat)
    requires d < WORD
    ensures WrapSub((r + d) % WORD, r % WORD) == d
    ensures r % WORD == (r + d) % WORD <==> d == 0
  {
  }

  /** Slots are found from the wrapped index because the capacity divides the word size. */
  lemma WrapSlot(i: nat, cap: nat)
    requires 0 < cap && WORD % cap == 0
    ensures Slot(i % WORD, cap) == Slot(i, cap)
  {
    ModMod(i, cap, WORD);
  }

  // ---------------------------------------------------------------------------------------------
  // The ring
  // ---------------------------------------------------------------------------------------------

  ghost function Write<T>(r: Ring<T>, v: T): Ring<T>
    requires 0 < r.cap == |r.data|
  {
    r.(data := r.data[Slot(r.writeIndex, r.cap) := Some(v)], writing := Some(v))
  }

  ghost function Publish<T>(r: Ring<T>, v: T): Ring<T> {
    r.(writeIndex := Increment(r.writeIndex), pushed := r.pushed + [v], writing := None)
  }

  ghost function Take<T>(r: Ring<T>): Ring<T>
    requires 0 < r.cap == |r.data|
  {
    r.(data := r.data[Slot(r.readIndex, r.cap) := None], reading := true)
  }

  ghost function Release<T>(r: Ring<T>, v: T): Ring<T> {
    r.(readIndex := Increment(r.readIndex), popped := r.popped + [v], reading := false)
  }

  /** Changing the slot of index k changes no other slot of the window. */
  lemma OtherSlots<T>(r: Ring<T>, r': Ring<T>, k: nat, lo: nat, x: Option<T>)
    requires 0 < r.cap == |r.data| && r'.cap == r.cap && lo <= k < lo + r.cap
    requires r'.data == r.data[Slot(k, r.cap) := x]
    ensures forall i: nat :: lo <= i < lo + r.cap && i != k ==> At(r', i) == At(r, i)
    ensures At(r', k) == x
  {
    forall i: nat | lo <= i < lo + r.cap && i != k ensures At(r', i) == At(r, i) {
      if i < k { ModInjective(i, k, r.cap); } else { ModInjective(k, i, r.cap); }
    }
  }

  /** Constructing into the next slot touches no slot that holds an unread value. */
  lemma WriteKeeps<T>(r: Ring<T>, v: T)
    requires RingOk(r) && r.writing == None && |r.pushed| < |r.popped| + r.cap
    ensures At(r, |r.pushed|) == None
    ensures RingOk(Write(r, v))
  {
    WrapSlot(|r.pushed|, r.cap);
    OtherSlots(r, Write(r, v), |r.pushed|, |r.popped|, Some(v));
    hide Indices, At;
  }

  lemma WrapNext(n: nat)
    ensures Increment(n % WORD) == (n + 1) % WORD
  {
  }

  lemma PublishKeeps<T>(r: Ring<T>, v: T)
    requires RingOk(r) && r.writing == Some(v)
    ensures RingOk(Publish(r, v))
  {
    var r' := Publish(r, v);
    SameData(r, r');
    WrapNext(|r.pushed|);
    hide At, Increment;
    assert Indices(r');
    hide Indices;
  }

  lemma SameData<T>(r: Ring<T>, r': Ring<T>)
    requires 0 < r.cap == |r.data| && r'.cap == r.cap && r'.data == r.data
    ensures forall i: nat :: At(r', i) == At(r, i)
  {
  }

  /** Moving the oldest value out finds it there. */
  lemma TakeKeeps<T>(r: Ring<T>)
    requires RingOk(r) && !r.reading && |r.popped| < |r.pushed|
    ensures At(r, |r.popped|) == Some(r.pushed[|r.popped|])
    ensures RingOk(Take(r))
  {
    WrapSlot(|r.popped|, r.cap);
    OtherSlots(r, Take(r), |r.popped|, |r.popped|, None);
    hide Indices, At;
  }

  lemma ReleaseKeeps<T>(r: Ring<T>, v: T)
    requires RingOk(r) && r.reading && v == r.pushed[|r.popped|]
    ensures RingOk(Release(r, v))
  {
    var r' := Release(r, v);
    SameData(r, r');
    assert At(r', |r.popped| + r.cap) == At(r, |r.popped|) by { DivModShift(|r.popped|, r.cap, 1); }
    WrapNext(|r.popped|);
    hide At, Increment;
    assert Indices(r');
    hide Indices;
  }

  // ---------------------------------------------------------------------------------------------
  // Threads
  // ---------------------------------------------------------------------------------------------

  predicate Emplacing<T>(p: Phase<T>) {
    p.WantWrite? || InEmplace(p)
  }

  /** What a thread knows stays true through its own step. */
  lemma OwnKeptEmplace<T>(s: State<T>, t: ThreadId)
    requires RingOk(RingOf(s)) && t in s.threads && ThreadOk(s, t) && CanStep(s, s.threads[t]) && Emplacing(s.threads[t])
    ensures t in StepOf(s, t).threads ==> ThreadOk(StepOf(s, t), t)
  {
    hide PopStep;
    hide RingOk, RingOf, WrapSub, Slot, Increment;
    Tests(s);
  }

  /** The value a pop is about to move out is the oldest unread one. */
  lemma TakeFinds<T>(s: State<T>, t: ThreadId)
    requires RingOk(RingOf(s)) && t in s.threads && ThreadOk(s, t) && s.threads[t].PopReady?
    ensures 0 < s.cap == |s.data| && s.data[Slot(s.threads[t].ri, s.cap)] == Some(s.pushed[|s.popped|])
  {
    TakeKeeps(RingOf(s));
    WrapSlot(|s.popped|, s.cap);
  }

  lemma OwnKeptPop<T>(s: State<T>, t: ThreadId)
    requires RingOk(RingOf(s)) && t in s.threads && ThreadOk(s, t) && CanStep(s, s.threads[t]) && !Emplacing(s.threads[t])
    ensures t in StepOf(s, t).threads ==> ThreadOk(StepOf(s, t), t)
  {
    hide EmplaceStep;
    hide RingOk, RingOf, WrapSub, Slot, Increment;
    Tests(s);
    if s.threads[t].PopReady? { TakeFinds(s, t); }
  }

  /** ... and through the step of another thread. */
  lemma OtherKnowsEmplace<T>(s: State<T>, t: ThreadId, u: ThreadId)
    requires RingOk(RingOf(s)) && t in s.threads && u in s.threads && t != u && Emplacing(s.threads[t])
    requires MutexOk(s, t) && MutexOk(s, u) && LocalOk(s, s.threads[t]) && LocalOk(s, s.threads[u]) && CanStep(s, s.threads[t])
    ensures MutexOk(StepOf(s, t), u) && LocalOk(StepOf(s, t), s.threads[u])
  {
    hide PopStep;
    hide RingOk, RingOf, WrapSub, Slot, Increment;
    Tests(s);
  }

  lemma OtherOwedEmplace<T>(s: State<T>, t: ThreadId, u: ThreadId)
    requires RingOk(RingOf(s)) && t in s.threads && u in s.threads && t != u && Emplacing(s.threads[t])
    requires ThreadOk(s, t) && ThreadOk(s, u) && CanStep(s, s.threads[t])
    ensures ProducerOwed(StepOf(s, t), s.threads[u]) && ConsumerOwed(StepOf(s, t), s.threads[u])
  {
    hide PopStep;
    hide RingOk, RingOf, WrapSub, Slot, Increment;
    Tests(s);
  }

  lemma OtherKeptEmplace<T>(s: State<T>, t: ThreadId, u: ThreadId)
    requires RingOk(RingOf(s)) && t in s.threads && u in s.threads && t != u && Emplacing(s.threads[t])
    requires ThreadOk(s, t) && ThreadOk(s, u) && CanStep(s, s.threads[t])
    ensures ThreadOk(StepOf(s, t), u)
  {
    hide PopStep;
    OtherKnowsEmplace(s, t, u);
    OtherOwedEmplace(s, t, u);
    assert u in StepOf(s, t).threads && StepOf(s, t).threads[u] == s.threads[u];
    hide RingOk, RingOf, StepOf, CanStep, MutexOk, LocalOk, ProducerOwed, ConsumerOwed;
  }

  lemma OtherKnowsPop<T>(s: State<T>, t: ThreadId, u: ThreadId)
    requires RingOk(RingOf(s)) && t in s.threads && u in s.threads && t != u && !Emplacing(s.threads[t])
    requires MutexOk(s, t) && MutexOk(s, u) && LocalOk(s, s.threads[t]) && LocalOk(s, s.threads[u]) && CanStep(s, s.threads[t])
    ensures MutexOk(StepOf(s, t), u) && LocalOk(StepOf(s, t), s.threads[u])
  {
    hide EmplaceStep;
    hide RingOk, RingOf, WrapSub, Slot, Increment;
    Tests(s);
  }

  lemma OtherOwedPop<T>(s: State<T>, t: ThreadId, u: ThreadId)
    requires RingOk(RingOf(s)) && t in s.threads && u in s.threads && t != u && !Emplacing(s.threads[t])
    requires ThreadOk(s, t) && ThreadOk(s, u) && CanStep(s, s.threads[t])
    ensures ProducerOwed(StepOf(s, t), s.threads[u]) && ConsumerOwed(StepOf(s, t), s.threads[u])
  {
    hide EmplaceStep;
    hide RingOk, RingOf, WrapSub, Slot, Increment;
    Tests(s);
  }

  lemma OtherKeptPop<T>(s: State<T>, t: ThreadId, u: ThreadId)
    requires RingOk(RingOf(s)) && t in s.threads && u in s.threads && t != u && !Emplacing(s.threads[t])
    requires ThreadOk(s, t) && ThreadOk(s, u) && CanStep(s, s.threads[t])
    ensures ThreadOk(StepOf(s, t), u)
  {
    hide EmplaceStep;
    OtherKnowsPop(s, t, u);
    OtherOwedPop(s, t, u);
    assert u in StepOf(s, t).threads && StepOf(s, t).threads[u] == s.threads[u];
    hide RingOk, RingOf, StepOf, CanStep, MutexOk, LocalOk, ProducerOwed, ConsumerOwed;
  }

  /** What a step does to the ring. */
  lemma RingStepsEmplace<T>(s: State<T>, t: ThreadId)
    requires RingOk(RingOf(s)) && t in s.threads && ThreadOk(s, t) && CanStep(s, s.threads[t]) && Emplacing(s.threads[t])
    ensures var r, r', p := RingOf(s), RingOf(StepOf(s, t)), s.threads[t];
            && 0 < s.cap == |s.data|
            && r' == if p.Ready? then Write(r, p.v) else if p.Wrote? then Publish(r, p.v) else r
  {
    hide PopStep, Indices, Slots, Slot, Increment, WrapSub, ProducerOwed, ConsumerOwed;
  }

  lemma RingStepsPop<T>(s: State<T>, t: ThreadId)
    requires RingOk(RingOf(s)) && t in s.threads && ThreadOk(s, t) && CanStep(s, s.threads[t]) && !Emplacing(s.threads[t])
    ensures var r, r', p := RingOf(s), RingOf(StepOf(s, t)), s.threads[t];
            && 0 < s.cap == |s.data|
            && r' == if p.PopReady? then Take(r) else if p.Took? then Release(r, p.got) else r
  {
    hide EmplaceStep, Indices, Slots, Slot, Increment, WrapSub, ProducerOwed, ConsumerOwed;
  }

  lemma StepKeepsRing<T>(s: State<T>, t: ThreadId)
    requires RingOk(RingOf(s)) && t in s.threads && ThreadOk(s, t) && CanStep(s, s.threads[t])
    ensures RingOk(RingOf(StepOf(s, t)))
  {
    var r := RingOf(s);
    hide StepOf, Slots, Indices, ProducerOwed, ConsumerOwed;
    if Emplacing(s.threads[t]) { RingStepsEmplace(s, t); } else { RingStepsPop(s, t); }
    match s.threads[t] {
      case Ready(v, _) => WriteKeeps(r, v);
      case Wrote(v) => PublishKeeps(r, v);
      case PopReady(_) => TakeKeeps(r);
      case Took(v) => ReleaseKeeps(r, v);
      case _ =>
    }
  }

  lemma StepKeeps<T>(s: State<T>, t: ThreadId)
    requires Inv(s) && t in s.threads && CanStep(s, s.threads[t])
    ensures Inv(StepOf(s, t))
  {
    hide RingOk, RingOf, ThreadOk, CanStep, StepOf;
    StepKeepsRing(s, t);
    var s' := StepOf(s, t);
    forall u | u in s'.threads ensures ThreadOk(s', u) {
      StepTouchesOwn(s, t);
      if u == t {
        if Emplacing(s.threads[t]) { OwnKeptEmplace(s, t); } else { OwnKeptPop(s, t); }
      } else {
        if Emplacing(s.threads[t]) { OtherKeptEmplace(s, t, u); } else { OtherKeptPop(s, t, u); }
      }
    }
  }

  lemma StepTouchesOwn<T>(s: State<T>, t: ThreadId)
    requires t in s.threads && CanStep(s, s.threads[t])
    ensures StepOf(s, t).threads.Keys <= s.threads.Keys
  {
  }

  /** Calls, wakeups, stops and notifications leave the ring alone. */
  lemma RingUnmoved<T>(s: State<T>, a: Action<T>)
    requires Threads(s) && Enabled(s, a) && !a.Step?
    ensures RingOf(Apply(s, a)) == RingOf(s)
  {
    hide LocalOk, ProducerOwed, ConsumerOwed;
    if a.t in s.threads { assert MutexOk(s, a.t); }
    if a.Notify? && a.woken.Some? { assert MutexOk(s, a.woken.value); }
    var s' := Apply(s, a);
    assert WriteInFlight(s') == WriteInFlight(s);
    assert ReadInFlight(s') == ReadInFlight(s);
  }

  lemma CallKeeps<T>(s: State<T>, a: Action<T>)
    requires Threads(s) && Enabled(s, a) && (a.CallEmplace? || a.CallPop? || a.Wake? || a.Stop?)
    ensures Threads(Apply(s, a))
  {
    var s' := Apply(s, a);
    forall u <- s'.threads ensures ThreadOk(s', u) { assert u in s.threads ==> ThreadOk(s, u); }
  }

  lemma NotifyKeeps<T>(s: State<T>, a: Action<T>)
    requires Threads(s) && Enabled(s, a) && a.Notify?
    ensures Threads(Apply(s, a))
  {
    var s' := Apply(s, a);
    assert ThreadOk(s, a.t);
    if a.woken.Some? { assert ThreadOk(s, a.woken.value); }
    forall u <- s'.threads ensures ThreadOk(s', u) {
      assert ThreadOk(s, u);
    }
  }

  lemma InitialInv<T>(cap: nat)
    requires 0 < cap < WORD && WORD % cap == 0
    ensures Inv(Initial<T>(cap))
  {
  }

  lemma {:induction false} ReachableInv<T>(cap: nat, acts: seq<Action<T>>)
    requires 0 < cap < WORD && WORD % cap == 0 && After(cap, acts).Some?
    ensures Inv(After(cap, acts).value)
    decreases |acts|
  {
    if acts == [] {
      InitialInv<T>(cap);
    } else {
      var s, a := After(cap, acts[..|acts| - 1]).value, acts[|acts| - 1];
      ReachableInv(cap, acts[..|acts| - 1]);
      hide Inv, Initial;
      ActionKeeps(s, a);
    }
  }

  lemma ActionKeeps<T>(s: State<T>, a: Action<T>)
    requires Inv(s) && Enabled(s, a)
    ensures Inv(Apply(s, a))
  {
    hide RingOk, RingOf, Threads, Enabled;
    match a {
      case Step(t) => StepEnabled(s, t); StepKeeps(s, t);
      case Notify(_, _) => RingUnmoved(s, a); NotifyKeeps(s, a);
      case _ => RingUnmoved(s, a); CallKeeps(s, a);
    }
  }

  lemma StepEnabled<T>(s: State<T>, t: ThreadId)
    ensures Enabled(s, Step(t)) <==> t in s.threads && CanStep(s, s.threads[t])
  {
  }

  // ---------------------------------------------------------------------------------------------
  // What holds in every interleaving
  // ---------------------------------------------------------------------------------------------

  /** Capacities the static assertion admits, zero excepted. */
  ghost predicate PowerOfTwo(cap: nat) {
    exists k: nat :: k < 64 && cap == Pow2(k)
  }

  lemma CapacityDivides(cap: nat)
    requires PowerOfTwo(cap)
    ensures 0 < cap < WORD && WORD % cap == 0
  {
    var k: nat :| k < 64 && cap == Pow2(k);
    Pow2Word();
    Pow2Divides(k, 64);
    Pow2Divides(k, 63);
    assert Pow2(64) == 2 * Pow2(63);
  }

  lemma Reached<T>(cap: nat, acts: seq<Action<T>>) returns (s: State<T>)
    requires PowerOfTwo(cap) && After(cap, acts).Some?
    ensures s == After(cap, acts).value && Inv(s)
  {
    CapacityDivides(cap);
    ReachableInv(cap, acts);
    s := After(cap, acts).value;
  }

  /** First in, first out: the values popped are a prefix of the values pushed, never more than cap behind. */
  lemma PoppedIsPrefix<T>(cap: nat, acts: seq<Action<T>>)
    requires PowerOfTwo(cap) && After(cap, acts).Some?
    ensures var s := After(cap, acts).value;
            s.popped <= s.pushed && |s.pushed| - |s.popped| <= s.cap
  {
    var s := Reached(cap, acts);
  }

  /** A producer constructs only into an empty slot, and that slot belongs to no unread value. */
  lemma WritesEmptySlot<T>(cap: nat, acts: seq<Action<T>>, t: ThreadId)
    requires PowerOfTwo(cap) && After(cap, acts).Some?
    requires t in After(cap, acts).value.threads && After(cap, acts).value.threads[t].Ready?
    ensures var s := After(cap, acts).value;
            && 0 < s.cap == |s.data| && CanStep(s, s.threads[t])
            && s.data[Slot(s.threads[t].wi, s.cap)] == None
            && forall i :: |s.popped| <= i < |s.pushed| ==> Slot(i, s.cap) != Slot(s.threads[t].wi, s.cap)
  {
    var s := Reached(cap, acts);
    var r := RingOf(s);
    assert ThreadOk(s, t);
    WriteKeeps(r, s.threads[t].v);
    WrapSlot(|s.pushed|, s.cap);
    assert At(r, |s.pushed|) == s.data[Slot(s.threads[t].wi, s.cap)];
    forall i | |s.popped| <= i < |s.pushed| ensures Slot(i, s.cap) != Slot(s.threads[t].wi, s.cap) {
      ModInjective(i, |s.pushed|, s.cap);
    }
  }

  /** A consumer moves only from the slot of the oldest unread value. */
  lemma ReadsOldest<T>(cap: nat, acts: seq<Action<T>>, t: ThreadId)
    requires PowerOfTwo(cap) && After(cap, acts).Some?
    requires t in After(cap, acts).value.threads && After(cap, acts).value.threads[t].PopReady?
    ensures var s := After(cap, acts).value;
            && 0 < s.cap == |s.data| && CanStep(s, s.threads[t]) && |s.popped| < |s.pushed|
            && s.data[Slot(s.threads[t].ri, s.cap)] == Some(s.pushed[|s.popped|])
  {
    var s := Reached(cap, acts);
    hide RingOk;
    assert ThreadOk(s, t);
    TakeFinds(s, t);
  }

  /** The tests of the try and wait modes tell full from not full and empty from not empty, wrapped or not. */
  lemma TestsAreExact<T>(cap: nat, acts: seq<Action<T>>, t: ThreadId)
    requires PowerOfTwo(cap) && After(cap, acts).Some? && t in After(cap, acts).value.threads
    ensures var s := After(cap, acts).value;
            var p := s.threads[t];
            && (p.Loaded? ==> (FullTest(s, p.wi) <==> |s.pushed| - |s.popped| == cap))
            && (p.Checking? ==> CanStep(s, p) && (WrapSub(p.wi, s.readIndex) < s.cap <==> |s.pushed| - |s.popped| < cap))
            && (p.PopLoaded? || p.PopChecking? ==> (p.ri == s.writeIndex <==> |s.pushed| == |s.popped|))
  {
    var s := Reached(cap, acts);
    CapacityKept(cap, acts);
    Tests(s);
    assert ThreadOk(s, t);
  }

  lemma {:induction false} CapacityKept<T>(cap: nat, acts: seq<Action<T>>)
    requires After(cap, acts).Some?
    ensures After(cap, acts).value.cap == cap
    decreases |acts|
  {
    if acts != [] { CapacityKept(cap, acts[..|acts| - 1]); }
  }

  /**
   No wakeup is lost: a sleeper whose condition holds is still owed a notification by a thread that will give it,
   and nobody else sleeps there whom that notification could wake instead.
   */
  lemma NoLostWakeup<T>(cap: nat, acts: seq<Action<T>>, t: ThreadId)
    requires PowerOfTwo(cap) && After(cap, acts).Some? && t in After(cap, acts).value.threads
    ensures var s := After(cap, acts).value;
            && (s.threads[t].Asleep? && |s.pushed| - |s.popped| < s.cap ==>
                  exists u <- s.threads :: s.threads[u].PopOwes? || s.threads[u].PopNotifying?)
            && (s.threads[t].PopAsleep? && |s.popped| < |s.pushed| ==>
                  exists u <- s.threads :: s.threads[u].Owes? || s.threads[u].Notifying?)
            && (s.threads[t].Asleep? ==> forall u <- s.threads :: s.threads[u].Asleep? ==> u == t)
            && (s.threads[t].PopAsleep? ==> forall u <- s.threads :: s.threads[u].PopAsleep? ==> u == t)
  {
    var s := Reached(cap, acts);
    hide RingOk;
    assert ThreadOk(s, t);
    forall u <- s.threads
      ensures s.threads[t].Asleep? && s.threads[u].Asleep? ==> u == t
      ensures s.threads[t].PopAsleep? && s.threads[u].PopAsleep? ==> u == t
    {
      assert ThreadOk(s, u);
    }
  }

  /** When that notification is given it wakes the sleeper. */
  lemma NotifyWakesSleeper<T>(cap: nat, acts: seq<Action<T>>, t: ThreadId, u: ThreadId, woken: Option<ThreadId>)
    requires PowerOfTwo(cap) && After(cap, acts).Some?
    requires var s := After(cap, acts).value;
             t in s.threads && u in s.threads && WaitsFor(s.threads[u], s.threads[t]) && Enabled(s, Notify(u, woken))
    ensures woken == Some(t)
  {
    NoLostWakeup(cap, acts, t);
    hide After;
  }

  /** Producers and consumers never all sleep: not even one of each sleeps at the same time. */
  lemma NeverBothAsleep<T>(cap: nat, acts: seq<Action<T>>, t: ThreadId, u: ThreadId)
    requires PowerOfTwo(cap) && After(cap, acts).Some?
    requires t in After(cap, acts).value.threads && u in After(cap, acts).value.threads
    ensures !(After(cap, acts).value.threads[t].Asleep? && After(cap, acts).value.threads[u].PopAsleep?)
  {
    var s := Reached(cap, acts);
    assert 0 < s.cap;
    hide RingOk;
    assert ThreadOk(s, t) && ThreadOk(s, u);
  }

  // ---------------------------------------------------------------------------------------------
  // What a call does
  // ---------------------------------------------------------------------------------------------

  datatype Call<T> = NoCall | Emplacement(v: T, wait: bool) | Removal(mode: PopMode)

  /** The call that thread t made last, read off the actions alone. */
  function LastCall<T>(acts: seq<Action<T>>, t: ThreadId): Call<T> {
    if acts == [] then NoCall
    else
      match acts[|acts| - 1]
      case CallEmplace(u, v, wait) => if u == t then Emplacement(v, wait) else LastCall(acts[..|acts| - 1], t)
      case CallPop(u, mode) => if u == t then Removal(mode) else LastCall(acts[..|acts| - 1], t)
      case _ => LastCall(acts[..|acts| - 1], t)
  }

  /** What a sequence gained at its end. */
  function Gain<T>(before: seq<T>, after: seq<T>): seq<T> {
    if |before| <= |after| then after[|before|..] else []
  }

  /** What t itself has pushed since it made that call. */
  ghost function PushedBy<T>(cap: nat, acts: seq<Action<T>>, t: ThreadId): seq<T> {
    if acts == [] then []
    else
      var earlier, a := acts[..|acts| - 1], acts[|acts| - 1];
      if a.t != t || After(cap, acts) == None || After(cap, earlier) == None then PushedBy(cap, earlier, t)
      else if a.CallEmplace? || a.CallPop? then []
      else PushedBy(cap, earlier, t) + Gain(After(cap, earlier).value.pushed, After(cap, acts).value.pushed)
  }

  /** What t itself has popped since then. */
  ghost function PoppedBy<T>(cap: nat, acts: seq<Action<T>>, t: ThreadId): seq<T> {
    if acts == [] then []
    else
      var earlier, a := acts[..|acts| - 1], acts[|acts| - 1];
      if a.t != t || After(cap, acts) == None || After(cap, earlier) == None then PoppedBy(cap, earlier, t)
      else if a.CallEmplace? || a.CallPop? then []
      else PoppedBy(cap, earlier, t) + Gain(After(cap, earlier).value.popped, After(cap, acts).value.popped)
  }

  /** What a thread inside its call has done so far. */
  ghost predicate SoFar<T>(p: Phase<T>, call: Call<T>, pushed: seq<T>, popped: seq<T>, out: Option<T>) {
    if p.Owes? || p.Notifying? || p.Notified? then
      call.Emplacement? && pushed == [call.v] && popped == []
    else if p.PopOwes? || p.PopNotifying? || p.PopNotified? then
      call.Removal? && pushed == [] && out.Some? && popped == [out.value]
    else
      && pushed == [] && popped == []
      && (Emplacing(p) ==> call.Emplacement? && call.v == p.v)
      && (!Emplacing(p) ==> call.Removal?)
      && (p.WantWrite? || p.Entered? || p.Loaded? ==> call.wait == p.wait)
      && (p.WantRead? || p.PopEntered? || p.PopLoaded? || p.PopChecking? || p.PopDozing? || p.PopAsleep? || p.PopWoken? ==>
            call.mode == p.mode)
      && (p.Took? ==> out == Some(p.got))
  }

  ghost function Out<T>(s: State<T>, t: ThreadId): Option<T> {
    if t in s.results.out then Some(s.results.out[t]) else None
  }

  /** What is so far after a step that led from s to s'. */
  ghost predicate SoFarIn<T>(s: State<T>, s': State<T>, t: ThreadId, call: Call<T>, pushed: seq<T>, popped: seq<T>) {
    t in s'.threads ==>
      SoFar(s'.threads[t], call, pushed + Gain(s.pushed, s'.pushed), popped + Gain(s.popped, s'.popped), Out(s', t))
  }

  /** The thread has not yet found room, or a value. */
  predicate Looking<T>(p: Phase<T>) {
    || p.WantWrite? || p.Entered? || p.Loaded? || p.Checking? || p.Dozing? || p.Asleep? || p.Woken?
    || p.WantRead? || p.PopEntered? || p.PopLoaded? || p.PopChecking? || p.PopDozing? || p.PopAsleep? || p.PopWoken?
  }

  lemma LookingEmplaceSoFar<T>(s: State<T>, t: ThreadId, call: Call<T>, pushed: seq<T>, popped: seq<T>)
    requires t in s.threads && CanStep(s, s.threads[t]) && Emplacing(s.threads[t]) && Looking(s.threads[t])
    requires SoFar(s.threads[t], call, pushed, popped, Out(s, t))
    ensures SoFarIn(s, StepOf(s, t), t, call, pushed, popped)
  {
    hide PopStep, Slot, Increment, WrapSub, FullTest;
  }

  lemma DoingEmplaceSoFar<T>(s: State<T>, t: ThreadId, call: Call<T>, pushed: seq<T>, popped: seq<T>)
    requires t in s.threads && CanStep(s, s.threads[t]) && Emplacing(s.threads[t]) && !Looking(s.threads[t])
    requires SoFar(s.threads[t], call, pushed, popped, Out(s, t))
    ensures SoFarIn(s, StepOf(s, t), t, call, pushed, popped)
  {
    hide PopStep, Slot, Increment, WrapSub, FullTest;
  }

  lemma LookingPopSoFar<T>(s: State<T>, t: ThreadId, call: Call<T>, pushed: seq<T>, popped: seq<T>)
    requires t in s.threads && CanStep(s, s.threads[t]) && !Emplacing(s.threads[t]) && Looking(s.threads[t])
    requires SoFar(s.threads[t], call, pushed, popped, Out(s, t))
    ensures SoFarIn(s, StepOf(s, t), t, call, pushed, popped)
  {
    hide EmplaceStep, Slot, Increment, WrapSub, FullTest;
  }

  lemma DoingPopSoFar<T>(s: State<T>, t: ThreadId, call: Call<T>, pushed: seq<T>, popped: seq<T>)
    requires t in s.threads && CanStep(s, s.threads[t]) && !Emplacing(s.threads[t]) && !Looking(s.threads[t])
    requires SoFar(s.threads[t], call, pushed, popped, Out(s, t))
    ensures SoFarIn(s, StepOf(s, t), t, call, pushed, popped)
  {
    hide EmplaceStep, Slot, Increment, WrapSub, FullTest;
  }

  lemma OwnSoFar<T>(s: State<T>, a: Action<T>, call: Call<T>, pushed: seq<T>, popped: seq<T>)
    requires Enabled(s, a) && a.t in s.threads && SoFar(s.threads[a.t], call, pushed, popped, Out(s, a.t))
    ensures SoFarIn(s, Apply(s, a), a.t, call, pushed, popped)
  {
    hide StepOf, CanStep;
    if a.Step? {
      hide SoFar, SoFarIn;
      if Emplacing(s.threads[a.t]) {
        if Looking(s.threads[a.t]) { LookingEmplaceSoFar(s, a.t, call, pushed, popped); }
        else { DoingEmplaceSoFar(s, a.t, call, pushed, popped); }
      } else {
        if Looking(s.threads[a.t]) { LookingPopSoFar(s, a.t, call, pushed, popped); }
        else { DoingPopSoFar(s, a.t, call, pushed, popped); }
      }
    }
  }

  /** Of another thread a step changes at most that it sleeps. */
  lemma OthersStay<T>(s: State<T>, a: Action<T>, t: ThreadId)
    requires Enabled(s, a) && a.t != t && t in s.threads
    ensures var s' := Apply(s, a);
            t in s'.threads && (s'.threads[t] == s.threads[t] || s'.threads[t] == Rouse(s.threads[t])) && Out(s', t) == Out(s, t)
  {
    hide StepOf;
    if a.Step? { if Emplacing(s.threads[a.t]) { OthersStayEmplace(s, a.t, t); } else { OthersStayPop(s, a.t, t); } }
  }

  /** A step of u changes no other thread. */
  ghost predicate OnlyMoves<T>(s: State<T>, s': State<T>, u: ThreadId, t: ThreadId) {
    && (t != u && t in s.threads ==> t in s'.threads && s'.threads[t] == s.threads[t])
    && (t != u ==> Out(s', t) == Out(s, t))
  }

  lemma OthersStayEmplace<T>(s: State<T>, u: ThreadId, t: ThreadId)
    requires u in s.threads && CanStep(s, s.threads[u]) && Emplacing(s.threads[u]) && u != t && t in s.threads
    ensures t in StepOf(s, u).threads && StepOf(s, u).threads[t] == s.threads[t] && Out(StepOf(s, u), t) == Out(s, t)
  {
    hide PopStep, Slot, Increment, WrapSub, FullTest;
    assert OnlyMoves(s, EmplaceStep(s, u), u, t);
  }

  lemma OthersStayPop<T>(s: State<T>, u: ThreadId, t: ThreadId)
    requires u in s.threads && CanStep(s, s.threads[u]) && !Emplacing(s.threads[u]) && u != t && t in s.threads
    ensures t in StepOf(s, u).threads && StepOf(s, u).threads[t] == s.threads[t] && Out(StepOf(s, u), t) == Out(s, t)
  {
    hide EmplaceStep, Slot, Increment, WrapSub;
    assert OnlyMoves(s, PopStep(s, u), u, t);
  }

  lemma RouseSoFar<T>(p: Phase<T>, call: Call<T>, pushed: seq<T>, popped: seq<T>, out: Option<T>)
    requires SoFar(p, call, pushed, popped, out)
    ensures SoFar(Rouse(p), call, pushed, popped, out)
  {
  }

  lemma {:induction false} ReachableSoFar<T>(cap: nat, acts: seq<Action<T>>, t: ThreadId)
    requires After(cap, acts).Some? && t in After(cap, acts).value.threads
    ensures SoFar(After(cap, acts).value.threads[t], LastCall(acts, t), PushedBy(cap, acts, t), PoppedBy(cap, acts, t),
                  Out(After(cap, acts).value, t))
    decreases |acts|
  {
    var earlier, a := acts[..|acts| - 1], acts[|acts| - 1];
    var s := After(cap, earlier).value;
    if t in s.threads { ReachableSoFar(cap, earlier, t); }
    if a.t == t && (a.CallEmplace? || a.CallPop?) {
    } else if a.t == t {
      OwnSoFar(s, a, LastCall(earlier, t), PushedBy(cap, earlier, t), PoppedBy(cap, earlier, t));
    } else {
      OthersAppear(s, a, t);
      OthersStay(s, a, t);
      hide SoFar, Apply, Enabled;
      RouseSoFar(s.threads[t], LastCall(earlier, t), PushedBy(cap, earlier, t), PoppedBy(cap, earlier, t), Out(s, t));
    }
  }

  lemma OthersAppear<T>(s: State<T>, a: Action<T>, t: ThreadId)
    requires Enabled(s, a) && a.t != t && t in Apply(s, a).threads
    ensures t in s.threads
  {
    hide StepOf;
    if a.Step? { StepTouchesOwn(s, a.t); }
  }

  /**
   How a call of t that returns with action a has ended: an emplacement has pushed its value and returned true,
   or, if it only tried and found the queue full, pushed nothing and returned false. A pop has popped one value,
   handed it to its caller and returned true, or, if it only tried and found the queue empty or saw a stop,
   popped nothing and returned false.
   */
  ghost predicate Ended<T>(s: State<T>, s': State<T>, a: Action<T>, t: ThreadId, call: Call<T>, pushed: seq<T>, popped: seq<T>) {
    && t in s'.results.returned
    && match call
       case Emplacement(v, wait) =>
         && popped == []
         && (if s'.results.returned[t] then pushed == [v]
             else pushed == [] && !wait && a == Step(t) && |s.pushed| - |s.popped| == s.cap)
       case Removal(mode) =>
         && pushed == []
         && (if s'.results.returned[t] then Out(s', t).Some? && popped == [Out(s', t).value]
             else && popped == []
                  && ((mode == TryPop && a == Step(t) && |s.pushed| == |s.popped|) || (mode == PopWaitStop && a == Stop(t))))
       case NoCall => false
  }

  lemma EmplaceEnds<T>(s: State<T>, t: ThreadId, call: Call<T>, pushed: seq<T>, popped: seq<T>)
    requires t in s.threads && CanStep(s, s.threads[t]) && Emplacing(s.threads[t]) && t !in StepOf(s, t).threads
    requires SoFar(s.threads[t], call, pushed, popped, Out(s, t))
    requires s.threads[t].Loaded? ==> (FullTest(s, s.threads[t].wi) <==> |s.pushed| - |s.popped| == s.cap)
    ensures var s' := StepOf(s, t);
            Ended(s, s', Step(t), t, call, pushed + Gain(s.pushed, s'.pushed), popped + Gain(s.popped, s'.popped))
  {
    hide PopStep, Slot, Increment, WrapSub, FullTest;
  }

  lemma PopEnds<T>(s: State<T>, t: ThreadId, call: Call<T>, pushed: seq<T>, popped: seq<T>)
    requires t in s.threads && CanStep(s, s.threads[t]) && !Emplacing(s.threads[t]) && t !in StepOf(s, t).threads
    requires SoFar(s.threads[t], call, pushed, popped, Out(s, t))
    requires s.threads[t].PopLoaded? ==> (s.threads[t].ri == s.writeIndex <==> |s.pushed| == |s.popped|)
    ensures var s' := StepOf(s, t);
            Ended(s, s', Step(t), t, call, pushed + Gain(s.pushed, s'.pushed), popped + Gain(s.popped, s'.popped))
  {
    hide EmplaceStep, Slot, Increment, WrapSub;
  }

  lemma StopEnds<T>(s: State<T>, t: ThreadId, call: Call<T>, pushed: seq<T>, popped: seq<T>)
    requires Enabled(s, Stop(t)) && SoFar(s.threads[t], call, pushed, popped, Out(s, t))
    ensures var s' := Apply(s, Stop(t));
            Ended(s, s', Stop(t), t, call, pushed + Gain(s.pushed, s'.pushed), popped + Gain(s.popped, s'.popped))
  {
    hide StepOf;
  }

  /** Every call that returns has ended in one of these ways, under every interleaving. */
  lemma CallReturns<T>(cap: nat, acts: seq<Action<T>>, a: Action<T>, t: ThreadId)
    requires PowerOfTwo(cap) && After(cap, acts + [a]).Some? && After(cap, acts).Some?
    requires t in After(cap, acts).value.threads && t !in After(cap, acts + [a]).value.threads
    ensures Ended(After(cap, acts).value, After(cap, acts + [a]).value, a, t,
                  LastCall(acts, t), PushedBy(cap, acts + [a], t), PoppedBy(cap, acts + [a], t))
  {
    var s := After(cap, acts).value;
    assert (acts + [a])[..|acts|] == acts;
    ReachableSoFar(cap, acts, t);
    TestsAreExact(cap, acts, t);
    CapacityKept(cap, acts);
    hide After, SoFar, LastCall, PushedBy, PoppedBy, Ended, StepOf, CanStep, FullTest;
    OwnLeaves(s, a, t);
    CallKept(cap, acts, a, t);
    if a.Stop? {
      StopEnds(s, t, LastCall(acts, t), PushedBy(cap, acts, t), PoppedBy(cap, acts, t));
    } else if Emplacing(s.threads[t]) {
      EmplaceEnds(s, t, LastCall(acts, t), PushedBy(cap, acts, t), PoppedBy(cap, acts, t));
    } else {
      PopEnds(s, t, LastCall(acts, t), PushedBy(cap, acts, t), PoppedBy(cap, acts, t));
    }
  }

  /** A thread leaves by a step of its own. */
  lemma OwnLeaves<T>(s: State<T>, a: Action<T>, t: ThreadId)
    requires Enabled(s, a) && t in s.threads && t !in Apply(s, a).threads
    ensures a.t == t && (a.Step? || a.Stop?)
  {
    hide StepOf;
    if a.t != t { OthersStay(s, a, t); }
  }

  lemma CallKept<T>(cap: nat, acts: seq<Action<T>>, a: Action<T>, t: ThreadId)
    requires After(cap, acts + [a]).Some? && After(cap, acts).Some? && a.t == t && (a.Step? || a.Stop?)
    ensures LastCall(acts + [a], t) == LastCall(acts, t)
    ensures PushedBy(cap, acts + [a], t)
         == PushedBy(cap, acts, t) + Gain(After(cap, acts).value.pushed, After(cap, acts + [a]).value.pushed)
    ensures PoppedBy(cap, acts + [a], t)
         == PoppedBy(cap, acts, t) + Gain(After(cap, acts).value.popped, After(cap, acts + [a]).value.popped)
  {
    assert (acts + [a])[..|acts|] == acts;
    hide After;
  }

  // ---------------------------------------------------------------------------------------------
  // Progress
  // ---------------------------------------------------------------------------------------------

  ghost predicate WriteHeld<T>(s: State<T>) {
    s.writeMutex.Some? ==> s.writeMutex.value in s.threads && InEmplace(s.threads[s.writeMutex.value])
  }

  ghost predicate ReadHeld<T>(s: State<T>) {
    s.readMutex.Some? ==> s.readMutex.value in s.threads && InPop(s.threads[s.readMutex.value])
  }

  ghost predicate ProducerHeld<T>(s: State<T>) {
    s.producerMutex.Some? ==> s.producerMutex.value in s.threads && HoldsProducerMutex(s.threads[s.producerMutex.value])
  }

  ghost predicate ConsumerHeld<T>(s: State<T>) {
    s.consumerMutex.Some? ==> s.consumerMutex.value in s.threads && HoldsConsumerMutex(s.threads[s.consumerMutex.value])
  }

  ghost predicate SidesHeld<T>(s: State<T>) {
    WriteHeld(s) && ReadHeld(s)
  }

  ghost predicate ConditionsHeld<T>(s: State<T>) {
    ProducerHeld(s) && ConsumerHeld(s)
  }

  /** Every mutex that is taken is held by a thread inside the section it guards. */
  ghost predicate Held<T>(s: State<T>) {
    SidesHeld(s) && ConditionsHeld(s)
  }

  lemma SidesHeldEmplace<T>(s: State<T>, t: ThreadId)
    requires SidesHeld(s) && t in s.threads && MutexOk(s, t) && CanStep(s, s.threads[t]) && Emplacing(s.threads[t])
    ensures SidesHeld(StepOf(s, t))
  {
    hide PopStep, Slot, Increment, WrapSub, FullTest;
  }

  lemma ConditionsHeldEmplace<T>(s: State<T>, t: ThreadId)
    requires ConditionsHeld(s) && t in s.threads && MutexOk(s, t) && CanStep(s, s.threads[t]) && Emplacing(s.threads[t])
    ensures ConditionsHeld(StepOf(s, t))
  {
    hide PopStep, Slot, Increment, WrapSub, FullTest;
  }

  lemma SidesHeldPop<T>(s: State<T>, t: ThreadId)
    requires SidesHeld(s) && t in s.threads && MutexOk(s, t) && CanStep(s, s.threads[t]) && !Emplacing(s.threads[t])
    ensures SidesHeld(StepOf(s, t))
  {
    hide EmplaceStep, Slot, Increment, WrapSub, FullTest;
  }

  lemma ConditionsHeldPop<T>(s: State<T>, t: ThreadId)
    requires ConditionsHeld(s) && t in s.threads && MutexOk(s, t) && CanStep(s, s.threads[t]) && !Emplacing(s.threads[t])
    ensures ConditionsHeld(StepOf(s, t))
  {
    hide EmplaceStep, Slot, Increment, WrapSub, FullTest;
  }

  lemma SidesHeldNotify<T>(s: State<T>, a: Action<T>)
    requires SidesHeld(s) && Enabled(s, a) && a.Notify?
    ensures SidesHeld(Apply(s, a))
  {
    hide StepOf, CanStep;
  }

  lemma ConditionsHeldNotify<T>(s: State<T>, a: Action<T>)
    requires ConditionsHeld(s) && Enabled(s, a) && a.Notify?
    ensures ConditionsHeld(Apply(s, a))
  {
    hide StepOf, CanStep;
  }

  lemma HeldKeptOther<T>(s: State<T>, a: Action<T>)
    requires Held(s) && Enabled(s, a) && !a.Step? && (a.t in s.threads ==> MutexOk(s, a.t))
    ensures Held(Apply(s, a))
  {
    hide StepOf, CanStep;
    if a.Notify? {
      SidesHeldNotify(s, a);
      ConditionsHeldNotify(s, a);
    }
  }

  lemma HeldKept<T>(s: State<T>, a: Action<T>)
    requires Threads(s) && Held(s) && Enabled(s, a)
    ensures Held(Apply(s, a))
  {
    if a.t in s.threads { assert ThreadOk(s, a.t); }
    if !a.Step? {
      hide ThreadOk, MutexOk, StepOf, CanStep, Held;
      HeldKeptOther(s, a);
    } else {
      hide ThreadOk, MutexOk, StepOf, CanStep, SidesHeld, ConditionsHeld;
      if Emplacing(s.threads[a.t]) {
        SidesHeldEmplace(s, a.t);
        ConditionsHeldEmplace(s, a.t);
      } else {
        SidesHeldPop(s, a.t);
        ConditionsHeldPop(s, a.t);
      }
    }
  }

  lemma {:induction false} ReachableHeld<T>(cap: nat, acts: seq<Action<T>>)
    requires 0 < cap < WORD && WORD % cap == 0 && After(cap, acts).Some?
    ensures Held(After(cap, acts).value)
    decreases |acts|
  {
    if acts != [] {
      var s, a := After(cap, acts[..|acts| - 1]).value, acts[|acts| - 1];
      ReachableHeld(cap, acts[..|acts| - 1]);
      ReachableInv(cap, acts[..|acts| - 1]);
      hide Held, Initial;
      HeldKept(s, a);
    }
  }

  /** No thread inside an operation can go on by itself: what is left are new calls, spurious wakeups and stops. */
  ghost predicate Stuck<T>(s: State<T>) {
    && (forall t <- s.threads :: !Enabled(s, Step(t)))
    && (forall t, woken :: t in s.threads ==> !Enabled(s, Notify(t, woken)))
  }

  lemma StuckPhase<T>(s: State<T>, t: ThreadId)
    requires Stuck(s) && t in s.threads
    ensures !CanStep(s, s.threads[t]) && !s.threads[t].Notifying? && !s.threads[t].PopNotifying?
  {
    StepEnabled(s, t);
    if s.threads[t].Notifying? || s.threads[t].PopNotifying? {
      var _ := NotifyEnabled(s, t);
    }
  }

  /** A thread that is about to notify can always do so. */
  lemma NotifyEnabled<T>(s: State<T>, t: ThreadId) returns (woken: Option<ThreadId>)
    requires t in s.threads && (s.threads[t].Notifying? || s.threads[t].PopNotifying?)
    ensures Enabled(s, Notify(t, woken))
  {
    if u :| u in s.threads && WaitsFor(s.threads[t], s.threads[u]) {
      woken := Some(u);
    } else {
      woken := None;
    }
  }

  /** Then the mutexes of the condition variables are free ... */
  lemma ConditionMutexesFree<T>(s: State<T>)
    requires Inv(s) && Held(s) && Stuck(s)
    ensures s.producerMutex == None && s.consumerMutex == None
  {
    Tests(s);
    hide RingOk, RingOf, Stuck;
    if s.producerMutex.Some? {
      assert ThreadOk(s, s.producerMutex.value);
      StuckPhase(s, s.producerMutex.value);
    }
    if s.consumerMutex.Some? {
      assert ThreadOk(s, s.consumerMutex.value);
      StuckPhase(s, s.consumerMutex.value);
    }
  }

  /** ... whoever holds a side of the queue sleeps, and rightly so. */
  lemma HolderSleeps<T>(s: State<T>, t: ThreadId)
    requires Inv(s) && Held(s) && Stuck(s) && t in s.threads
    ensures s.writeMutex == Some(t) ==> s.threads[t].Asleep? && |s.pushed| - |s.popped| == s.cap
    ensures s.readMutex == Some(t) ==> s.threads[t].PopAsleep? && |s.pushed| == |s.popped|
  {
    Tests(s);
    ConditionMutexesFree(s);
    assert ThreadOk(s, t);
    if s.threads[t].PopReady? { TakeFinds(s, t); }
    hide RingOf, Slots, Indices, Slot, Stuck, Enabled;
    StuckPhase(s, t);
    if s.writeMutex.Some? { StuckPhase(s, s.writeMutex.value); }
    if s.readMutex.Some? { StuckPhase(s, s.readMutex.value); }
  }

  /**
   Nothing in the queue deadlocks: when no thread inside it can go on, it is full and they are all producers,
   or it is empty and they are all consumers.
   */
  lemma StuckOnlyWhenFullOrEmpty<T>(cap: nat, acts: seq<Action<T>>, t: ThreadId)
    requires PowerOfTwo(cap) && After(cap, acts).Some?
    requires Stuck(After(cap, acts).value) && t in After(cap, acts).value.threads
    ensures var s := After(cap, acts).value;
            if Emplacing(s.threads[t]) then |s.pushed| - |s.popped| == s.cap
            else |s.pushed| == |s.popped| < |s.popped| + s.cap
  {
    var s := Reached(cap, acts);
    CapacityDivides(cap);
    ReachableHeld(cap, acts);
    assert ThreadOk(s, t) && 0 < s.cap;
    hide RingOk, RingOf, Inv, Stuck, Enabled;
    StuckPhase(s, t);
    if Emplacing(s.threads[t]) {
      HolderSleeps(s, s.writeMutex.value);
    } else {
      HolderSleeps(s, s.readMutex.value);
    }
  }

  /** Wrapping indices find the right slot, for every index, exactly when the capacity divides 2^64. */
  lemma WrapSlotExact(cap: nat)
    requires 0 < cap
    ensures (forall i: nat :: Slot(i % WORD, cap) == Slot(i, cap)) <==> WORD % cap == 0
  {
    if WORD % cap == 0 {
      forall i: nat ensures Slot(i % WORD, cap) == Slot(i, cap) { WrapSlot(i, cap); }
    } else {
      assert WORD % WORD == 0 && Slot(0, cap) == 0;
      assert Slot(WORD % WORD, cap) != Slot(WORD, cap);
    }
  }
}
