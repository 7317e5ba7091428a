/**
 getopt for short options: a scanner whose state spans calls and which, in PERMUTE order, rotates the
 operands it has skipped behind the options it has consumed.
 */
module Getopt {
  import opened Options
  import opened Sequences

  datatype Ordering = RequireOrder | Permute | ReturnInOrder

  // ---------------------------------------------------------------------------------------------
  // The reference: what a command line means, element by element, without any moving around
  // ---------------------------------------------------------------------------------------------

  /** What a character stands for in the option string. */
  datatype Kind = Invalid | Flag | Required | Optional | LongW

  /** strchr: the first position of c, or the length. */
  function StrChr(s: string, c: char): (r: nat)
    ensures r <= |s| && c !in s[..r] && (r < |s| ==> s[r] == c)
  {
    if s == [] || s[0] == c then 0 else 1 + StrChr(s[1..], c)
  }

  predicate HasAt(s: string, i: nat, c: char) {
    i < |s| && s[i] == c
  }

  function KindOf(opts: string, c: char): Kind {
    var i := StrChr(opts, c);
    if i == |opts| || c == ':' || c == ';' then Invalid
    else if c == 'W' && HasAt(opts, i + 1, ';') then LongW
    else if !HasAt(opts, i + 1, ':') then Flag
    else if HasAt(opts, i + 2, ':') then Optional
    else Required
  }

  /** An element that is not an option: no leading dash, or a lone dash. */
  predicate NonOption(s: string) {
    s == "" || s[0] != '-' || |s| == 1
  }

  datatype Returned = Char(c: char) | InOrder   // InOrder is the value 1

  /** What one call reports: the return value, optarg, and optopt where it is an error. */
  datatype Event = Event(ret: Returned, optarg: Option<string>, optopt: Option<char>)

  /** The element after the current one is the argument of the last option in the cluster. */
  predicate TakesNext(cluster: string, opts: string) {
    cluster != [] &&
    match KindOf(opts, cluster[0])
    case Optional => false
    case Required => |cluster| == 1
    case _ => TakesNext(cluster[1..], opts)
  }

  function ClusterEvents(cluster: string, next: Option<string>, opts: string): seq<Event> {
    if cluster == [] then []
    else
      var c, tail := cluster[0], cluster[1..];
      match KindOf(opts, c)
      case Invalid => [Event(Char('?'), None, Some(c))] + ClusterEvents(tail, next, opts)
      case Optional => [Event(Char(c), if tail == [] then None else Some(tail), None)]
      case Required =>
        if tail != [] then [Event(Char(c), Some(tail), None)]
        else if next.Some? then [Event(Char(c), next, None)]
        else [Event(Char(if HasAt(opts, 0, ':') then ':' else '?'), None, Some(c))]
      case LongW => [Event(Char(c), None, None)]
      case Flag => [Event(Char(c), None, None)] + ClusterEvents(tail, next, opts)
  }

  function Second(args: seq<string>): Option<string> {
    if |args| > 1 then Some(args[1]) else None
  }

  /** How many elements a cluster takes, itself included. */
  function Taken(cluster: string, args: seq<string>, opts: string): (k: nat)
    requires args != []
    ensures 1 <= k <= |args|
  {
    if TakesNext(cluster, opts) && |args| > 1 then 2 else 1
  }

  /** The elements that are consumed, in order, with any "--". */
  function Consumed(args: seq<string>, opts: string, ord: Ordering): seq<string>
    decreases |args|
  {
    if args == [] then []
    else if NonOption(args[0]) then
      match ord
      case RequireOrder => []
      case Permute => Consumed(args[1..], opts, ord)
      case ReturnInOrder => [args[0]] + Consumed(args[1..], opts, ord)
    else if args[0] == "--" then ["--"]
    else
      var k := Taken(args[0][1..], args, opts);
      args[..k] + Consumed(args[k..], opts, ord)
  }

  /** The operands left to the caller, in order. */
  function Operands(args: seq<string>, opts: string, ord: Ordering): seq<string>
    decreases |args|
  {
    if args == [] then []
    else if NonOption(args[0]) then
      match ord
      case RequireOrder => args
      case Permute => [args[0]] + Operands(args[1..], opts, ord)
      case ReturnInOrder => Operands(args[1..], opts, ord)
    else if args[0] == "--" then args[1..]
    else Operands(args[Taken(args[0][1..], args, opts)..], opts, ord)
  }

  /** An option of the kind "W;" is reached in the cluster and more characters follow it. */
  predicate JamsCluster(cluster: string, opts: string) {
    cluster != [] &&
    match KindOf(opts, cluster[0])
    case LongW => |cluster| > 1
    case Invalid => JamsCluster(cluster[1..], opts)
    case Flag => JamsCluster(cluster[1..], opts)
    case _ => false
  }

  /** Everything the calls report, in order, up to the point where the scan jams if it does. */
  function Events(args: seq<string>, opts: string, ord: Ordering): seq<Event>
    decreases |args|
  {
    if args == [] then []
    else if NonOption(args[0]) then
      match ord
      case RequireOrder => []
      case Permute => Events(args[1..], opts, ord)
      case ReturnInOrder => [Event(InOrder, Some(args[0]), None)] + Events(args[1..], opts, ord)
    else if args[0] == "--" then []
    else
      ClusterEvents(args[0][1..], Second(args), opts)
      + if JamsCluster(args[0][1..], opts) then [] else Events(args[Taken(args[0][1..], args, opts)..], opts, ord)
  }

  /** The scan reaches such a cluster. Without long options the scanner then enters the same element again and again. */
  predicate Jams(args: seq<string>, opts: string, ord: Ordering)
    decreases |args|
  {
    args != [] &&
    if NonOption(args[0]) then ord != RequireOrder && Jams(args[1..], opts, ord)
    else
      && args[0] != "--"
      && (JamsCluster(args[0][1..], opts) || Jams(args[Taken(args[0][1..], args, opts)..], opts, ord))
  }

  /** What is reported over and over once the scan has jammed: the element up to its "W;". */
  function Cycle(args: seq<string>, opts: string, ord: Ordering): seq<Event>
    decreases |args|
  {
    if args == [] then []
    else if NonOption(args[0]) then if ord == RequireOrder then [] else Cycle(args[1..], opts, ord)
    else if args[0] == "--" then []
    else if JamsCluster(args[0][1..], opts) then ClusterEvents(args[0][1..], Second(args), opts)
    else Cycle(args[Taken(args[0][1..], args, opts)..], opts, ord)
  }

  function Repeat(es: seq<Event>, n: nat): seq<Event> {
    if n == 0 then [] else Repeat(es, n - 1) + es
  }

  // ---------------------------------------------------------------------------------------------
  // Rotation in place
  // ---------------------------------------------------------------------------------------------

  /** s' is s with the runs of length len at i and j exchanged. */
  ghost predicate Swapped(s: seq<string>, s': seq<string>, i: nat, j: nat, len: nat)
    requires i + len <= j && j + len <= |s|
  {
    && |s'| == |s|
    && (forall m :: i <= m < i + len ==> s'[m] == s[m - i + j])
    && (forall m :: j <= m < j + len ==> s'[m] == s[m - j + i])
    && (forall m :: (0 <= m < i || i + len <= m < j || j + len <= m < |s|) ==> s'[m] == s[m])
  }

  method SwapRuns(argv: array<string>, i: nat, j: nat, len: nat)
    requires i + len <= j && j + len <= argv.Length
    modifies argv
    ensures Swapped(old(argv[..]), argv[..], i, j, len)
  {
    var k := 0;
    while k < len
      invariant 0 <= k <= len
      invariant Swapped(old(argv[..]), argv[..], i, j, k)
    {
      argv[i + k], argv[j + k] := argv[j + k], argv[i + k];
      k := k + 1;
    }
  }

  lemma SwappedBlocks(s: seq<string>, s': seq<string>, p: seq<string>, x: seq<string>, m: seq<string>, y: seq<string>, q: seq<string>)
    requires s == p + x + m + y + q && |x| == |y|
    requires Swapped(s, s', |p|, |p| + |x| + |m|, |x|)
    ensures s' == p + y + m + x + q
  {
    var t := p + y + m + x + q;
    var i, j := |p|, |p| + |x| + |m|;
    forall k | 0 <= k < |s| ensures s'[k] == t[k] {
      if i <= k < i + |x| {
        assert s[k - i + j] == y[k - i] == t[k];
      } else if j <= k < j + |x| {
        assert s[k - j + i] == x[k - j] == t[k];
      } else {
        assert s[k] == t[k];
      }
    }
  }

  /** exchange_a: [first, last) and [last, top) change places, and nothing else moves. */
  method Exchange(argv: array<string>, first: nat, last: nat, optind: nat)
    requires first <= last <= optind <= argv.Length
    modifies argv
    ensures argv[..] == old(argv[..first] + argv[last..optind] + argv[first..last] + argv[optind..])
  {
    var bottom, middle, top := first, last, optind;
    ghost var goal := argv[..first] + argv[last..optind] + argv[first..last] + argv[optind..];
    assert argv[..] == argv[..first] + argv[first..last] + argv[last..optind] + argv[optind..];
    ghost var w := Blocks(argv[..first], argv[first..last], argv[last..optind], argv[optind..]);
    while top > middle && middle > bottom
      invariant Halfway(argv[..], goal, w, bottom, middle, top)
      decreases top - bottom
    {
      ghost var s := argv[..];
      if top - middle > middle - bottom {
        var len := middle - bottom;
        SwapRuns(argv, bottom, top - len, len);
        w := RotateShort(s, argv[..], goal, w, bottom, middle, top);
        top := top - len;
      } else {
        var len := top - middle;
        SwapRuns(argv, bottom, middle, len);
        w := RotateLong(s, argv[..], goal, w, bottom, middle, top);
        bottom := bottom + len;
      }
    }
    Finished(w.p, w.a, w.b, w.q);
  }

  datatype Blocks = Blocks(p: seq<string>, a: seq<string>, b: seq<string>, q: seq<string>)

  /** The array is p a b q with the borders at bottom, middle and top; what remains is to make it p b a q. */
  ghost predicate Halfway(s: seq<string>, goal: seq<string>, w: Blocks, bottom: nat, middle: nat, top: nat) {
    && |w.p| == bottom && bottom + |w.a| == middle && middle + |w.b| == top
    && s == w.p + w.a + w.b + w.q && goal == w.p + w.b + w.a + w.q
  }

  /** Swapping a short first block with the end of the second puts the first block where it belongs. */
  lemma RotateShort(s: seq<string>, s': seq<string>, goal: seq<string>, w: Blocks, bottom: nat, middle: nat, top: nat)
    returns (w': Blocks)
    requires Halfway(s, goal, w, bottom, middle, top) && |w.a| < |w.b|
    requires Swapped(s, s', bottom, top - |w.a|, |w.a|)
    ensures Halfway(s', goal, w', bottom, middle, top - (middle - bottom))
  {
    var p, a, b, q := w.p, w.a, w.b, w.q;
    var b1, b2 := b[..|b| - |a|], b[|b| - |a|..];
    assert b == b1 + b2;
    hide Swapped;
    Refine(p, a, b, q, b1, b2);
    SwappedBlocks(s, s', p, a, b1, b2, q);
    Assoc(p + b2 + b1, a, q);
    Assoc(p + b1 + b2, a, q);
    w' := Blocks(p, b2, b1, a + q);
  }

  /** Swapping the second block with the start of a long first block puts the second block where it belongs. */
  lemma RotateLong(s: seq<string>, s': seq<string>, goal: seq<string>, w: Blocks, bottom: nat, middle: nat, top: nat)
    returns (w': Blocks)
    requires Halfway(s, goal, w, bottom, middle, top) && |w.b| <= |w.a|
    requires Swapped(s, s', bottom, middle, |w.b|)
    ensures Halfway(s', goal, w', bottom + (top - middle), middle, top)
  {
    var p, a, b, q := w.p, w.a, w.b, w.q;
    var a1, a2 := a[..|b|], a[|b|..];
    assert a == a1 + a2;
    hide Swapped;
    Refine(p, a, b, q, a1, a2);
    SwappedBlocks(s, s', p, a1, a2, b, q);
    w' := Blocks(p + b, a2, a1, q);
  }

  /** The split of one of the two middle blocks. */
  lemma Refine(p: seq<string>, a: seq<string>, b: seq<string>, q: seq<string>, x: seq<string>, y: seq<string>)
    ensures b == x + y ==> p + a + b + q == p + a + x + y + q && p + b + a + q == p + x + y + a + q
    ensures a == x + y ==> p + a + b + q == p + x + y + b + q && p + b + a + q == p + b + x + y + q
  {
    assert p + a + (x + y) + q == p + a + x + y + q;
    assert p + (x + y) + a + q == p + x + y + a + q;
    assert p + (x + y) + b + q == p + x + y + b + q;
    assert p + b + (x + y) + q == p + b + x + y + q;
  }

  lemma Finished(p: seq<string>, a: seq<string>, b: seq<string>, q: seq<string>)
    requires a == [] || b == []
    ensures p + a + b + q == p + b + a + q
  {
    if a == [] { assert p + a == p && p + b + a == p + b; } else { assert p + b == p && p + a + b == p + a; }
  }

  // ---------------------------------------------------------------------------------------------
  // What is still to come, from the middle of a scan
  // ---------------------------------------------------------------------------------------------

  /** A run of getopt: the original vector, where scanning starts, the options and the ordering. */
  datatype Run = Run(orig: seq<string>, base: nat, opts: string, ord: Ordering)

  /** nextchar, when not empty, is the rest of the cluster in the first of the remaining elements. */
  ghost function ConsumedFrom(run: Run, nextchar: string, rem: seq<string>): seq<string>
    requires nextchar != [] ==> rem != []
  {
    if nextchar == [] then Consumed(rem, run.opts, run.ord)
    else
      var k := Taken(nextchar, rem, run.opts);
      rem[..k] + Consumed(rem[k..], run.opts, run.ord)
  }

  ghost function OperandsFrom(run: Run, nextchar: string, rem: seq<string>): seq<string>
    requires nextchar != [] ==> rem != []
  {
    if nextchar == [] then Operands(rem, run.opts, run.ord)
    else Operands(rem[Taken(nextchar, rem, run.opts)..], run.opts, run.ord)
  }

  ghost function EventsFrom(run: Run, nextchar: string, rem: seq<string>): seq<Event>
    requires nextchar != [] ==> rem != []
  {
    if nextchar == [] then Events(rem, run.opts, run.ord)
    else
      ClusterEvents(nextchar, Second(rem), run.opts)
      + if JamsCluster(nextchar, run.opts) then [] else Events(rem[Taken(nextchar, rem, run.opts)..], run.opts, run.ord)
  }

  ghost function CycleFrom(run: Run, nextchar: string, rem: seq<string>): seq<Event>
    requires nextchar != [] ==> rem != [] && rem[0] != []
  {
    if nextchar == [] then Cycle(rem, run.opts, run.ord)
    else if JamsCluster(nextchar, run.opts) then ClusterEvents(rem[0][1..], Second(rem), run.opts)
    else Cycle(rem[Taken(nextchar, rem, run.opts)..], run.opts, run.ord)
  }

  ghost predicate JamsFrom(run: Run, nextchar: string, rem: seq<string>)
    requires nextchar != [] ==> rem != []
  {
    if nextchar == [] then Jams(rem, run.opts, run.ord)
    else JamsCluster(nextchar, run.opts) || Jams(rem[Taken(nextchar, rem, run.opts)..], run.opts, run.ord)
  }

  ghost predicate Jam(run: Run) {
    run.base <= |run.orig| && Jams(run.orig[run.base..], run.opts, run.ord)
  }

  ghost predicate Borders(run: Run, argc: nat, optind: nat, first: nat, last: nat, nextchar: string) {
    && 0 < run.base <= first <= last <= optind <= argc
    && run.base <= |run.orig|
    && (nextchar != [] ==> optind < argc)
    && (run.ord != Permute ==> first == last)
  }

  /** The consumed elements around [first, last) and the operands in it, completed by what lies ahead. */
  ghost predicate Adds(run: Run, a: seq<string>, optind: nat, first: nat, last: nat, nextchar: string)
    requires Borders(run, |a|, optind, first, last, nextchar)
  {
    var args := run.orig[run.base..];
    && a[..run.base] == run.orig[..run.base]
    && Consumed(args, run.opts, run.ord)
       == a[run.base..first] + a[last..optind] + ConsumedFrom(run, nextchar, a[optind..])
    && Operands(args, run.opts, run.ord) == a[first..last] + OperandsFrom(run, nextchar, a[optind..])
  }

  /** The events so far and those to come make up those of the run, after m rounds of its cycle if it jams. */
  ghost predicate Rounds(run: Run, emitted: seq<Event>, rest: seq<Event>, m: nat)
    requires run.base <= |run.orig|
  {
    var args := run.orig[run.base..];
    && emitted + rest == Events(args, run.opts, run.ord) + Repeat(Cycle(args, run.opts, run.ord), m)
    && (m > 0 ==> Jam(run))
  }

  ghost predicate Told(run: Run, emitted: seq<Event>, rest: seq<Event>)
    requires run.base <= |run.orig|
  {
    exists m: nat :: Rounds(run, emitted, rest, m)
  }

  lemma ToldOne(run: Run, emitted: seq<Event>, e: Event, rest: seq<Event>)
    requires run.base <= |run.orig| && Told(run, emitted, [e] + rest)
    ensures Told(run, emitted + [e], rest)
  {
    var m: nat :| Rounds(run, emitted, [e] + rest, m);
    Assoc(emitted, [e], rest);
    assert Rounds(run, emitted + [e], rest, m);
  }

  lemma ToldRound(run: Run, emitted: seq<Event>, e: Event)
    requires run.base <= |run.orig| && Jam(run) && Told(run, emitted, [e])
    ensures Told(run, emitted + [e], Cycle(run.orig[run.base..], run.opts, run.ord))
  {
    var args := run.orig[run.base..];
    var m: nat :| Rounds(run, emitted, [e], m);
    var c := Cycle(args, run.opts, run.ord);
    Assoc(Events(args, run.opts, run.ord), Repeat(c, m), c);
    assert Rounds(run, emitted + [e], c, m + 1);
  }

  lemma ToldAll(run: Run, emitted: seq<Event>)
    requires run.base <= |run.orig| && !Jam(run) && Told(run, emitted, [])
    ensures emitted == Events(run.orig[run.base..], run.opts, run.ord)
  {
    var m: nat :| Rounds(run, emitted, [], m);
    Units(emitted);
    Units(Events(run.orig[run.base..], run.opts, run.ord));
  }

  /** The run jams exactly if what lies ahead does, with the same cycle, and a cluster exactly if its rest does. */
  ghost predicate Ahead(run: Run, a: seq<string>, optind: nat, nextchar: string)
    requires run.base <= |run.orig| && optind <= |a| && (nextchar != [] ==> optind < |a|)
  {
    && (Jam(run) <==> JamsFrom(run, nextchar, a[optind..]))
    && (nextchar != [] ==>
          && !NonOption(a[optind]) && a[optind] != "--"
          && (JamsCluster(a[optind][1..], run.opts) <==> JamsCluster(nextchar, run.opts)))
    && Cycle(run.orig[run.base..], run.opts, run.ord) == CycleFrom(run, nextchar, a[optind..])
  }

  /**
   The invariant carried from call to call. The events are those of the run so far; and unless it jams,
   [first, last) holds exactly the operands skipped so far, the options consumed so far are around it, and what
   lies ahead completes both to what the run means.
   */
  ghost predicate Midway(run: Run, a: seq<string>, optind: nat, first: nat, last: nat, nextchar: string, emitted: seq<Event>) {
    && Borders(run, |a|, optind, first, last, nextchar)
    && Ahead(run, a, optind, nextchar)
    && Told(run, emitted, EventsFrom(run, nextchar, a[optind..]))
    && (!Jam(run) ==> Adds(run, a, optind, first, last, nextchar))
  }

  /** Where a run ends: consumed elements first, then the operands, optind at the first of them. */
  ghost predicate Settled(run: Run, a: seq<string>, optind: nat, emitted: seq<Event>) {
    && run.base <= |run.orig| && !Jam(run)
    && (var args := run.orig[run.base..];
        && a == run.orig[..run.base] + Consumed(args, run.opts, run.ord) + Operands(args, run.opts, run.ord)
        && optind == run.base + |Consumed(args, run.opts, run.ord)|
        && emitted == Events(args, run.opts, run.ord))
  }

  lemma AfterExchange(run: Run, a: seq<string>, a': seq<string>, optind: nat, first: nat, last: nat, emitted: seq<Event>)
    requires Midway(run, a, optind, first, last, [], emitted) && run.ord == Permute
    requires a' == a[..first] + a[last..optind] + a[first..last] + a[optind..]
    ensures Midway(run, a', optind, first + (optind - last), optind, [], emitted)
  {
    hide Consumed, Operands, Events, Jams, ConsumedFrom, OperandsFrom, EventsFrom, JamsFrom, CycleFrom, Cycle, Told;
    var f := first + (optind - last);
    assert a'[..run.base] == a[..run.base];
    assert a'[run.base..f] == a[run.base..first] + a[last..optind];
    assert a'[f..optind] == a[first..last];
    assert a'[optind..] == a[optind..];
    assert a'[optind..optind] == [];
  }

  lemma NothingSkipped(run: Run, a: seq<string>, optind: nat, first: nat, emitted: seq<Event>)
    requires Midway(run, a, optind, first, first, [], emitted)
    ensures Midway(run, a, optind, optind, optind, [], emitted)
  {
    hide Consumed, Operands, Events, Jams, ConsumedFrom, OperandsFrom, EventsFrom, JamsFrom, CycleFrom, Cycle, Told;
    assert a[run.base..first] + a[first..optind] == a[run.base..optind];
    assert a[first..first] == [] && a[optind..optind] == [];
  }

  lemma SkipOne(run: Run, a: seq<string>, optind: nat, first: nat, emitted: seq<Event>)
    requires Midway(run, a, optind, first, optind, [], emitted) && run.ord == Permute
    requires optind < |a| && NonOption(a[optind])
    ensures Midway(run, a, optind + 1, first, optind + 1, [], emitted)
  {
    var rem := a[optind..];
    assert rem[0] == a[optind] && rem[1..] == a[optind + 1..];
    assert a[first..optind + 1] == a[first..optind] + [a[optind]];
    assert a[optind..optind] == [] && a[optind + 1..optind + 1] == [];
    Assoc(a[first..optind], [a[optind]], Operands(rem[1..], run.opts, run.ord));
  }

  /** The last step of a run, on the pieces alone. */
  lemma Settle(run: Run, a: seq<string>, p: seq<string>, c: seq<string>, o: seq<string>, emitted: seq<Event>)
    requires run.base <= |run.orig| && !Jam(run) && p == run.orig[..run.base] && a == p + c + o
    requires var args := run.orig[run.base..];
             && Consumed(args, run.opts, run.ord) == c && Operands(args, run.opts, run.ord) == o
             && Events(args, run.opts, run.ord) == emitted
    ensures Settled(run, a, run.base + |c|, emitted)
  {
  }

  lemma ThreeSlices(a: seq<string>, i: nat, j: nat)
    requires i <= j <= |a|
    ensures a == a[..i] + a[i..j] + a[j..]
  {
  }

  /** What the rest of a vector means when it is empty, starts with "--", or starts with an operand in the way. */
  lemma LastRest(run: Run, rem: seq<string>)
    ensures rem == [] || rem[0] == "--" || (NonOption(rem[0]) && run.ord == RequireOrder) ==> !JamsFrom(run, [], rem)
    ensures rem == [] ==> ConsumedFrom(run, [], rem) == [] && OperandsFrom(run, [], rem) == [] && EventsFrom(run, [], rem) == []
    ensures rem != [] && rem[0] == "--" ==>
              ConsumedFrom(run, [], rem) == ["--"] && OperandsFrom(run, [], rem) == rem[1..] && EventsFrom(run, [], rem) == []
    ensures rem != [] && NonOption(rem[0]) && run.ord == RequireOrder ==>
              ConsumedFrom(run, [], rem) == [] && OperandsFrom(run, [], rem) == rem && EventsFrom(run, [], rem) == []
  {
  }

  /** "--" with operands skipped before it: it is moved in front of them and the scan is over. */
  lemma EndAtDashesMoved(run: Run, a: seq<string>, a': seq<string>, optind: nat, first: nat, emitted: seq<Event>)
    requires Midway(run, a, optind, first, optind, [], emitted)
    requires optind < |a| && a[optind] == "--"
    requires a' == a[..first] + a[optind..optind + 1] + a[first..optind] + a[optind + 1..]
    ensures Settled(run, a', first + 1, emitted)
  {
    hide Consumed, Operands, Events, Jams, ConsumedFrom, OperandsFrom, EventsFrom, JamsFrom, CycleFrom, Cycle, Told, Settled;
    var c0, o0, dashes := a[run.base..first], a[first..optind], a[optind..optind + 1];
    LastRest(run, a[optind..]);
    assert a[optind..][1..] == a[optind + 1..] && a[optind..optind] == [] && dashes == ["--"];
    assert a[..first] == a[..run.base] + c0;
    Units(c0);
    ToldAll(run, emitted);
    Assoc(a[..run.base], c0, dashes);
    Assoc(a[..run.base] + (c0 + dashes), o0, a[optind + 1..]);
    Settle(run, a', a[..run.base], c0 + dashes, o0 + a[optind + 1..], emitted);
  }

  /** "--" with nothing skipped before it. */
  lemma EndAtDashes(run: Run, a: seq<string>, optind: nat, emitted: seq<Event>)
    requires Midway(run, a, optind, optind, optind, [], emitted)
    requires optind < |a| && a[optind] == "--"
    ensures Settled(run, a, optind + 1, emitted)
  {
    hide Consumed, Operands, Events, Jams, ConsumedFrom, OperandsFrom, EventsFrom, JamsFrom, CycleFrom, Cycle, Told, Settled;
    LastRest(run, a[optind..]);
    assert a[optind..][1..] == a[optind + 1..] && a[optind..optind] == [];
    Units(a[run.base..optind]);
    Units(a[optind + 1..]);
    ToldAll(run, emitted);
    assert a[run.base..optind] + ["--"] == a[run.base..optind + 1];
    ThreeSlices(a, run.base, optind + 1);
    Settle(run, a, a[..run.base], a[run.base..optind + 1], a[optind + 1..], emitted);
  }

  lemma EndOfVector(run: Run, a: seq<string>, first: nat, emitted: seq<Event>)
    requires Midway(run, a, |a|, first, |a|, [], emitted)
    ensures Settled(run, a, first, emitted)
  {
    hide Consumed, Operands, Events, Jams, ConsumedFrom, OperandsFrom, EventsFrom, JamsFrom, CycleFrom, Cycle, Told, Settled;
    LastRest(run, a[|a|..]);
    assert a[|a|..] == [] && a[|a|..|a|] == [] && a[first..|a|] == a[first..];
    Units(a[run.base..first]);
    Units(a[first..]);
    ToldAll(run, emitted);
    ThreeSlices(a, run.base, first);
    Settle(run, a, a[..run.base], a[run.base..first], a[first..], emitted);
  }

  /** REQUIRE_ORDER stops at the first operand. */
  lemma EndAtOperand(run: Run, a: seq<string>, optind: nat, emitted: seq<Event>)
    requires Midway(run, a, optind, optind, optind, [], emitted) && run.ord == RequireOrder
    requires optind < |a| && NonOption(a[optind])
    ensures Settled(run, a, optind, emitted)
  {
    hide Consumed, Operands, Events, Jams, ConsumedFrom, OperandsFrom, EventsFrom, JamsFrom, CycleFrom, Cycle, Told, Settled;
    LastRest(run, a[optind..]);
    assert a[optind..optind] == [];
    Units(a[run.base..optind]);
    Units(a[optind..]);
    ToldAll(run, emitted);
    ThreeSlices(a, run.base, optind);
    Settle(run, a, a[..run.base], a[run.base..optind], a[optind..], emitted);
  }

  /** RETURN_IN_ORDER reports the operand. */
  lemma ReportOperand(run: Run, a: seq<string>, optind: nat, first: nat, emitted: seq<Event>)
    requires Midway(run, a, optind, first, first, [], emitted) && run.ord == ReturnInOrder
    requires optind < |a| && NonOption(a[optind])
    ensures Midway(run, a, optind + 1, first, first, [], emitted + [Event(InOrder, Some(a[optind]), None)])
  {
    var rem := a[optind..];
    assert rem[0] == a[optind] && rem[1..] == a[optind + 1..];
    assert a[first..optind + 1] == a[first..optind] + [a[optind]];
    Assoc(a[run.base..first], a[first..optind], [a[optind]]);
    Assoc(a[run.base..first] + a[first..optind], [a[optind]], Consumed(rem[1..], run.opts, run.ord));
    ToldOne(run, emitted, Event(InOrder, Some(a[optind]), None), Events(rem[1..], run.opts, run.ord));
  }

  lemma EnterCluster(run: Run, a: seq<string>, optind: nat, first: nat, last: nat, emitted: seq<Event>)
    requires Midway(run, a, optind, first, last, [], emitted)
    requires optind < |a| && !NonOption(a[optind]) && a[optind] != "--"
    ensures Midway(run, a, optind, first, last, a[optind][1..], emitted)
  {
    assert a[optind..][0] == a[optind];
  }

  /** What the rest of a vector means from the middle of a cluster that takes k elements. */
  lemma ClusterRest(run: Run, nextchar: string, rem: seq<string>, k: nat)
    requires nextchar != [] && rem != [] && k == Taken(nextchar, rem, run.opts)
    ensures ConsumedFrom(run, nextchar, rem) == rem[..k] + ConsumedFrom(run, [], rem[k..])
    ensures OperandsFrom(run, nextchar, rem) == OperandsFrom(run, [], rem[k..])
    ensures JamsFrom(run, nextchar, rem) <==> JamsCluster(nextchar, run.opts) || JamsFrom(run, [], rem[k..])
    ensures EventsFrom(run, nextchar, rem) == ClusterEvents(nextchar, Second(rem), run.opts)
                                            + if JamsCluster(nextchar, run.opts) then [] else EventsFrom(run, [], rem[k..])
    ensures rem[0] != [] ==>
              CycleFrom(run, nextchar, rem) == if JamsCluster(nextchar, run.opts) then ClusterEvents(rem[0][1..], Second(rem), run.opts)
                                               else CycleFrom(run, [], rem[k..])
  {
    hide Consumed, Operands, Events, Jams, Cycle, ClusterEvents, TakesNext, JamsCluster;
  }

  /** One option of the cluster handled, more to come. */
  lemma NextInCluster(run: Run, a: seq<string>, optind: nat, first: nat, last: nat, nextchar: string, emitted: seq<Event>, e: Event)
    requires Midway(run, a, optind, first, last, nextchar, emitted) && |nextchar| > 1
    requires ClusterEvents(nextchar, Second(a[optind..]), run.opts)
          == [e] + ClusterEvents(nextchar[1..], Second(a[optind..]), run.opts)
    requires TakesNext(nextchar, run.opts) == TakesNext(nextchar[1..], run.opts)
    requires JamsCluster(nextchar, run.opts) == JamsCluster(nextchar[1..], run.opts)
    ensures Midway(run, a, optind, first, last, nextchar[1..], emitted + [e])
  {
    hide ConsumedFrom, OperandsFrom, EventsFrom, JamsFrom, CycleFrom, Cycle, Told, ClusterEvents, TakesNext, JamsCluster, Consumed, Operands, Events, Jams;
    var rem := a[optind..];
    var k := Taken(nextchar, rem, run.opts);
    ClusterRest(run, nextchar, rem, k);
    ClusterRest(run, nextchar[1..], rem, k);
    var more := ClusterEvents(nextchar[1..], Second(rem), run.opts);
    var later := if JamsCluster(nextchar, run.opts) then [] else EventsFrom(run, [], rem[k..]);
    Assoc([e], more, later);
    ToldOne(run, emitted, e, more + later);
  }

  /** The cluster is finished and has taken k elements. */
  lemma LeaveCluster(run: Run, a: seq<string>, optind: nat, first: nat, last: nat, nextchar: string, emitted: seq<Event>, e: Event, k: nat)
    requires Midway(run, a, optind, first, last, nextchar, emitted) && nextchar != []
    requires ClusterEvents(nextchar, Second(a[optind..]), run.opts) == [e]
    requires k == Taken(nextchar, a[optind..], run.opts) && !JamsCluster(nextchar, run.opts)
    ensures Midway(run, a, optind + k, first, last, [], emitted + [e])
  {
    hide ConsumedFrom, OperandsFrom, EventsFrom, JamsFrom, CycleFrom, Cycle, Told, ClusterEvents, TakesNext, JamsCluster, Taken, Consumed, Operands, Events, Jams;
    var rem := a[optind..];
    ClusterRest(run, nextchar, rem, k);
    assert rem[k..] == a[optind + k..];
    assert a[last..optind + k] == a[last..optind] + rem[..k];
    Assoc(a[run.base..first], a[last..optind], rem[..k]);
    Assoc(a[run.base..first] + a[last..optind], rem[..k], ConsumedFrom(run, [], rem[k..]));
    ToldOne(run, emitted, e, EventsFrom(run, [], rem[k..]));
  }

  /** More characters after "W;": the call reports W and gives up the cluster, but not the element. */
  lemma ReenterElement(run: Run, a: seq<string>, optind: nat, first: nat, last: nat, cluster: string, emitted: seq<Event>, e: Event)
    requires Midway(run, a, optind, first, last, cluster, emitted) && |cluster| > 1 && KindOf(run.opts, cluster[0]) == LongW
    requires e == Event(Char(cluster[0]), None, None)
    ensures Jam(run) && Midway(run, a, optind, first, last, [], emitted + [e])
  {
    hide Adds, KindOf, Told;
    var rem := a[optind..];
    assert rem[0] == a[optind];
    assert EventsFrom(run, cluster, rem) == [e];
    ToldRound(run, emitted, e);
    Units(ClusterEvents(a[optind][1..], Second(rem), run.opts));
  }

  // ---------------------------------------------------------------------------------------------
  // The scanner
  // ---------------------------------------------------------------------------------------------

  datatype Result = Done | Got(ret: Returned)

  /** The option string without its ordering prefix. */
  function Strip(optstring: string): string {
    if HasAt(optstring, 0, '-') || HasAt(optstring, 0, '+') then optstring[1..] else optstring
  }

  function OrderingFor(optstring: string, posixlyCorrect: bool): Ordering {
    if HasAt(optstring, 0, '-') then ReturnInOrder
    else if HasAt(optstring, 0, '+') || posixlyCorrect then RequireOrder
    else Permute
  }

  function Min(x: nat, y: nat): nat {
    if x > y then y else x
  }

  /** struct _getopt_data_a; nextchar is empty where the source has NULL or points at a terminator. */
  class Scanner {
    var optind: nat
    var optopt: char
    var optarg: Option<string>
    var initialized: bool
    var nextchar: string
    var ordering: Ordering
    var firstNonopt: nat
    var lastNonopt: nat

    constructor (optind: nat)
      ensures this.optind == optind && !initialized
    {
      this.optind := optind;
      optopt := '?';
      optarg := None;
      initialized := false;
      nextchar := "";
      ordering := Permute;
      firstNonopt, lastNonopt := 0, 0;
    }

    ghost predicate InRun(argv: array<string>, run: Run, emitted: seq<Event>)
      reads this, argv
    {
      initialized && ordering == run.ord && Midway(run, argv[..], optind, firstNonopt, lastNonopt, nextchar, emitted)
    }

    /** The fields a caller reads after a call that reported e. */
    ghost predicate Shows(e: Event)
      reads this
    {
      optarg == e.optarg && (e.optopt.Some? ==> optopt == e.optopt.value)
    }

    method Initialize(optstring: string, posixlyCorrect: bool) returns (opts: string)
      modifies `firstNonopt, `lastNonopt, `nextchar, `ordering
      ensures firstNonopt == lastNonopt == optind && nextchar == ""
      ensures ordering == OrderingFor(optstring, posixlyCorrect) && opts == Strip(optstring)
    {
      firstNonopt, lastNonopt := optind, optind;
      nextchar := "";
      opts := optstring;
      if HasAt(optstring, 0, '-') {
        ordering := ReturnInOrder;
        opts := opts[1..];
      } else if HasAt(optstring, 0, '+') {
        ordering := RequireOrder;
        opts := opts[1..];
      } else if posixlyCorrect {
        ordering := RequireOrder;
      } else {
        ordering := Permute;
      }
    }

    /** In PERMUTE order, move the skipped operands up and skip the ones that follow. */
    method SkipOperands(argv: array<string>, ghost run: Run, ghost emitted: seq<Event>)
      requires InRun(argv, run, emitted) && nextchar == ""
      modifies this, argv
      ensures InRun(argv, run, emitted) && nextchar == ""
      ensures ordering == Permute ==> lastNonopt == optind && (optind < argv.Length ==> !NonOption(argv[optind]))
      ensures old(optind) <= optind && optarg == old(optarg)
    {
      hide Adds, Ahead, Told, Jam, EventsFrom;
      ghost var a := argv[..];
      if ordering == Permute {
        if firstNonopt != lastNonopt && lastNonopt != optind {
          Exchange(argv, firstNonopt, lastNonopt, optind);
          AfterExchange(run, a, argv[..], optind, firstNonopt, lastNonopt, emitted);
          firstNonopt := firstNonopt + (optind - lastNonopt);
          lastNonopt := optind;
        } else if lastNonopt != optind {
          NothingSkipped(run, a, optind, firstNonopt, emitted);
          firstNonopt := optind;
        }
        ghost var start := optind;
        a := argv[..];
        while optind < argv.Length && NonOption(argv[optind])
          invariant argv[..] == a && initialized && ordering == Permute && nextchar == "" && optarg == old(optarg)
          invariant start <= optind <= argv.Length
          invariant Midway(run, a, optind, firstNonopt, optind, [], emitted)
          decreases argv.Length - optind
        {
          SkipOne(run, a, optind, firstNonopt, emitted);
          optind := optind + 1;
        }
        lastNonopt := optind;
      }
    }

    /** "--" ends the options; everything after it is an operand. */
    method PassDashes(argv: array<string>, ghost run: Run, ghost emitted: seq<Event>)
      requires InRun(argv, run, emitted) && nextchar == "" && optind < argv.Length && argv[optind] == "--"
      requires firstNonopt == lastNonopt || lastNonopt == optind
      modifies this, argv
      ensures Settled(run, argv[..], optind, emitted)
    {
      hide Adds, Ahead, Settled, Told, Jam, EventsFrom;
      ghost var a := argv[..];
      optind := optind + 1;
      if firstNonopt != lastNonopt && lastNonopt != optind {
        Exchange(argv, firstNonopt, lastNonopt, optind);
        EndAtDashesMoved(run, a, argv[..], optind - 1, firstNonopt, emitted);
        firstNonopt := firstNonopt + (optind - lastNonopt);
      } else if firstNonopt == lastNonopt {
        NothingSkipped(run, a, optind - 1, firstNonopt, emitted);
        EndAtDashes(run, a, optind - 1, emitted);
        firstNonopt := optind;
      }
      lastNonopt := argv.Length;
      optind := argv.Length;
      if firstNonopt != lastNonopt { optind := firstNonopt; }
    }

    /** Find the next element to look at, or the end. */
    method FindElement(argv: array<string>, ghost run: Run, ghost emitted: seq<Event>)
      returns (r: Option<Result>, ghost e: Event)
      requires InRun(argv, run, emitted) && nextchar == ""
      modifies this, argv
      ensures r == None ==> InRun(argv, run, emitted) && nextchar != "" && optind >= old(optind) && optarg == old(optarg)
      ensures r == Some(Done) ==> Settled(run, argv[..], optind, emitted)
      ensures r.Some? && r.value.Got? ==>
                && r.value.ret == e.ret && Shows(e) && InRun(argv, run, emitted + [e]) && optind > old(optind)
    {
      hide Adds, Ahead, Settled, Told, Jam, EventsFrom;
      e := Event(InOrder, None, None);
      lastNonopt := Min(lastNonopt, optind);
      firstNonopt := Min(firstNonopt, optind);
      SkipOperands(argv, run, emitted);
      ghost var a := argv[..];
      if optind != argv.Length && argv[optind] == "--" {
        PassDashes(argv, run, emitted);
        return Some(Done), e;
      }
      if optind == argv.Length {
        if firstNonopt == lastNonopt { NothingSkipped(run, a, optind, firstNonopt, emitted); }
        EndOfVector(run, a, if firstNonopt == lastNonopt then optind else firstNonopt, emitted);
        if firstNonopt != lastNonopt { optind := firstNonopt; }
        return Some(Done), e;
      }
      if NonOption(argv[optind]) {
        if ordering == RequireOrder {
          NothingSkipped(run, a, optind, firstNonopt, emitted);
          EndAtOperand(run, a, optind, emitted);
          return Some(Done), e;
        }
        ReportOperand(run, a, optind, firstNonopt, emitted);
        e := Event(InOrder, Some(argv[optind]), None);
        optarg := Some(argv[optind]);
        optind := optind + 1;
        return Some(Got(InOrder)), e;
      }
      EnterCluster(run, a, optind, firstNonopt, lastNonopt, emitted);
      nextchar := argv[optind][1..];
      r := None;
    }

    /** One option of the current cluster. */
    method ScanOption(argv: array<string>, opts: string, ghost run: Run, ghost emitted: seq<Event>)
      returns (c: char, ghost e: Event)
      requires InRun(argv, run, emitted) && nextchar != "" && opts == run.opts && optarg == None
      modifies this
      ensures e.ret == Char(c) && Shows(e) && InRun(argv, run, emitted + [e])
      ensures !Jam(run) ==> optind > old(optind) || (optind == old(optind) && 0 < |nextchar| < |old(nextchar)|)
    {
      hide Adds, Ahead, Told, Jam, EventsFrom;
      ghost var cluster, start, a, rem := nextchar, optind, argv[..], argv[optind..];
      assert a[start..] == rem;
      c := nextchar[0];
      e := Event(Char(c), None, None);
      nextchar := nextchar[1..];
      var temp := StrChr(opts, c);
      if nextchar == "" { optind := optind + 1; }
      if temp == |opts| || c == ':' || c == ';' {
        optopt := c;
        e := Event(Char('?'), None, Some(c));
        StepThrough(run, a, start, firstNonopt, lastNonopt, cluster, emitted, e);
        c := '?';
        return;
      }
      if opts[temp] == 'W' && HasAt(opts, temp + 1, ';') {
        if cluster[1..] == "" {
          StepThrough(run, a, start, firstNonopt, lastNonopt, cluster, emitted, e);
        } else {
          ReenterElement(run, a, start, firstNonopt, lastNonopt, cluster, emitted, e);
        }
        nextchar := "";
        return 'W', e;
      }
      if !HasAt(opts, temp + 1, ':') {
        StepThrough(run, a, start, firstNonopt, lastNonopt, cluster, emitted, e);
        return;
      }
      if HasAt(opts, temp + 2, ':') {
        if nextchar != "" {
          optarg := Some(nextchar);
          optind := optind + 1;
        } else {
          optarg := None;
        }
        e := Event(Char(c), optarg, None);
      } else if nextchar != "" {
        optarg := Some(nextchar);
        optind := optind + 1;
        e := Event(Char(c), optarg, None);
      } else if optind == argv.Length {
        optopt := c;
        e := Event(Char(if HasAt(opts, 0, ':') then ':' else '?'), None, Some(c));
        c := if HasAt(opts, 0, ':') then ':' else '?';
      } else {
        optarg := Some(argv[optind]);
        optind := optind + 1;
        e := Event(Char(c), optarg, None);
      }
      LeaveCluster(run, a, start, firstNonopt, lastNonopt, cluster, emitted, e, optind - start);
      nextchar := "";
    }

    /** The call proper, once the scanner is set up. */
    method Continue(argv: array<string>, opts: string, ghost run: Run, ghost emitted: seq<Event>)
      returns (r: Result, ghost e: Event)
      requires InRun(argv, run, emitted) && opts == run.opts && optarg == None
      modifies this, argv
      ensures r == Done ==> Settled(run, argv[..], optind, emitted)
      ensures r != Done ==> r.ret == e.ret && Shows(e) && InRun(argv, run, emitted + [e])
      ensures r != Done && !Jam(run) ==>
                || optind > old(optind)
                || (optind == old(optind) && nextchar != "" && (old(nextchar) == "" || |nextchar| < |old(nextchar)|))
    {
      hide Adds, Ahead, Settled, Told, Jam, EventsFrom;
      if nextchar == "" {
        var found: Option<Result>;
        found, e := FindElement(argv, run, emitted);
        if found.Some? {
          return found.value, e;
        }
      }
      var c: char;
      c, e := ScanOption(argv, opts, run, emitted);
      r := Got(Char(c));
    }

    /** _getopt_internal_r_a: one call. It makes progress unless the run jams. */
    method Next(argv: array<string>, optstring: string, posixlyCorrect: bool, ghost run: Run, ghost emitted: seq<Event>)
      returns (r: Result, ghost e: Event)
      requires run.opts == Strip(optstring)
      requires argv.Length > 0 ==>
                 if initialized && optind != 0 then InRun(argv, run, emitted)
                 else Starts(argv, optstring, posixlyCorrect, run) && emitted == []
      modifies this, argv
      ensures argv.Length == 0 ==> r == Done && argv[..] == old(argv[..])
      ensures argv.Length > 0 && r == Done ==> Settled(run, argv[..], optind, emitted)
      ensures argv.Length > 0 && r != Done ==>
                r.ret == e.ret && Shows(e) && 0 < optind <= argv.Length && initialized && InRun(argv, run, emitted + [e])
      ensures argv.Length > 0 && r != Done && !Jam(run) ==>
                var o := if old(optind) == 0 then 1 else old(optind);
                || optind > o
                || (optind == o && nextchar != "" && (old(nextchar) == "" || !old(initialized) || old(optind) == 0 || |nextchar| < |old(nextchar)|))
    {
      if argv.Length < 1 {
        e := Event(InOrder, None, None);
        return Done, e;
      }
      hide Midway, Settled, Jam;
      optarg := None;
      var opts := optstring;
      if optind == 0 || !initialized {
        if optind == 0 { optind := 1; }
        opts := Initialize(optstring, posixlyCorrect);
        initialized := true;
        Beginning(run, argv[..]);
      } else if HasAt(optstring, 0, '-') || HasAt(optstring, 0, '+') {
        opts := opts[1..];
      }
      r, e := Continue(argv, opts, run, emitted);
    }

    /** A call that starts a run over the whole of argv. */
    ghost predicate Starts(argv: array<string>, optstring: string, posixlyCorrect: bool, run: Run)
      reads this, argv
    {
      && run.orig == argv[..] && run.base == (if optind == 0 then 1 else optind) && run.base <= argv.Length
      && run.ord == OrderingFor(optstring, posixlyCorrect)
    }
  }

  /** What a caller sees of one call. */
  datatype Report = Report(ret: Returned, optarg: Option<string>, optopt: char)

  ghost predicate Reports(reports: seq<Report>, events: seq<Event>) {
    && |reports| == |events|
    && forall i :: 0 <= i < |events| ==>
         && reports[i].ret == events[i].ret && reports[i].optarg == events[i].optarg
         && (events[i].optopt.Some? ==> reports[i].optopt == events[i].optopt.value)
  }

  lemma ReportNone()
    ensures Reports([], [])
  {
  }

  lemma ReportOne(reports: seq<Report>, events: seq<Event>, r: Report, e: Event)
    requires Reports(reports, events) && r.ret == e.ret && r.optarg == e.optarg
    requires e.optopt.Some? ==> r.optopt == e.optopt.value
    ensures Reports(reports + [r], events + [e])
  {
  }

  /**
   Call getopt until it returns -1: unless the scan jams it does, the calls report what the command line means, and argv is left
   as the consumed elements followed by the operands, with optind at the first operand.
   */
  method ParseAll(argv: array<string>, optstring: string, posixlyCorrect: bool, start: nat)
    returns (reports: seq<Report>, optind: nat)
    requires 0 < start <= argv.Length && !Jams(argv[start..], Strip(optstring), OrderingFor(optstring, posixlyCorrect))
    modifies argv
    ensures var args, opts, ord := old(argv[start..]), Strip(optstring), OrderingFor(optstring, posixlyCorrect);
            && Reports(reports, Events(args, opts, ord))
            && argv[..] == old(argv[..start]) + Consumed(args, opts, ord) + Operands(args, opts, ord)
            && optind == start + |Consumed(args, opts, ord)|
  {
    var scanner := new Scanner(start);
    ghost var run := Run(argv[..], start, Strip(optstring), OrderingFor(optstring, posixlyCorrect));
    assert run.orig[..start] == argv[..start] && run.orig[start..] == argv[start..];
    assert !Jam(run);
    hide Jam, Jams, Events, Consumed, Operands, Midway, Reports;
    var r: Result;
    ghost var e: Event;
    ghost var events: seq<Event> := [];
    r, e := scanner.Next(argv, optstring, posixlyCorrect, run, events);
    reports := [];
    ReportNone();
    while r != Done
      invariant fresh(scanner) && Reports(reports, events)
      invariant r == Done ==> Settled(run, argv[..], scanner.optind, events)
      invariant r != Done ==> 0 < scanner.optind <= argv.Length && scanner.Shows(e) && r.ret == e.ret
                              && scanner.InRun(argv, run, events + [e])
      decreases r != Done, argv.Length - scanner.optind, scanner.nextchar == "", |scanner.nextchar|
    {
      ReportOne(reports, events, Report(r.ret, scanner.optarg, scanner.optopt), e);
      reports := reports + [Report(r.ret, scanner.optarg, scanner.optopt)];
      events := events + [e];
      r, e := scanner.Next(argv, optstring, posixlyCorrect, run, events);
    }
    optind := scanner.optind;
  }

  /** The reports begin what a run that jams reports without end: its events, then its cycle over and over. */
  ghost predicate Loops(reports: seq<Report>, args: seq<string>, opts: string, ord: Ordering) {
    exists m: nat :: LoopsFor(reports, args, opts, ord, m)
  }

  ghost predicate LoopsFor(reports: seq<Report>, args: seq<string>, opts: string, ord: Ordering, m: nat) {
    var events := Events(args, opts, ord) + Repeat(Cycle(args, opts, ord), m);
    |reports| <= |events| && Reports(reports, events[..|reports|])
  }

  lemma ToldLoops(run: Run, reports: seq<Report>, events: seq<Event>, rest: seq<Event>)
    requires run.base <= |run.orig| && Told(run, events, rest) && Reports(reports, events)
    ensures Loops(reports, run.orig[run.base..], run.opts, run.ord)
  {
    var m: nat :| Rounds(run, events, rest, m);
    assert (events + rest)[..|reports|] == events;
    assert LoopsFor(reports, run.orig[run.base..], run.opts, run.ord, m);
  }

  /** And if the scan jams, no call of however many returns -1, and the same options are reported for ever. */
  method StuckOnW(argv: array<string>, optstring: string, posixlyCorrect: bool, start: nat, calls: nat)
    returns (reports: seq<Report>)
    requires 0 < start <= argv.Length && Jams(argv[start..], Strip(optstring), OrderingFor(optstring, posixlyCorrect))
    modifies argv
    ensures |reports| == calls
    ensures Loops(reports, old(argv[start..]), Strip(optstring), OrderingFor(optstring, posixlyCorrect))
  {
    var scanner := new Scanner(start);
    ghost var run := Run(argv[..], start, Strip(optstring), OrderingFor(optstring, posixlyCorrect));
    assert run.orig[start..] == argv[start..];
    assert Jam(run);
    Beginning(run, argv[..]);
    reports := [];
    ReportNone();
    hide Jam, Jams, Reports, Told, Loops, Ahead;
    ghost var events, rest: seq<Event> := [], EventsFrom(run, [], argv[start..]);
    for i := 0 to calls
      invariant fresh(scanner) && |reports| == i && Reports(reports, events) && Told(run, events, rest)
      invariant if scanner.initialized && scanner.optind != 0 then scanner.InRun(argv, run, events)
                else scanner.Starts(argv, optstring, posixlyCorrect, run) && events == []
    {
      var r: Result;
      ghost var e: Event;
      r, e := scanner.Next(argv, optstring, posixlyCorrect, run, events);
      ReportOne(reports, events, Report(r.ret, scanner.optarg, scanner.optopt), e);
      reports := reports + [Report(r.ret, scanner.optarg, scanner.optopt)];
      events := events + [e];
      rest := EventsFrom(run, scanner.nextchar, argv[scanner.optind..]);
      assert argv[scanner.optind..] == argv[..][scanner.optind..];
    }
    ToldLoops(run, reports, events, rest);
  }

  /** The cycle is not empty: it ends with a report of W. */
  lemma {:induction false} CycleEndsInW(args: seq<string>, opts: string, ord: Ordering)
    requires Jams(args, opts, ord)
    ensures var c := Cycle(args, opts, ord); c != [] && c[|c| - 1] == Event(Char('W'), None, None)
    decreases |args|
  {
    if NonOption(args[0]) {
      CycleEndsInW(args[1..], opts, ord);
    } else if JamsCluster(args[0][1..], opts) {
      ClusterEndsInW(args[0][1..], Second(args), opts);
    } else {
      CycleEndsInW(args[Taken(args[0][1..], args, opts)..], opts, ord);
    }
  }

  lemma {:induction false} ClusterEndsInW(cluster: string, next: Option<string>, opts: string)
    requires JamsCluster(cluster, opts)
    ensures var c := ClusterEvents(cluster, next, opts); c != [] && c[|c| - 1] == Event(Char('W'), None, None)
  {
    if KindOf(opts, cluster[0]) != LongW {
      ClusterEndsInW(cluster[1..], next, opts);
    }
  }

  /** Inputs that jam, also behind other options and operands, */
  lemma JamExamples()
    ensures Jams(["-Wx"], "W;", Permute) && Jams(["-aWx"], "aW;", RequireOrder) && Jams(["x", "-Wy"], "W;", Permute)
  {
    assert KindOf("W;", 'W') == LongW && KindOf("aW;", 'a') == Flag && KindOf("aW;", 'W') == LongW;
    hide KindOf;
    assert "-Wx"[1..] == "Wx" && "-Wy"[1..] == "Wy" && "-aWx"[1..] == "aWx" && "aWx"[1..] == "Wx";
    assert JamsCluster("Wx", "aW;") && JamsCluster("aWx", "aW;");
  }

  /** and inputs with "W;" that do not. */
  lemma NoJamExamples()
    ensures !Jams(["-aW", "x"], "aW;", Permute) && !Jams(["x", "-Wy"], "W;", RequireOrder) && !Jams(["--", "-Wy"], "W;", Permute)
    ensures !Jams(["-bWx"], "b:W;", Permute)
  {
    assert KindOf("aW;", 'a') == Flag && KindOf("aW;", 'W') == LongW && KindOf("b:W;", 'b') == Required;
    hide KindOf;
    assert "-aW"[1..] == "aW" && "aW"[1..] == "W" && "-bWx"[1..] == "bWx";
  }

  // ---------------------------------------------------------------------------------------------
  // The reference splits the command line, keeping the order on both sides
  // ---------------------------------------------------------------------------------------------

  /** args is a shuffle of xs and ys that keeps the order of each. */
  ghost predicate Shuffles(args: seq<string>, xs: seq<string>, ys: seq<string>) {
    if args == [] then xs == [] && ys == []
    else
      || (xs != [] && xs[0] == args[0] && Shuffles(args[1..], xs[1..], ys))
      || (ys != [] && ys[0] == args[0] && Shuffles(args[1..], xs, ys[1..]))
  }

  lemma {:induction false} ShuffleLeft(args: seq<string>, rest: seq<string>, xs: seq<string>, ys: seq<string>)
    requires Shuffles(rest, xs, ys)
    ensures Shuffles(args + rest, args + xs, ys)
  {
    if args == [] {
      assert args + rest == rest && args + xs == xs;
    } else {
      ShuffleLeft(args[1..], rest, xs, ys);
      assert (args + rest)[1..] == args[1..] + rest && (args + xs)[1..] == args[1..] + xs;
    }
  }

  lemma {:induction false} ShuffleRight(args: seq<string>)
    ensures Shuffles(args, [], args)
  {
    if args != [] { ShuffleRight(args[1..]); }
  }

  /** Consumed elements and operands are a stable partition of the command line. */
  lemma {:induction false} StablePartition(args: seq<string>, opts: string, ord: Ordering)
    ensures Shuffles(args, Consumed(args, opts, ord), Operands(args, opts, ord))
    decreases |args|
  {
    if args == [] {
    } else if NonOption(args[0]) {
      if ord == RequireOrder {
        ShuffleRight(args);
      } else {
        StablePartition(args[1..], opts, ord);
        if ord == ReturnInOrder {
          ShuffleLeft([args[0]], args[1..], Consumed(args[1..], opts, ord), Operands(args[1..], opts, ord));
          assert [args[0]] + args[1..] == args;
        } else {
          assert ([args[0]] + Operands(args[1..], opts, ord))[1..] == Operands(args[1..], opts, ord);
        }
      }
    } else if args[0] == "--" {
      ShuffleRight(args[1..]);
      ShuffleLeft(["--"], args[1..], [], args[1..]);
      assert ["--"] + args[1..] == args && ["--"] + [] == ["--"];
    } else {
      var k := Taken(args[0][1..], args, opts);
      StablePartition(args[k..], opts, ord);
      ShuffleLeft(args[..k], args[k..], Consumed(args[k..], opts, ord), Operands(args[k..], opts, ord));
      assert args[..k] + args[k..] == args;
    }
  }

  // ---------------------------------------------------------------------------------------------
  // What option strings and elements mean, in terms of their text
  // ---------------------------------------------------------------------------------------------

  /** The option string is before, then c, then after, and that is the first c in it. */
  ghost predicate Spells(opts: string, before: string, c: char, after: string) {
    opts == before + [c] + after && c !in before && c != ':' && c != ';'
  }

  predicate Colons(after: string, n: nat) {
    match n
    case 0 => after == [] || after[0] != ':'
    case 1 => after != [] && after[0] == ':' && (|after| == 1 || after[1] != ':')
    case _ => |after| > 1 && after[0] == ':' && after[1] == ':'
  }

  lemma {:induction false} FirstPosition(before: string, c: char, after: string)
    requires c !in before
    ensures StrChr(before + [c] + after, c) == |before|
  {
    var s := before + [c] + after;
    if before != [] {
      assert s[1..] == before[1..] + [c] + after;
      FirstPosition(before[1..], c, after);
    }
  }

  lemma {:induction false} NoPosition(s: string, c: char)
    requires c !in s
    ensures StrChr(s, c) == |s|
  {
    if s != [] { NoPosition(s[1..], c); }
  }

  lemma KindFromText(opts: string, before: string, c: char, after: string)
    requires Spells(opts, before, c, after)
    ensures KindOf(opts, c) == if c == 'W' && after != [] && after[0] == ';' then LongW
                               else if Colons(after, 0) then Flag else if Colons(after, 1) then Required else Optional
  {
    FirstPosition(before, c, after);
    assert forall i :: 0 <= i < |after| ==> opts[|before| + 1 + i] == after[i];
  }

  /** The option string's first character can choose the ordering, and is then not an option. */
  lemma PrefixLaws(opts: string, posixlyCorrect: bool)
    ensures OrderingFor("-" + opts, posixlyCorrect) == ReturnInOrder && Strip("-" + opts) == opts
    ensures OrderingFor("+" + opts, posixlyCorrect) == RequireOrder && Strip("+" + opts) == opts
    ensures opts == [] || (opts[0] != '-' && opts[0] != '+') ==>
              OrderingFor(opts, posixlyCorrect) == (if posixlyCorrect then RequireOrder else Permute) && Strip(opts) == opts
  {
  }

  /** An element of a command line: a dash and a cluster of options. */
  function Dash(cluster: string): string {
    ['-'] + cluster
  }

  lemma AtElement(cluster: string, rest: seq<string>, opts: string, ord: Ordering)
    requires cluster != [] && Dash(cluster) != "--"
    ensures var args := [Dash(cluster)] + rest;
            var k := Taken(cluster, args, opts);
            && Events(args, opts, ord) == ClusterEvents(cluster, if rest == [] then None else Some(rest[0]), opts)
                                        + (if JamsCluster(cluster, opts) then [] else Events(args[k..], opts, ord))
            && Consumed(args, opts, ord) == args[..k] + Consumed(args[k..], opts, ord)
            && Operands(args, opts, ord) == Operands(args[k..], opts, ord)
  {
    var args := [Dash(cluster)] + rest;
    assert args[0][1..] == cluster && !NonOption(args[0]);
  }

  /** The element takes only itself: what is reported for it, and then all as without it. */
  ghost predicate TakesItself(e: string, rest: seq<string>, opts: string, ord: Ordering, event: Event) {
    && Events([e] + rest, opts, ord) == [event] + Events(rest, opts, ord)
    && Consumed([e] + rest, opts, ord) == [e] + Consumed(rest, opts, ord)
    && Operands([e] + rest, opts, ord) == Operands(rest, opts, ord)
  }

  lemma LastOption(cluster: string, rest: seq<string>, opts: string, ord: Ordering, event: Event)
    requires cluster != [] && Dash(cluster) != "--" && !TakesNext(cluster, opts) && !JamsCluster(cluster, opts)
    requires ClusterEvents(cluster, if rest == [] then None else Some(rest[0]), opts) == [event]
    ensures TakesItself(Dash(cluster), rest, opts, ord, event)
  {
    AtElement(cluster, rest, opts, ord);
    var args := [Dash(cluster)] + rest;
    assert args[..1] == [Dash(cluster)] && args[1..] == rest;
  }

  /** A character without colon after it in the option string is a flag: it is reported without argument. */
  lemma FlagAlone(opts: string, before: string, c: char, after: string, rest: seq<string>, ord: Ordering)
    requires Spells(opts, before, c, after) && Colons(after, 0) && c != '-'
    ensures TakesItself(Dash([c]), rest, opts, ord, Event(Char(c), None, None))
  {
    KindFromText(opts, before, c, after);
    assert [c][1..] == [] && Dash([c])[1] == c;
    LastOption([c], rest, opts, ord, Event(Char(c), None, None));
  }

  /** A character that is not in the option string, and a colon or semicolon, is reported as unknown. */
  lemma UnknownAlone(opts: string, c: char, rest: seq<string>, ord: Ordering)
    requires (c !in opts || c == ':' || c == ';') && c != '-'
    ensures TakesItself(Dash([c]), rest, opts, ord, Event(Char('?'), None, Some(c)))
  {
    if c !in opts { NoPosition(opts, c); }
    assert [c][1..] == [] && Dash([c])[1] == c;
    LastOption([c], rest, opts, ord, Event(Char('?'), None, Some(c)));
  }

  /** In a cluster a flag, or an unknown character, is reported, and then the rest as if it stood alone. */
  ghost predicate PassesOn(c: char, more: string, rest: seq<string>, opts: string, ord: Ordering, event: Event) {
    var e, e' := Dash([c] + more), Dash(more);
    && Events([e] + rest, opts, ord) == [event] + Events([e'] + rest, opts, ord)
    && Operands([e] + rest, opts, ord) == Operands([e'] + rest, opts, ord)
    && |Consumed([e'] + rest, opts, ord)| > 0
    && Consumed([e] + rest, opts, ord) == [e] + Consumed([e'] + rest, opts, ord)[1..]
  }

  lemma FirstOption(c: char, more: string, rest: seq<string>, opts: string, ord: Ordering, event: Event)
    requires more != [] && Dash(more) != "--"
    requires KindOf(opts, c) == Flag || KindOf(opts, c) == Invalid
    requires event == if KindOf(opts, c) == Flag then Event(Char(c), None, None) else Event(Char('?'), None, Some(c))
    ensures PassesOn(c, more, rest, opts, ord, event)
  {
    var cluster := [c] + more;
    var e, e', next := Dash(cluster), Dash(more), if rest == [] then None else Some(rest[0]);
    assert cluster[1..] == more && cluster[0] == c;
    AtElement(cluster, rest, opts, ord);
    AtElement(more, rest, opts, ord);
    assert ClusterEvents(cluster, next, opts) == [event] + ClusterEvents(more, next, opts);
    assert TakesNext(cluster, opts) == TakesNext(more, opts) && JamsCluster(cluster, opts) == JamsCluster(more, opts);
    var k := Taken(cluster, [e] + rest, opts);
    assert k == Taken(more, [e'] + rest, opts) && ([e] + rest)[k..] == ([e'] + rest)[k..];
    assert ([e] + rest)[..k] == [e] + ([e'] + rest)[..k][1..];
    var later := if JamsCluster(more, opts) then [] else Events(([e] + rest)[k..], opts, ord);
    Assoc([event], ClusterEvents(more, next, opts), later);
    Assoc([e], ([e'] + rest)[..k][1..], Consumed(([e] + rest)[k..], opts, ord));
    TailOfSum(([e'] + rest)[..k], Consumed(([e] + rest)[k..], opts, ord));
  }

  lemma TailOfSum(a: seq<string>, b: seq<string>)
    requires a != []
    ensures (a + b)[1..] == a[1..] + b
  {
  }

  lemma FlagInCluster(opts: string, before: string, c: char, after: string, more: string, rest: seq<string>, ord: Ordering)
    requires Spells(opts, before, c, after) && Colons(after, 0) && !(c == 'W' && after != [] && after[0] == ';')
    requires more != [] && Dash(more) != "--"
    ensures PassesOn(c, more, rest, opts, ord, Event(Char(c), None, None))
  {
    KindFromText(opts, before, c, after);
    FirstOption(c, more, rest, opts, ord, Event(Char(c), None, None));
  }

  lemma UnknownInCluster(opts: string, c: char, more: string, rest: seq<string>, ord: Ordering)
    requires (c !in opts || c == ':' || c == ';') && more != [] && Dash(more) != "--"
    ensures PassesOn(c, more, rest, opts, ord, Event(Char('?'), None, Some(c)))
  {
    if c !in opts { NoPosition(opts, c); }
    FirstOption(c, more, rest, opts, ord, Event(Char('?'), None, Some(c)));
  }

  /** A character with one colon requires an argument. What follows it in its element is the argument; */
  lemma RequiredAttached(opts: string, before: string, c: char, after: string, x: string, rest: seq<string>, ord: Ordering)
    requires Spells(opts, before, c, after) && Colons(after, 1) && x != []
    ensures TakesItself(Dash([c] + x), rest, opts, ord, Event(Char(c), Some(x), None))
  {
    KindFromText(opts, before, c, after);
    assert ([c] + x)[1..] == x && Dash([c] + x) != "--";
    LastOption([c] + x, rest, opts, ord, Event(Char(c), Some(x), None));
  }

  /** else the next element is, whatever it looks like; */
  lemma RequiredSeparate(opts: string, before: string, c: char, after: string, x: string, rest: seq<string>, ord: Ordering)
    requires Spells(opts, before, c, after) && Colons(after, 1) && c != '-'
    ensures Events([Dash([c]), x] + rest, opts, ord) == [Event(Char(c), Some(x), None)] + Events(rest, opts, ord)
    ensures Consumed([Dash([c]), x] + rest, opts, ord) == [Dash([c]), x] + Consumed(rest, opts, ord)
    ensures Operands([Dash([c]), x] + rest, opts, ord) == Operands(rest, opts, ord)
  {
    KindFromText(opts, before, c, after);
    assert Dash([c])[1] == c;
    AtElement([c], [x] + rest, opts, ord);
    var args := [Dash([c]), x] + rest;
    assert [c][1..] == [];
    assert args == [Dash([c])] + ([x] + rest) && args[..2] == [Dash([c]), x] && args[2..] == rest;
  }

  /** and if there is none that is reported, by a colon if the option string starts with one. */
  lemma RequiredMissing(opts: string, before: string, c: char, after: string, ord: Ordering)
    requires Spells(opts, before, c, after) && Colons(after, 1) && c != '-'
    ensures TakesItself(Dash([c]), [], opts, ord, Event(Char(if opts[0] == ':' then ':' else '?'), None, Some(c)))
  {
    KindFromText(opts, before, c, after);
    assert [c][1..] == [] && Dash([c])[1] == c;
    AtElement([c], [], opts, ord);
    var args := [Dash([c])] + [];
    assert args[..1] == [Dash([c])] && args[1..] == [];
  }

  /** A character with two colons takes what follows it in its element as argument, if anything does, and nothing else. */
  lemma OptionalArgument(opts: string, before: string, c: char, after: string, x: string, rest: seq<string>, ord: Ordering)
    requires Spells(opts, before, c, after) && Colons(after, 2) && Dash([c] + x) != "--"
    ensures TakesItself(Dash([c] + x), rest, opts, ord, Event(Char(c), if x == [] then None else Some(x), None))
  {
    KindFromText(opts, before, c, after);
    assert ([c] + x)[1..] == x;
    LastOption([c] + x, rest, opts, ord, Event(Char(c), if x == [] then None else Some(x), None));
  }

  /** "--" ends the options, and elements without a dash, or only a dash, are operands. */
  lemma OperandLaws(x: string, rest: seq<string>, opts: string, ord: Ordering)
    ensures Events(["--"] + rest, opts, ord) == [] && Consumed(["--"] + rest, opts, ord) == ["--"] && Operands(["--"] + rest, opts, ord) == rest
    ensures x == [] || x[0] != '-' || x == "-" ==>
              match ord
              case RequireOrder =>
                Events([x] + rest, opts, ord) == [] && Consumed([x] + rest, opts, ord) == [] && Operands([x] + rest, opts, ord) == [x] + rest
              case Permute =>
                && Events([x] + rest, opts, ord) == Events(rest, opts, ord) && Consumed([x] + rest, opts, ord) == Consumed(rest, opts, ord)
                && Operands([x] + rest, opts, ord) == [x] + Operands(rest, opts, ord)
              case ReturnInOrder => TakesItself(x, rest, opts, ord, Event(InOrder, Some(x), None))
  {
    assert (["--"] + rest)[1..] == rest && ([x] + rest)[1..] == rest;
  }

  lemma Beginning(run: Run, a: seq<string>)
    requires run.orig == a && 0 < run.base <= |a|
    ensures Midway(run, a, run.base, run.base, run.base, [], [])
  {
    assert a[run.base..run.base] == [];
    var events := Events(a[run.base..], run.opts, run.ord);
    Units(events);
    assert Rounds(run, [], events, 0);
  }

  /** An option without argument: on to the next one in the cluster, or out of it. */
  lemma StepThrough(run: Run, a: seq<string>, optind: nat, first: nat, last: nat, cluster: string, emitted: seq<Event>, e: Event)
    requires Midway(run, a, optind, first, last, cluster, emitted) && cluster != []
    requires var k := KindOf(run.opts, cluster[0]);
             if k == Invalid then e == Event(Char('?'), None, Some(cluster[0]))
             else e == Event(Char(cluster[0]), None, None) && k != Optional && k != Required && (k == LongW ==> |cluster| == 1)
    ensures |cluster| > 1 ==> Midway(run, a, optind, first, last, cluster[1..], emitted + [e])
    ensures |cluster| == 1 ==> Midway(run, a, optind + 1, first, last, [], emitted + [e])
  {
    hide Adds, Ahead;
    if |cluster| > 1 {
      NextInCluster(run, a, optind, first, last, cluster, emitted, e);
    } else {
      assert cluster[1..] == [];
      assert !TakesNext(cluster[1..], run.opts) && !JamsCluster(cluster[1..], run.opts);
      LeaveCluster(run, a, optind, first, last, cluster, emitted, e, 1);
    }
  }
}
