/**
 The Windows fastmem arena: HostMemory::Impl tracks which ranges of the reservation are views of the
 backing memory, and drives the operating system so that every gap stays one single placeholder.
 */
module HostMemory {
  import opened Options
  import opened PlaceholderArena
  import opened Sequences

  const HUGE_PAGE_SIZE: nat := 0x200000

  datatype Interval = Interval(lo: nat, hi: nat)

  /** A tracked interval together with the backing offset its lower bound maps to. */
  datatype Mapping = Mapping(lo: nat, hi: nat, host: nat)

  // ---------------------------------------------------------------------------------------------
  // The interval set
  // ---------------------------------------------------------------------------------------------

  /** separate_interval_set: ordered, disjoint, non-empty; touching neighbours are never merged. */
  ghost predicate Ordered(ps: seq<Interval>) {
    && (forall i :: 0 <= i < |ps| ==> ps[i].lo < ps[i].hi)
    && (forall i, j :: 0 <= i < j < |ps| ==> ps[i].hi <= ps[j].lo)
  }

  ghost predicate Before(a: seq<Interval>, b: seq<Interval>) {
    forall i, j :: 0 <= i < |a| && 0 <= j < |b| ==> a[i].hi <= b[j].lo
  }

  lemma OrderedConcat(a: seq<Interval>, b: seq<Interval>)
    ensures Ordered(a + b) <==> Ordered(a) && Ordered(b) && Before(a, b)
  {
    var c := a + b;
    if Ordered(c) {
      forall i | 0 <= i < |b| ensures b[i] == c[|a| + i] {}
      forall i, j | 0 <= i < |a| && 0 <= j < |b| ensures a[i].hi <= b[j].lo { assert c[i].hi <= c[|a| + j].lo; }
      forall i, j | 0 <= i < j < |b| ensures b[i].hi <= b[j].lo { assert c[|a| + i].hi <= c[|a| + j].lo; }
      forall i, j | 0 <= i < j < |a| ensures a[i].hi <= a[j].lo { assert c[i].hi <= c[j].lo; }
      forall i | 0 <= i < |a| ensures a[i].lo < a[i].hi { assert c[i].lo < c[i].hi; }
    }
  }

  predicate Meets(p: Interval, lo: nat, hi: nat) {
    p.lo < hi && lo < p.hi
  }

  ghost predicate AnyMeets(ps: seq<Interval>, lo: nat, hi: nat) {
    exists i :: 0 <= i < |ps| && Meets(ps[i], lo, hi)
  }

  /** placeholders.find: the first interval that meets the range, or the end. */
  method FindMeeting(ps: seq<Interval>, lo: nat, hi: nat) returns (r: nat)
    ensures r <= |ps|
    ensures forall k :: 0 <= k < r ==> !Meets(ps[k], lo, hi)
    ensures r < |ps| ==> Meets(ps[r], lo, hi)
  {
    r := 0;
    while r < |ps| && !Meets(ps[r], lo, hi)
      invariant r <= |ps|
      invariant forall k :: 0 <= k < r ==> !Meets(ps[k], lo, hi)
    {
      r := r + 1;
    }
  }

  /** placeholders.upper_bound: the first interval wholly to the right of the range, or the end. */
  method UpperBound(ps: seq<Interval>, hi: nat) returns (r: nat)
    ensures IsUpperBound(ps, hi, r)
  {
    r := 0;
    while r < |ps| && ps[r].lo < hi
      invariant r <= |ps|
      invariant forall k :: 0 <= k < r ==> ps[k].lo < hi
    {
      r := r + 1;
    }
  }

  ghost predicate IsUpperBound(ps: seq<Interval>, hi: nat, r: nat) {
    && r <= |ps|
    && (forall k :: 0 <= k < r ==> ps[k].lo < hi)
    && (r < |ps| ==> hi <= ps[r].lo)
  }

  /** How many tracked intervals meet the range. */
  ghost function MeetCount(ps: seq<Interval>, lo: nat, hi: nat): nat {
    if ps == [] then 0
    else (if Meets(ps[0], lo, hi) then 1 else 0) + MeetCount(ps[1..], lo, hi)
  }

  lemma {:induction false} MeetCountConcat(a: seq<Interval>, b: seq<Interval>, lo: nat, hi: nat)
    ensures MeetCount(a + b, lo, hi) == MeetCount(a, lo, hi) + MeetCount(b, lo, hi)
  {
    if a == [] {
      assert a + b == b;
    } else {
      assert (a + b)[1..] == a[1..] + b;
      MeetCountConcat(a[1..], b, lo, hi);
    }
  }

  // ---------------------------------------------------------------------------------------------
  // What the tracker stands for: a translation and a tiling of the arena
  // ---------------------------------------------------------------------------------------------

  ghost predicate Backed(ps: seq<Interval>, hosts: map<nat, nat>) {
    forall i :: 0 <= i < |ps| ==> ps[i].lo in hosts
  }

  ghost function Lows(ps: seq<Interval>): set<nat> {
    set p <- ps :: p.lo
  }

  lemma LowsConcat(a: seq<Interval>, b: seq<Interval>)
    ensures Lows(a + b) == Lows(a) + Lows(b)
  {
  }

  lemma OrderedLows(a: seq<Interval>, p: Interval, b: seq<Interval>)
    requires Ordered(a + [p] + b)
    ensures p.lo !in Lows(a + b)
  {
    var c := a + [p] + b;
    assert c[|a|] == p;
    assert forall i :: 0 <= i < |a| ==> c[i] == a[i];
    assert forall i :: 0 <= i < |b| ==> c[|a| + 1 + i] == b[i];
  }

  /** Inserting an interval that meets no other keeps the set ordered. */
  lemma InsertOrdered(ps: seq<Interval>, k: nat, p: Interval)
    requires Ordered(ps) && p.lo < p.hi
    requires forall i :: 0 <= i < |ps| ==> !Meets(ps[i], p.lo, p.hi)
    requires IsUpperBound(ps, p.hi, k)
    ensures Ordered(ps[..k] + [p] + ps[k..])
  {
    var q := ps[..k] + [p] + ps[k..];
    assert forall i :: 0 <= i < |q| ==> q[i] == if i < k then ps[i] else if i == k then p else ps[i - 1];
  }

  lemma InsertLows(a: seq<Interval>, b: seq<Interval>, p: Interval)
    ensures Lows(a + [p] + b) == Lows(a + b) + {p.lo}
  {
    LowsConcat(a, b);
    LowsConcat(a, [p]);
    LowsConcat(a + [p], b);
  }

  /** The intervals are ordered and the offset map's keys are their lower bounds. */
  ghost predicate InStep(ps: seq<Interval>, hosts: map<nat, nat>) {
    Ordered(ps) && hosts.Keys == Lows(ps)
  }

  lemma InStepBacked(ps: seq<Interval>, hosts: map<nat, nat>)
    requires InStep(ps, hosts)
    ensures Backed(ps, hosts)
  {
    forall i | 0 <= i < |ps| ensures ps[i].lo in hosts { assert ps[i] in ps; }
  }

  lemma InStepInsert(ps: seq<Interval>, hosts: map<nat, nat>, k: nat, p: Interval, host: nat)
    requires InStep(ps, hosts) && p.lo < p.hi
    requires forall i :: 0 <= i < |ps| ==> !Meets(ps[i], p.lo, p.hi)
    requires IsUpperBound(ps, p.hi, k)
    ensures InStep(ps[..k] + [p] + ps[k..], hosts[p.lo := host])
  {
    hide Ordered, Lows;
    InsertOrdered(ps, k, p);
    InsertLows(ps[..k], ps[k..], p);
    assert ps == ps[..k] + ps[k..];
  }

  lemma EraseOrdered(ps: seq<Interval>, k: nat)
    requires Ordered(ps) && k < |ps|
    ensures Ordered(ps[..k] + ps[k + 1..])
  {
    var q := ps[..k] + ps[k + 1..];
    assert forall i :: 0 <= i < |q| ==> q[i] == if i < k then ps[i] else ps[i + 1];
  }

  lemma InStepErase(ps: seq<Interval>, hosts: map<nat, nat>, k: nat)
    requires InStep(ps, hosts) && k < |ps|
    ensures InStep(ps[..k] + ps[k + 1..], hosts - {ps[k].lo})
  {
    var a, p, b := ps[..k], ps[k], ps[k + 1..];
    assert ps == a + [p] + b;
    EraseOrdered(ps, k);
    InsertLows(a, b, p);
    OrderedLows(a, p, b);
  }

  ghost function Zip(ps: seq<Interval>, hosts: map<nat, nat>): (ms: seq<Mapping>)
    requires Backed(ps, hosts)
    ensures |ms| == |ps|
  {
    seq(|ps|, i requires 0 <= i < |ps| => Mapping(ps[i].lo, ps[i].hi, hosts[ps[i].lo]))
  }

  /** The virtual-to-host translation the tracked mappings describe. */
  ghost function TranslateMappings(ms: seq<Mapping>, x: nat): (r: Option<nat>) {
    if ms == [] then None
    else if ms[0].lo <= x < ms[0].hi then Some(ms[0].host + (x - ms[0].lo))
    else TranslateMappings(ms[1..], x)
  }

  /** Where the arena continues after the mappings. */
  ghost function End(ms: seq<Mapping>, from: nat): nat {
    if ms == [] then from else ms[|ms| - 1].hi
  }

  /** The tiling of [from, End) : each mapping a view, each gap before a mapping one placeholder. */
  ghost function Head(ms: seq<Mapping>, from: nat): seq<Region> {
    if ms == [] then []
    else Gap(from, ms[0].lo) + [View(ms[0].lo, ms[0].hi, ms[0].host)] + Head(ms[1..], ms[0].hi)
  }

  /** The tiling of the whole arena in which every gap is exactly one placeholder. */
  ghost function Layout(ms: seq<Mapping>, from: nat, size: nat): seq<Region> {
    Head(ms, from) + Gap(End(ms, from), size)
  }

  /** The part of a layout after its first gap. */
  ghost function Rest(ms: seq<Mapping>, size: nat): seq<Region> {
    if ms == [] then []
    else [View(ms[0].lo, ms[0].hi, ms[0].host)] + Layout(ms[1..], ms[0].hi, size)
  }

  ghost function NextLo(ms: seq<Mapping>, size: nat): nat {
    if ms == [] then size else ms[0].lo
  }

  ghost predicate OrderedFrom(ms: seq<Mapping>, from: nat, size: nat) {
    if ms == [] then from <= size
    else from <= ms[0].lo < ms[0].hi && OrderedFrom(ms[1..], ms[0].hi, size)
  }

  lemma {:induction false} HeadConcat(a: seq<Mapping>, b: seq<Mapping>, from: nat)
    ensures Head(a + b, from) == Head(a, from) + Head(b, End(a, from))
    ensures End(a + b, from) == End(b, End(a, from))
  {
    if a == [] {
      assert a + b == b;
    } else {
      assert (a + b)[1..] == a[1..] + b;
      HeadConcat(a[1..], b, a[0].hi);
      assert End(a[1..], a[0].hi) == End(a, from);
    }
  }

  lemma LayoutFirstGap(b: seq<Mapping>, from: nat, size: nat)
    ensures Layout(b, from, size) == Gap(from, NextLo(b, size)) + Rest(b, size)
  {
    if b != [] {
      assert End(b[1..], b[0].hi) == End(b, from);
      Assoc4(Gap(from, b[0].lo), [View(b[0].lo, b[0].hi, b[0].host)], Head(b[1..], b[0].hi), Gap(End(b, from), size));
    } else {
      assert Gap(from, size) + [] == Gap(from, size);
    }
  }

  lemma HeadOne(m: Mapping, from: nat)
    ensures Head([m], from) == Gap(from, m.lo) + [View(m.lo, m.hi, m.host)]
  {
    assert [m][1..] == [];
  }

  /** A layout taken apart around a few mappings in its middle. */
  lemma LayoutAround(a: seq<Mapping>, mid: seq<Mapping>, b: seq<Mapping>, size: nat)
    ensures Layout(a + mid + b, 0, size)
         == Head(a, 0) + Head(mid, End(a, 0)) + (Gap(End(mid, End(a, 0)), NextLo(b, size)) + Rest(b, size))
  {
    var e := End(mid, End(a, 0));
    HeadConcat(a + mid, b, 0);
    HeadConcat(a, mid, 0);
    LayoutFirstGap(b, e, size);
    Regroup(Head(a, 0) + Head(mid, End(a, 0)), Head(b, e), Gap(End(b, e), size), Gap(e, NextLo(b, size)) + Rest(b, size));
  }

  /** A layout unrolled by one mapping. */
  lemma LayoutUnroll(ms: seq<Mapping>, from: nat, size: nat)
    requires ms != []
    ensures Layout(ms, from, size)
         == Gap(from, ms[0].lo) + ([View(ms[0].lo, ms[0].hi, ms[0].host)] + Layout(ms[1..], ms[0].hi, size))
  {
    assert End(ms[1..], ms[0].hi) == End(ms, from);
    Assoc4(Gap(from, ms[0].lo), [View(ms[0].lo, ms[0].hi, ms[0].host)], Head(ms[1..], ms[0].hi), Gap(End(ms, from), size));
  }

  lemma PrependGap(from: nat, lo: nat, rs: seq<Region>, to: nat, x: nat)
    requires from <= lo && Tiles(rs, lo, to)
    ensures Tiles(Gap(from, lo) + rs, from, to)
    ensures TranslateRegions(Gap(from, lo) + rs, x) == if from <= x < lo then None else TranslateRegions(rs, x)
  {
    if from < lo {
      assert (Gap(from, lo) + rs)[1..] == rs;
    } else {
      assert Gap(from, lo) + rs == rs;
    }
  }

  /** A layout tiles the arena, and the translation the hardware performs on it is the tracker's. */
  lemma {:induction false} LayoutTranslates(ms: seq<Mapping>, from: nat, size: nat, x: nat)
    requires OrderedFrom(ms, from, size)
    ensures Tiles(Layout(ms, from, size), from, size)
    ensures TranslateRegions(Layout(ms, from, size), x) == TranslateMappings(ms, x)
  {
    if ms == [] {
      PrependGap(from, size, [], size, x);
      assert Gap(from, size) + [] == Layout(ms, from, size);
    } else {
      var m := ms[0];
      LayoutTranslates(ms[1..], m.hi, size, x);
      LayoutUnroll(ms, from, size);
      var rest := Layout(ms[1..], m.hi, size);
      hide Layout;
      var inner := [View(m.lo, m.hi, m.host)] + rest;
      assert inner[1..] == rest;
      PrependGap(from, m.lo, inner, size, x);
      if x < m.lo { UntranslatedBelow(ms[1..], m.hi, size, x); }
    }
  }

  lemma {:induction false} UntranslatedBelow(ms: seq<Mapping>, from: nat, size: nat, x: nat)
    requires OrderedFrom(ms, from, size) && x < from
    ensures TranslateMappings(ms, x) == None
  {
    if ms != [] { UntranslatedBelow(ms[1..], ms[0].hi, size, x); }
  }

  lemma {:induction false} TranslateConcat(a: seq<Mapping>, b: seq<Mapping>, x: nat)
    ensures TranslateMappings(a + b, x)
         == if TranslateMappings(a, x).Some? then TranslateMappings(a, x) else TranslateMappings(b, x)
  {
    if a == [] {
      assert a + b == b;
    } else {
      assert (a + b)[1..] == a[1..] + b;
      TranslateConcat(a[1..], b, x);
    }
  }

  lemma {:induction false} TranslateMember(ms: seq<Mapping>, x: nat)
    ensures TranslateMappings(ms, x).Some? <==> exists i :: 0 <= i < |ms| && ms[i].lo <= x < ms[i].hi
  {
    if ms != [] {
      TranslateMember(ms[1..], x);
      assert forall i :: 1 <= i < |ms| ==> ms[1..][i - 1] == ms[i];
      if exists i :: 0 <= i < |ms[1..]| && ms[1..][i].lo <= x < ms[1..][i].hi {
        var i :| 0 <= i < |ms[1..]| && ms[1..][i].lo <= x < ms[1..][i].hi;
        assert ms[i + 1].lo <= x < ms[i + 1].hi;
      }
    }
  }

  lemma {:induction false} OrderedMappings(ms: seq<Mapping>, from: nat, size: nat)
    requires forall i :: 0 <= i < |ms| ==> from <= ms[i].lo < ms[i].hi <= size
    requires forall i, j :: 0 <= i < j < |ms| ==> ms[i].hi <= ms[j].lo
    requires from <= size
    ensures OrderedFrom(ms, from, size)
  {
    if ms != [] {
      forall i | 0 <= i < |ms[1..]| ensures ms[0].hi <= ms[1..][i].lo {
        assert ms[1..][i] == ms[i + 1];
      }
      OrderedMappings(ms[1..], ms[0].hi, size);
    }
  }

  // ---------------------------------------------------------------------------------------------
  // The middle of the arena while one view is being cut
  // ---------------------------------------------------------------------------------------------

  /** What is left of a view on one side of the hole; absent when the hole reaches that far. */
  ghost function Survivor(lo: nat, hi: nat, host: nat): seq<Mapping> {
    if lo < hi then [Mapping(lo, hi, host)] else []
  }

  ghost function SurvivorView(lo: nat, hi: nat, host: nat): seq<Region> {
    if lo < hi then [View(lo, hi, host)] else []
  }

  /** What ends up before the hole [ub, ..) cut into the view starting at pb: nothing if they start together. */
  ghost function Lead(l: nat, pb: nat, ub: nat, host: nat): seq<Region> {
    if pb < ub then Gap(l, pb) + SurvivorView(pb, ub, host) else []
  }

  /** The coalesced hole and what ends up after it. */
  ghost function Trail(begin: nat, ue: nat, pe: nat, n: nat, host: nat): seq<Region> {
    if ue < pe then [Free(begin, ue)] + SurvivorView(ue, pe, host) + Gap(pe, n) else [Free(begin, n)]
  }

  lemma HealedIsLayout(l: nat, pb: nat, ub: nat, ue: nat, pe: nat, n: nat, host: nat)
    requires l <= pb <= ub < ue <= pe <= n
    ensures var mid := Survivor(pb, ub, host) + Survivor(ue, pe, host + (ue - pb));
            Head(mid, l) + Gap(End(mid, l), n)
            == Lead(l, pb, ub, host) + Trail(if pb < ub then ub else l, ue, pe, n, host + (ue - pb))
  {
    var right := Survivor(ue, pe, host + (ue - pb));
    var mid := Survivor(pb, ub, host) + right;
    var from := if pb < ub then ub else l;
    if pb < ub {
      assert mid[1..] == right;
      assert Head(mid, l) == Gap(l, pb) + [View(pb, ub, host)] + Head(right, ub);
    } else {
      assert mid == right;
    }
    if ue < pe {
      assert right[1..] == [];
      assert Head(right, from) == [Free(from, ue)] + [View(ue, pe, host + (ue - pb))];
    } else {
      assert Head(right, from) == [];
    }
  }

  /** A mapping the tracker may hold: page aligned, clear of the arena's upper end, backed. */
  ghost predicate Fits(m: Mapping, size: nat, backingSize: nat) {
    && Aligned(m.lo) && Aligned(m.hi) && Aligned(m.host)
    && m.lo < m.hi < size
    && m.host + (m.hi - m.lo) <= backingSize
  }

  ghost predicate AllFit(ms: seq<Mapping>, size: nat, backingSize: nat) {
    forall i :: 0 <= i < |ms| ==> Fits(ms[i], size, backingSize)
  }

  /** The tracked intervals after [ub, ue) was cut out of the one at index it. */
  ghost function CutIntervals(ps: seq<Interval>, it: nat, ub: nat, ue: nat): seq<Interval>
    requires it < |ps|
  {
    ps[..it] + Piece(ps[it].lo, ub) + Piece(ue, ps[it].hi) + ps[it + 1..]
  }

  ghost function Piece(lo: nat, hi: nat): seq<Interval> {
    if lo < hi then [Interval(lo, hi)] else []
  }

  /** The same cut on mappings: both survivors keep translating as before. */
  ghost function CutMappings(ms: seq<Mapping>, it: nat, ub: nat, ue: nat): seq<Mapping>
    requires it < |ms| && ms[it].lo <= ue
  {
    var m := ms[it];
    ms[..it] + (Survivor(m.lo, ub, m.host) + Survivor(ue, m.hi, m.host + (ue - m.lo))) + ms[it + 1..]
  }

  /** A cut leaves every address outside the hole translated as before. */
  lemma CutTranslates(ms: seq<Mapping>, it: nat, ub: nat, ue: nat, x: nat)
    requires it < |ms| && ms[it].lo <= ub < ue <= ms[it].hi && !(ub <= x < ue)
    ensures TranslateMappings(CutMappings(ms, it, ub, ue), x) == TranslateMappings(ms, x)
  {
    var a, m, b := ms[..it], ms[it], ms[it + 1..];
    var left, right := Survivor(m.lo, ub, m.host), Survivor(ue, m.hi, m.host + (ue - m.lo));
    assert ms == a + [m] + b;
    TranslateConcat(a + [m], b, x);
    TranslateConcat(a, [m], x);
    TranslateConcat(a + (left + right), b, x);
    TranslateConcat(a, left + right, x);
    TranslateConcat(left, right, x);
  }

  /** Outside [lo, hi) both translate every address alike. */
  ghost predicate SameOutside(ms: seq<Mapping>, ms': seq<Mapping>, lo: nat, hi: nat) {
    forall x: nat :: !(lo <= x < hi) ==> TranslateMappings(ms', x) == TranslateMappings(ms, x)
  }

  lemma CutSameOutside(ms: seq<Mapping>, it: nat, ub: nat, ue: nat, lo: nat, hi: nat)
    requires it < |ms| && ms[it].lo <= ub < ue <= ms[it].hi && lo <= ub && ue <= hi
    ensures SameOutside(ms, CutMappings(ms, it, ub, ue), lo, hi)
  {
    forall x: nat | !(lo <= x < hi)
      ensures TranslateMappings(CutMappings(ms, it, ub, ue), x) == TranslateMappings(ms, x)
    {
      CutTranslates(ms, it, ub, ue, x);
    }
  }

  /** A cut at the range's own borders leaves one interval less that meets the range. */
  lemma CutMeetsLess(ps: seq<Interval>, it: nat, ub: nat, ue: nat, lo: nat, hi: nat)
    requires it < |ps| && Meets(ps[it], lo, hi)
    requires ub == (if lo > ps[it].lo then lo else ps[it].lo) && ue == (if hi < ps[it].hi then hi else ps[it].hi)
    ensures MeetCount(CutIntervals(ps, it, ub, ue), lo, hi) < MeetCount(ps, lo, hi)
  {
    var a, p, b := ps[..it], ps[it], ps[it + 1..];
    assert ps == a + [p] + b;
    MeetCountConcat(a + [p], b, lo, hi);
    MeetCountConcat(a, [p], lo, hi);
    var left, right := Piece(p.lo, ub), Piece(ue, p.hi);
    MeetCountConcat(a + left + right, b, lo, hi);
    MeetCountConcat(a + left, right, lo, hi);
    MeetCountConcat(a, left, lo, hi);
  }

  ghost function CutHosts(hosts: map<nat, nat>, p: Interval, ub: nat, ue: nat): map<nat, nat>
    requires p.lo in hosts && p.lo <= ue
  {
    var left := if p.lo < ub then (hosts - {p.lo})[p.lo := hosts[p.lo]] else hosts - {p.lo};
    if ue < p.hi then left[ue := hosts[p.lo] + (ue - p.lo)] else left
  }

  lemma CutHostsElsewhere(ps: seq<Interval>, hosts: map<nat, nat>, it: nat, ub: nat, ue: nat)
    requires Ordered(ps) && Backed(ps, hosts) && it < |ps| && ps[it].lo <= ub < ue <= ps[it].hi
    ensures var hosts' := CutHosts(hosts, ps[it], ub, ue);
            forall i :: 0 <= i < |ps| && i != it ==> ps[i].lo in hosts' && hosts'[ps[i].lo] == hosts[ps[i].lo]
  {
    forall i | 0 <= i < |ps| && i != it ensures ps[i].lo != ps[it].lo && (ps[i].lo == ue ==> ue == ps[it].hi) {}
  }

  lemma ZipCut(ps: seq<Interval>, hosts: map<nat, nat>, it: nat, ub: nat, ue: nat)
    requires Ordered(ps) && Backed(ps, hosts) && it < |ps| && ps[it].lo <= ub < ue <= ps[it].hi
    requires Backed(CutIntervals(ps, it, ub, ue), CutHosts(hosts, ps[it], ub, ue))
    ensures Zip(CutIntervals(ps, it, ub, ue), CutHosts(hosts, ps[it], ub, ue))
         == CutMappings(Zip(ps, hosts), it, ub, ue)
  {
    var hosts' := CutHosts(hosts, ps[it], ub, ue);
    var a, b := ps[..it], ps[it + 1..];
    var left, right := Piece(ps[it].lo, ub), Piece(ue, ps[it].hi);
    CutHostsElsewhere(ps, hosts, it, ub, ue);
    hide Ordered;
    ZipConcat(a + left + right, b, hosts');
    ZipConcat(a + left, right, hosts');
    ZipConcat(a, left, hosts');
    assert Zip(a, hosts') == Zip(ps, hosts)[..it];
    assert Zip(b, hosts') == Zip(ps, hosts)[it + 1..];
    Assoc4(Zip(a, hosts'), Zip(left, hosts'), Zip(right, hosts'), Zip(b, hosts'));
  }

  lemma CutFits(ms: seq<Mapping>, it: nat, ub: nat, ue: nat, size: nat, backingSize: nat)
    requires AllFit(ms, size, backingSize) && it < |ms| && ms[it].lo <= ub < ue <= ms[it].hi
    requires Aligned(ub) && Aligned(ue)
    ensures AllFit(CutMappings(ms, it, ub, ue), size, backingSize)
  {
    var m := ms[it];
    var left, right := Survivor(m.lo, ub, m.host), Survivor(ue, m.hi, m.host + (ue - m.lo));
    PartFits(m, ub, ue, size, backingSize);
    hide Fits;
    AllFitConcat(left, right, size, backingSize);
    AllFitConcat(ms[..it], left + right, size, backingSize);
    AllFitConcat(ms[..it] + (left + right), ms[it + 1..], size, backingSize);
  }

  lemma PartFits(m: Mapping, ub: nat, ue: nat, size: nat, backingSize: nat)
    requires Fits(m, size, backingSize) && m.lo <= ub < ue <= m.hi && Aligned(ub) && Aligned(ue)
    ensures m.lo < ub ==> Fits(Mapping(m.lo, ub, m.host), size, backingSize)
    ensures ue < m.hi ==> Fits(Mapping(ue, m.hi, m.host + (ue - m.lo)), size, backingSize)
  {
  }

  lemma AllFitConcat(a: seq<Mapping>, b: seq<Mapping>, size: nat, backingSize: nat)
    requires AllFit(a, size, backingSize) && AllFit(b, size, backingSize)
    ensures AllFit(a + b, size, backingSize)
  {
    hide Fits;
  }

  /** Between a and b there is room for p. */
  ghost predicate Between(a: seq<Interval>, p: Interval, b: seq<Interval>) {
    p.lo < p.hi && Ordered(a) && Ordered(b) && Before(a, [p]) && Before([p], b)
  }

  lemma SlotFree(a: seq<Interval>, p: Interval, b: seq<Interval>)
    requires Between(a, p, b)
    ensures forall i :: 0 <= i < |a + b| ==> !Meets((a + b)[i], p.lo, p.hi)
  {
    forall i | 0 <= i < |a + b| ensures !Meets((a + b)[i], p.lo, p.hi) {
      if i < |a| { assert a[i].hi <= [p][0].lo; } else { assert [p][0].hi <= b[i - |a|].lo; }
    }
  }

  /** The one place in an ordered set where an interval lying between a and b can go. */
  lemma SlotUnique(a: seq<Interval>, p: Interval, b: seq<Interval>, k: nat)
    requires Between(a, p, b) && IsUpperBound(a + b, p.hi, k)
    ensures k == |a| && (a + b)[..k] == a && (a + b)[k..] == b
  {
    var c := a + b;
    assert forall i :: 0 <= i < |a| ==> c[i] == a[i] && a[i].hi <= [p][0].lo;
    assert |b| > 0 ==> c[|a|] == b[0] && [p][0].hi <= b[0].lo;
  }

  /** After an interval is taken out, its survivors fit, one after the other, where it was. */
  lemma SurvivorsFit(ps: seq<Interval>, it: nat, ub: nat, ue: nat)
    requires Ordered(ps) && it < |ps| && ps[it].lo <= ub < ue <= ps[it].hi
    ensures var a, b := ps[..it], ps[it + 1..];
            && (ps[it].lo < ub ==> Between(a, Interval(ps[it].lo, ub), b))
            && (ue < ps[it].hi ==> Between(a + Piece(ps[it].lo, ub), Interval(ue, ps[it].hi), b))
  {
    var a, p, b := ps[..it], ps[it], ps[it + 1..];
    assert ps == a + [p] + b;
    OrderedConcat(a + [p], b);
    OrderedConcat(a, [p]);
    assert (a + [p])[|a|] == p;
    assert forall i :: 0 <= i < |a| ==> a[i].hi <= [p][0].lo;
    assert forall i :: 0 <= i < |b| ==> p.hi <= b[i].lo;
    var left := Piece(p.lo, ub);
    assert Before(a, left);
    OrderedConcat(a, left);
  }

  /** The gap's borders on both sides of a tracked interval, read off its neighbours. */
  lemma Neighbours(ps: seq<Interval>, hosts: map<nat, nat>, it: nat, size: nat, backingSize: nat)
    requires Ordered(ps) && Backed(ps, hosts) && it < |ps|
    requires AllFit(Zip(ps, hosts), size, backingSize) && Aligned(size)
    ensures var ms := Zip(ps, hosts);
            var l := if it == 0 then 0 else ps[it - 1].hi;
            var n := if it + 1 == |ps| then size else ps[it + 1].lo;
            && ms == ms[..it] + [ms[it]] + ms[it + 1..]
            && ms[it] == Mapping(ps[it].lo, ps[it].hi, hosts[ps[it].lo]) && Fits(ms[it], size, backingSize)
            && l == End(ms[..it], 0) && n == NextLo(ms[it + 1..], size)
            && l <= ps[it].lo < ps[it].hi <= n && Aligned(l) && Aligned(n)
  {
    var ms := Zip(ps, hosts);
    if it > 0 { assert Fits(ms[it - 1], size, backingSize); }
    if it + 1 < |ps| { assert Fits(ms[it + 1], size, backingSize); }
  }

  lemma ZipConcat(a: seq<Interval>, b: seq<Interval>, hosts: map<nat, nat>)
    requires Backed(a + b, hosts)
    ensures Backed(a, hosts) && Backed(b, hosts)
    ensures Zip(a + b, hosts) == Zip(a, hosts) + Zip(b, hosts)
  {
    assert forall i :: 0 <= i < |a| ==> (a + b)[i] == a[i];
    assert forall i :: 0 <= i < |b| ==> (a + b)[|a| + i] == b[i];
  }

  // ---------------------------------------------------------------------------------------------
  // Placing a new view into a gap
  // ---------------------------------------------------------------------------------------------

  /** The gap a free range lies in, read off the intervals next to it. */
  lemma GapBorders(ps: seq<Interval>, hosts: map<nat, nat>, it: nat, lo: nat, hi: nat, size: nat, backingSize: nat)
    requires Ordered(ps) && Backed(ps, hosts) && AllFit(Zip(ps, hosts), size, backingSize) && Aligned(size)
    requires IsUpperBound(ps, hi, it) && !AnyMeets(ps, lo, hi) && lo < hi <= size
    ensures var ms := Zip(ps, hosts);
            && ms == ms[..it] + ms[it..]
            && End(ms[..it], 0) == (if it == 0 then 0 else ps[it - 1].hi)
            && NextLo(ms[it..], size) == (if it == |ps| then size else ps[it].lo)
            && End(ms[..it], 0) <= lo && hi <= NextLo(ms[it..], size)
            && Aligned(End(ms[..it], 0)) && Aligned(NextLo(ms[it..], size))
  {
    var ms := Zip(ps, hosts);
    if it > 0 {
      assert Fits(ms[it - 1], size, backingSize);
      assert !Meets(ps[it - 1], lo, hi);
    }
    if it < |ps| { assert Fits(ms[it], size, backingSize); }
  }

  lemma MappingsOrdered(ps: seq<Interval>, hosts: map<nat, nat>, size: nat, backingSize: nat)
    requires Ordered(ps) && Backed(ps, hosts) && AllFit(Zip(ps, hosts), size, backingSize)
    ensures OrderedFrom(Zip(ps, hosts), 0, size)
  {
    var ms := Zip(ps, hosts);
    forall i | 0 <= i < |ms| ensures 0 <= ms[i].lo < ms[i].hi <= size { assert Fits(ms[i], size, backingSize); }
    forall i, j | 0 <= i < j < |ms| ensures ms[i].hi <= ms[j].lo { assert ps[i].hi <= ps[j].lo; }
    OrderedMappings(ms, 0, size);
  }

  lemma GapIsRegion(a: seq<Mapping>, b: seq<Mapping>, size: nat)
    requires End(a, 0) < NextLo(b, size)
    ensures Layout(a + b, 0, size) == Head(a, 0) + [Free(End(a, 0), NextLo(b, size))] + Rest(b, size)
  {
    hide Layout, Head, Rest, NextLo;
    LayoutAround(a, [], b, size);
    HeadNone(End(a, 0));
    assert a + [] == a;
    assert Head(a, 0) + [] == Head(a, 0);
    Assoc(Head(a, 0), [Free(End(a, 0), NextLo(b, size))], Rest(b, size));
  }

  lemma HeadNone(from: nat)
    ensures Head([], from) == [] && End([], from) == from
  {
  }

  /** The test on the neighbours decides whether the range is a whole placeholder. */
  lemma NiecheIffPlaceholder(ps: seq<Interval>, hosts: map<nat, nat>, it: nat, lo: nat, hi: nat, size: nat, backingSize: nat)
    requires Ordered(ps) && Backed(ps, hosts) && AllFit(Zip(ps, hosts), size, backingSize) && Aligned(size)
    requires IsUpperBound(ps, hi, it) && !AnyMeets(ps, lo, hi) && lo < hi <= size
    ensures Free(lo, hi) in Layout(Zip(ps, hosts), 0, size)
            <==> End(Zip(ps, hosts)[..it], 0) == lo && NextLo(Zip(ps, hosts)[it..], size) == hi
  {
    var ms := Zip(ps, hosts);
    var a, b := ms[..it], ms[it..];
    GapBorders(ps, hosts, it, lo, hi, size, backingSize);
    MappingsOrdered(ps, hosts, size, backingSize);
    hide Layout, Ordered, AllFit, AnyMeets, IsUpperBound, End, NextLo, OrderedFrom, Tiles;
    var l, n := End(a, 0), NextLo(b, size);
    GapIsRegion(a, b, size);
    LayoutTranslates(ms, 0, size, lo);
    var rs := Layout(ms, 0, size);
    var j := |Head(a, 0)|;
    assert rs[j] == Free(l, n);
    if Free(lo, hi) in rs {
      var i :| 0 <= i < |rs| && rs[i] == Free(lo, hi);
      TilingUnique(rs, 0, size, i, j, lo);
    }
  }

  lemma UpperBoundUnique(ps: seq<Interval>, hi: nat, j: nat, k: nat)
    requires Ordered(ps) && IsUpperBound(ps, hi, j) && IsUpperBound(ps, hi, k)
    ensures j == k
  {
  }

  /** After splitting and mapping, the arena is again a layout. */
  lemma NewView(a: seq<Mapping>, m: Mapping, b: seq<Mapping>, size: nat)
    ensures Layout(a + [m] + b, 0, size)
         == (Head(a, 0) + Gap(End(a, 0), m.lo)) + [View(m.lo, m.hi, m.host)]
            + (Gap(m.hi, NextLo(b, size)) + Rest(b, size))
  {
    LayoutAround(a, [m], b, size);
    HeadOne(m, End(a, 0));
    Assoc4(Head(a, 0), Gap(End(a, 0), m.lo), [View(m.lo, m.hi, m.host)],
               Gap(m.hi, NextLo(b, size)) + Rest(b, size));
  }

  lemma InsertFits(ms: seq<Mapping>, it: nat, m: Mapping, size: nat, backingSize: nat)
    requires AllFit(ms, size, backingSize) && it <= |ms| && Fits(m, size, backingSize)
    ensures AllFit(ms[..it] + [m] + ms[it..], size, backingSize)
  {
  }

  lemma ZipInsert(ps: seq<Interval>, hosts: map<nat, nat>, it: nat, m: Mapping)
    requires Ordered(ps) && Backed(ps, hosts) && !AnyMeets(ps, m.lo, m.hi) && m.lo < m.hi && it <= |ps|
    requires Backed(ps[..it] + [Interval(m.lo, m.hi)] + ps[it..], hosts[m.lo := m.host])
    ensures Zip(ps[..it] + [Interval(m.lo, m.hi)] + ps[it..], hosts[m.lo := m.host])
         == Zip(ps, hosts)[..it] + [m] + Zip(ps, hosts)[it..]
  {
    var q := ps[..it] + [Interval(m.lo, m.hi)] + ps[it..];
    forall i | 0 <= i < |ps| ensures ps[i].lo != m.lo { assert !Meets(ps[i], m.lo, m.hi); }
    hide Ordered, AnyMeets;
    assert forall i :: 0 <= i < |q| ==> q[i] == if i < it then ps[i] else if i == it then Interval(m.lo, m.hi) else ps[i - 1];
  }

  /** The second translation is the first, with [lo, hi) redirected to the backing memory at host. */
  ghost predicate MappedTo(ms: seq<Mapping>, ms': seq<Mapping>, lo: nat, hi: nat, host: nat) {
    forall x: nat :: TranslateMappings(ms', x)
                  == if lo <= x < hi then Some(host + (x - lo)) else TranslateMappings(ms, x)
  }

  lemma InsertTranslates(ps: seq<Interval>, hosts: map<nat, nat>, it: nat, m: Mapping)
    requires Backed(ps, hosts) && !AnyMeets(ps, m.lo, m.hi) && it <= |ps|
    ensures MappedTo(Zip(ps, hosts), Zip(ps, hosts)[..it] + [m] + Zip(ps, hosts)[it..], m.lo, m.hi, m.host)
  {
    var ms := Zip(ps, hosts);
    var a, b := ms[..it], ms[it..];
    assert ms == a + b;
    forall x: nat
      ensures TranslateMappings(a + [m] + b, x)
           == if m.lo <= x < m.hi then Some(m.host + (x - m.lo)) else TranslateMappings(ms, x)
    {
      TranslateConcat(a + [m], b, x);
      TranslateConcat(a, [m], x);
      TranslateConcat(a, b, x);
      if m.lo <= x < m.hi { Untranslated(ps, hosts, m.lo, m.hi, x); }
    }
  }

  /** Where no interval meets the range, nothing in it is translated. */
  lemma Untranslated(ps: seq<Interval>, hosts: map<nat, nat>, lo: nat, hi: nat, x: nat)
    requires Backed(ps, hosts) && !AnyMeets(ps, lo, hi) && lo <= x < hi
    ensures TranslateMappings(Zip(ps, hosts), x) == None
  {
    var ms := Zip(ps, hosts);
    TranslateMember(ms, x);
    forall i | 0 <= i < |ms| ensures !(ms[i].lo <= x < ms[i].hi) { assert !Meets(ps[i], lo, hi); }
  }

  lemma NothingTranslates(ps: seq<Interval>, hosts: map<nat, nat>, lo: nat, hi: nat)
    requires Backed(ps, hosts) && !AnyMeets(ps, lo, hi)
    ensures forall x: nat :: lo <= x < hi ==> TranslateMappings(Zip(ps, hosts), x) == None
  {
    forall x: nat | lo <= x < hi ensures TranslateMappings(Zip(ps, hosts), x) == None {
      Untranslated(ps, hosts, lo, hi, x);
    }
  }

  /** Intervals touch the range on both sides; it is the index of the one to its right. */
  predicate NiecheTest(ps: seq<Interval>, it: nat, lo: nat, hi: nat)
    requires it <= |ps|
  {
    it < |ps| && ps[it].lo == hi && (if it == 0 then lo == 0 else ps[it - 1].hi == lo)
  }

  /**
   The neighbour test tells a whole placeholder from part of one, except that a placeholder reaching the
   arena's upper end is never recognised. That is why ranges have to stay clear of that end.
   */
  lemma NiecheTestExact(ps: seq<Interval>, hosts: map<nat, nat>, it: nat, lo: nat, hi: nat, size: nat, backingSize: nat)
    requires Ordered(ps) && Backed(ps, hosts) && AllFit(Zip(ps, hosts), size, backingSize) && Aligned(size)
    requires IsUpperBound(ps, hi, it) && !AnyMeets(ps, lo, hi) && lo < hi <= size
    ensures NiecheTest(ps, it, lo, hi) <==> Free(lo, hi) in Layout(Zip(ps, hosts), 0, size) && hi < size
  {
    GapBorders(ps, hosts, it, lo, hi, size, backingSize);
    NiecheIffPlaceholder(ps, hosts, it, lo, hi, size, backingSize);
    hide Layout;
    if it < |ps| { assert Fits(Zip(ps, hosts)[it], size, backingSize); }
  }

  /** The placeholder at the upper end the test does not see. */
  lemma NiecheTestBlindAtUpperEnd()
    ensures var ps, hosts := [Interval(0, 0x1000)], map[0 := 0];
            && InStep(ps, hosts) && Backed(ps, hosts) && AllFit(Zip(ps, hosts), 0x2000, 0x1000)
            && IsUpperBound(ps, 0x2000, 1) && !NiecheTest(ps, 1, 0x1000, 0x2000)
            && Free(0x1000, 0x2000) in Layout(Zip(ps, hosts), 0, 0x2000)
  {
    var ps, hosts := [Interval(0, 0x1000)], map[0 := 0];
    assert ps[0] in ps;
    assert Lows(ps) == {0};
    var m := Mapping(0, 0x1000, 0);
    assert Zip(ps, hosts) == [m];
    HeadOne(m, 0);
    var l := Layout([m], 0, 0x2000);
    assert l == [View(0, 0x1000, 0), Free(0x1000, 0x2000)];
    assert l[1] == Free(0x1000, 0x2000);
  }

  // ---------------------------------------------------------------------------------------------
  // Giving the arena back
  // ---------------------------------------------------------------------------------------------

  /** The arena below the mappings ms once all their views are unmapped, gaps not yet joined. */
  ghost function Vacated(ms: seq<Mapping>, from: nat): seq<Region> {
    if ms == [] then []
    else Gap(from, ms[0].lo) + [Free(ms[0].lo, ms[0].hi)] + Vacated(ms[1..], ms[0].hi)
  }

  lemma {:induction false} VacatedConcat(a: seq<Mapping>, b: seq<Mapping>, from: nat)
    ensures Vacated(a + b, from) == Vacated(a, from) + Vacated(b, End(a, from))
  {
    if a == [] {
      assert a + b == b;
    } else {
      assert (a + b)[1..] == a[1..] + b;
      VacatedConcat(a[1..], b, a[0].hi);
      assert End(a[1..], a[0].hi) == End(a, from);
      var x := Gap(from, a[0].lo) + [Free(a[0].lo, a[0].hi)];
      Assoc(x, Vacated(a[1..], a[0].hi), Vacated(b, End(a, from)));
    }
  }

  /** One more view unmapped. */
  lemma VacateNext(a: seq<Mapping>, m: Mapping, b: seq<Mapping>, size: nat)
    ensures Vacated(a, 0) + Layout([m] + b, End(a, 0), size)
         == (Vacated(a, 0) + Gap(End(a, 0), m.lo)) + [View(m.lo, m.hi, m.host)] + Layout(b, m.hi, size)
    ensures Vacated(a + [m], 0) + Layout(b, End(a + [m], 0), size)
         == (Vacated(a, 0) + Gap(End(a, 0), m.lo)) + [Free(m.lo, m.hi)] + Layout(b, m.hi, size)
  {
    var e := End(a, 0);
    assert ([m] + b)[1..] == b;
    LayoutUnroll([m] + b, e, size);
    VacatedConcat(a, [m], 0);
    VacatedOne(m, e);
    assert End(a + [m], 0) == m.hi;
    hide Layout, Vacated, Gap, End;
    Assoc4(Vacated(a, 0), Gap(e, m.lo), [View(m.lo, m.hi, m.host)], Layout(b, m.hi, size));
    Assoc4(Vacated(a, 0), Gap(e, m.lo), [Free(m.lo, m.hi)], Layout(b, m.hi, size));
  }

  lemma VacatedOne(m: Mapping, from: nat)
    ensures Vacated([m], from) == Gap(from, m.lo) + [Free(m.lo, m.hi)]
  {
    assert [m][1..] == [];
  }

  lemma {:induction false} VacatedSpans(ms: seq<Mapping>, from: nat, size: nat)
    requires OrderedFrom(ms, from, size) && ms != []
    ensures var v := Vacated(ms, from);
            v != [] && (forall r <- v :: r.Free?) && v[0].lo == from && v[|v| - 1].hi == End(ms, from)
  {
    if |ms| > 1 {
      VacatedSpans(ms[1..], ms[0].hi, size);
      assert End(ms[1..], ms[0].hi) == End(ms, from);
    } else {
      assert ms[1..] == [];
    }
  }

  /** Two or more placeholders that together span the arena. */
  ghost predicate Spanning(all: seq<Region>, size: nat) {
    2 <= |all| && (forall r <- all :: r.Free?) && all[0].lo == 0 && all[|all| - 1].hi == size
  }

  lemma JoinLegal(all: seq<Region>, size: nat)
    requires Spanning(all, size)
    ensures 2 <= |all| && (forall r <- all :: r.Free?) && all[0].lo == 0 && all[|all| - 1].hi == size
  {
  }

  /** With every view gone the arena is two or more placeholders that together span it. */
  lemma VacatedArena(ps: seq<Interval>, hosts: map<nat, nat>, size: nat, backingSize: nat)
    requires Ordered(ps) && Backed(ps, hosts) && ps != [] && AllFit(Zip(ps, hosts), size, backingSize)
    ensures var ms := Zip(ps, hosts);
            Spanning(Vacated(ms, 0) + Layout([], End(ms, 0), size), size)
  {
    var ms := Zip(ps, hosts);
    assert Fits(ms[|ms| - 1], size, backingSize);
    MappingsOrdered(ps, hosts, size, backingSize);
    VacatedSpans(ms, 0, size);
    assert Layout([], End(ms, 0), size) == [Free(End(ms, 0), size)];
  }

  lemma EmptyLayout(size: nat)
    requires 0 < size
    ensures Layout([], 0, size) == [Free(0, size)]
  {
  }

  /** HostMemory::Impl on Windows. */
  class Impl {
    var placeholders: seq<Interval>
    var hosts: map<nat, nat>
    const virtualSize: nat
    const backingSize: nat
    const os: Arena

    ghost predicate Tracked()
      reads this
    {
      && InStep(placeholders, hosts)
      && Backed(placeholders, hosts)
      && AllFit(Zip(placeholders, hosts), virtualSize, backingSize)
    }

    /** The tracker agrees with the operating system: every gap is exactly one placeholder. */
    ghost predicate Valid()
      reads this, os
    {
      && Tracked()
      && os.size == virtualSize && os.backingSize == backingSize
      && 0 < virtualSize && Aligned(virtualSize)
      && os.regions == Layout(Zip(placeholders, hosts), 0, virtualSize)
    }

    ghost function Translate(x: nat): (r: Option<nat>)
      requires Tracked()
      reads this
    {
      TranslateMappings(Zip(placeholders, hosts), x)
    }

    /** What the operating system makes of an address is what the tracker says of it. */
    lemma HardwareAgrees(x: nat)
      requires Valid()
      ensures TranslateRegions(os.regions, x) == Translate(x)
      ensures Tiles(os.regions, 0, virtualSize)
    {
      var ms := Zip(placeholders, hosts);
      hide Layout, Ordered, AllFit, Lows;
      MappingsOrdered(placeholders, hosts, virtualSize, backingSize);
      LayoutTranslates(ms, 0, virtualSize, x);
    }

    constructor (backingSize: nat, virtualSize: nat)
      requires 0 < virtualSize && Aligned(virtualSize)
      ensures Valid() && fresh(os)
      ensures this.virtualSize == virtualSize && this.backingSize == backingSize
      ensures placeholders == [] && hosts == map[]
    {
      this.backingSize := backingSize;
      this.virtualSize := virtualSize;
      this.os := new Arena.Reserve(virtualSize, backingSize);
      placeholders := [];
      hosts := map[];
      new;
      assert Zip(placeholders, hosts) == [];
      assert [] + Gap(0, virtualSize) == Gap(0, virtualSize);
    }

    method TrackPlaceholder(virtualOffset: nat, hostOffset: nat, length: nat) returns (ghost k: nat)
      requires InStep(placeholders, hosts) && 0 < length
      requires forall i :: 0 <= i < |placeholders| ==> !Meets(placeholders[i], virtualOffset, virtualOffset + length)
      modifies this
      ensures InStep(placeholders, hosts)
      ensures hosts == old(hosts)[virtualOffset := hostOffset]
      ensures IsUpperBound(old(placeholders), virtualOffset + length, k)
      ensures placeholders == old(placeholders)[..k] + [Interval(virtualOffset, virtualOffset + length)]
                              + old(placeholders)[k..]
    {
      var at := UpperBound(placeholders, virtualOffset + length);
      k := at;
      var p := Interval(virtualOffset, virtualOffset + length);
      InStepInsert(placeholders, hosts, k, p, hostOffset);
      placeholders := placeholders[..at] + [p] + placeholders[at..];
      hosts := hosts[virtualOffset := hostOffset];
    }

    method UntrackPlaceholder(it: nat)
      requires InStep(placeholders, hosts) && it < |placeholders|
      modifies this
      ensures InStep(placeholders, hosts)
      ensures hosts == old(hosts) - {old(placeholders)[it].lo}
      ensures placeholders == old(placeholders)[..it] + old(placeholders)[it + 1..]
    {
      InStepErase(placeholders, hosts, it);
      hosts := hosts - {placeholders[it].lo};
      placeholders := placeholders[..it] + placeholders[it + 1..];
    }

    /** Drop the view and split the hole out of it. */
    method DropView(pb: nat, ub: nat, ue: nat, pe: nat, ghost host: nat, ghost pre: seq<Region>, ghost post: seq<Region>)
      requires pb <= ub < ue <= pe && Aligned(ub) && Aligned(ue)
      requires os.regions == pre + [View(pb, pe, host)] + post
      modifies os
      ensures os.regions == pre + Gap(pb, ub) + [Free(ub, ue)] + Gap(ue, pe) + post
    {
      var splitLeft, splitRight := pb < ub, ue < pe;
      os.UnmapView(pb, pre, View(pb, pe, host), post);
      if splitLeft || splitRight {
        os.Split(ub, ue - ub, pre, Free(pb, pe), post);
      } else {
        assert Gap(pb, ub) + [Free(ub, ue)] + Gap(ue, pe) == [Free(pb, pe)];
      }
      Assoc5(pre, Gap(pb, ub), [Free(ub, ue)], Gap(ue, pe), post);
    }

    /** The same, and map the survivors again. */
    method PunchHole(pb: nat, ub: nat, ue: nat, pe: nat, host: nat, ghost pre: seq<Region>, ghost post: seq<Region>)
      requires pb <= ub < ue <= pe
      requires Aligned(pb) && Aligned(ub) && Aligned(ue) && Aligned(pe) && Aligned(host)
      requires host + (pe - pb) <= os.backingSize
      requires os.regions == pre + [View(pb, pe, host)] + post
      modifies os
      ensures os.regions == pre + SurvivorView(pb, ub, host) + [Free(ub, ue)]
                            + SurvivorView(ue, pe, host + (ue - pb)) + post
    {
      hide Gap, SurvivorView;
      DropView(pb, ub, ue, pe, host, pre, post);
      ghost var hole, left, right := [Free(ub, ue)], SurvivorView(pb, ub, host), Gap(ue, pe);
      AssocTail(pre, Gap(pb, ub), hole, right, post);
      RemapSurvivor(pb, ub, host, pre, hole + right + post);
      AssocTail(pre, left, hole, right, post);
      RemapSurvivor(ue, pe, host + (ue - pb), pre + left + hole, post);
    }

    /** Map what is left of a view on one side of the hole, if anything is. */
    method RemapSurvivor(lo: nat, hi: nat, host: nat, ghost pre: seq<Region>, ghost post: seq<Region>)
      requires lo <= hi && Aligned(lo) && Aligned(host) && Aligned(hi - lo) && host + (hi - lo) <= os.backingSize
      requires os.regions == pre + Gap(lo, hi) + post
      modifies os
      ensures os.regions == pre + SurvivorView(lo, hi, host) + post
    {
      if lo < hi {
        os.MapView(lo, host, hi - lo, pre, post);
      }
    }

    /** When the hole starts at the view's start, join it with the gap on its left. */
    method CoalesceLeft(l: nat, pb: nat, ub: nat, ue: nat, ghost host: nat, ghost pre: seq<Region>, ghost post: seq<Region>)
      returns (coalesceBegin: nat)
      requires l <= pb <= ub < ue && Aligned(l) && Aligned(ue)
      requires os.regions == (pre + (Gap(l, pb) + SurvivorView(pb, ub, host))) + [Free(ub, ue)] + post
      modifies os
      ensures coalesceBegin == if pb < ub then ub else l
      ensures os.regions == (pre + Lead(l, pb, ub, host)) + [Free(coalesceBegin, ue)] + post
    {
      coalesceBegin := ub;
      if pb == ub {
        coalesceBegin := l;
        ghost var gap := Gap(l, pb) + SurvivorView(pb, ub, host);
        if coalesceBegin != pb {
          Assoc4(pre, gap, [Free(ub, ue)], post);
          os.Coalesce(coalesceBegin, ue - coalesceBegin, pre, gap + [Free(ub, ue)], post);
        }
        assert pre + [] == pre;
      }
    }

    /** When the hole ends at the view's end, join it with the gap on its right. */
    method CoalesceRight(coalesceBegin: nat, ue: nat, pe: nat, n: nat, ghost host: nat,
                         ghost pre: seq<Region>, ghost post: seq<Region>)
      requires coalesceBegin < ue <= pe <= n && Aligned(coalesceBegin) && Aligned(n)
      requires os.regions == pre + [Free(coalesceBegin, ue)] + (SurvivorView(ue, pe, host) + Gap(pe, n) + post)
      modifies os
      ensures os.regions == pre + Trail(coalesceBegin, ue, pe, n, host) + post
    {
      ghost var hole, tail := [Free(coalesceBegin, ue)], Gap(pe, n);
      if ue == pe {
        assert SurvivorView(ue, pe, host) + tail + post == tail + post;
        Assoc4(pre, hole, tail, post);
        assert os.regions == pre + hole + (tail + post);
        if pe != n {
          assert pre + hole + (tail + post) == pre + (hole + tail) + post;
          os.Coalesce(coalesceBegin, n - coalesceBegin, pre, hole + tail, post);
        } else {
          assert tail + post == post;
        }
      } else {
        Assoc5(pre, hole, SurvivorView(ue, pe, host), tail, post);
      }
    }

    /** What the operating system is asked to do when [ub, ue) is cut out of an interval. */
    method CutView(m: Mapping, ub: nat, ue: nat, l: nat, n: nat, ghost a: seq<Mapping>, ghost b: seq<Mapping>)
      requires m.lo <= ub < ue <= m.hi && l <= m.lo && m.hi <= n
      requires Fits(m, virtualSize, backingSize) && os.backingSize == backingSize
      requires Aligned(ub) && Aligned(ue) && Aligned(l) && Aligned(n)
      requires l == End(a, 0) && n == NextLo(b, virtualSize)
      requires os.regions == Layout(a + [m] + b, 0, virtualSize)
      modifies os
      ensures os.regions == Layout(a + (Survivor(m.lo, ub, m.host) + Survivor(ue, m.hi, m.host + (ue - m.lo))) + b,
                                   0, virtualSize)
    {
      hide Layout, Head, Rest, Gap, SurvivorView, Survivor, Lead, Trail;
      var pb, pe, host := m.lo, m.hi, m.host;
      ghost var pre, post, host' := Head(a, 0), Rest(b, virtualSize), host + (ue - pb);
      LayoutAround(a, [m], b, virtualSize);
      HeadOne(m, l);
      Assoc4(pre, Gap(l, pb), [View(pb, pe, host)], Gap(pe, n) + post);

      PunchHole(pb, ub, ue, pe, host, pre + Gap(l, pb), Gap(pe, n) + post);
      Assoc7(pre, Gap(l, pb), SurvivorView(pb, ub, host), [Free(ub, ue)],
                 SurvivorView(ue, pe, host'), Gap(pe, n), post);
      var coalesceBegin := CoalesceLeft(l, pb, ub, ue, host, pre, SurvivorView(ue, pe, host') + Gap(pe, n) + post);
      CoalesceRight(coalesceBegin, ue, pe, n, host', pre + Lead(l, pb, ub, host), post);

      ghost var mid := Survivor(pb, ub, host) + Survivor(ue, pe, host');
      HealedIsLayout(l, pb, ub, ue, pe, n, host);
      LayoutAround(a, mid, b, virtualSize);
      Regroup4(pre, Head(mid, l), Gap(End(mid, l), n), post,
               Lead(l, pb, ub, host), Trail(coalesceBegin, ue, pe, n, host'));
    }

    /** Replace the interval in the tracker by its survivors. */
    method Retrack(it: nat, ub: nat, ue: nat)
      requires InStep(placeholders, hosts) && Backed(placeholders, hosts)
      requires it < |placeholders| && placeholders[it].lo <= ub < ue <= placeholders[it].hi
      modifies this
      ensures InStep(placeholders, hosts) && Backed(placeholders, hosts)
      ensures placeholders == CutIntervals(old(placeholders), it, ub, ue)
      ensures Zip(placeholders, hosts) == CutMappings(old(Zip(placeholders, hosts)), it, ub, ue)
    {
      hide Ordered, Lows, Before, IsUpperBound, Between, Zip, CutMappings;
      var pb, pe := placeholders[it].lo, placeholders[it].hi;
      var host := hosts[pb];
      ghost var ps, a, b := placeholders, placeholders[..it], placeholders[it + 1..];
      ghost var left, right := Piece(pb, ub), Piece(ue, pe);
      SurvivorsFit(ps, it, ub, ue);
      UntrackPlaceholder(it);
      if pb < ub {
        SlotFree(a, Interval(pb, ub), b);
        ghost var k := TrackPlaceholder(pb, host, ub - pb);
        SlotUnique(a, Interval(pb, ub), b, k);
        assert placeholders == a + left + b;
      } else {
        assert a + left == a;
      }
      assert placeholders == a + left + b;
      if ue < pe {
        SlotFree(a + left, Interval(ue, pe), b);
        ghost var k := TrackPlaceholder(ue, host + (ue - pb), pe - ue);
        SlotUnique(a + left, Interval(ue, pe), b, k);
      } else {
        assert a + left + right == a + left;
      }
      assert placeholders == CutIntervals(ps, it, ub, ue);
      assert hosts == CutHosts(old(hosts), Interval(pb, pe), ub, ue);
      InStepBacked(placeholders, hosts);
      ZipCut(ps, old(hosts), it, ub, ue);
    }

    /**
     Remove what the range and the first interval meeting it have in common; the rest of that interval
     keeps its backing offsets. Returns false, and changes nothing, when no interval meets the range.
     */
    method UnmapOnePlaceholder(virtualOffset: nat, length: nat) returns (found: bool)
      requires Valid() && 0 < length && Aligned(virtualOffset) && Aligned(length)
      modifies this, os
      ensures Valid()
      ensures found <==> AnyMeets(old(placeholders), virtualOffset, virtualOffset + length)
      ensures !found ==> placeholders == old(placeholders) && hosts == old(hosts) && os.regions == old(os.regions)
      ensures found ==> MeetCount(placeholders, virtualOffset, virtualOffset + length)
                        < old(MeetCount(placeholders, virtualOffset, virtualOffset + length))
      ensures SameOutside(old(Zip(placeholders, hosts)), Zip(placeholders, hosts), virtualOffset, virtualOffset + length)
    {
      hide Ordered, Lows, AllFit, Layout, MeetCount, Zip;
      var virtualEnd := virtualOffset + length;
      var it := FindMeeting(placeholders, virtualOffset, virtualEnd);
      if it == |placeholders| {
        return false;
      }
      var pb, pe := placeholders[it].lo, placeholders[it].hi;
      var ub := if virtualOffset > pb then virtualOffset else pb;
      var ue := if virtualEnd < pe then virtualEnd else pe;
      ghost var ms := Zip(placeholders, hosts);
      Neighbours(placeholders, hosts, it, virtualSize, backingSize);
      CutMeetsLess(placeholders, it, ub, ue, virtualOffset, virtualEnd);
      CutFits(ms, it, ub, ue, virtualSize, backingSize);
      CutSameOutside(ms, it, ub, ue, virtualOffset, virtualEnd);
      CutView(Mapping(pb, pe, hosts[pb]), ub, ue,
              if it == 0 then 0 else placeholders[it - 1].hi,
              if it + 1 == |placeholders| then virtualSize else placeholders[it + 1].lo,
              ms[..it], ms[it + 1..]);
      Retrack(it, ub, ue);
      found := true;
    }

    /** Whether the free range is already a placeholder of its own, so that it needs no split. */
    method IsNiechePlaceholder(virtualOffset: nat, length: nat) returns (nieche: bool, ghost next: nat)
      requires Valid() && 0 < length && virtualOffset + length < virtualSize
      requires !AnyMeets(placeholders, virtualOffset, virtualOffset + length)
      ensures nieche <==> Free(virtualOffset, virtualOffset + length) in os.regions
      ensures IsUpperBound(placeholders, virtualOffset + length, next)
    {
      var virtualEnd := virtualOffset + length;
      var it := UpperBound(placeholders, virtualEnd);
      next := it;
      hide Layout, Ordered, Lows, AllFit, Zip;
      NiecheTestExact(placeholders, hosts, it, virtualOffset, virtualEnd, virtualSize, backingSize);
      nieche := NiecheTest(placeholders, it, virtualOffset, virtualEnd);
    }

    /** Map a range that meets no tracked interval. */
    method Map(virtualOffset: nat, hostOffset: nat, length: nat)
      requires Valid() && 0 < length
      requires Aligned(virtualOffset) && Aligned(hostOffset) && Aligned(length)
      requires virtualOffset + length < virtualSize && hostOffset + length <= backingSize
      requires !AnyMeets(placeholders, virtualOffset, virtualOffset + length)
      modifies this, os
      ensures Valid()
      ensures MappedTo(old(Zip(placeholders, hosts)), Zip(placeholders, hosts),
                       virtualOffset, virtualOffset + length, hostOffset)
    {
      hide Layout, Head, Rest, Ordered, Lows, AllFit, Zip, MappedTo;
      var nieche, it := IsNiechePlaceholder(virtualOffset, length);
      ghost var end := virtualOffset + length;
      ghost var ps, ms := placeholders, Zip(placeholders, hosts);
      ghost var m := Mapping(virtualOffset, end, hostOffset);
      ghost var a, b := ms[..it], ms[it..];
      ghost var l, n, pre, post := End(a, 0), NextLo(b, virtualSize), Head(a, 0), Rest(b, virtualSize);
      GapBorders(ps, hosts, it, virtualOffset, end, virtualSize, backingSize);
      NiecheIffPlaceholder(ps, hosts, it, virtualOffset, end, virtualSize, backingSize);
      GapIsRegion(a, b, virtualSize);
      NewView(a, m, b, virtualSize);
      InsertFits(ms, it, m, virtualSize, backingSize);
      InsertTranslates(ps, hosts, it, m);
      if !nieche {
        os.Split(virtualOffset, length, pre, Free(l, n), post);
      } else {
        assert Pieces(l, virtualOffset, end, n) == [Free(l, n)];
      }
      Assoc5(pre, Gap(l, virtualOffset), [Free(virtualOffset, end)], Gap(end, n), post);
      Assoc5(pre, Gap(l, virtualOffset), [Free(virtualOffset, end)], Gap(end, n), post);
      ghost var k := TrackPlaceholder(virtualOffset, hostOffset, length);
      UpperBoundUnique(ps, end, it, k);
      InStepBacked(placeholders, hosts);
      ZipInsert(ps, old(hosts), it, m);
      os.MapView(virtualOffset, hostOffset, length, pre + Gap(l, virtualOffset), Gap(end, n) + post);
    }

    /** Unmap whatever is mapped in the range. */
    method Unmap(virtualOffset: nat, length: nat)
      requires Valid() && 0 < length && Aligned(virtualOffset) && Aligned(length)
      modifies this, os
      ensures Valid()
      ensures SameOutside(old(Zip(placeholders, hosts)), Zip(placeholders, hosts), virtualOffset, virtualOffset + length)
      ensures forall x: nat :: virtualOffset <= x < virtualOffset + length ==> Translate(x) == None
    {
      hide Ordered, Lows, AllFit, Layout, MeetCount, Zip;
      ghost var ms := Zip(placeholders, hosts);
      ghost var hi := virtualOffset + length;
      var more := true;
      while more
        invariant Valid()
        invariant SameOutside(ms, Zip(placeholders, hosts), virtualOffset, hi)
        invariant !more ==> !AnyMeets(placeholders, virtualOffset, hi)
        decreases more, MeetCount(placeholders, virtualOffset, hi)
      {
        more := UnmapOnePlaceholder(virtualOffset, length);
      }
      NothingTranslates(placeholders, hosts, virtualOffset, hi);
    }

    method UnmapAll()
      requires Valid()
      modifies os
      ensures var ms := Zip(placeholders, hosts); os.regions == Vacated(ms, 0) + Layout([], End(ms, 0), virtualSize)
    {
      hide Layout, Ordered, AllFit, Lows;
      ghost var ms := Zip(placeholders, hosts);
      assert forall k :: 0 <= k < |placeholders| ==> ms[k].lo == placeholders[k].lo;
      assert Vacated([], 0) == [];
      hide Vacated, Zip;
      assert ms[..0] == [] && ms[0..] == ms;
      Units(os.regions);
      for k := 0 to |placeholders|
        invariant os.regions == Vacated(ms[..k], 0) + Layout(ms[k..], End(ms[..k], 0), virtualSize)
      {
        ghost var a, m, b := ms[..k], ms[k], ms[k + 1..];
        assert ms[k..] == [m] + b && ms[..k + 1] == a + [m];
        VacateNext(a, m, b, virtualSize);
        os.UnmapView(placeholders[k].lo, Vacated(a, 0) + Gap(End(a, 0), m.lo), View(m.lo, m.hi, m.host),
                     Layout(b, m.hi, virtualSize));
      }
      assert ms[..|placeholders|] == ms && ms[|placeholders|..] == [];
    }

    /** Unmap every view, join everything, and return the reservation as the single placeholder it then is. */
    method Release()
      requires Valid()
      modifies os
      ensures os.regions == []
    {
      hide Layout, Ordered, AllFit, Lows, Vacated, End, Spanning;
      if placeholders != [] {
        ghost var ms := Zip(placeholders, hosts);
        VacatedArena(placeholders, hosts, virtualSize, backingSize);
        UnmapAll();
        JoinAll();
      } else {
        EmptyLayout(virtualSize);
        assert Zip(placeholders, hosts) == [];
      }
      os.Release();
    }

    method JoinAll()
      requires Spanning(os.regions, virtualSize) && Aligned(virtualSize)
      modifies os
      ensures os.regions == [Free(0, virtualSize)]
    {
      ghost var all := os.regions;
      Alone(all);
      hide Spanning;
      Alone([Free(0, virtualSize)]);
      JoinLegal(all, virtualSize);
      os.Coalesce(0, virtualSize, [], all, []);
    }
  }

  // ---------------------------------------------------------------------------------------------
  // HostMemory: the part callers see
  // ---------------------------------------------------------------------------------------------

  function AlignUp(value: nat): (r: nat)
    ensures Aligned(r) && value <= r < value + PAGE_ALIGNMENT
  {
    var mod := value % PAGE_ALIGNMENT;
    if mod == 0 then value else value - mod + PAGE_ALIGNMENT
  }

  /** The offset of the huge-page aligned base inside the reservation that starts at address reservation. */
  function BaseOffset(reservation: nat): (r: int)
    ensures HUGE_PAGE_SIZE <= r < 2 * HUGE_PAGE_SIZE
    ensures (reservation + r) % HUGE_PAGE_SIZE == 0
    ensures Aligned(reservation) ==> Aligned(r)
  {
    var base := reservation + 2 * HUGE_PAGE_SIZE - 1;
    base - base % HUGE_PAGE_SIZE - reservation
  }

  /** A range of the caller's address space stays clear of both ends of the reservation. */
  lemma ClearOfBothEnds(reservation: nat, virtualSize: nat, lo: nat, length: nat)
    requires lo + length <= virtualSize
    ensures HUGE_PAGE_SIZE <= lo + BaseOffset(reservation)
    ensures lo + BaseOffset(reservation) + length + HUGE_PAGE_SIZE
            < AlignUp(virtualSize) + 3 * HUGE_PAGE_SIZE
  {
  }

  class HostMemory {
    const backingSize: nat
    const virtualSize: nat
    const virtualBaseOffset: nat
    const impl: Impl?
    ghost const repr: set<object>

    ghost predicate Valid()
      reads this, repr
    {
      impl != null ==>
        && impl in repr && impl.os in repr && this !in repr
        && impl.Valid()
        && Aligned(virtualBaseOffset)
        && HUGE_PAGE_SIZE <= virtualBaseOffset < 2 * HUGE_PAGE_SIZE
        && virtualSize + 3 * HUGE_PAGE_SIZE <= impl.virtualSize
        && backingSize <= impl.backingSize
    }

    /** What the memory at virtual offset x is; without an arena nothing is ever mapped. */
    ghost function Translate(x: nat): (r: Option<nat>)
      requires Valid()
      reads this, repr
    {
      if impl == null then None else impl.Translate(x + virtualBaseOffset)
    }

    /** reservation is the address the operating system gave the arena, or None when it refused one. */
    constructor (backingSize: nat, virtualSize: nat, reservation: Option<nat>)
      requires reservation.Some? ==> Aligned(reservation.value)
      ensures Valid() && fresh(repr)
      ensures this.backingSize == backingSize && this.virtualSize == virtualSize
      ensures impl == null <==> reservation == None
      ensures reservation.Some? ==> (reservation.value + virtualBaseOffset) % HUGE_PAGE_SIZE == 0
      ensures reservation.Some? ==>
                impl.virtualSize == AlignUp(virtualSize) + 3 * HUGE_PAGE_SIZE && impl.backingSize == AlignUp(backingSize)
      ensures forall x: nat :: Translate(x) == None
    {
      this.backingSize := backingSize;
      this.virtualSize := virtualSize;
      if reservation.Some? {
        var backing, arena := AlignUp(backingSize), AlignUp(virtualSize) + 3 * HUGE_PAGE_SIZE;
        var arenaImpl := new Impl(backing, arena);
        this.impl := arenaImpl;
        this.repr := {arenaImpl, arenaImpl.os};
        this.virtualBaseOffset := BaseOffset(reservation.value);
      } else {
        this.impl := null;
        this.repr := {};
        this.virtualBaseOffset := 0;
      }
    }

    lemma RangeFree(virtualOffset: nat, length: nat)
      requires Valid() && impl != null && 0 < length
      requires forall x: nat :: virtualOffset <= x < virtualOffset + length ==> Translate(x) == None
      ensures var lo := virtualOffset + virtualBaseOffset; !AnyMeets(impl.placeholders, lo, lo + length)
    {
      var lo := virtualOffset + virtualBaseOffset;
      hide AllFit, Layout, Lows, Zip;
      forall y: nat | lo <= y < lo + length ensures TranslateMappings(Zip(impl.placeholders, impl.hosts), y) == None {
        assert Translate(y - virtualBaseOffset) == impl.Translate(y);
      }
      if AnyMeets(impl.placeholders, lo, lo + length) {
        var _ := TranslatedIn(impl.placeholders, impl.hosts, lo, lo + length);
      }
    }

    method Map(virtualOffset: nat, hostOffset: nat, length: nat)
      requires Valid()
      requires Aligned(virtualOffset) && Aligned(hostOffset) && Aligned(length)
      requires virtualOffset + length <= virtualSize && hostOffset + length <= backingSize
      requires forall x: nat :: virtualOffset <= x < virtualOffset + length ==> Translate(x) == None
      modifies repr
      ensures Valid()
      ensures impl != null ==> forall x: nat ::
                Translate(x) == if virtualOffset <= x < virtualOffset + length then Some(hostOffset + (x - virtualOffset))
                                else old(Translate(x))
    {
      hide Ordered, AllFit, Layout, Lows, InStep, AnyMeets, TranslateMappings;
      if length == 0 || impl == null {
        return;
      }
      var lo := virtualOffset + virtualBaseOffset;
      RangeFree(virtualOffset, length);
      impl.Map(lo, hostOffset, length);
    }

    method Unmap(virtualOffset: nat, length: nat)
      requires Valid()
      requires Aligned(virtualOffset) && Aligned(length)
      requires virtualOffset + length <= virtualSize
      modifies repr
      ensures Valid()
      ensures forall x: nat ::
                Translate(x) == if virtualOffset <= x < virtualOffset + length then None else old(Translate(x))
    {
      hide Ordered, AllFit, Layout, Lows, InStep, TranslateMappings;
      if length == 0 || impl == null {
        return;
      }
      impl.Unmap(virtualOffset + virtualBaseOffset, length);
    }
  }

  /** An interval that meets a range translates some address of it. */
  lemma TranslatedIn(ps: seq<Interval>, hosts: map<nat, nat>, lo: nat, hi: nat) returns (x: nat)
    requires Ordered(ps) && Backed(ps, hosts) && lo < hi && AnyMeets(ps, lo, hi)
    ensures lo <= x < hi && TranslateMappings(Zip(ps, hosts), x).Some?
  {
    var i :| 0 <= i < |ps| && Meets(ps[i], lo, hi);
    x := if lo > ps[i].lo then lo else ps[i].lo;
    var ms := Zip(ps, hosts);
    assert ms[i].lo <= x < ms[i].hi;
    TranslateMember(ms, x);
  }

  // ---------------------------------------------------------------------------------------------
  // Whole histories
  // ---------------------------------------------------------------------------------------------

  datatype Op = MapOp(lo: nat, host: nat, length: nat) | UnmapOp(lo: nat, length: nat)

  /** What the last operation touching x left there. */
  ghost function Meaning(ops: seq<Op>, x: nat): Option<nat> {
    if ops == [] then None
    else
      var op := ops[|ops| - 1];
      if !(op.lo <= x < op.lo + op.length) then Meaning(ops[..|ops| - 1], x)
      else if op.MapOp? then Some(op.host + (x - op.lo)) else None
  }

  /** Every operation meets the checks at the head of Map and Unmap, and nothing is mapped over a live mapping. */
  ghost predicate Legal(ops: seq<Op>, virtualSize: nat, backingSize: nat) {
    ops == [] ||
    (var earlier, op := ops[..|ops| - 1], ops[|ops| - 1];
     && Legal(earlier, virtualSize, backingSize)
     && Aligned(op.lo) && Aligned(op.length) && op.lo + op.length <= virtualSize
     && (op.MapOp? ==>
           && Aligned(op.host) && op.host + op.length <= backingSize
           && forall x: nat :: op.lo <= x < op.lo + op.length ==> Meaning(earlier, x) == None))
  }

  lemma {:induction false} LegalPrefix(ops: seq<Op>, k: nat, virtualSize: nat, backingSize: nat)
    requires Legal(ops, virtualSize, backingSize) && k <= |ops|
    ensures Legal(ops[..k], virtualSize, backingSize)
  {
    if k == |ops| {
      assert ops[..k] == ops;
    } else {
      LegalPrefix(ops[..|ops| - 1], k, virtualSize, backingSize);
      assert ops[..|ops| - 1][..k] == ops[..k];
    }
  }

  /** One more operation. */
  lemma MeaningStep(ops: seq<Op>, k: nat, x: nat)
    requires k < |ops|
    ensures Meaning(ops[..k + 1], x)
         == if !(ops[k].lo <= x < ops[k].lo + ops[k].length) then Meaning(ops[..k], x)
            else if ops[k].MapOp? then Some(ops[k].host + (x - ops[k].lo)) else None
  {
    assert ops[..k + 1][..k] == ops[..k];
  }

  lemma LegalStep(ops: seq<Op>, k: nat, virtualSize: nat, backingSize: nat)
    requires Legal(ops, virtualSize, backingSize) && k < |ops|
    ensures var op := ops[k];
            && Aligned(op.lo) && Aligned(op.length) && op.lo + op.length <= virtualSize
            && (op.MapOp? ==>
                  && Aligned(op.host) && op.host + op.length <= backingSize
                  && forall x: nat :: op.lo <= x < op.lo + op.length ==> Meaning(ops[..k], x) == None)
  {
    LegalPrefix(ops, k + 1, virtualSize, backingSize);
    assert ops[..k + 1][..k] == ops[..k] && ops[..k + 1][k] == ops[k];
  }

  /** After any legal history the arena translates every address as the last operation touching it said. */
  method Replay(memory: HostMemory, ops: seq<Op>)
    requires memory.Valid() && memory.impl != null && (forall x: nat :: memory.Translate(x) == None)
    requires Legal(ops, memory.virtualSize, memory.backingSize)
    modifies memory.repr
    ensures memory.Valid()
    ensures forall x: nat :: memory.Translate(x) == Meaning(ops, x)
  {
    hide memory.Valid, memory.Translate, Legal, Meaning;
    assert forall x: nat :: Meaning([], x) == None by { NoMeaning(); }
    for k := 0 to |ops|
      invariant memory.Valid()
      invariant forall x: nat :: memory.Translate(x) == Meaning(ops[..k], x)
    {
      LegalStep(ops, k, memory.virtualSize, memory.backingSize);
      match ops[k] {
        case MapOp(lo, host, length) => memory.Map(lo, host, length);
        case UnmapOp(lo, length) => memory.Unmap(lo, length);
      }
      forall x: nat ensures memory.Translate(x) == Meaning(ops[..k + 1], x) { MeaningStep(ops, k, x); }
    }
    assert ops[..|ops|] == ops;
  }

  lemma NoMeaning()
    ensures forall x: nat :: Meaning([], x) == None
  {
  }
}
