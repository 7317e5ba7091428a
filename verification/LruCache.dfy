/**
 LeastRecentlyUsedCache: an intrusive doubly linked list threaded through a pool of items whose slots are
 recycled. Pointers to items are modelled as indices into the pool, which is what the public ids are.
 */
module LruCache {
  import opened Options
  import opened Sequences

  type Id = nat

  datatype Item<O> = Item(obj: O, tick: nat, next: Option<Id>, prev: Option<Id>)

  // ---------------------------------------------------------------------------------------------
  // The abstract cache: entries from the least to the most recently used
  // ---------------------------------------------------------------------------------------------

  datatype Entry<O> = Entry(id: Id, obj: O, tick: nat)

  ghost predicate NoDup<T>(s: seq<T>) {
    forall i, j :: 0 <= i < j < |s| ==> s[i] != s[j]
  }

  ghost function Without<T>(s: seq<T>, k: nat): seq<T>
    requires k < |s|
  {
    s[..k] + s[k + 1..]
  }

  /** The cache as its caller knows it; free ids are handed out again first in, first out. */
  datatype Abstract<O> = Abstract(entries: seq<Entry<O>>, free: seq<Id>, size: nat)

  ghost predicate Live<O>(s: Abstract<O>, id: Id) {
    exists i :: 0 <= i < |s.entries| && s.entries[i].id == id
  }

  ghost function IndexOf<O>(es: seq<Entry<O>>, id: Id): (k: nat)
    requires exists i :: 0 <= i < |es| && es[i].id == id
    ensures k < |es| && es[k].id == id
  {
    if es[0].id == id then 0
    else
      assert exists i :: 0 <= i < |es[1..]| && es[1..][i].id == id by {
        var i :| 0 <= i < |es| && es[i].id == id;
        assert es[1..][i - 1].id == id;
      }
      1 + IndexOf(es[1..], id)
  }

  ghost function NewId<O>(s: Abstract<O>): Id {
    if s.free == [] then s.size else s.free[0]
  }

  /** Append. */
  ghost function Inserted<O>(s: Abstract<O>, obj: O, tick: nat): Abstract<O> {
    Abstract(s.entries + [Entry(NewId(s), obj, tick)],
             if s.free == [] then [] else s.free[1..],
             if s.free == [] then s.size + 1 else s.size)
  }

  /** Move to the back, with the new tick, unless that is not newer. */
  ghost function Touched<O>(s: Abstract<O>, id: Id, tick: nat): Abstract<O>
    requires Live(s, id)
  {
    var k := IndexOf(s.entries, id);
    if s.entries[k].tick >= tick then s
    else s.(entries := Without(s.entries, k) + [s.entries[k].(tick := tick)])
  }

  /** Remove. */
  ghost function Freed<O>(s: Abstract<O>, id: Id): Abstract<O>
    requires Live(s, id)
  {
    s.(entries := Without(s.entries, IndexOf(s.entries, id)), free := s.free + [id])
  }

  // ---------------------------------------------------------------------------------------------
  // The links
  // ---------------------------------------------------------------------------------------------

  ghost function PrevIn(order: seq<Id>, i: nat): Option<Id>
    requires i < |order|
  {
    if i == 0 then None else Some(order[i - 1])
  }

  ghost function NextIn(order: seq<Id>, i: nat): Option<Id>
    requires i < |order|
  {
    if i + 1 == |order| then None else Some(order[i + 1])
  }

  ghost predicate InRange(order: seq<Id>, n: nat) {
    forall i :: 0 <= i < |order| ==> order[i] < n
  }

  ghost predicate LinkAt<O>(pool: seq<Item<O>>, order: seq<Id>, i: nat)
    requires i < |order| && order[i] < |pool|
  {
    pool[order[i]].prev == PrevIn(order, i) && pool[order[i]].next == NextIn(order, i)
  }

  /** first, last and the items' pointers spell out order, forwards and backwards. */
  ghost predicate Linked<O>(pool: seq<Item<O>>, first: Option<Id>, last: Option<Id>, order: seq<Id>) {
    && InRange(order, |pool|) && NoDup(order)
    && first == (if order == [] then None else Some(order[0]))
    && last == (if order == [] then None else Some(order[|order| - 1]))
    && (forall i :: 0 <= i < |order| ==> LinkAt(pool, order, i))
  }

  /** Objects and ticks are the same in both pools. */
  ghost predicate SameData<O>(pool: seq<Item<O>>, pool': seq<Item<O>>) {
    |pool'| == |pool| && forall i :: 0 <= i < |pool| ==> pool'[i].obj == pool[i].obj && pool'[i].tick == pool[i].tick
  }

  function SetNext<O>(pool: seq<Item<O>>, at: Option<Id>, to: Option<Id>): (r: seq<Item<O>>)
    requires at.Some? ==> at.value < |pool|
    ensures |r| == |pool|
  {
    if at.Some? then pool[at.value := pool[at.value].(next := to)] else pool
  }

  function SetPrev<O>(pool: seq<Item<O>>, at: Option<Id>, to: Option<Id>): (r: seq<Item<O>>)
    requires at.Some? ==> at.value < |pool|
    ensures |r| == |pool|
  {
    if at.Some? then pool[at.value := pool[at.value].(prev := to)] else pool
  }

  lemma WithoutFacts(order: seq<Id>, k: nat, n: nat)
    requires NoDup(order) && InRange(order, n) && k < |order|
    ensures NoDup(Without(order, k)) && InRange(Without(order, k), n)
    ensures order[k] !in Without(order, k)
  {
    var rest := Without(order, k);
    assert forall i :: 0 <= i < |rest| ==> rest[i] == if i < k then order[i] else order[i + 1];
  }

  /** The pool after an item's neighbours were joined. */
  ghost function Joined<O>(pool: seq<Item<O>>, p: Option<Id>, n: Option<Id>): (r: seq<Item<O>>)
    requires (p.Some? ==> p.value < |pool|) && (n.Some? ==> n.value < |pool|)
    ensures |r| == |pool|
  {
    SetPrev(SetNext(pool, p, n), n, p)
  }

  lemma JoinedLink<O>(pool: seq<Item<O>>, order: seq<Id>, k: nat, i: nat)
    requires NoDup(order) && InRange(order, |pool|) && k < |order| && i < |order| - 1
    requires LinkAt(pool, order, k) && LinkAt(pool, order, if i < k then i else i + 1)
    ensures var rest := Without(order, k);
            rest[i] < |pool| && LinkAt(Joined(pool, PrevIn(order, k), NextIn(order, k)), rest, i)
  {
    var rest := Without(order, k);
    var j := if i < k then i else i + 1;
    assert rest[i] == order[j];
    assert i > 0 ==> rest[i - 1] == if i - 1 < k then order[i - 1] else order[i];
    assert i + 1 < |rest| ==> rest[i + 1] == if i + 1 < k then order[i + 1] else order[i + 2];
    assert k > 0 && j != k - 1 ==> order[j] != order[k - 1];
    assert k + 1 < |order| && j != k + 1 ==> order[j] != order[k + 1];
    hide NoDup, InRange;
  }

  /** Joining an item's neighbours takes it out of the list. */
  lemma DetachLinks<O>(pool: seq<Item<O>>, first: Option<Id>, last: Option<Id>, order: seq<Id>, k: nat)
    requires Linked(pool, first, last, order) && k < |order|
    ensures var p, n := PrevIn(order, k), NextIn(order, k);
            && pool[order[k]].prev == p && pool[order[k]].next == n
            && (p.Some? ==> p.value < |pool|) && (n.Some? ==> n.value < |pool|)
            && Linked(Joined(pool, p, n),
                      if first == Some(order[k]) then n else first, if last == Some(order[k]) then p else last,
                      Without(order, k))
  {
    var rest := Without(order, k);
    WithoutFacts(order, k, |pool|);
    assert LinkAt(pool, order, k);
    var pool' := Joined(pool, PrevIn(order, k), NextIn(order, k));
    forall i | 0 <= i < |rest| ensures rest[i] < |pool| && LinkAt(pool', rest, i) {
      JoinedLink(pool, order, k, i);
    }
    RestEnds(order, k);
    hide NoDup, LinkAt, Joined, Without;
  }

  lemma RestEnds(order: seq<Id>, k: nat)
    requires NoDup(order) && k < |order|
    ensures var rest := Without(order, k);
            && |rest| == |order| - 1
            && (order[0] == order[k] <==> k == 0) && (order[|order| - 1] == order[k] <==> k == |order| - 1)
            && (rest != [] ==> rest[0] == if k == 0 then order[1] else order[0])
            && (rest != [] ==> rest[|rest| - 1] == if k == |order| - 1 then order[k - 1] else order[|order| - 1])
  {
  }

  ghost function Appended<O>(pool: seq<Item<O>>, last: Option<Id>, id: Id): (r: seq<Item<O>>)
    requires id < |pool| && (last.Some? ==> last.value < |pool|)
    ensures |r| == |pool|
  {
    if last == None then pool else SetNext(SetNext(SetPrev(pool, Some(id), last), last, Some(id)), Some(id), None)
  }

  lemma AppendedLink<O>(pool: seq<Item<O>>, order: seq<Id>, id: Id, i: nat)
    requires NoDup(order) && InRange(order, |pool|) && id < |pool| && id !in order && i <= |order|
    requires i < |order| ==> LinkAt(pool, order, i)
    requires order == [] ==> pool[id].prev == None && pool[id].next == None
    ensures var more, last := order + [id], if order == [] then None else Some(order[|order| - 1]);
            more[i] < |pool| && LinkAt(Appended(pool, last, id), more, i)
  {
    assert i < |order| ==> order[i] in order;
    assert i + 1 < |order| ==> order[i] != order[|order| - 1];
    hide NoDup;
  }

  lemma AttachLinks<O>(pool: seq<Item<O>>, first: Option<Id>, last: Option<Id>, order: seq<Id>, id: Id)
    requires Linked(pool, first, last, order) && id < |pool| && id !in order
    requires order == [] ==> pool[id].prev == None && pool[id].next == None
    ensures last.Some? ==> last.value < |pool|
    ensures Linked(Appended(pool, last, id), if first == None then Some(id) else first, Some(id), order + [id])
  {
    var more := order + [id];
    assert NoDup(more);
    forall i | 0 <= i < |more| ensures more[i] < |pool| && LinkAt(Appended(pool, last, id), more, i) {
      AppendedLink(pool, order, id, i);
    }
    hide NoDup, LinkAt, Appended;
  }

  // ---------------------------------------------------------------------------------------------
  // The cache
  // ---------------------------------------------------------------------------------------------

  ghost function Entries<O>(order: seq<Id>, pool: seq<Item<O>>): (es: seq<Entry<O>>)
    requires InRange(order, |pool|)
    ensures |es| == |order|
  {
    seq(|order|, i requires 0 <= i < |order| => Entry(order[i], pool[order[i]].obj, pool[order[i]].tick))
  }

  lemma EntriesSame<O>(order: seq<Id>, pool: seq<Item<O>>, pool': seq<Item<O>>)
    requires InRange(order, |pool|) && SameData(pool, pool')
    ensures Entries(order, pool') == Entries(order, pool)
  {
  }

  lemma EntriesConcat<O>(a: seq<Id>, b: seq<Id>, pool: seq<Item<O>>)
    requires InRange(a, |pool|) && InRange(b, |pool|)
    ensures InRange(a + b, |pool|) && Entries(a + b, pool) == Entries(a, pool) + Entries(b, pool)
  {
  }

  lemma EntriesWithout<O>(order: seq<Id>, pool: seq<Item<O>>, k: nat)
    requires InRange(order, |pool|) && k < |order|
    ensures InRange(Without(order, k), |pool|)
    ensures Entries(Without(order, k), pool) == Without(Entries(order, pool), k)
  {
    var rest := Without(order, k);
    assert forall i :: 0 <= i < |rest| ==> rest[i] == if i < k then order[i] else order[i + 1];
  }

  /** Every id is in the list or free, never both. */
  ghost predicate Shared(order: seq<Id>, free: seq<Id>, n: nat) {
    && NoDup(free) && InRange(free, n)
    && forall id :: 0 <= id < n ==> (id in order <==> id !in free)
  }

  lemma IndexUnique<O>(es: seq<Entry<O>>, order: seq<Id>, pool: seq<Item<O>>, k: nat)
    requires InRange(order, |pool|) && es == Entries(order, pool) && NoDup(order) && k < |order|
    ensures (exists i :: 0 <= i < |es| && es[i].id == order[k]) && IndexOf(es, order[k]) == k
  {
    assert es[k].id == order[k];
    var j := IndexOf(es, order[k]);
    assert order[j] == order[k];
  }

  class Cache<O(0)> {
    var pool: seq<Item<O>>
    var free: seq<Id>
    var first: Option<Id>
    var last: Option<Id>
    ghost var order: seq<Id>

    ghost predicate Valid()
      reads this
    {
      Linked(pool, first, last, order) && Shared(order, free, |pool|)
    }

    ghost function View(): Abstract<O>
      requires Valid()
      reads this
    {
      Abstract(Entries(order, pool), free, |pool|)
    }

    constructor ()
      ensures Valid() && View() == Abstract([], [], 0)
    {
      pool, free, first, last, order := [], [], None, None, [];
    }

    method Attach(id: Id)
      requires Linked(pool, first, last, order) && id < |pool| && id !in order
      requires order == [] ==> pool[id].prev == None && pool[id].next == None
      modifies `pool, `first, `last, `order
      ensures order == old(order) + [id] && Linked(pool, first, last, order) && SameData(old(pool), pool)
    {
      AttachLinks(pool, first, last, order, id);
      hide NoDup, LinkAt, InRange;
      if first == None { first := Some(id); }
      if last == None {
        last := Some(id);
      } else {
        pool := pool[id := pool[id].(prev := last)];
        pool := pool[last.value := pool[last.value].(next := Some(id))];
        pool := pool[id := pool[id].(next := None)];
        last := Some(id);
      }
      order := order + [id];
    }

    method Detach(id: Id, ghost k: nat)
      requires Linked(pool, first, last, order) && k < |order| && order[k] == id
      modifies `pool, `first, `last, `order
      ensures order == Without(old(order), k) && Linked(pool, first, last, order) && SameData(old(pool), pool)
    {
      DetachLinks(pool, first, last, order, k);
      assert k > 0 ==> order[0] != id;
      assert k + 1 < |order| ==> order[|order| - 1] != id;
      assert (first == Some(id) ==> pool[id].prev == None) && (last == Some(id) ==> pool[id].next == None);
      ghost var joined := Joined(pool, pool[id].prev, pool[id].next);
      hide NoDup, LinkAt, InRange;
      var item := pool[id];
      if item.prev.Some? { pool := pool[item.prev.value := pool[item.prev.value].(next := item.next)]; }
      if item.next.Some? { pool := pool[item.next.value := pool[item.next.value].(prev := item.prev)]; }
      if first == Some(id) {
        first := item.next;
        if first.Some? { pool := pool[first.value := pool[first.value].(prev := None)]; }
      }
      if last == Some(id) {
        last := item.prev;
        if last.Some? { pool := pool[last.value := pool[last.value].(next := None)]; }
      }
      assert pool == joined;
      order := Without(order, k);
    }

    /** A blank item that is in no list: a recycled id if there is one, else a new one. */
    method Build() returns (id: Id)
      requires Valid()
      modifies `pool, `free
      ensures id == NewId(old(View()))
      ensures id < |pool| && id !in order && pool[id].next == None && pool[id].prev == None
      ensures free == Inserted(old(View()), pool[id].obj, 0).free && |pool| == Inserted(old(View()), pool[id].obj, 0).size
      ensures Linked(pool, first, last, order) && Entries(order, pool) == old(Entries(order, pool))
      ensures NoDup(free) && InRange(free, |pool|)
      ensures forall x :: 0 <= x < |pool| && x != id ==> (x in order <==> x !in free)
      ensures id !in free
    {
      if free == [] {
        id := |pool|;
        var blank: O := *;
        GrowLinks(pool, first, last, order, Item(blank, 0, None, None));
        pool := pool + [Item(blank, 0, None, None)];
      } else {
        id := free[0];
        assert id in free;
        BlankLinks(pool, first, last, order, id, pool[id].(next := None, prev := None));
        free := free[1..];
        pool := pool[id := pool[id].(next := None, prev := None)];
      }
    }

    method Insert(obj: O, tick: nat) returns (id: Id)
      requires Valid()
      modifies this
      ensures Valid() && id == NewId(old(View())) && View() == Inserted(old(View()), obj, tick)
    {
      id := Build();
      BlankLinks(pool, first, last, order, id, pool[id].(obj := obj, tick := tick));
      ghost var before := order;
      pool := pool[id := pool[id].(obj := obj, tick := tick)];
      ghost var filled := pool;
      Attach(id);
      EntriesSame(order, filled, pool);
      EntriesConcat(before, [id], filled);
      assert Entries([id], filled) == [Entry(id, obj, tick)];
    }

    /** id must be in the cache; the source does not check. */
    method Touch(id: Id, tick: nat)
      requires Valid() && Live(View(), id)
      modifies this
      ensures Valid() && View() == Touched(old(View()), id, tick)
    {
      ghost var k := IndexOf(Entries(order, pool), id);
      if pool[id].tick >= tick {
        return;
      }
      ghost var before, oldOrder := pool, order;
      TickLinks(pool, first, last, order, k, tick);
      SharedWithout(order, free, |pool|, k);
      WithoutFacts(order, k, |pool|);
      EntriesWithout(order, pool, k);
      pool := pool[id := pool[id].(tick := tick)];
      ghost var ticked := pool;
      EntriesWithout(order, ticked, k);
      assert Without(Entries(order, ticked), k) == Without(Entries(order, before), k);
      assert Entries([id], ticked) == [Entry(id, ticked[id].obj, tick)];
      assert |order| == 1 ==> order[0] == id;
      hide NoDup, LinkAt;
      if last == Some(id) {
        assert k + 1 == |order| by { LastIndex(pool, first, last, order, k); }
        assert order == Without(order, k) + [id];
        EntriesConcat(Without(order, k), [id], ticked);
        return;
      }
      Detach(id, k);
      ghost var detached := pool;
      EntriesSame(order, ticked, pool);
      Attach(id);
      EntriesSame(order, detached, pool);
      EntriesSame(order, ticked, detached);
      EntriesConcat(Without(oldOrder, k), [id], ticked);
    }

    /** id must be in the cache; the source does not check. */
    method Free(id: Id)
      requires Valid() && Live(View(), id)
      modifies this
      ensures Valid() && View() == Freed(old(View()), id)
    {
      ghost var k := IndexOf(Entries(order, pool), id);
      SharedWithout(order, free, |pool|, k);
      WithoutFacts(order, k, |pool|);
      EntriesWithout(order, pool, k);
      ghost var before := pool;
      hide NoDup, LinkAt;
      Detach(id, k);
      EntriesSame(order, before, pool);
      BlankLinks(pool, first, last, order, id, pool[id].(prev := None, next := None));
      pool := pool[id := pool[id].(prev := None, next := None)];
      free := free + [id];
    }

    /** Remember the next item, run the callback on this one. */
    method Visit(id: Id, frees: (Id, O) -> bool, ghost before: seq<Entry<O>>, ghost e: Entry<O>, ghost after: seq<Entry<O>>)
      returns (obj: O, next: Option<Id>)
      requires Valid() && View().entries == before + ([e] + after) && id == e.id
      modifies this
      ensures Valid() && obj == e.obj && next == (if after == [] then None else Some(after[0].id))
      ensures View().entries == before + (if frees(e.id, e.obj) then [] else [e]) + after
      ensures View().free == old(View()).free + (if frees(e.id, e.obj) then [e.id] else []) && |pool| == old(|pool|)
    {
      ghost var m, es := |before|, View().entries;
      assert es[m] == e && order[m] == e.id && LinkAt(pool, order, m);
      assert after != [] ==> es[m + 1] == after[0] && order[m + 1] == after[0].id;
      next := pool[id].next;
      obj := pool[id].obj;
      RemoveMiddle(before, e, after);
      IndexUnique(es, order, pool, m);
      hide Linked, Shared, Entries, NoDup;
      if frees(id, obj) {
        Free(id);
      }
    }

    /**
     Visit the items from the oldest on until one is too new. The callback is told the object and may free
     the item it is visiting; frees says for which items it does.
     */
    method ForEachItemBelow(tick: nat, frees: (Id, O) -> bool) returns (visited: seq<O>)
      requires Valid()
      modifies this
      ensures Valid() && View() == Visited(old(View()), tick, frees)
      ensures visited == Objects(old(View()).entries[..PrefixBelow(old(View()).entries, tick)])
    {
      ghost var es, unused := View().entries, View().free;
      var cursor := first;
      visited := [];
      ghost var k := 0;
      assert cursor == CursorAt(es, 0);
      assert es[..0] == [] && es[0..] == es && [] + es == es && unused + [] == unused;
      while cursor.Some?
        invariant Valid() && k <= |es| && cursor == CursorAt(es, k)
        invariant k <= PrefixBelow(es, tick)
        invariant visited == Objects(es[..k]) && View().entries == Kept(es[..k], frees) + es[k..]
        invariant View().free == unused + FreedIds(es[..k], frees) && |pool| == old(|pool|)
        decreases |es| - k
      {
        hide Shared, Entries, NoDup, LinkAt, Kept, FreedIds, Objects, PrefixBelow;
        PrefixStep(es, tick, k);
        KeptStep(es, k, frees);
        SplitAt(es, k);
        ghost var kept := Kept(es[..k], frees);
        Assoc(unused, FreedIds(es[..k], frees), if frees(es[k].id, es[k].obj) then [es[k].id] else []);
        EntryAt(order, pool, kept, es[k], es[k + 1..]);
        if SignedBefore(tick, pool[cursor.value].tick) {
          return;
        }
        var obj, next := Visit(cursor.value, frees, kept, es[k], es[k + 1..]);
        visited := visited + [obj];
        cursor := next;
        k := k + 1;
      }
    }
  }

  ghost function CursorAt<O>(es: seq<Entry<O>>, k: nat): Option<Id>
    requires k <= |es|
  {
    if k == |es| then None else Some(es[k].id)
  }

  lemma SplitAt<O>(es: seq<Entry<O>>, k: nat)
    requires k < |es|
    ensures es[k..] == [es[k]] + es[k + 1..]
    ensures CursorAt(es, k + 1) == if es[k + 1..] == [] then None else Some(es[k + 1..][0].id)
  {
  }

  lemma RemoveMiddle<T>(before: seq<T>, e: T, after: seq<T>)
    ensures Without(before + ([e] + after), |before|) == before + [] + after
    ensures before + ([e] + after) == before + [e] + after
  {
  }

  /** The item of an entry in the middle of the list. */
  lemma EntryAt<O>(order: seq<Id>, pool: seq<Item<O>>, before: seq<Entry<O>>, e: Entry<O>, after: seq<Entry<O>>)
    requires InRange(order, |pool|) && Entries(order, pool) == before + ([e] + after)
    ensures e.id < |pool| && pool[e.id].obj == e.obj && pool[e.id].tick == e.tick
  {
    var m := |before|;
    assert Entries(order, pool)[m] == e;
  }

  /** static_cast<s64> of a 64-bit tick. */
  function ToSigned(x: nat): int {
    if x < SIGN_BIT then x else x - 2 * SIGN_BIT
  }

  predicate SignedBefore(a: nat, b: nat) {
    ToSigned(a) - ToSigned(b) < 0
  }

  /** How many entries from the front are not newer than the bound. */
  ghost function PrefixBelow<O>(es: seq<Entry<O>>, tick: nat): (n: nat)
    ensures n <= |es|
  {
    if es == [] || SignedBefore(tick, es[0].tick) then 0 else 1 + PrefixBelow(es[1..], tick)
  }

  lemma {:induction false} PrefixStep<O>(es: seq<Entry<O>>, tick: nat, k: nat)
    requires k < |es| && k <= PrefixBelow(es, tick)
    ensures k < PrefixBelow(es, tick) <==> !SignedBefore(tick, es[k].tick)
  {
    if k > 0 { PrefixStep(es[1..], tick, k - 1); }
  }

  ghost function Objects<O>(es: seq<Entry<O>>): seq<O> {
    seq(|es|, i requires 0 <= i < |es| => es[i].obj)
  }

  ghost function Kept<O>(es: seq<Entry<O>>, frees: (Id, O) -> bool): seq<Entry<O>> {
    if es == [] then []
    else
      var e := es[|es| - 1];
      Kept(es[..|es| - 1], frees) + if frees(e.id, e.obj) then [] else [e]
  }

  /** The ids a callback frees, in the order of the visit. */
  ghost function FreedIds<O>(es: seq<Entry<O>>, frees: (Id, O) -> bool): seq<Id> {
    if es == [] then []
    else
      var e := es[|es| - 1];
      FreedIds(es[..|es| - 1], frees) + if frees(e.id, e.obj) then [e.id] else []
  }

  /** Visit the entries up to the first that is too new; of these, drop the ones the callback frees. */
  ghost function Visited<O>(s: Abstract<O>, tick: nat, frees: (Id, O) -> bool): Abstract<O> {
    var n := PrefixBelow(s.entries, tick);
    s.(entries := Kept(s.entries[..n], frees) + s.entries[n..], free := s.free + FreedIds(s.entries[..n], frees))
  }

  lemma KeptStep<O>(es: seq<Entry<O>>, k: nat, frees: (Id, O) -> bool)
    requires k < |es|
    ensures FreedIds(es[..k + 1], frees) == FreedIds(es[..k], frees) + if frees(es[k].id, es[k].obj) then [es[k].id] else []
    ensures Kept(es[..k + 1], frees) == Kept(es[..k], frees) + if frees(es[k].id, es[k].obj) then [] else [es[k]]
    ensures Objects(es[..k + 1]) == Objects(es[..k]) + [es[k].obj]
  {
    assert es[..k + 1][..k] == es[..k];
  }

  lemma LastIndex<O>(pool: seq<Item<O>>, first: Option<Id>, last: Option<Id>, order: seq<Id>, k: nat)
    requires Linked(pool, first, last, order) && k < |order| && last == Some(order[k])
    ensures k + 1 == |order|
  {
  }

  lemma GrowLinks<O>(pool: seq<Item<O>>, first: Option<Id>, last: Option<Id>, order: seq<Id>, item: Item<O>)
    requires Linked(pool, first, last, order)
    ensures Linked(pool + [item], first, last, order) && Entries(order, pool + [item]) == Entries(order, pool)
    ensures |pool| !in order
  {
    forall i | 0 <= i < |order| ensures LinkAt(pool + [item], order, i) { assert LinkAt(pool, order, i); }
  }

  /** An item outside the list can be changed at will. */
  lemma BlankLinks<O>(pool: seq<Item<O>>, first: Option<Id>, last: Option<Id>, order: seq<Id>, id: Id, item: Item<O>)
    requires Linked(pool, first, last, order) && id < |pool| && id !in order
    ensures Linked(pool[id := item], first, last, order) && Entries(order, pool[id := item]) == Entries(order, pool)
  {
    var pool' := pool[id := item];
    forall i | 0 <= i < |order| ensures LinkAt(pool', order, i) {
      assert LinkAt(pool, order, i) && order[i] in order;
    }
  }

  /** Changing a tick leaves the links alone. */
  lemma TickLinks<O>(pool: seq<Item<O>>, first: Option<Id>, last: Option<Id>, order: seq<Id>, k: nat, tick: nat)
    requires Linked(pool, first, last, order) && k < |order|
    ensures var pool' := pool[order[k] := pool[order[k]].(tick := tick)];
            && Linked(pool', first, last, order)
            && Entries(order, pool') == Entries(order, pool)[k := Entry(order[k], pool[order[k]].obj, tick)]
  {
    var pool' := pool[order[k] := pool[order[k]].(tick := tick)];
    forall i | 0 <= i < |order| ensures LinkAt(pool', order, i) { assert LinkAt(pool, order, i); }
  }

  lemma SharedWithout(order: seq<Id>, free: seq<Id>, n: nat, k: nat)
    requires NoDup(order) && InRange(order, n) && Shared(order, free, n) && k < |order|
    ensures Shared(Without(order, k), free + [order[k]], n)
    ensures forall x :: x in order <==> x == order[k] || x in Without(order, k)
  {
    var rest, id := Without(order, k), order[k];
    assert order == order[..k] + [id] + order[k + 1..];
    WithoutFacts(order, k, n);
    assert id in order;
    assert NoDup(free + [id]);
  }

  // ---------------------------------------------------------------------------------------------
  // Whole histories
  // ---------------------------------------------------------------------------------------------

  /** Calls; frees says for which of the items it visits the callback frees the item. */
  datatype Op<!O> =
    | InsertOp(obj: O, tick: nat)
    | TouchOp(id: Id, tick: nat)
    | FreeOp(id: Id)
    | VisitOp(bound: nat, frees: (Id, O) -> bool)

  ghost predicate Possible<O>(s: Abstract<O>, op: Op<O>) {
    op.InsertOp? || op.VisitOp? || Live(s, op.id)
  }

  ghost function Do<O>(s: Abstract<O>, op: Op<O>): Abstract<O>
    requires Possible(s, op)
  {
    match op
    case InsertOp(obj, tick) => Inserted(s, obj, tick)
    case TouchOp(id, tick) => Touched(s, id, tick)
    case FreeOp(id) => Freed(s, id)
    case VisitOp(bound, frees) => Visited(s, bound, frees)
  }

  /** What a history of operations on an empty cache leads to, if every id it uses is live at that point. */
  ghost function After<O>(ops: seq<Op<O>>): Option<Abstract<O>> {
    if ops == [] then Some(Abstract([], [], 0))
    else
      var before := After(ops[..|ops| - 1]);
      if before.Some? && Possible(before.value, ops[|ops| - 1]) then Some(Do(before.value, ops[|ops| - 1])) else None
  }

  lemma {:induction false} AfterPrefix<O>(ops: seq<Op<O>>, k: nat)
    requires After(ops).Some? && k < |ops|
    ensures After(ops[..k]).Some? && Possible(After(ops[..k]).value, ops[k])
    ensures After(ops[..k + 1]) == Some(Do(After(ops[..k]).value, ops[k]))
    decreases |ops|
  {
    if k + 1 == |ops| {
      assert ops[..k + 1] == ops;
    } else {
      AfterPrefix(ops[..|ops| - 1], k);
      assert ops[..|ops| - 1][..k] == ops[..k] && ops[..|ops| - 1][..k + 1] == ops[..k + 1];
    }
  }

  /** Every history on the linked structure does what it does on the plain sequence. */
  method Replay<O(0)>(ops: seq<Op<O>>) returns (cache: Cache<O>)
    requires After(ops).Some?
    ensures fresh(cache) && cache.Valid() && cache.View() == After(ops).value
  {
    cache := new Cache();
    for k := 0 to |ops|
      invariant fresh(cache) && cache.Valid() && After(ops[..k]) == Some(cache.View())
    {
      AfterPrefix(ops, k);
      hide cache.Valid, cache.View, After, Live;
      match ops[k] {
        case InsertOp(obj, tick) => var _ := cache.Insert(obj, tick);
        case TouchOp(id, tick) => cache.Touch(id, tick);
        case FreeOp(id) => cache.Free(id);
        case VisitOp(bound, frees) => var _ := cache.ForEachItemBelow(bound, frees);
      }
    }
    assert ops[..|ops|] == ops;
  }

  ghost predicate Names<O>(s: Abstract<O>, id: Id, obj: O) {
    exists i :: 0 <= i < |s.entries| && s.entries[i].id == id && s.entries[i].obj == obj
  }

  /** The operation frees id, itself or through its callback. */
  ghost predicate Frees<O>(s: Abstract<O>, op: Op<O>, id: Id) {
    || (op.FreeOp? && op.id == id)
    || (op.VisitOp? && id in FreedIds(s.entries[..PrefixBelow(s.entries, op.bound)], op.frees))
  }

  /** What the callback does not free is kept. */
  lemma {:induction false} KeptUnlessFreed<O>(es: seq<Entry<O>>, frees: (Id, O) -> bool, e: Entry<O>)
    requires e in es && e.id !in FreedIds(es, frees)
    ensures e in Kept(es, frees)
  {
    var n := |es| - 1;
    if e in es[..n] {
      KeptUnlessFreed(es[..n], frees, e);
    } else {
      assert es[n] == e;
    }
  }

  lemma StepKeepsName<O>(s: Abstract<O>, op: Op<O>, id: Id, obj: O)
    requires Possible(s, op) && Names(s, id, obj) && !Frees(s, op, id)
    ensures Names(Do(s, op), id, obj)
  {
    var i :| 0 <= i < |s.entries| && s.entries[i].id == id && s.entries[i].obj == obj;
    var s', e := Do(s, op), s.entries[i];
    if op.InsertOp? {
      assert s'.entries[i] == e;
    } else if op.VisitOp? {
      var n := PrefixBelow(s.entries, op.bound);
      if i < n {
        assert s.entries[..n][i] == e;
        KeptUnlessFreed(s.entries[..n], op.frees, e);
      } else {
        assert s.entries[n..][i - n] == e;
      }
      assert e in s'.entries;
    } else {
      var k := IndexOf(s.entries, op.id);
      if s' == s {
      } else if i < k {
        assert s'.entries[i] == e;
      } else if i > k {
        assert s'.entries[i - 1] == e;
      } else {
        assert s'.entries[|s'.entries| - 1].id == id;
      }
    }
  }

  /** In every history an id goes on naming its object until it is freed. */
  lemma {:induction false} IdKeepsObject<O>(ops: seq<Op<O>>, k: nat, id: Id, obj: O)
    requires After(ops).Some? && k <= |ops| && After(ops[..k]).Some? && Names(After(ops[..k]).value, id, obj)
    requires forall j :: k <= j < |ops| ==> After(ops[..j]).Some? && !Frees(After(ops[..j]).value, ops[j], id)
    ensures Names(After(ops).value, id, obj)
    decreases |ops|
  {
    if k == |ops| {
      assert ops[..k] == ops;
    } else {
      var n := |ops| - 1;
      var earlier := ops[..n];
      assert earlier[..k] == ops[..k];
      forall j | k <= j < n ensures After(earlier[..j]).Some? && !Frees(After(earlier[..j]).value, earlier[j], id) {
        assert earlier[..j] == ops[..j] && earlier[j] == ops[j];
      }
      hide Names, Frees;
      IdKeepsObject(earlier, k, id, obj);
      StepKeepsName(After(earlier).value, ops[n], id, obj);
    }
  }

  // ---------------------------------------------------------------------------------------------
  // Recency order
  // ---------------------------------------------------------------------------------------------

  ghost predicate SortedByTick<O>(es: seq<Entry<O>>) {
    forall i, j :: 0 <= i < j < |es| ==> es[i].tick <= es[j].tick
  }

  ghost predicate NoneNewer<O>(es: seq<Entry<O>>, now: nat) {
    forall i :: 0 <= i < |es| ==> es[i].tick <= now
  }

  /** The operation stamps an item with the caller's tick. */
  predicate Stamps<O>(op: Op<O>) {
    op.InsertOp? || op.TouchOp?
  }

  /** The caller's clock never runs backwards. */
  ghost predicate Timely<O>(ops: seq<Op<O>>) {
    forall i, j :: 0 <= i < j < |ops| && Stamps(ops[i]) && Stamps(ops[j]) ==> ops[i].tick <= ops[j].tick
  }

  /** The latest tick handed in so far. */
  ghost function Clock<O>(ops: seq<Op<O>>): nat {
    if ops == [] then 0
    else if Stamps(ops[|ops| - 1]) then ops[|ops| - 1].tick else Clock(ops[..|ops| - 1])
  }

  lemma {:induction false} ClockBelow<O>(ops: seq<Op<O>>, tick: nat)
    requires forall i :: 0 <= i < |ops| && Stamps(ops[i]) ==> ops[i].tick <= tick
    ensures Clock(ops) <= tick
    decreases |ops|
  {
    if ops != [] { ClockBelow(ops[..|ops| - 1], tick); }
  }

  lemma WithoutSorted<O>(es: seq<Entry<O>>, k: nat, now: nat)
    requires SortedByTick(es) && NoneNewer(es, now) && k < |es|
    ensures SortedByTick(Without(es, k)) && NoneNewer(Without(es, k), now)
  {
    var rest := Without(es, k);
    assert forall i :: 0 <= i < |rest| ==> rest[i] == if i < k then es[i] else es[i + 1];
  }

  lemma AppendSorted<O>(es: seq<Entry<O>>, e: Entry<O>, now: nat)
    requires SortedByTick(es) && NoneNewer(es, now) && now <= e.tick
    ensures SortedByTick(es + [e]) && NoneNewer(es + [e], e.tick)
  {
  }

  /** A visit only drops entries. */
  lemma {:induction false} SweptSorted<O>(es: seq<Entry<O>>, n: nat, frees: (Id, O) -> bool, now: nat)
    requires SortedByTick(es) && NoneNewer(es, now) && n <= |es|
    ensures SortedByTick(Kept(es[..n], frees) + es[n..]) && NoneNewer(Kept(es[..n], frees) + es[n..], now)
  {
    if n == 0 {
      assert Kept(es[..0], frees) + es[0..] == es;
    } else {
      SweptSorted(es, n - 1, frees, now);
      KeptStep(es, n - 1, frees);
      hide Kept, FreedIds, SortedByTick, NoneNewer;
      var kept, e := Kept(es[..n - 1], frees), es[n - 1];
      assert es[n - 1..] == [e] + es[n..];
      RemoveMiddle(kept, e, es[n..]);
      if frees(e.id, e.obj) {
        WithoutSorted(kept + es[n - 1..], |kept|, now);
      }
    }
  }

  lemma DoKeepsSorted<O>(s: Abstract<O>, op: Op<O>, now: nat)
    requires SortedByTick(s.entries) && NoneNewer(s.entries, now) && Possible(s, op)
    requires Stamps(op) ==> now <= op.tick
    ensures SortedByTick(Do(s, op).entries) && NoneNewer(Do(s, op).entries, if Stamps(op) then op.tick else now)
  {
    match op {
      case InsertOp(obj, tick) => AppendSorted(s.entries, Entry(NewId(s), obj, tick), now);
      case FreeOp(id) => WithoutSorted(s.entries, IndexOf(s.entries, id), now);
      case TouchOp(id, tick) =>
        var k := IndexOf(s.entries, id);
        WithoutSorted(s.entries, k, now);
        AppendSorted(Without(s.entries, k), s.entries[k].(tick := tick), now);
      case VisitOp(bound, frees) => SweptSorted(s.entries, PrefixBelow(s.entries, bound), frees, now);
    }
  }

  /** With a clock that never runs backwards the cache stays sorted, oldest first. */
  lemma {:induction false} StaysSorted<O>(ops: seq<Op<O>>)
    requires After(ops).Some? && Timely(ops)
    ensures SortedByTick(After(ops).value.entries) && NoneNewer(After(ops).value.entries, Clock(ops))
    decreases |ops|
  {
    if ops != [] {
      var earlier, op := ops[..|ops| - 1], ops[|ops| - 1];
      assert Timely(earlier);
      StaysSorted(earlier);
      if Stamps(op) {
        assert forall i :: 0 <= i < |earlier| && Stamps(earlier[i]) ==> earlier[i].tick <= op.tick;
        ClockBelow(earlier, op.tick);
      }
      DoKeepsSorted(After(earlier).value, op, Clock(earlier));
    }
  }

  // ---------------------------------------------------------------------------------------------
  // What a visit covers
  // ---------------------------------------------------------------------------------------------

  const SIGN_BIT: nat := 0x8000_0000_0000_0000

  /**
   What callers rely on: the bound may be a time before zero, written as an unsigned number. Over ticks without
   sign bit the visit covers exactly the entries that are not newer than that time.
   */
  lemma {:induction false} VisitsSigned<O>(es: seq<Entry<O>>, bound: nat)
    requires SortedByTick(es) && forall i :: 0 <= i < |es| ==> es[i].tick < SIGN_BIT
    ensures forall i :: 0 <= i < |es| ==> (i < PrefixBelow(es, bound) <==> es[i].tick <= ToSigned(bound))
  {
    if es != [] {
      var tail := es[1..];
      assert forall i :: 0 <= i < |tail| ==> tail[i] == es[i + 1];
      VisitsSigned(tail, bound);
      forall i | 0 <= i < |es| ensures i < PrefixBelow(es, bound) <==> es[i].tick <= ToSigned(bound) {
        if i > 0 { assert es[i] == tail[i - 1] && es[0].tick <= es[i].tick; }
      }
    }
  }

  /** The visit covers exactly the entries that are not newer than the bound, both taken without sign. */
  ghost predicate Exact<O>(es: seq<Entry<O>>, bound: nat) {
    forall i :: 0 <= i < |es| ==> (i < PrefixBelow(es, bound) <==> es[i].tick <= bound)
  }

  /**
   Comparing with sign is the same as without: a bound without sign bit finds the first newer entry without sign
   bit too, and a bound with it finds none without.
   */
  ghost predicate SignsAgree<O>(es: seq<Entry<O>>, bound: nat) {
    if bound < SIGN_BIT then
      forall i :: 0 <= i < |es| && FirstNewer(es, bound, i) ==> es[i].tick < SIGN_BIT
    else
      forall i :: 0 <= i < |es| ==> es[i].tick >= SIGN_BIT
  }

  ghost predicate FirstNewer<O>(es: seq<Entry<O>>, bound: nat, i: nat)
    requires i < |es|
  {
    es[i].tick > bound && (i == 0 || es[i - 1].tick <= bound)
  }

  /** In a sorted cache the visit is exact in this sense if and only if the signs agree. */
  lemma {:induction false} VisitsExactlyOlder<O>(es: seq<Entry<O>>, bound: nat)
    requires SortedByTick(es) && bound < 2 * SIGN_BIT && forall i :: 0 <= i < |es| ==> es[i].tick < 2 * SIGN_BIT
    ensures Exact(es, bound) <==> SignsAgree(es, bound)
    ensures bound < SIGN_BIT && (forall i :: 0 <= i < |es| ==> es[i].tick < SIGN_BIT) ==> Exact(es, bound)
  {
    if es != [] {
      var tail := es[1..];
      assert forall i :: 0 <= i < |tail| ==> tail[i] == es[i + 1];
      VisitsExactlyOlder(tail, bound);
      if es[0].tick <= bound && !SignedBefore(bound, es[0].tick) {
        TailExact(es, bound);
        TailSigns(es, bound);
      } else if es[0].tick <= bound {
        assert !Exact(es, bound) && es[0].tick < SIGN_BIT <= bound;
      } else {
        assert forall i :: 0 <= i < |es| ==> es[i].tick > bound;
        if bound < SIGN_BIT <= es[0].tick {
          assert 0 < PrefixBelow(es, bound) && FirstNewer(es, bound, 0);
          assert !Exact(es, bound) && !SignsAgree(es, bound);
        } else {
          assert PrefixBelow(es, bound) == 0;
          assert forall i :: 0 <= i < |es| && FirstNewer(es, bound, i) ==> i == 0;
        }
      }
    }
  }

  lemma TailExact<O>(es: seq<Entry<O>>, bound: nat)
    requires es != [] && es[0].tick <= bound && !SignedBefore(bound, es[0].tick)
    ensures Exact(es, bound) <==> Exact(es[1..], bound)
  {
    var tail := es[1..];
    assert PrefixBelow(es, bound) == 1 + PrefixBelow(tail, bound);
    if Exact(tail, bound) {
      forall i | 0 <= i < |es| ensures i < PrefixBelow(es, bound) <==> es[i].tick <= bound {
        if i > 0 { assert tail[i - 1] == es[i]; }
      }
    }
    if Exact(es, bound) {
      forall i | 0 <= i < |tail| ensures i < PrefixBelow(tail, bound) <==> tail[i].tick <= bound {
        assert tail[i] == es[i + 1];
      }
    }
  }

  lemma TailSigns<O>(es: seq<Entry<O>>, bound: nat)
    requires es != [] && es[0].tick <= bound && !SignedBefore(bound, es[0].tick) && bound < 2 * SIGN_BIT
    ensures SignsAgree(es, bound) <==> SignsAgree(es[1..], bound)
  {
    var tail := es[1..];
    assert forall i :: 0 <= i < |tail| ==> tail[i] == es[i + 1];
    forall i | 0 <= i < |tail| ensures FirstNewer(es, bound, i + 1) <==> FirstNewer(tail, bound, i) {}
    if SignsAgree(tail, bound) {
      forall i | 0 < i < |es| ensures es[i] == tail[i - 1] && (FirstNewer(es, bound, i) <==> FirstNewer(tail, bound, i - 1)) {}
    }
  }

  /** A tick with sign bit that is visited although it is newer than the bound; the difference, one, is defined. */
  lemma SignBitIsVisited<O>(obj: O)
    ensures var ops := [InsertOp(obj, 2 * SIGN_BIT - 1)];
            && After(ops) == Some(Abstract([Entry(0, obj, 2 * SIGN_BIT - 1)], [], 1)) && Timely(ops)
            && PrefixBelow(After(ops).value.entries, 0) == 1 && !SignsAgree(After(ops).value.entries, 0)
  {
    var ops := [InsertOp(obj, 2 * SIGN_BIT - 1)];
    var es := [Entry(0, obj, 2 * SIGN_BIT - 1)];
    assert ops[..0] == [] && [] + es == es;
    assert After(ops) == Some(Abstract(es, [], 1));
    assert es[1..] == [] && FirstNewer(es, 0, 0);
  }

  /** The entries that are not newer than a time, in order. */
  ghost function Older<O>(es: seq<Entry<O>>, time: int): seq<Entry<O>> {
    if es == [] then [] else (if es[0].tick <= time then [es[0]] else []) + Older(es[1..], time)
  }

  lemma {:induction false} PrefixIsOlder<O>(es: seq<Entry<O>>, n: nat, time: int)
    requires n <= |es| && forall i :: 0 <= i < |es| ==> (i < n <==> es[i].tick <= time)
    ensures es[..n] == Older(es, time)
  {
    if es != [] {
      var tail := es[1..];
      assert forall i :: 0 <= i < |tail| ==> tail[i] == es[i + 1];
      PrefixIsOlder(tail, if n == 0 then 0 else n - 1, time);
      if n > 0 { assert es[..n] == [es[0]] + tail[..n - 1]; }
    }
  }

  /** What a visit after a history covers. */
  lemma TimelyVisit<O>(ops: seq<Op<O>>, bound: nat)
    requires After(ops).Some? && Timely(ops) && bound < 2 * SIGN_BIT && Clock(ops) < 2 * SIGN_BIT
    ensures var es := After(ops).value.entries;
            var covered := es[..PrefixBelow(es, bound)];
            && (Clock(ops) < SIGN_BIT ==> covered == Older(es, ToSigned(bound)))
            && (SignsAgree(es, bound) ==> covered == Older(es, bound))
  {
    var es := After(ops).value.entries;
    StaysSorted(ops);
    hide After, Timely;
    if Clock(ops) < SIGN_BIT {
      VisitsSigned(es, bound);
      PrefixIsOlder(es, PrefixBelow(es, bound), ToSigned(bound));
    }
    VisitsExactlyOlder(es, bound);
    if Exact(es, bound) { PrefixIsOlder(es, PrefixBelow(es, bound), bound); }
  }

  /**
   After every history with a clock that never runs backwards, frees and earlier visits included, a visit calls
   back for exactly the items that are not newer than the bound, oldest first, and drops those that are freed.
   The bound is a signed time as long as no tick has a sign bit.
   */
  method VisitAfter<O(0)>(ops: seq<Op<O>>, bound: nat, frees: (Id, O) -> bool) returns (cache: Cache<O>, visited: seq<O>)
    requires After(ops).Some? && Timely(ops) && bound < 2 * SIGN_BIT && Clock(ops) < 2 * SIGN_BIT
    ensures cache.Valid() && After(ops + [VisitOp(bound, frees)]) == Some(cache.View())
    ensures Clock(ops) < SIGN_BIT ==> visited == Objects(Older(After(ops).value.entries, ToSigned(bound)))
    ensures SignsAgree(After(ops).value.entries, bound) ==> visited == Objects(Older(After(ops).value.entries, bound))
  {
    cache := Replay(ops);
    TimelyVisit(ops, bound);
    assert (ops + [VisitOp(bound, frees)])[..|ops|] == ops;
    assert After(ops + [VisitOp(bound, frees)]) == Some(Visited(After(ops).value, bound, frees));
    hide After, Older, PrefixBelow, SignsAgree, Objects, ToSigned, Visited, Timely, Clock, cache.Valid, cache.View;
    visited := cache.ForEachItemBelow(bound, frees);
  }

  // ---------------------------------------------------------------------------------------------
  // What a history says of its ids
  // ---------------------------------------------------------------------------------------------

  ghost function Ids<O>(es: seq<Entry<O>>): (ids: seq<Id>)
    ensures |ids| == |es|
  {
    seq(|es|, i requires 0 <= i < |es| => es[i].id)
  }

  /** The n ids handed out are in use or free, never both, and in either at most once. */
  ghost predicate Balanced(ids: seq<Id>, free: seq<Id>, n: nat) {
    NoDup(ids) && InRange(ids, n) && Shared(ids, free, n)
  }

  lemma BalancedNew(ids: seq<Id>, n: nat)
    requires Balanced(ids, [], n)
    ensures n !in ids && Balanced(ids + [n], [], n + 1)
  {
    assert forall i :: 0 <= i < |ids| ==> ids[i] < n;
    forall id | 0 <= id < n + 1 ensures id in ids + [n] { if id == n { assert (ids + [n])[|ids|] == id; } }
  }

  lemma BalancedOld(ids: seq<Id>, free: seq<Id>, n: nat)
    requires Balanced(ids, free, n) && free != []
    ensures free[0] !in ids && Balanced(ids + [free[0]], free[1..], n)
  {
    assert free[0] in free;
    assert forall x :: x in free <==> x == free[0] || x in free[1..];
    assert free[0] !in free[1..];
  }

  lemma BalancedFree(ids: seq<Id>, free: seq<Id>, n: nat, k: nat)
    requires Balanced(ids, free, n) && k < |ids|
    ensures Balanced(Without(ids, k), free + [ids[k]], n) && ids[k] !in Without(ids, k)
  {
    WithoutFacts(ids, k, n);
    SharedWithout(ids, free, n, k);
  }

  lemma BalancedTouch(ids: seq<Id>, free: seq<Id>, n: nat, k: nat)
    requires Balanced(ids, free, n) && k < |ids|
    ensures Balanced(Without(ids, k) + [ids[k]], free, n)
  {
    WithoutFacts(ids, k, n);
    SharedWithout(ids, free, n, k);
  }

  lemma IdsWithout<O>(es: seq<Entry<O>>, k: nat)
    requires k < |es|
    ensures Ids(Without(es, k)) == Without(Ids(es), k)
  {
  }

  lemma IdsConcat<O>(a: seq<Entry<O>>, b: seq<Entry<O>>)
    ensures Ids(a + b) == Ids(a) + Ids(b)
  {
  }

  lemma LiveIsListed<O>(s: Abstract<O>, id: Id)
    ensures Live(s, id) <==> id in Ids(s.entries)
  {
    if Live(s, id) {
      var i :| 0 <= i < |s.entries| && s.entries[i].id == id;
      assert Ids(s.entries)[i] == id;
    }
  }

  ghost predicate Accounted<O>(s: Abstract<O>) {
    Balanced(Ids(s.entries), s.free, s.size)
  }

  lemma InsertAccounted<O>(s: Abstract<O>, obj: O, tick: nat)
    requires Accounted(s)
    ensures Accounted(Inserted(s, obj, tick)) && NewId(s) !in Ids(s.entries)
  {
    var e := Entry(NewId(s), obj, tick);
    IdsConcat(s.entries, [e]);
    assert Ids([e]) == [e.id];
    hide Balanced;
    if s.free == [] { BalancedNew(Ids(s.entries), s.size); } else { BalancedOld(Ids(s.entries), s.free, s.size); }
  }

  lemma FreeAccounted<O>(s: Abstract<O>, k: nat)
    requires Accounted(s) && k < |s.entries|
    ensures var s' := s.(entries := Without(s.entries, k), free := s.free + [s.entries[k].id]);
            Accounted(s') && s.entries[k].id !in Ids(s'.entries)
  {
    hide Balanced;
    IdsWithout(s.entries, k);
    BalancedFree(Ids(s.entries), s.free, s.size, k);
  }

  lemma TouchAccounted<O>(s: Abstract<O>, id: Id, tick: nat)
    requires Accounted(s) && Live(s, id)
    ensures Accounted(Touched(s, id, tick))
  {
    var k := IndexOf(s.entries, id);
    var e := s.entries[k].(tick := tick);
    IdsWithout(s.entries, k);
    IdsConcat(Without(s.entries, k), [e]);
    assert Ids([e]) == [Ids(s.entries)[k]];
    hide Balanced, Without;
    BalancedTouch(Ids(s.entries), s.free, s.size, k);
  }

  /** The cache after the first n items were visited. */
  ghost function Swept<O>(s: Abstract<O>, n: nat, frees: (Id, O) -> bool): Abstract<O>
    requires n <= |s.entries|
  {
    s.(entries := Kept(s.entries[..n], frees) + s.entries[n..], free := s.free + FreedIds(s.entries[..n], frees))
  }

  /** Visiting one more item frees it or leaves all as it is. */
  lemma SweptStep<O>(s: Abstract<O>, n: nat, frees: (Id, O) -> bool)
    requires n < |s.entries|
    ensures var t, k, e := Swept(s, n, frees), |Kept(s.entries[..n], frees)|, s.entries[n];
            && k < |t.entries| && t.entries[k] == e
            && Swept(s, n + 1, frees)
               == if frees(e.id, e.obj) then t.(entries := Without(t.entries, k), free := t.free + [e.id]) else t
  {
    KeptStep(s.entries, n, frees);
    var kept, freed, e := Kept(s.entries[..n], frees), FreedIds(s.entries[..n], frees), s.entries[n];
    hide Kept, FreedIds;
    assert s.entries[n..] == [e] + s.entries[n + 1..];
    RemoveMiddle(kept, e, s.entries[n + 1..]);
    Assoc(s.free, freed, [e.id]);
    Units(freed);
    Assoc(kept, [e], s.entries[n + 1..]);
  }

  lemma SweptNone<O>(s: Abstract<O>, frees: (Id, O) -> bool)
    ensures Swept(s, 0, frees) == s
  {
    assert Kept(s.entries[..0], frees) + s.entries[0..] == s.entries && s.free + FreedIds(s.entries[..0], frees) == s.free;
  }

  lemma {:induction false} VisitAccounted<O>(s: Abstract<O>, n: nat, frees: (Id, O) -> bool)
    requires Accounted(s) && n <= |s.entries|
    ensures Accounted(Swept(s, n, frees))
  {
    hide Accounted, Swept;
    if n == 0 {
      SweptNone(s, frees);
    } else {
      VisitAccounted(s, n - 1, frees);
      SweptStep(s, n - 1, frees);
      FreeAccounted(Swept(s, n - 1, frees), |Kept(s.entries[..n - 1], frees)|);
    }
  }

  lemma {:induction false} ReachableAccounted<O>(ops: seq<Op<O>>)
    requires After(ops).Some?
    ensures Accounted(After(ops).value)
    decreases |ops|
  {
    if ops == [] {
      assert Ids<O>([]) == [];
    } else {
      var s, op := After(ops[..|ops| - 1]).value, ops[|ops| - 1];
      ReachableAccounted(ops[..|ops| - 1]);
      hide Accounted;
      match op {
        case InsertOp(obj, tick) => InsertAccounted(s, obj, tick);
        case TouchOp(id, tick) => TouchAccounted(s, id, tick);
        case FreeOp(id) => FreeAccounted(s, IndexOf(s.entries, id));
        case VisitOp(bound, frees) => VisitAccounted(s, PrefixBelow(s.entries, bound), frees);
      }
    }
  }

  /** A freed id is gone. */
  lemma FreedIsGone<O>(ops: seq<Op<O>>, id: Id)
    requires After(ops + [FreeOp(id)]).Some?
    ensures !Live(After(ops + [FreeOp(id)]).value, id)
  {
    assert (ops + [FreeOp(id)])[..|ops|] == ops;
    ReachableAccounted(ops);
    var s := After(ops).value;
    FreeAccounted(s, IndexOf(s.entries, id));
    LiveIsListed(After(ops + [FreeOp(id)]).value, id);
  }

  /** A new item gets an id that is not in use, and no new one is made while some id handed out earlier is not. */
  lemma IdsAreReused<O>(ops: seq<Op<O>>)
    requires After(ops).Some?
    ensures var s := After(ops).value;
            && !Live(s, NewId(s)) && NewId(s) <= s.size
            && (NewId(s) == s.size <==> forall id :: 0 <= id < s.size ==> Live(s, id))
  {
    ReachableAccounted(ops);
    var s := After(ops).value;
    hide After;
    forall id ensures Live(s, id) <==> id in Ids(s.entries) { LiveIsListed(s, id); }
    hide Live;
    if s.free == [] {
      BalancedNew(Ids(s.entries), s.size);
    } else {
      BalancedOld(Ids(s.entries), s.free, s.size);
      assert s.free[0] in s.free;
    }
  }

  /** First freed, first reused. */
  lemma ReusedInOrder<O>(ops: seq<Op<O>>, a: Id, b: Id, x: O, y: O, t: nat, u: nat)
    requires After(ops).Some? && NewId(After(ops).value) == After(ops).value.size
    requires After(ops + [FreeOp(a)] + [FreeOp(b)] + [InsertOp(x, t)] + [InsertOp(y, u)]).Some?
    ensures var s := After(ops + [FreeOp(a)] + [FreeOp(b)] + [InsertOp(x, t)] + [InsertOp(y, u)]).value;
            && s.size == After(ops).value.size && |s.entries| >= 2
            && s.entries[|s.entries| - 2..] == [Entry(a, x, t), Entry(b, y, u)]
  {
    ReachableAccounted(ops);
    IdsAreReused(ops);
    NothingFree(After(ops).value);
    var o1 := ops + [FreeOp(a)];
    var o2 := o1 + [FreeOp(b)];
    var o3 := o2 + [InsertOp(x, t)];
    OneMoreOp(o3, InsertOp(y, u));
    OneMoreOp(o2, InsertOp(x, t));
    OneMoreOp(o1, FreeOp(b));
    OneMoreOp(ops, FreeOp(a));
    hide After, Accounted;
    assert After(o2).value.free == [a, b];
  }

  lemma NothingFree<O>(s: Abstract<O>)
    requires Accounted(s)
    ensures s.free == [] <==> NewId(s) == s.size
  {
    if s.free != [] { assert s.free[0] < s.size; }
  }

  lemma OneMoreOp<O>(ops: seq<Op<O>>, op: Op<O>)
    requires After(ops + [op]).Some?
    ensures After(ops).Some? && Possible(After(ops).value, op) && After(ops + [op]) == Some(Do(After(ops).value, op))
  {
    assert (ops + [op])[..|ops|] == ops;
  }

  // ---------------------------------------------------------------------------------------------
  // Use
  // ---------------------------------------------------------------------------------------------

  /** Operation k inserted the item that id names since then. */
  ghost predicate Born<O>(ops: seq<Op<O>>, k: nat, id: Id) {
    && k < |ops| && ops[k].InsertOp?
    && After(ops[..k]).Some? && NewId(After(ops[..k]).value) == id
    && forall j :: k < j < |ops| ==> !FreesAt(ops, j, id)
  }

  ghost predicate FreesAt<O>(ops: seq<Op<O>>, j: nat, id: Id)
    requires j < |ops|
  {
    After(ops[..j]).Some? && Frees(After(ops[..j]).value, ops[j], id)
  }

  /** The last use of the item that operation k inserted: the latest of its insertion and the touches since. */
  ghost function LastUse<O>(ops: seq<Op<O>>, k: nat, id: Id): nat
    requires k < |ops| && ops[k].InsertOp?
  {
    if k + 1 == |ops| then ops[k].tick
    else
      var earlier, op := LastUse(ops[..|ops| - 1], k, id), ops[|ops| - 1];
      if op.TouchOp? && op.id == id && op.tick > earlier then op.tick else earlier
  }

  /** The operation that made it the last use. */
  ghost function LastRise<O>(ops: seq<Op<O>>, k: nat, id: Id): (r: nat)
    requires k < |ops| && ops[k].InsertOp?
    ensures r < |ops|
  {
    if k + 1 == |ops| then k
    else
      var op := ops[|ops| - 1];
      if op.TouchOp? && op.id == id && op.tick > LastUse(ops[..|ops| - 1], k, id) then |ops| - 1
      else LastRise(ops[..|ops| - 1], k, id)
  }

  /** The entry is what the history says of its item, which operation births[id] inserted. */
  ghost predicate AsUsed<O>(ops: seq<Op<O>>, e: Entry<O>, births: map<Id, nat>) {
    && e.id in births && Born(ops, births[e.id], e.id)
    && e == Entry(e.id, ops[births[e.id]].obj, LastUse(ops, births[e.id], e.id))
  }

  ghost function Rank<O>(ops: seq<Op<O>>, births: map<Id, nat>, id: Id): int {
    if id in births && births[id] < |ops| && ops[births[id]].InsertOp? then LastRise(ops, births[id], id) else 0
  }

  ghost predicate Ranked<O>(ops: seq<Op<O>>, es: seq<Entry<O>>, births: map<Id, nat>) {
    forall i, j :: 0 <= i < j < |es| ==> Rank(ops, births, es[i].id) < Rank(ops, births, es[j].id)
  }

  ghost predicate Recorded<O>(ops: seq<Op<O>>, es: seq<Entry<O>>, births: map<Id, nat>) {
    (forall i :: 0 <= i < |es| ==> AsUsed(ops, es[i], births)) && Ranked(ops, es, births)
  }

  /** An item that the next operation neither frees nor raises is as it was. */
  lemma UseKept<O>(ops: seq<Op<O>>, e: Entry<O>, births: map<Id, nat>)
    requires ops != [] && AsUsed(ops[..|ops| - 1], e, births) && !FreesAt(ops, |ops| - 1, e.id)
    ensures births[e.id] < |ops| - 1 && Born(ops, births[e.id], e.id)
    ensures var op := ops[|ops| - 1];
            if op.TouchOp? && op.id == e.id && op.tick > e.tick
            then AsUsed(ops, e.(tick := op.tick), births) && Rank(ops, births, e.id) == |ops| - 1
            else AsUsed(ops, e, births) && Rank(ops, births, e.id) == Rank(ops[..|ops| - 1], births, e.id)
  {
    var n, k := |ops| - 1, births[e.id];
    var earlier := ops[..n];
    assert earlier[..k] == ops[..k] && earlier[k] == ops[k];
    forall j | k < j < |ops| ensures !FreesAt(ops, j, e.id) {
      if j < n {
        assert earlier[..j] == ops[..j] && earlier[j] == ops[j];
        assert !FreesAt(earlier, j, e.id);
      }
    }
  }

  /** If all entries were recorded and the next operation raises none of these, they still are. */
  lemma StillRecorded<O>(ops: seq<Op<O>>, es: seq<Entry<O>>, births: map<Id, nat>)
    requires ops != [] && Recorded(ops[..|ops| - 1], es, births)
    requires forall i :: 0 <= i < |es| ==> !FreesAt(ops, |ops| - 1, es[i].id)
    requires var op := ops[|ops| - 1]; forall i :: 0 <= i < |es| && op.TouchOp? && op.id == es[i].id ==> op.tick <= es[i].tick
    ensures Recorded(ops, es, births)
    ensures forall i :: 0 <= i < |es| ==> Rank(ops, births, es[i].id) < |ops| - 1
  {
    hide AsUsed, FreesAt, Rank;
    forall i | 0 <= i < |es|
      ensures AsUsed(ops, es[i], births) && Rank(ops, births, es[i].id) == Rank(ops[..|ops| - 1], births, es[i].id) < |ops| - 1
    {
      UseKept(ops, es[i], births);
      RankBound(ops[..|ops| - 1], es[i], births);
    }
  }

  lemma RankBound<O>(ops: seq<Op<O>>, e: Entry<O>, births: map<Id, nat>)
    requires AsUsed(ops, e, births)
    ensures Rank(ops, births, e.id) < |ops|
  {
  }

  lemma RecordedWithout<O>(ops: seq<Op<O>>, es: seq<Entry<O>>, births: map<Id, nat>, k: nat)
    requires Recorded(ops, es, births) && k < |es|
    ensures Recorded(ops, Without(es, k), births)
  {
    hide AsUsed, Rank;
    var rest := Without(es, k);
    assert forall i :: 0 <= i < |rest| ==> rest[i] == if i < k then es[i] else es[i + 1];
  }

  lemma RecordedAppend<O>(ops: seq<Op<O>>, es: seq<Entry<O>>, births: map<Id, nat>, e: Entry<O>)
    requires Recorded(ops, es, births) && AsUsed(ops, e, births)
    requires forall i :: 0 <= i < |es| ==> Rank(ops, births, es[i].id) < Rank(ops, births, e.id)
    ensures Recorded(ops, es + [e], births)
  {
    hide AsUsed, Rank;
  }

  /** What a swept cache keeps is what was not freed. */
  lemma {:induction false} SweptRecorded<O>(ops: seq<Op<O>>, s: Abstract<O>, births: map<Id, nat>, n: nat, frees: (Id, O) -> bool)
    requires Recorded(ops, s.entries, births) && Accounted(s) && n <= |s.entries|
    ensures Recorded(ops, Swept(s, n, frees).entries, births)
  {
    hide Recorded, Swept, Accounted;
    if n == 0 {
      SweptNone(s, frees);
    } else {
      SweptRecorded(ops, s, births, n - 1, frees);
      SweptStep(s, n - 1, frees);
      RecordedWithout(ops, Swept(s, n - 1, frees).entries, births, |Kept(s.entries[..n - 1], frees)|);
    }
  }

  /** The ids that a visit frees are not in the cache any more. */
  lemma SweptUnfreed<O>(s: Abstract<O>, n: nat, frees: (Id, O) -> bool)
    requires Accounted(s) && n <= |s.entries|
    ensures forall i :: 0 <= i < |Swept(s, n, frees).entries| ==> Swept(s, n, frees).entries[i].id !in FreedIds(s.entries[..n], frees)
  {
    VisitAccounted(s, n, frees);
    var t := Swept(s, n, frees);
    forall i | 0 <= i < |t.entries| ensures t.entries[i].id !in FreedIds(s.entries[..n], frees) {
      var id := t.entries[i].id;
      assert Ids(t.entries)[i] == id;
      assert id in Ids(t.entries) && id !in t.free;
    }
  }

  lemma InsertRecorded<O>(ops: seq<Op<O>>, s: Abstract<O>, births: map<Id, nat>)
    requires ops != [] && ops[|ops| - 1].InsertOp? && After(ops[..|ops| - 1]) == Some(s) && Accounted(s)
    requires Recorded(ops[..|ops| - 1], s.entries, births)
    ensures Recorded(ops, Do(s, ops[|ops| - 1]).entries, births[NewId(s) := |ops| - 1])
  {
    var n, op, id := |ops| - 1, ops[|ops| - 1], NewId(s);
    var births' := births[id := n];
    InsertAccounted(s, op.obj, op.tick);
    forall i | 0 <= i < |s.entries| ensures s.entries[i].id != id { assert Ids(s.entries)[i] == s.entries[i].id; }
    assert Recorded(ops[..n], s.entries, births') by { OtherBirths(ops[..n], s.entries, births, births'); }
    StillRecorded(ops, s.entries, births');
    assert AsUsed(ops, Entry(id, op.obj, op.tick), births') && Rank(ops, births', id) == n;
    hide AsUsed, Rank, Recorded, After, Accounted;
    RecordedAppend(ops, s.entries, births', Entry(id, op.obj, op.tick));
  }

  lemma OtherBirths<O>(ops: seq<Op<O>>, es: seq<Entry<O>>, births: map<Id, nat>, births': map<Id, nat>)
    requires Recorded(ops, es, births)
    requires forall i :: 0 <= i < |es| && es[i].id in births ==> es[i].id in births' && births'[es[i].id] == births[es[i].id]
    ensures Recorded(ops, es, births')
  {
    forall i | 0 <= i < |es|
      ensures AsUsed(ops, es[i], births') && Rank(ops, births', es[i].id) == Rank(ops, births, es[i].id)
    {
      assert AsUsed(ops, es[i], births);
    }
  }

  lemma TouchRecorded<O>(ops: seq<Op<O>>, s: Abstract<O>, births: map<Id, nat>)
    requires ops != [] && ops[|ops| - 1].TouchOp? && After(ops[..|ops| - 1]) == Some(s) && Accounted(s)
    requires Possible(s, ops[|ops| - 1]) && Recorded(ops[..|ops| - 1], s.entries, births)
    ensures Recorded(ops, Do(s, ops[|ops| - 1]).entries, births)
  {
    var op, k := ops[|ops| - 1], IndexOf(s.entries, ops[|ops| - 1].id);
    var e := s.entries[k];
    var rest := Without(s.entries, k);
    WithoutOthers(s, k);
    hide Accounted, After, AsUsed, Rank, Born;
    if e.tick >= op.tick {
      forall i | 0 <= i < |s.entries| && s.entries[i].id == op.id ensures s.entries[i] == e { SameIndex(s, i, k); }
      StillRecorded(ops, s.entries, births);
    } else {
      RecordedWithout(ops[..|ops| - 1], s.entries, births, k);
      StillRecorded(ops, rest, births);
      UseKept(ops, e, births);
      RecordedAppend(ops, rest, births, e.(tick := op.tick));
    }
  }

  lemma WithoutOthers<O>(s: Abstract<O>, k: nat)
    requires Accounted(s) && k < |s.entries|
    ensures forall i :: 0 <= i < |Without(s.entries, k)| ==> Without(s.entries, k)[i].id != s.entries[k].id
  {
    FreeAccounted(s, k);
    var rest := Without(s.entries, k);
    forall i | 0 <= i < |rest| ensures rest[i].id != s.entries[k].id { assert Ids(rest)[i] == rest[i].id; }
  }

  lemma SameIndex<O>(s: Abstract<O>, i: nat, k: nat)
    requires Accounted(s) && i < |s.entries| && k < |s.entries| && s.entries[i].id == s.entries[k].id
    ensures i == k
  {
    assert Ids(s.entries)[i] == Ids(s.entries)[k];
  }

  /**
   Every history determines its cache: which ids it names, with which objects, their ticks, which are their last
   uses, and their order, which is that of the operations that used them last.
   */
  lemma {:induction false} History<O>(ops: seq<Op<O>>) returns (births: map<Id, nat>)
    requires After(ops).Some?
    ensures Recorded(ops, After(ops).value.entries, births)
    decreases |ops|
  {
    if ops == [] {
      births := map[];
    } else {
      var n := |ops| - 1;
      var s, op := After(ops[..n]).value, ops[n];
      births := History(ops[..n]);
      ReachableAccounted(ops[..n]);
      hide Recorded, Accounted;
      match op {
        case InsertOp(_, _) =>
          InsertRecorded(ops, s, births);
          births := births[NewId(s) := n];
        case TouchOp(_, _) =>
          TouchRecorded(ops, s, births);
        case FreeOp(id) =>
          var k := IndexOf(s.entries, id);
          RecordedWithout(ops[..n], s.entries, births, k);
          WithoutOthers(s, k);
          StillRecorded(ops, Without(s.entries, k), births);
        case VisitOp(bound, frees) =>
          var m := PrefixBelow(s.entries, bound);
          SweptRecorded(ops[..n], s, births, m, frees);
          SweptUnfreed(s, m, frees);
          StillRecorded(ops, Swept(s, m, frees).entries, births);
      }
    }
  }

  /** An item inserted by operation k and not freed since is in the cache. */
  lemma BornIsNamed<O>(ops: seq<Op<O>>, k: nat, id: Id, n: nat)
    requires After(ops).Some? && Born(ops, k, id) && k < n <= |ops|
    ensures After(ops[..n]).Some? && Names(After(ops[..n]).value, id, ops[k].obj)
    decreases n
  {
    hide Names, Frees, After;
    AfterPrefix(ops, n - 1);
    var s := After(ops[..n - 1]).value;
    if n == k + 1 {
      InsertNames(s, ops[k]);
    } else {
      BornIsNamed(ops, k, id, n - 1);
      assert !FreesAt(ops, n - 1, id);
      StepKeepsName(s, ops[n - 1], id, ops[k].obj);
    }
  }

  lemma InsertNames<O>(s: Abstract<O>, op: Op<O>)
    requires op.InsertOp?
    ensures Names(Do(s, op), NewId(s), op.obj)
  {
    assert Do(s, op).entries[|s.entries|] == Entry(NewId(s), op.obj, op.tick);
  }

  lemma NamedIsLive<O>(s: Abstract<O>, id: Id, obj: O)
    requires Names(s, id, obj)
    ensures Live(s, id)
  {
  }

  lemma BornOnce<O>(ops: seq<Op<O>>, k: nat, l: nat, id: Id)
    requires After(ops).Some? && Born(ops, k, id) && Born(ops, l, id)
    ensures k == l
  {
    var a, b := if k < l then k else l, if k < l then l else k;
    if a < b {
      BornIsNamed(ops, a, id, b);
      NamedIsLive(After(ops[..b]).value, id, ops[a].obj);
      hide Born, Names, Live;
      NewIsNotLive(ops, b, id);
    }
  }

  lemma NewIsNotLive<O>(ops: seq<Op<O>>, k: nat, id: Id)
    requires Born(ops, k, id)
    ensures !Live(After(ops[..k]).value, id)
  {
    IdsAreReused(ops[..k]);
  }

  lemma LiveIsBorn<O>(ops: seq<Op<O>>, id: Id) returns (k: nat)
    requires After(ops).Some? && Live(After(ops).value, id)
    ensures Born(ops, k, id)
  {
    var s := After(ops).value;
    var births := History(ops);
    hide After, Born, Rank;
    var i :| 0 <= i < |s.entries| && s.entries[i].id == id;
    assert AsUsed(ops, s.entries[i], births);
    k := births[id];
  }

  /** An id is in the cache exactly if some operation inserted it and none since has freed it. */
  lemma LiveExactly<O>(ops: seq<Op<O>>, id: Id)
    requires After(ops).Some?
    ensures Live(After(ops).value, id) <==> exists k: nat :: Born(ops, k, id)
  {
    hide Live, After, Born, Names;
    if Live(After(ops).value, id) { var _ := LiveIsBorn(ops, id); }
    if k: nat :| Born(ops, k, id) {
      BornIsEarlier(ops, k, id);
      BornIsNamed(ops, k, id, |ops|);
      assert ops[..|ops|] == ops;
      NamedIsLive(After(ops).value, id, ops[k].obj);
    }
  }

  lemma BornIsEarlier<O>(ops: seq<Op<O>>, k: nat, id: Id)
    requires Born(ops, k, id)
    ensures k < |ops| && ops[k].InsertOp?
  {
  }

  /** Its entry holds the object inserted and its last use. */
  lemma TickIsLastUse<O>(ops: seq<Op<O>>, i: nat, k: nat)
    requires After(ops).Some? && i < |After(ops).value.entries| && Born(ops, k, After(ops).value.entries[i].id)
    ensures var e := After(ops).value.entries[i];
            e.obj == ops[k].obj && e.tick == LastUse(ops, k, e.id)
  {
    var births := History(ops);
    var e := After(ops).value.entries[i];
    assert AsUsed(ops, e, births);
    hide After;
    BornOnce(ops, k, births[e.id], e.id);
  }

  /** The cache is in the order of the operations that used the items last: the last of them all is at the end. */
  lemma OrderIsByUse<O>(ops: seq<Op<O>>, i: nat, j: nat, k: nat, l: nat)
    requires After(ops).Some? && i < |After(ops).value.entries| && j < |After(ops).value.entries|
    requires Born(ops, k, After(ops).value.entries[i].id) && Born(ops, l, After(ops).value.entries[j].id)
    ensures var es := After(ops).value.entries;
            i < j <==> LastRise(ops, k, es[i].id) < LastRise(ops, l, es[j].id)
  {
    var births := History(ops);
    var es := After(ops).value.entries;
    assert AsUsed(ops, es[i], births) && AsUsed(ops, es[j], births);
    BornOnce(ops, k, births[es[i].id], es[i].id);
    BornOnce(ops, l, births[es[j].id], es[j].id);
    hide After, LastRise;
    assert Rank(ops, births, es[i].id) == LastRise(ops, k, es[i].id) && Rank(ops, births, es[j].id) == LastRise(ops, l, es[j].id);
  }

  /** A visit covers exactly the items whose last use is not newer than the bound. */
  lemma VisitCoversByUse<O>(ops: seq<Op<O>>, bound: nat, i: nat, k: nat)
    requires After(ops).Some? && Timely(ops) && Clock(ops) < SIGN_BIT
    requires i < |After(ops).value.entries| && Born(ops, k, After(ops).value.entries[i].id)
    ensures var es := After(ops).value.entries;
            i < PrefixBelow(es, bound) <==> LastUse(ops, k, es[i].id) <= ToSigned(bound)
  {
    StaysSorted(ops);
    TickIsLastUse(ops, i, k);
    hide After, Timely, Born, LastUse;
    VisitsSigned(After(ops).value.entries, bound);
  }

  lemma {:induction false} FreedIdsExactly<O>(es: seq<Entry<O>>, frees: (Id, O) -> bool, id: Id)
    ensures id in FreedIds(es, frees) <==> exists i :: 0 <= i < |es| && es[i].id == id && frees(es[i].id, es[i].obj)
  {
    if es != [] {
      var n := |es| - 1;
      FreedIdsExactly(es[..n], frees, id);
      assert forall i :: 0 <= i < n ==> es[..n][i] == es[i];
    }
  }

  lemma FreedGone<O>(s: Abstract<O>, n: nat, frees: (Id, O) -> bool, id: Id)
    requires Accounted(s) && n <= |s.entries| && id in FreedIds(s.entries[..n], frees)
    ensures !Live(Swept(s, n, frees), id)
  {
    SweptUnfreed(s, n, frees);
    hide Swept, FreedIds, Accounted;
  }

  lemma FreedItself<O>(s: Abstract<O>, n: nat, frees: (Id, O) -> bool, i: nat)
    requires Accounted(s) && n <= |s.entries| && i < |s.entries|
    ensures s.entries[i].id in FreedIds(s.entries[..n], frees) <==> i < n && frees(s.entries[i].id, s.entries[i].obj)
  {
    var id := s.entries[i].id;
    FreedIdsExactly(s.entries[..n], frees, id);
    hide FreedIds, Accounted;
    if id in FreedIds(s.entries[..n], frees) {
      var j :| 0 <= j < n && s.entries[..n][j].id == id && frees(s.entries[..n][j].id, s.entries[..n][j].obj);
      SameIndex(s, i, j);
    }
    if i < n { assert s.entries[..n][i] == s.entries[i]; }
  }

  /** After a visit an item is gone exactly if it was visited and the callback freed it. */
  lemma VisitFreesExactly<O>(ops: seq<Op<O>>, bound: nat, frees: (Id, O) -> bool, i: nat)
    requires After(ops).Some? && After(ops + [VisitOp(bound, frees)]).Some? && i < |After(ops).value.entries|
    ensures var s, e := After(ops).value, After(ops).value.entries[i];
            Live(After(ops + [VisitOp(bound, frees)]).value, e.id) <==> !(i < PrefixBelow(s.entries, bound) && frees(e.id, e.obj))
  {
    OneMoreOp(ops, VisitOp(bound, frees));
    ReachableAccounted(ops);
    var s := After(ops).value;
    var e, n, op := s.entries[i], PrefixBelow(s.entries, bound), VisitOp(bound, frees);
    assert Names(s, e.id, e.obj);
    assert Do(s, op) == Swept(s, n, frees) && (Frees(s, op, e.id) <==> e.id in FreedIds(s.entries[..n], frees));
    hide After, Swept, FreedIds, Kept, Live, Names, Accounted, Do, Frees;
    FreedItself(s, n, frees, i);
    if e.id in FreedIds(s.entries[..n], frees) {
      FreedGone(s, n, frees, e.id);
    } else {
      StepKeepsName(s, op, e.id, e.obj);
      NamedIsLive(Do(s, op), e.id, e.obj);
    }
  }
}
