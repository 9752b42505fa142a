/** The cache object: an array of entries stamped with a clock, the smallest stamp being the oldest use. */
module DictCache {
  import opened Common
  import opened RecencyList

  const DEFAULT_CAPACITY: nat := 128

  /** A slot with no key is free. */
  datatype Entry = Entry(key: Option<string>, json: string, lastUsed: nat)

  const FREE: Entry := Entry(None, "", 0)

  /** order lists the slots in use by falling stamps, and no key is stored twice. */
  ghost predicate Ordered(es: seq<Entry>, order: seq<nat>, clock: nat) {
    && (forall p | 0 <= p < |order| :: order[p] < |es| && es[order[p]].key.Some?)
    && (forall p, q | 0 <= p < q < |order| :: es[order[p]].lastUsed > es[order[q]].lastUsed)
    && (forall i | 0 <= i < |es| && es[i].key.Some? :: i in order && es[i].lastUsed <= clock)
    && (forall i, j | 0 <= i < j < |es| && es[i].key.Some? :: es[i].key != es[j].key)
  }

  ghost predicate InRange(es: seq<Entry>, order: seq<nat>) {
    forall p | 0 <= p < |order| :: order[p] < |es| && es[order[p]].key.Some?
  }

  /** The recency list that an array of entries stands for. */
  ghost function ItemsOf(es: seq<Entry>, order: seq<nat>): (r: seq<Item>)
    requires InRange(es, order)
    ensures |r| == |order|
    ensures forall p | 0 <= p < |order| :: r[p] == Item(es[order[p]].key.value, es[order[p]].json)
  {
    seq(|order|, p requires 0 <= p < |order| => Item(es[order[p]].key.value, es[order[p]].json))
  }

  lemma ItemsUnique(es: seq<Entry>, order: seq<nat>, clock: nat)
    requires Ordered(es, order, clock)
    ensures UniqueKeys(ItemsOf(es, order))
    ensures forall p, q | 0 <= p < q < |order| :: order[p] != order[q]
  {
    forall p, q | 0 <= p < q < |order|
      ensures order[p] != order[q] && es[order[p]].key != es[order[q]].key
    {
      assert es[order[p]].lastUsed > es[order[q]].lastUsed;
    }
  }

  /** Looking a key up in the list is finding its slot. */
  lemma LookupSlot(es: seq<Entry>, order: seq<nat>, clock: nat, key: string, i: int)
    requires Ordered(es, order, clock)
    requires if i < 0 then forall j | 0 <= j < |es| :: es[j].key != Some(key) else i < |es| && es[i].key == Some(key)
    ensures Lookup(ItemsOf(es, order), key) == if i < 0 then None else Some(es[i].json)
  {
    var items := ItemsOf(es, order);
    LookupMeans(items, key);
    if i >= 0 {
      var p :| 0 <= p < |order| && order[p] == i;
      ItemsUnique(es, order, clock);
      LookupAt(items, p);
    }
  }

  function Removed<T>(s: seq<T>, p: nat): seq<T>
    requires p < |s|
  {
    s[..p] + s[p + 1..]
  }

  lemma RemovedAt<T>(s: seq<T>, p: nat, r: seq<T>)
    requires p < |s| && r == Removed(s, p)
    ensures |r| == |s| - 1
    ensures forall q | 0 <= q < |r| :: r[q] == s[if q < p then q else q + 1]
    ensures forall x | x in s && x != s[p] :: x in r
  {
    forall x | x in s && x != s[p]
      ensures x in r
    {
      var q :| 0 <= q < |s| && s[q] == x;
      assert r[if q < p then q else q - 1] == x;
    }
  }

  /** Freeing a slot takes it out of the order. */
  lemma Freed(es: seq<Entry>, order: seq<nat>, clock: nat, p: nat, i: nat, new': seq<Entry>, rest: seq<nat>)
    requires Ordered(es, order, clock) && p < |order| && i == order[p] && new' == es[i := FREE] && rest == Removed(order, p)
    ensures Ordered(new', rest, clock) && i !in rest
    ensures ItemsOf(new', rest) == Removed(ItemsOf(es, order), p)
  {
    ItemsUnique(es, order, clock);
    RemovedAt(order, p, rest);
    assert i !in rest;
    FreedOrdered(es, order, clock, i, new', rest);
    var a, b := ItemsOf(new', rest), Removed(ItemsOf(es, order), p);
    RemovedAt(ItemsOf(es, order), p, b);
    assert forall q | 0 <= q < |a| :: a[q] == b[q];
  }

  lemma FreedOrdered(es: seq<Entry>, order: seq<nat>, clock: nat, i: nat, new': seq<Entry>, rest: seq<nat>)
    requires Ordered(es, order, clock) && i < |es| && new' == es[i := FREE] && i !in rest
    requires forall q | 0 <= q < |rest| :: rest[q] < |es| && es[rest[q]].key.Some?
    requires forall q, r | 0 <= q < r < |rest| :: es[rest[q]].lastUsed > es[rest[r]].lastUsed
    requires forall x | x in order && x != i :: x in rest
    ensures Ordered(new', rest, clock)
  {
    assert forall q | 0 <= q < |rest| :: rest[q] != i;
  }

  /** A free slot filled under a new stamp becomes the front. */
  lemma Filled(es: seq<Entry>, order: seq<nat>, clock: nat, i: nat, e: Entry, new': seq<Entry>, front: seq<nat>)
    requires Ordered(es, order, clock) && i < |es| && es[i].key.None? && e.key.Some? && e.lastUsed == clock + 1
    requires forall j | 0 <= j < |es| :: es[j].key != e.key
    requires new' == es[i := e] && front == [i] + order
    ensures Ordered(new', front, clock + 1)
    ensures ItemsOf(new', front) == [Item(e.key.value, e.json)] + ItemsOf(es, order)
  {
    FilledOrdered(es, order, clock, i, e, new', front);
    var a, b := ItemsOf(new', front), [Item(e.key.value, e.json)] + ItemsOf(es, order);
    forall q | 0 < q < |front|
      ensures a[q] == b[q]
    {
      assert front[q] == order[q - 1];
      assert es[order[q - 1]].key.Some?;
    }
    assert forall q | 0 <= q < |a| :: a[q] == b[q];
  }

  lemma FilledOrdered(es: seq<Entry>, order: seq<nat>, clock: nat, i: nat, e: Entry, new': seq<Entry>, front: seq<nat>)
    requires Ordered(es, order, clock) && i < |es| && es[i].key.None? && e.key.Some? && e.lastUsed == clock + 1
    requires forall j | 0 <= j < |es| :: es[j].key != e.key
    requires new' == es[i := e] && front == [i] + order
    ensures Ordered(new', front, clock + 1)
  {
    forall q | 0 < q < |front|
      ensures front[q] == order[q - 1] && front[q] < |es| && new'[front[q]] == es[order[q - 1]]
      ensures es[order[q - 1]].key.Some? && es[order[q - 1]].lastUsed <= clock
    {
    }
    forall x | x in order
      ensures x in front
    {
    }
    assert front[0] == i;
  }

  /** A new stamp on the slot at place p of the order moves it to the front: as if freed and filled again. */
  lemma Restamped(es: seq<Entry>, order: seq<nat>, clock: nat, p: nat, i: nat, e: Entry)
    requires Ordered(es, order, clock) && p < |order| && i == order[p] && e.key.Some? && e.lastUsed == clock + 1
    requires forall j | 0 <= j < |es| && j != i :: es[j].key != e.key
    ensures
      var new', front := es[i := e], [i] + Removed(order, p);
      && Ordered(new', front, clock + 1)
      && ItemsOf(new', front) == [Item(e.key.value, e.json)] + Removed(ItemsOf(es, order), p)
  {
    var freed, rest := es[i := FREE], Removed(order, p);
    Freed(es, order, clock, p, i, freed, rest);
    var new', front := freed[i := e], [i] + rest;
    Filled(freed, rest, clock, i, e, new', front);
    assert new' == es[i := e];
  }

  lemma {:induction false} SubsetSize(a: set<nat>, b: set<nat>)
    requires a <= b
    ensures |a| <= |b| && (a != b ==> |a| < |b|)
  {
    if a == {} {
      if b != {} {
        var x :| x in b;
        assert |b - {x}| == |b| - 1;
      }
    } else {
      var x :| x in a;
      SubsetSize(a - {x}, b - {x});
    }
  }

  lemma {:induction false} SlotSet(order: seq<nat>) returns (s: set<nat>)
    requires forall p, q | 0 <= p < q < |order| :: order[p] != order[q]
    ensures |s| == |order| && forall i :: i in s <==> i in order
  {
    if order == [] {
      s := {};
    } else {
      var last := |order| - 1;
      s := SlotSet(order[..last]);
      s := s + {order[last]};
      assert order == order[..last] + [order[last]];
    }
  }

  /** The list has as many entries as slots in use: the capacity exactly when no slot is free. */
  lemma OrderSize(es: seq<Entry>, order: seq<nat>, clock: nat)
    requires Ordered(es, order, clock)
    ensures |order| <= |es|
    ensures |order| == |es| <==> forall i | 0 <= i < |es| :: es[i].key.Some?
  {
    ItemsUnique(es, order, clock);
    var s := SlotSet(order);
    var all := Upto(|es|);
    assert s <= all;
    SubsetSize(s, all);
    if i :| 0 <= i < |es| && es[i].key.None? {
      assert i in all && i !in s;
    } else {
      assert forall i | i in all :: i in s;
      assert s == all;
    }
  }

  /** In a full array the slot with the smallest stamp is the last of the order. */
  lemma OldestIsLast(es: seq<Entry>, order: seq<nat>, clock: nat, slot: nat)
    requires Ordered(es, order, clock) && slot < |es|
    requires forall i | 0 <= i < |es| :: es[i].key.Some? && es[slot].lastUsed <= es[i].lastUsed
    ensures |order| == |es| && order[|order| - 1] == slot
  {
    OrderSize(es, order, clock);
    var p :| 0 <= p < |order| && order[p] == slot;
    var last := order[|order| - 1];
    assert es[slot].lastUsed >= es[last].lastUsed;
  }

  lemma RemovedIsWithout(es: seq<Entry>, order: seq<nat>, clock: nat, p: nat)
    requires Ordered(es, order, clock) && p < |order|
    ensures Without(ItemsOf(es, order), es[order[p]].key.value) == Removed(ItemsOf(es, order), p)
  {
    ItemsUnique(es, order, clock);
    WithoutAt(ItemsOf(es, order), p);
  }

  lemma PutInRoom(items: seq<Item>, capacity: nat, key: string, json: string)
    requires Lookup(items, key).None? && |items| < capacity
    ensures AfterPut(items, capacity, key, json) == [Item(key, json)] + items
  {
    LookupMeans(items, key);
    WithoutAbsent(items, key);
  }

  class Cache {
    const entries: array<Entry>
    var clock: nat
    var hits: nat
    var misses: nat
    ghost var order: seq<nat>

    ghost predicate Valid()
      reads this, entries
    {
      entries.Length > 0 && Ordered(entries[..], order, clock)
    }

    ghost function Items(): seq<Item>
      reads this, entries
      requires Valid()
    {
      ItemsOf(entries[..], order)
    }

    /** dict_cache_create */
    constructor (capacity: int)
      ensures Valid() && fresh(entries) && Items() == []
      ensures entries.Length == if capacity <= 0 then DEFAULT_CAPACITY else capacity
      ensures hits == misses == 0
    {
      var n := if capacity <= 0 then DEFAULT_CAPACITY else capacity;
      entries := new Entry[n](_ => FREE);
      clock, hits, misses, order := 0, 0, 0, [];
    }

    /** dict_cache_find */
    method Find(key: string) returns (index: int)
      requires Valid()
      ensures -1 <= index < entries.Length
      ensures if index < 0 then forall j | 0 <= j < entries.Length :: entries[j].key != Some(key)
              else entries[index].key == Some(key)
    {
      for i := 0 to entries.Length
        invariant forall j | 0 <= j < i :: entries[j].key != Some(key)
      {
        if entries[i].key == Some(key) {
          return i;
        }
      }
      return -1;
    }

    /** dict_cache_slot_for_put: the first free slot, or else one with the smallest stamp. */
    method SlotForPut() returns (slot: nat)
      requires Valid()
      ensures slot < entries.Length
      ensures if entries[slot].key.None? then forall j | 0 <= j < slot :: entries[j].key.Some?
              else forall j | 0 <= j < entries.Length :: entries[j].key.Some? && entries[slot].lastUsed <= entries[j].lastUsed
    {
      slot := 0;
      var oldestUsed := entries[0].lastUsed;
      for i := 0 to entries.Length
        invariant slot < entries.Length && oldestUsed == entries[slot].lastUsed && (slot < i || slot == 0)
        invariant forall j | 0 <= j < i :: entries[j].key.Some? && oldestUsed <= entries[j].lastUsed
      {
        if entries[i].key.None? {
          return i;
        }
        var used := entries[i].lastUsed;
        if used < oldestUsed {
          slot, oldestUsed := i, used;
        }
      }
    }

    /** dict_cache_get: a hit returns the stored value and makes its entry the most recent. */
    method Get(key: Option<string>, hasOut: bool) returns (hit: bool, json: Option<string>)
      requires Valid()
      modifies this, entries
      ensures Valid()
      ensures !hasOut || key.None? || key.value == "" ==>
                !hit && json.None? && Items() == old(Items()) && hits == old(hits) && misses == old(misses)
      ensures hasOut && key.Some? && key.value != "" ==>
                && json == Lookup(old(Items()), key.value) && hit == json.Some?
                && Items() == AfterGet(old(Items()), key.value)
                && hits == old(hits) + (if hit then 1 else 0) && misses == old(misses) + (if hit then 0 else 1)
    {
      if !hasOut {
        return false, None;
      }
      if key.None? || key.value == "" {
        return false, None;
      }
      var index := Find(key.value);
      LookupSlot(entries[..], order, clock, key.value, index);
      if index < 0 {
        misses := misses + 1;
        return false, None;
      }
      json := Some(entries[index].json);
      ghost var _ := Touch(index, Entry(key, json.value, clock + 1));
      hits := hits + 1;
      hit := true;
    }

    /** Stores an entry with a new stamp in a slot in use. */
    method Touch(index: nat, e: Entry) returns (ghost p: nat)
      requires Valid() && index < entries.Length && entries[index].key.Some? && e.key.Some? && e.lastUsed == clock + 1
      requires forall j | 0 <= j < entries.Length && j != index :: entries[j].key != e.key
      modifies this`clock, this`order, entries
      ensures Valid()
      ensures p < |old(order)| && old(order)[p] == index && hits == old(hits) && misses == old(misses)
      ensures Items() == [Item(e.key.value, e.json)] + Removed(old(Items()), p)
      ensures Without(old(Items()), old(entries[index]).key.value) == Removed(old(Items()), p)
    {
      ghost var es := entries[..];
      p :| 0 <= p < |order| && order[p] == index;
      Restamped(es, order, clock, p, index, e);
      RemovedIsWithout(es, order, clock, p);
      clock := clock + 1;
      entries[index] := e;
      order := [index] + Removed(order, p);
      assert entries[..] == es[index := e];
    }

    /** Stores an entry with a new stamp in a free slot. */
    method Fill(index: nat, e: Entry)
      requires Valid() && index < entries.Length && entries[index].key.None? && e.key.Some? && e.lastUsed == clock + 1
      requires forall j | 0 <= j < entries.Length :: entries[j].key != e.key
      modifies this`clock, this`order, entries
      ensures Valid() && hits == old(hits) && misses == old(misses)
      ensures Items() == [Item(e.key.value, e.json)] + old(Items())
    {
      ghost var es := entries[..];
      Filled(es, order, clock, index, e, es[index := e], [index] + order);
      clock := clock + 1;
      entries[index] := e;
      order := [index] + order;
      assert entries[..] == es[index := e];
    }

    /** dict_cache_put */
    method Put(key: Option<string>, json: Option<string>) returns (rc: int)
      requires Valid()
      modifies this, entries
      ensures Valid() && hits == old(hits) && misses == old(misses)
      ensures rc == if key.None? || key.value == "" || json.None? then -1 else 0
      ensures Items() == if rc < 0 then old(Items()) else AfterPut(old(Items()), entries.Length, key.value, json.value)
    {
      if key.None? || key.value == "" || json.None? {
        return -1;
      }
      var index := Find(key.value);
      LookupSlot(entries[..], order, clock, key.value, index);
      if index < 0 {
        index := SlotForPut();
        PutNew(index, Entry(key, json.value, clock + 1));
      } else {
        ghost var _ := Touch(index, Entry(key, json.value, clock + 1));
      }
      rc := 0;
    }

    /** The store of a key that is not in the cache, in the slot SlotForPut chose. */
    method PutNew(index: nat, e: Entry)
      requires Valid() && index < entries.Length && e.key.Some? && e.lastUsed == clock + 1
      requires forall j | 0 <= j < entries.Length :: entries[j].key != e.key
      requires Lookup(Items(), e.key.value).None?
      requires entries[index].key.Some? ==>
                 forall j | 0 <= j < entries.Length :: entries[j].key.Some? && entries[index].lastUsed <= entries[j].lastUsed
      modifies this, entries
      ensures Valid() && hits == old(hits) && misses == old(misses)
      ensures Items() == AfterPut(old(Items()), entries.Length, e.key.value, e.json)
    {
      ghost var items := Items();
      OrderSize(entries[..], order, clock);
      if entries[index].key.None? {
        PutInRoom(items, entries.Length, e.key.value, e.json);
        Fill(index, e);
      } else {
        OldestIsLast(entries[..], order, clock, index);
        ItemsUnique(entries[..], order, clock);
        ghost var p := Touch(index, e);
        assert Removed(items, p) == items[..|items| - 1];
      }
    }

    /** dict_cache_invalidate */
    method Invalidate(key: Option<string>)
      requires Valid()
      modifies this, entries
      ensures Valid() && hits == old(hits) && misses == old(misses)
      ensures Items() == if key.None? || key.value == "" then old(Items()) else Without(old(Items()), key.value)
    {
      if key.None? || key.value == "" {
        return;
      }
      var index := Find(key.value);
      LookupSlot(entries[..], order, clock, key.value, index);
      if index >= 0 {
        Free(index);
      } else {
        LookupMeans(Items(), key.value);
        WithoutAbsent(Items(), key.value);
      }
    }

    /** dict_cache_entry_free */
    method Free(index: nat)
      requires Valid() && index < entries.Length && entries[index].key.Some?
      modifies this`order, entries
      ensures Valid() && Items() == Without(old(Items()), old(entries[index]).key.value)
    {
      ghost var es := entries[..];
      ghost var p :| 0 <= p < |order| && order[p] == index;
      Freed(es, order, clock, p, index, es[index := FREE], Removed(order, p));
      RemovedIsWithout(es, order, clock, p);
      entries[index] := FREE;
      order := Removed(order, p);
      assert entries[..] == es[index := FREE];
    }

    /** dict_cache_invalidate_all */
    method InvalidateAll()
      requires Valid()
      modifies this, entries
      ensures Valid() && Items() == [] && clock == 0 && hits == old(hits) && misses == old(misses)
    {
      for i := 0 to entries.Length
        invariant forall j | 0 <= j < i :: entries[j] == FREE
        invariant hits == old(hits) && misses == old(misses)
      {
        entries[i] := FREE;
      }
      clock := 0;
      order := [];
    }
  }
}
