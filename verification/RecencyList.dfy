/** What src/dict_cache.c is meant to be: a bounded list of entries, the most recently used first. */
module RecencyList {
  import opened Common

  datatype Item = Item(key: string, json: string)

  function Lookup(items: seq<Item>, key: string): Option<string> {
    if items == [] then None
    else if items[0].key == key then Some(items[0].json)
    else Lookup(items[1..], key)
  }

  function Without(items: seq<Item>, key: string): seq<Item> {
    if items == [] then []
    else if items[0].key == key then Without(items[1..], key)
    else [items[0]] + Without(items[1..], key)
  }

  /** A hit moves its entry to the front. */
  function AfterGet(items: seq<Item>, key: string): seq<Item> {
    match Lookup(items, key)
    case Some(json) => [Item(key, json)] + Without(items, key)
    case None => items
  }

  /** A put ends at the front; a new key in a full list pushes out the last entry. */
  function AfterPut(items: seq<Item>, capacity: nat, key: string, json: string): seq<Item> {
    if Lookup(items, key).None? && |items| > 0 && |items| >= capacity then
      [Item(key, json)] + items[..|items| - 1]
    else [Item(key, json)] + Without(items, key)
  }

  ghost predicate UniqueKeys(items: seq<Item>) {
    forall i, j | 0 <= i < j < |items| :: items[i].key != items[j].key
  }

  lemma {:induction false} LookupMeans(items: seq<Item>, key: string)
    ensures Lookup(items, key).None? <==> forall i | 0 <= i < |items| :: items[i].key != key
    ensures Lookup(items, key).Some? ==>
              exists i | 0 <= i < |items| :: items[i] == Item(key, Lookup(items, key).value)
  {
    if items != [] {
      LookupMeans(items[1..], key);
      var found := Lookup(items[1..], key);
      if items[0].key == key {
        assert items[0] == Item(key, items[0].json);
      } else {
        if found.Some? {
          var i :| 0 <= i < |items[1..]| && items[1..][i] == Item(key, found.value);
          assert items[i + 1] == Item(key, found.value);
        }
        assert forall i | 0 < i < |items| :: items[i] == items[1..][i - 1];
      }
    }
  }

  lemma LookupAt(items: seq<Item>, i: nat)
    requires UniqueKeys(items) && i < |items|
    ensures Lookup(items, items[i].key) == Some(items[i].json)
  {
    LookupMeans(items, items[i].key);
  }

  lemma {:induction false} WithoutAbsent(items: seq<Item>, key: string)
    requires forall i | 0 <= i < |items| :: items[i].key != key
    ensures Without(items, key) == items
  {
    if items != [] {
      WithoutAbsent(items[1..], key);
    }
  }

  /** Removing a unique key takes out its one entry. */
  lemma {:induction false} WithoutAt(items: seq<Item>, i: nat)
    requires UniqueKeys(items) && i < |items|
    ensures Without(items, items[i].key) == items[..i] + items[i + 1..]
  {
    var key := items[i].key;
    if i == 0 {
      WithoutAbsent(items[1..], key);
    } else {
      var rest := items[1..];
      WithoutAt(rest, i - 1);
      assert rest[..i - 1] + rest[i..] == Without(rest, key);
      assert [items[0]] + rest[..i - 1] == items[..i];
      assert rest[i..] == items[i + 1..];
      assert [items[0]] + (rest[..i - 1] + rest[i..]) == items[..i] + items[i + 1..];
    }
  }

  lemma {:induction false} WithoutMember(items: seq<Item>, key: string)
    ensures forall x :: x in Without(items, key) <==> x in items && x.key != key
    ensures |Without(items, key)| <= |items|
    ensures Lookup(items, key).Some? ==> |Without(items, key)| < |items|
    ensures UniqueKeys(items) ==> UniqueKeys(Without(items, key))
  {
    if items != [] {
      WithoutMember(items[1..], key);
      var rest := Without(items[1..], key);
      if items[0].key != key && UniqueKeys(items) {
        forall j | 0 <= j < |rest|
          ensures rest[j].key != items[0].key
        {
          assert rest[j] in items[1..];
        }
      }
    }
  }

  lemma {:induction false} LookupWithout(items: seq<Item>, key: string, other: string)
    ensures Lookup(Without(items, key), other) == if other == key then None else Lookup(items, other)
  {
    if items != [] {
      LookupWithout(items[1..], key, other);
    }
  }

  // ---------- whole runs ----------

  datatype Op = GetOp(key: string) | PutOp(key: string, json: string) | InvalidateOp(key: string) | ClearOp

  function Step(items: seq<Item>, capacity: nat, op: Op): seq<Item> {
    match op
    case GetOp(key) => AfterGet(items, key)
    case PutOp(key, json) => AfterPut(items, capacity, key, json)
    case InvalidateOp(key) => Without(items, key)
    case ClearOp => []
  }

  /** The list after a run of operations on an empty cache. */
  function Run(capacity: nat, ops: seq<Op>): seq<Item> {
    if ops == [] then [] else Step(Run(capacity, ops[..|ops| - 1]), capacity, ops[|ops| - 1])
  }

  /** The value of the last put of key since it was last invalidated. */
  function LastPut(ops: seq<Op>, key: string): Option<string> {
    if ops == [] then None
    else
      var before := LastPut(ops[..|ops| - 1], key);
      match ops[|ops| - 1]
      case GetOp(_) => before
      case PutOp(k, json) => if k == key then Some(json) else before
      case InvalidateOp(k) => if k == key then None else before
      case ClearOp => None
  }

  lemma GetKeeps(items: seq<Item>, capacity: nat, key: string)
    requires UniqueKeys(items) && |items| <= capacity
    ensures UniqueKeys(AfterGet(items, key)) && |AfterGet(items, key)| <= capacity
    ensures forall k :: Lookup(AfterGet(items, key), k) == Lookup(items, k)
  {
    WithoutMember(items, key);
    forall k
      ensures Lookup(AfterGet(items, key), k) == Lookup(items, k)
    {
      LookupWithout(items, key, k);
      if Lookup(items, key).Some? {
        assert AfterGet(items, key)[1..] == Without(items, key);
      }
    }
  }

  lemma {:induction false} LookupPrefix(items: seq<Item>, n: nat, key: string)
    requires n <= |items|
    ensures Lookup(items[..n], key).Some? ==> Lookup(items[..n], key) == Lookup(items, key)
  {
    if n > 0 {
      assert items[..n][1..] == items[1..][..n - 1];
      LookupPrefix(items[1..], n - 1, key);
    }
  }

  /** A put makes room for one entry and can only lose other keys. */
  lemma PutKeeps(items: seq<Item>, capacity: nat, key: string, json: string)
    requires UniqueKeys(items) && |items| <= capacity && capacity > 0
    ensures UniqueKeys(AfterPut(items, capacity, key, json)) && |AfterPut(items, capacity, key, json)| <= capacity
    ensures Lookup(AfterPut(items, capacity, key, json), key) == Some(json)
    ensures forall k | k != key && Lookup(AfterPut(items, capacity, key, json), k).Some? ::
              Lookup(AfterPut(items, capacity, key, json), k) == Lookup(items, k)
  {
    var r := AfterPut(items, capacity, key, json);
    WithoutMember(items, key);
    LookupMeans(items, key);
    forall k | k != key && Lookup(r, k).Some?
      ensures Lookup(r, k) == Lookup(items, k)
    {
      LookupWithout(items, key, k);
      if Lookup(items, key).None? && |items| >= capacity {
        assert r[1..] == items[..|items| - 1];
        LookupPrefix(items, |items| - 1, k);
      } else {
        assert r[1..] == Without(items, key);
      }
    }
  }

  /** In every run: the keys stay unique, the list within its capacity, and what is found is the value last
      put since the last invalidation. */
  lemma {:induction false} RunCorrect(capacity: nat, ops: seq<Op>)
    requires capacity > 0
    ensures UniqueKeys(Run(capacity, ops)) && |Run(capacity, ops)| <= capacity
    ensures forall k :: Lookup(Run(capacity, ops), k).Some? ==> Lookup(Run(capacity, ops), k) == LastPut(ops, k)
  {
    if ops != [] {
      var before := Run(capacity, ops[..|ops| - 1]);
      RunCorrect(capacity, ops[..|ops| - 1]);
      match ops[|ops| - 1]
      case GetOp(key) => GetKeeps(before, capacity, key);
      case PutOp(key, json) => PutKeeps(before, capacity, key, json);
      case InvalidateOp(key) =>
        WithoutMember(before, key);
        forall k {
          LookupWithout(before, key, k);
        }
      case ClearOp =>
    }
  }

  // ---------- how long an entry stays ----------

  function Steps(items: seq<Item>, capacity: nat, ops: seq<Op>): seq<Item> {
    if ops == [] then items else Step(Steps(items, capacity, ops[..|ops| - 1]), capacity, ops[|ops| - 1])
  }

  /** A put uses its key, and so does a hit. */
  predicate Uses(items: seq<Item>, op: Op, key: string) {
    match op
    case GetOp(k) => k == key && Lookup(items, k).Some?
    case PutOp(k, _) => k == key
    case _ => false
  }

  /** The keys used in a run of gets and puts. */
  function Used(items: seq<Item>, capacity: nat, ops: seq<Op>): set<string> {
    if ops == [] then {}
    else
      var front, last := ops[..|ops| - 1], ops[|ops| - 1];
      Used(items, capacity, front)
      + if (last.GetOp? || last.PutOp?) && Uses(Steps(items, capacity, front), last, last.key) then {last.key} else {}
  }

  /** Gets and puts of other keys. */
  predicate Others(ops: seq<Op>, key: string) {
    forall k | 0 <= k < |ops| :: (ops[k].GetOp? || ops[k].PutOp?) && ops[k].key != key
  }

  /** The first n entries hold exactly the keys in ks. */
  ghost predicate Lead(items: seq<Item>, n: nat, ks: set<string>) {
    n <= |items| && forall k :: k in ks <==> exists i | 0 <= i < n :: items[i].key == k
  }

  /** Where key is after some uses of other keys: behind exactly the distinct keys used, or pushed out. */
  ghost predicate Behind(items: seq<Item>, capacity: nat, key: string, ks: set<string>) {
    if |ks| < capacity then |ks| < |items| && items[|ks|].key == key && Lead(items, |ks|, ks)
    else |items| == capacity && Lookup(items, key).None?
  }

  /** One more put of another key keeps key behind exactly the keys put so far. */
  lemma PutBehind(items: seq<Item>, capacity: nat, key: string, ks: set<string>, k: string, json: string)
    requires capacity > 0 && UniqueKeys(items) && |items| <= capacity && k != key
    requires key !in ks && Behind(items, capacity, key, ks)
    ensures Behind(AfterPut(items, capacity, k, json), capacity, key, ks + {k})
  {
    if |ks| >= capacity {
      PutBehindGone(items, capacity, key, ks, k, json);
    } else if k in ks {
      PutBehindAgain(items, capacity, key, ks, k, json);
    } else {
      PutBehindNew(items, capacity, key, ks, k, json);
    }
  }

  lemma PutBehindGone(items: seq<Item>, capacity: nat, key: string, ks: set<string>, k: string, json: string)
    requires capacity > 0 && UniqueKeys(items) && |items| <= capacity && k != key
    requires Behind(items, capacity, key, ks) && |ks| >= capacity
    ensures Behind(AfterPut(items, capacity, k, json), capacity, key, ks + {k})
  {
    LookupMeans(items, key);
    LookupMeans(AfterPut(items, capacity, k, json), key);
    PutFull(items, capacity, k, json);
    assert k in ks ==> ks + {k} == ks;
    assert k !in ks ==> |ks + {k}| == |ks| + 1;
  }

  lemma PutBehindAgain(items: seq<Item>, capacity: nat, key: string, ks: set<string>, k: string, json: string)
    requires capacity > 0 && UniqueKeys(items) && |items| <= capacity && k != key
    requires Behind(items, capacity, key, ks) && |ks| < capacity && k in ks
    ensures Behind(AfterPut(items, capacity, k, json), capacity, key, ks + {k})
  {
    var i :| 0 <= i < |ks| && items[i].key == k;
    LookupMeans(items, k);
    WithoutAt(items, i);
    assert ks + {k} == ks;
    MovedToFront(items, i, |ks|, ks, Item(k, json));
  }

  lemma PutBehindNew(items: seq<Item>, capacity: nat, key: string, ks: set<string>, k: string, json: string)
    requires capacity > 0 && UniqueKeys(items) && |items| <= capacity && k != key
    requires Behind(items, capacity, key, ks) && |ks| < capacity && k !in ks
    ensures Behind(AfterPut(items, capacity, k, json), capacity, key, ks + {k})
  {
    if Lookup(items, k).Some? || |items| < capacity {
      WithoutBehind(items, |ks|, ks, k);
      PushedBehind(items, Without(items, k), capacity, key, ks, Item(k, json));
    } else if |ks| + 1 < capacity {
      PushedBehind(items, items[..|items| - 1], capacity, key, ks, Item(k, json));
    } else {
      assert |ks + {k}| == |ks| + 1;
      PushedOut(items, capacity, key, Item(k, json));
    }
  }

  lemma PushedBehind(items: seq<Item>, rest: seq<Item>, capacity: nat, key: string, ks: set<string>, x: Item)
    requires Lead(items, |ks|, ks) && |ks| < |items| && items[|ks|].key == key && x.key !in ks
    requires |ks| < |rest| < capacity && rest[..|ks| + 1] == items[..|ks| + 1]
    ensures Behind([x] + rest, capacity, key, ks + {x.key})
  {
    assert |ks + {x.key}| == |ks| + 1;
    Pushed(items, rest, |ks|, ks, x);
  }

  /** Removing a key further back leaves the lead and the entry behind it in place. */
  lemma WithoutBehind(items: seq<Item>, n: nat, ks: set<string>, k: string)
    requires UniqueKeys(items) && Lead(items, n, ks) && n < |items| && items[n].key != k && k !in ks
    ensures n < |Without(items, k)| && Without(items, k)[..n + 1] == items[..n + 1]
    ensures |Without(items, k)| == if Lookup(items, k).Some? then |items| - 1 else |items|
  {
    LookupMeans(items, k);
    if Lookup(items, k).Some? {
      var i :| 0 <= i < |items| && items[i] == Item(k, Lookup(items, k).value);
      WithoutAt(items, i);
    } else {
      WithoutAbsent(items, k);
    }
  }

  lemma PushedOut(items: seq<Item>, capacity: nat, key: string, x: Item)
    requires UniqueKeys(items) && |items| == capacity > 0 && items[capacity - 1].key == key && x.key != key
    ensures Lookup([x] + items[..capacity - 1], key).None?
  {
    LookupMeans([x] + items[..capacity - 1], key);
  }

  lemma PutFull(items: seq<Item>, capacity: nat, k: string, json: string)
    requires UniqueKeys(items) && |items| == capacity > 0
    ensures |AfterPut(items, capacity, k, json)| == capacity
    ensures forall x | x in AfterPut(items, capacity, k, json) :: x.key == k || x in items
  {
    LookupMeans(items, k);
    if Lookup(items, k).Some? {
      var i :| 0 <= i < |items| && items[i] == Item(k, Lookup(items, k).value);
      WithoutAt(items, i);
    }
  }

  /** Moving an entry of the lead to the front permutes the lead. */
  lemma MovedToFront(items: seq<Item>, i: nat, n: nat, ks: set<string>, x: Item)
    requires Lead(items, n, ks) && i < n < |items| && items[i].key == x.key
    ensures
      var r := [x] + (items[..i] + items[i + 1..]);
      Lead(r, n, ks) && r[n] == items[n]
  {
    var r := [x] + (items[..i] + items[i + 1..]);
    forall k | k in ks
      ensures exists j | 0 <= j < n :: r[j].key == k
    {
      var j :| 0 <= j < n && items[j].key == k;
      assert r[if j == i then 0 else if j < i then j + 1 else j].key == k;
    }
    forall j | 0 <= j < n
      ensures r[j].key in ks
    {
      assert r[j].key == items[if j == 0 then i else if j <= i then j - 1 else j].key;
    }
  }

  /** A new first entry lengthens the lead. */
  lemma Pushed(items: seq<Item>, rest: seq<Item>, n: nat, ks: set<string>, x: Item)
    requires Lead(items, n, ks) && n < |rest| && n < |items| && rest[..n + 1] == items[..n + 1]
    ensures Lead([x] + rest, n + 1, ks + {x.key}) && ([x] + rest)[n + 1] == items[n]
  {
    var r := [x] + rest;
    assert forall j | 0 <= j <= n :: rest[j] == rest[..n + 1][j] && items[j] == items[..n + 1][j];
    forall k | k in ks + {x.key}
      ensures exists j | 0 <= j < n + 1 :: r[j].key == k
    {
      if k == x.key {
        assert r[0].key == k;
      } else {
        var j :| 0 <= j < n && items[j].key == k;
        assert r[j + 1].key == k;
      }
    }
    forall j | 0 <= j < n + 1
      ensures r[j].key in ks + {x.key}
    {
      assert j > 0 ==> r[j] == items[j - 1];
    }
  }

  /** A hit stores its value again. */
  lemma HitIsPut(items: seq<Item>, capacity: nat, k: string)
    requires Lookup(items, k).Some?
    ensures AfterGet(items, k) == AfterPut(items, capacity, k, Lookup(items, k).value)
  {
  }

  lemma {:induction false} StepsBehind(items: seq<Item>, capacity: nat, key: string, ops: seq<Op>)
    requires capacity > 0 && UniqueKeys(items) && |items| <= capacity && Others(ops, key)
    requires items != [] && items[0].key == key
    ensures
      var r, used := Steps(items, capacity, ops), Used(items, capacity, ops);
      UniqueKeys(r) && |r| <= capacity && key !in used && Behind(r, capacity, key, used)
  {
    if ops != [] {
      var front, last := ops[..|ops| - 1], ops[|ops| - 1];
      StepsBehind(items, capacity, key, front);
      var m, used := Steps(items, capacity, front), Used(items, capacity, front);
      match last
      case PutOp(k, json) =>
        PutBehind(m, capacity, key, used, k, json);
        PutKeeps(m, capacity, k, json);
      case GetOp(k) =>
        GetKeeps(m, capacity, k);
        if Lookup(m, k).Some? {
          HitIsPut(m, capacity, k);
          PutBehind(m, capacity, key, used, k, Lookup(m, k).value);
        } else {
          assert used + {} == used;
        }
    }
  }

  /** Exactly least recently used: after a put or a hit of key, gets and puts of other keys push it out precisely
      when they use as many distinct keys as the cache has places, however often each is used. */
  lemma EvictedExactly(items: seq<Item>, capacity: nat, key: string, use: Op, ops: seq<Op>)
    requires capacity > 0 && UniqueKeys(items) && |items| <= capacity && Uses(items, use, key) && Others(ops, key)
    ensures
      var start := Step(items, capacity, use);
      Lookup(Steps(start, capacity, ops), key).Some? <==> |Used(start, capacity, ops)| < capacity
  {
    var start := Step(items, capacity, use);
    match use {
      case PutOp(k, json) => PutKeeps(items, capacity, k, json);
      case GetOp(k) => GetKeeps(items, capacity, k);
    }
    StepsBehind(start, capacity, key, ops);
    LookupMeans(Steps(start, capacity, ops), key);
  }
}
