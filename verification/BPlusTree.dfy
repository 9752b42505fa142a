/** The B+ tree of src/bptree.c as a value: what insertion computes on the tree's shape, and why the
    result is still a B+ tree holding exactly the updated id -> row map.  The linked nodes and arrays
    that carry this shape are in BPlusTreeHeap.dfy. */
module BPlusTree {

  /** An (id, row index) pair stored in a leaf. */
  type Entry = (int, int)

  datatype Tree =
    | Leaf(entries: seq<Entry>)
    | Inner(keys: seq<int>, kids: seq<Tree>)

  /** What insert_rec hands to its caller: the node alone, or the node, the promoted key and its new
      right sibling. */
  datatype Insertion =
    | One(tree: Tree)
    | Two(left: Tree, key: int, right: Tree)

  // ---------- entry lists ----------

  ghost predicate Sorted(es: seq<Entry>) {
    forall i, j | 0 <= i < j < |es| :: es[i].0 < es[j].0
  }

  /** The key and row arrays of a leaf, read together. */
  function Zip(ks: seq<int>, rs: seq<int>): (es: seq<Entry>)
    requires |ks| == |rs|
    ensures |es| == |ks|
    ensures forall i | 0 <= i < |es| :: es[i] == (ks[i], rs[i])
  {
    seq(|ks|, i requires 0 <= i < |ks| => (ks[i], rs[i]))
  }

  /** The index map an entry list stands for. */
  function ToMap(es: seq<Entry>): map<int, int> {
    if es == [] then map[] else ToMap(es[..|es| - 1])[es[|es| - 1].0 := es[|es| - 1].1]
  }

  /** The first position whose key is not below id. */
  function Pos(es: seq<Entry>, id: int): (p: nat)
    ensures p <= |es|
  {
    if es == [] || es[0].0 >= id then 0 else 1 + Pos(es[1..], id)
  }

  lemma {:induction false} PosSeparates(es: seq<Entry>, id: int)
    ensures
      var p := Pos(es, id);
      && (forall i | 0 <= i < p :: es[i].0 < id)
      && (p < |es| ==> es[p].0 >= id)
  {
    if es != [] && es[0].0 < id {
      PosSeparates(es[1..], id);
    }
  }

  /** Sorted insertion; an equal key has its row overwritten. */
  function InsertEntry(es: seq<Entry>, id: int, row: int): seq<Entry> {
    var p := Pos(es, id);
    if p < |es| && es[p].0 == id then es[p := (id, row)]
    else es[..p] + [(id, row)] + es[p..]
  }

  // ---------- trees ----------

  /** All entries, in the order of the leaves. */
  function Flatten(t: Tree): seq<Entry>
    decreases t
  {
    match t
    case Leaf(es) => es
    case Inner(_, kids) => FlattenAll(kids)
  }

  function FlattenAll(ts: seq<Tree>): seq<Entry>
    decreases ts
  {
    if ts == [] then [] else Flatten(ts[0]) + FlattenAll(ts[1..])
  }

  /** The index of the child responsible for id. */
  function ChildIdx(keys: seq<int>, id: int): (i: nat)
    ensures i <= |keys|
    ensures forall j | 0 <= j < i :: keys[j] <= id
    ensures i < |keys| ==> id < keys[i]
  {
    if keys == [] || id < keys[0] then 0 else 1 + ChildIdx(keys[1..], id)
  }

  /** Every node has room and one more child than keys. */
  ghost predicate Shaped(t: Tree, order: nat)
    decreases t
  {
    match t
    case Leaf(es) => |es| < order
    case Inner(keys, kids) =>
      && |keys| < order
      && |kids| == |keys| + 1
      && forall c | c in kids :: Shaped(c, order)
  }

  function SplitLeaf(es: seq<Entry>, order: nat): Insertion
    requires 3 <= order == |es|
  {
    var mid := order / 2;
    Two(Leaf(es[..mid]), es[mid].0, Leaf(es[mid..]))
  }

  function InsertNonfull(keys: seq<int>, kids: seq<Tree>, key: int, right: Tree): (t: Tree)
    requires |kids| == |keys| + 1
    ensures t.Inner? && |t.keys| == |keys| + 1 && |t.kids| == |kids| + 1
  {
    var i := ChildIdx(keys, key);
    Inner(keys[..i] + [key] + keys[i..], kids[..i + 1] + [right] + kids[i + 1..])
  }

  function SplitInner(t: Tree, order: nat): Insertion
    requires t.Inner? && 3 <= order == |t.keys| && |t.kids| == order + 1
  {
    var mid := order / 2;
    Two(Inner(t.keys[..mid], t.kids[..mid + 1]), t.keys[mid],
        Inner(t.keys[mid + 1..], t.kids[mid + 1..]))
  }

  /** What a node does with the outcome of inserting into its child ci. */
  function Absorb(keys: seq<int>, kids: seq<Tree>, order: nat, ci: nat, outcome: Insertion): Insertion
    requires 3 <= order && |keys| < order
    requires ci < |kids| == |keys| + 1
  {
    match outcome
    case One(c) => One(Inner(keys, kids[ci := c]))
    case Two(l, k, r) =>
      var grown := InsertNonfull(keys, kids[ci := l], k, r);
      if |grown.keys| < order then One(grown) else SplitInner(grown, order)
  }

  /** insert_rec on shapes. */
  function Insert(t: Tree, order: nat, id: int, row: int): Insertion
    requires 3 <= order && Shaped(t, order)
    decreases t
  {
    match t
    case Leaf(es) =>
      var es' := InsertEntry(es, id, row);
      if |es'| < order then One(Leaf(es')) else SplitLeaf(es', order)
    case Inner(keys, kids) =>
      var ci := ChildIdx(keys, id);
      Absorb(keys, kids, order, ci, Insert(kids[ci], order, id, row))
  }

  /** bptree_insert: a split root gets a new root above it. */
  function InsertRoot(t: Tree, order: nat, id: int, row: int): Tree
    requires 3 <= order && Shaped(t, order)
  {
    match Insert(t, order, id, row)
    case One(t') => t'
    case Two(l, k, r) => Inner([k], [l, r])
  }

  // ---------- well-formedness ----------

  /** Key bounds; the ends of the key range are open. */
  datatype Bound = NegInf | At(k: int) | PosInf

  predicate AtLeast(lo: Bound, k: int) {
    lo.NegInf? || (lo.At? && lo.k <= k)
  }

  predicate Above(lo: Bound, k: int) {
    lo.NegInf? || (lo.At? && lo.k < k)
  }

  predicate Below(k: int, hi: Bound) {
    hi.PosInf? || (hi.At? && k < hi.k)
  }

  function KidLo(keys: seq<int>, i: int, lo: Bound): Bound {
    if 0 < i <= |keys| then At(keys[i - 1]) else lo
  }

  function KidHi(keys: seq<int>, i: int, hi: Bound): Bound {
    if 0 <= i < |keys| then At(keys[i]) else hi
  }

  ghost predicate Increasing(keys: seq<int>, lo: Bound, hi: Bound) {
    && (forall i, j | 0 <= i < j < |keys| :: keys[i] < keys[j])
    && (forall i | 0 <= i < |keys| :: Above(lo, keys[i]) && Below(keys[i], hi))
  }

  /** The occupancy every node but the root keeps. */
  predicate HalfFull(t: Tree, order: nat) {
    match t
    case Leaf(es) => |es| >= order / 2
    case Inner(_, kids) => |kids| >= (order + 1) / 2
  }

  /** A B+ tree of the given order and height whose keys lie in [lo, hi). */
  ghost predicate WellFormed(t: Tree, order: nat, height: nat, lo: Bound, hi: Bound)
    decreases t
  {
    match t
    case Leaf(es) =>
      && height == 0
      && |es| < order
      && Sorted(es)
      && Within(es, lo, hi)
    case Inner(keys, kids) =>
      && height > 0
      && |keys| < order
      && |kids| == |keys| + 1
      && KidsWellFormed(keys, kids, order, height - 1, lo, hi)
  }

  /** Increasing separators, and between two of them a half-full subtree of the given height. */
  ghost predicate KidsWellFormed(keys: seq<int>, kids: seq<Tree>, order: nat, height: nat, lo: Bound, hi: Bound)
    decreases kids
  {
    && 1 <= |keys| == |kids| - 1
    && Increasing(keys, lo, hi)
    && forall i | 0 <= i < |kids| ::
         && HalfFull(kids[i], order)
         && WellFormed(kids[i], order, height, KidLo(keys, i, lo), KidHi(keys, i, hi))
  }

  ghost predicate Within(es: seq<Entry>, lo: Bound, hi: Bound) {
    forall i | 0 <= i < |es| :: AtLeast(lo, es[i].0) && Below(es[i].0, hi)
  }

  lemma {:induction false} WellFormedIsShaped(t: Tree, order: nat, height: nat, lo: Bound, hi: Bound)
    requires WellFormed(t, order, height, lo, hi)
    ensures Shaped(t, order)
    decreases t
  {
    if t.Inner? {
      forall i | 0 <= i < |t.kids|
        ensures Shaped(t.kids[i], order)
      {
        WellFormedIsShaped(t.kids[i], order, height - 1, KidLo(t.keys, i, lo), KidHi(t.keys, i, hi));
      }
    }
  }

  // ---------- entry list lemmas ----------

  lemma InsertEntrySorted(es: seq<Entry>, id: int, row: int)
    requires Sorted(es)
    ensures Sorted(InsertEntry(es, id, row))
    ensures |es| <= |InsertEntry(es, id, row)| <= |es| + 1
    ensures InsertEntry(es, id, row) != []
  {
    PosSeparates(es, id);
  }

  /** Exactly the entry with the inserted key is new; all others stay. */
  lemma InsertEntryMembers(es: seq<Entry>, id: int, row: int, e: Entry)
    requires Sorted(es)
    ensures e in InsertEntry(es, id, row) <==> e == (id, row) || (e.0 != id && e in es)
  {
    PosSeparates(es, id);
    var p := Pos(es, id);
    var es' := InsertEntry(es, id, row);
    assert es'[p] == (id, row);
    if p < |es| && es[p].0 == id {
      assert es' == es[..p] + [(id, row)] + es[p + 1..];
      assert es == es[..p] + [es[p]] + es[p + 1..];
    } else {
      assert es == es[..p] + es[p..];
    }
  }

  /** On a sorted list the map and the list say the same. */
  lemma {:induction false} ToMapEntry(es: seq<Entry>, e: Entry)
    requires Sorted(es)
    ensures e in es <==> e.0 in ToMap(es) && ToMap(es)[e.0] == e.1
  {
    if es != [] {
      var n := |es| - 1;
      ToMapEntry(es[..n], e);
      assert es == es[..n] + [es[n]];
      if e.0 == es[n].0 && e in es[..n] {
        assert false;
      }
    }
  }

  /** Sorted insertion is map update. */
  lemma InsertEntryUpdatesMap(es: seq<Entry>, id: int, row: int)
    requires Sorted(es)
    ensures Sorted(InsertEntry(es, id, row))
    ensures ToMap(InsertEntry(es, id, row)) == ToMap(es)[id := row]
  {
    InsertEntrySorted(es, id, row);
    var es' := InsertEntry(es, id, row);
    var m, m' := ToMap(es)[id := row], ToMap(es');
    forall k
      ensures k in m <==> k in m'
      ensures k in m && k in m' ==> m[k] == m'[k]
    {
      if k in m {
        InsertEntryMembers(es, id, row, (k, m[k]));
        ToMapEntry(es, (k, m[k]));
        ToMapEntry(es', (k, m[k]));
      }
      if k in m' {
        InsertEntryMembers(es, id, row, (k, m'[k]));
        ToMapEntry(es, (k, m'[k]));
        ToMapEntry(es', (k, m'[k]));
      }
    }
  }

  /** A lower bound found in the middle piece of a list whose left piece is all below id. */
  lemma PosSkip(a: seq<Entry>, b: seq<Entry>, id: int)
    requires forall i | 0 <= i < |a| :: a[i].0 < id
    ensures Pos(a + b, id) == |a| + Pos(b, id)
  {
    if a == [] {
      assert a + b == b;
    } else {
      assert (a + b)[1..] == a[1..] + b;
      PosSkip(a[1..], b, id);
    }
  }

  lemma PosStop(b: seq<Entry>, c: seq<Entry>, id: int)
    requires forall i | 0 <= i < |c| :: id < c[i].0
    ensures Pos(b + c, id) == Pos(b, id)
  {
    if b == [] {
      assert b + c == c;
    } else {
      assert (b + c)[1..] == b[1..] + c;
      PosStop(b[1..], c, id);
    }
  }

  lemma InsertEntryAfter(a: seq<Entry>, b: seq<Entry>, id: int, row: int)
    requires forall i | 0 <= i < |a| :: a[i].0 < id
    ensures InsertEntry(a + b, id, row) == a + InsertEntry(b, id, row)
  {
    PosSkip(a, b, id);
    InsertEntryShift(a, b, Pos(b, id), (id, row));
  }

  lemma InsertEntryShift(a: seq<Entry>, b: seq<Entry>, q: nat, e: Entry)
    requires q <= |b|
    ensures q < |b| ==> (a + b)[|a| + q] == b[q] && (a + b)[|a| + q := e] == a + b[q := e]
    ensures (a + b)[..|a| + q] + [e] + (a + b)[|a| + q..] == a + (b[..q] + [e] + b[q..])
  {
    assert (a + b)[..|a| + q] == a + b[..q];
    assert (a + b)[|a| + q..] == b[q..];
  }

  lemma InsertEntryBefore(b: seq<Entry>, c: seq<Entry>, id: int, row: int)
    requires forall i | 0 <= i < |c| :: id < c[i].0
    ensures InsertEntry(b + c, id, row) == InsertEntry(b, id, row) + c
  {
    PosStop(b, c, id);
    var s, q := b + c, Pos(b, id);
    if q < |b| && b[q].0 == id {
      assert s[q := (id, row)] == b[q := (id, row)] + c;
    } else {
      assert s[..q] == b[..q];
      assert s[q..] == b[q..] + c;
    }
  }

  /** Insertion into the middle piece of a sorted list. */
  lemma InsertEntryMiddle(a: seq<Entry>, b: seq<Entry>, c: seq<Entry>, id: int, row: int)
    requires forall i | 0 <= i < |a| :: a[i].0 < id
    requires forall i | 0 <= i < |c| :: id < c[i].0
    ensures InsertEntry(a + b + c, id, row) == a + InsertEntry(b, id, row) + c
  {
    InsertEntryBefore(a + b, c, id, row);
    InsertEntryAfter(a, b, id, row);
  }

  // ---------- flattening ----------

  lemma {:induction false} FlattenAllConcat(s: seq<Tree>, t: seq<Tree>)
    ensures FlattenAll(s + t) == FlattenAll(s) + FlattenAll(t)
  {
    if s == [] {
      assert s + t == t;
    } else {
      assert (s + t)[1..] == s[1..] + t;
      FlattenAllConcat(s[1..], t);
    }
  }

  /** Replacing kid i by the list r in a flattening. */
  lemma FlattenAllAt(ts: seq<Tree>, i: nat, r: seq<Tree>)
    requires i < |ts|
    ensures FlattenAll(ts[..i] + r + ts[i + 1..])
         == FlattenAll(ts[..i]) + FlattenAll(r) + FlattenAll(ts[i + 1..])
  {
    FlattenAllConcat(ts[..i] + r, ts[i + 1..]);
    FlattenAllConcat(ts[..i], r);
  }

  lemma FlattenOne(t: Tree)
    ensures FlattenAll([t]) == Flatten(t)
  {
    assert [t][1..] == [];
    assert Flatten(t) + [] == Flatten(t);
  }

  lemma FlattenAllSplit(ts: seq<Tree>, i: nat)
    requires i < |ts|
    ensures FlattenAll(ts) == FlattenAll(ts[..i]) + Flatten(ts[i]) + FlattenAll(ts[i + 1..])
  {
    var one := [ts[i]];
    FlattenAllAt(ts, i, one);
    FlattenOne(ts[i]);
    assert ts[..i] + one + ts[i + 1..] == ts;
  }

  /** The entries of a well-formed tree are sorted and lie within its bounds. */
  lemma {:induction false} FlattenSorted(t: Tree, order: nat, height: nat, lo: Bound, hi: Bound)
    requires WellFormed(t, order, height, lo, hi)
    ensures Sorted(Flatten(t)) && Within(Flatten(t), lo, hi)
    decreases t, 1
  {
    if t.Inner? {
      assert t.keys[0..] == t.keys && t.kids[0..] == t.kids;
      FlattenSuffix(t, order, height, lo, hi, 0);
    }
  }

  /** The same for the kids from i on, whose lower bound is separator i - 1. */
  lemma {:induction false} FlattenSuffix(t: Tree, order: nat, height: nat, lo: Bound, hi: Bound, i: nat)
    requires WellFormed(t, order, height, lo, hi) && t.Inner?
    requires i <= |t.kids|
    ensures Sorted(FlattenAll(t.kids[i..]))
    ensures Within(FlattenAll(t.kids[i..]), KidLo(t.keys, i, lo), hi)
    decreases t, 0, |t.kids| - i
  {
    if i < |t.kids| {
      var a, b := Flatten(t.kids[i]), FlattenAll(t.kids[i + 1..]);
      FlattenSorted(t.kids[i], order, height - 1, KidLo(t.keys, i, lo), KidHi(t.keys, i, hi));
      FlattenSuffix(t, order, height, lo, hi, i + 1);
      assert t.kids[i..][1..] == t.kids[i + 1..];
      assert FlattenAll(t.kids[i..]) == a + b;
      if i == |t.keys| {
        assert b == [];
      }
    }
  }

  /** Entries left of the responsible child are below id, entries right of it above. */
  lemma AroundChild(t: Tree, order: nat, height: nat, lo: Bound, hi: Bound, id: int)
    requires WellFormed(t, order, height, lo, hi) && t.Inner?
    ensures
      var ci := ChildIdx(t.keys, id);
      var a, c := FlattenAll(t.kids[..ci]), FlattenAll(t.kids[ci + 1..]);
      && Flatten(t) == a + Flatten(t.kids[ci]) + c
      && (forall i | 0 <= i < |a| :: a[i].0 < id)
      && (forall i | 0 <= i < |c| :: id < c[i].0)
  {
    var ci := ChildIdx(t.keys, id);
    FlattenAllSplit(t.kids, ci);
    FlattenSuffix(t, order, height, lo, hi, ci + 1);
    FlattenPrefix(t, order, height, lo, hi, ci);
  }

  lemma {:induction false} FlattenPrefix(t: Tree, order: nat, height: nat, lo: Bound, hi: Bound, n: nat)
    requires WellFormed(t, order, height, lo, hi) && t.Inner?
    requires n <= |t.keys|
    ensures Within(FlattenAll(t.kids[..n]), lo, if n == 0 then lo else At(t.keys[n - 1]))
  {
    if n > 0 {
      FlattenPrefix(t, order, height, lo, hi, n - 1);
      assert t.kids[..n] == t.kids[..n - 1] + [t.kids[n - 1]];
      FlattenAllConcat(t.kids[..n - 1], [t.kids[n - 1]]);
      FlattenOne(t.kids[n - 1]);
      FlattenSorted(t.kids[n - 1], order, height - 1, KidLo(t.keys, n - 1, lo), KidHi(t.keys, n - 1, hi));
      var a, b := FlattenAll(t.kids[..n - 1]), Flatten(t.kids[n - 1]);
      assert FlattenAll(t.kids[..n]) == a + b;
      if 1 < n {
        assert t.keys[n - 2] < t.keys[n - 1];
        assert Above(lo, t.keys[n - 2]);
      }
    }
  }

  // ---------- insertion keeps the tree a B+ tree ----------

  /** The promoted key of a split child falls strictly between the child's own separators, so it is
      inserted at the child's index. */
  lemma PromotedKeyPosition(keys: seq<int>, ci: nat, key: int, lo: Bound, hi: Bound)
    requires Increasing(keys, lo, hi) && ci <= |keys|
    requires Above(KidLo(keys, ci, lo), key) && Below(key, KidHi(keys, ci, hi))
    ensures ChildIdx(keys, key) == ci
  {
    assert forall j | 0 <= j < ci :: keys[j] <= keys[ci - 1] < key;
  }

  lemma ReplaceKid(keys: seq<int>, kids: seq<Tree>, order: nat, height: nat, lo: Bound, hi: Bound,
                   ci: nat, c: Tree)
    requires KidsWellFormed(keys, kids, order, height, lo, hi) && ci < |kids|
    requires HalfFull(c, order)
    requires WellFormed(c, order, height, KidLo(keys, ci, lo), KidHi(keys, ci, hi))
    ensures KidsWellFormed(keys, kids[ci := c], order, height, lo, hi)
  {
  }

  lemma InsertNonfullAt(keys: seq<int>, kids: seq<Tree>, ci: nat, l: Tree, k: int, r: Tree)
    requires ChildIdx(keys, k) == ci < |kids| == |keys| + 1
    ensures InsertNonfull(keys, kids[ci := l], k, r)
         == Inner(keys[..ci] + [k] + keys[ci..], kids[..ci] + [l, r] + kids[ci + 1..])
  {
    var u := kids[ci := l];
    assert u[..ci + 1] == kids[..ci] + [l];
    assert u[ci + 1..] == kids[ci + 1..];
    assert kids[..ci] + [l] + [r] == kids[..ci] + [l, r];
  }

  /** A child split into l and r around key k. */
  lemma GrowKids(keys: seq<int>, kids: seq<Tree>, order: nat, height: nat, lo: Bound, hi: Bound,
                 ci: nat, l: Tree, k: int, r: Tree)
    requires KidsWellFormed(keys, kids, order, height, lo, hi) && ci < |kids|
    requires Above(KidLo(keys, ci, lo), k) && Below(k, KidHi(keys, ci, hi))
    requires HalfFull(l, order) && WellFormed(l, order, height, KidLo(keys, ci, lo), At(k))
    requires HalfFull(r, order) && WellFormed(r, order, height, At(k), KidHi(keys, ci, hi))
    ensures KidsWellFormed(keys[..ci] + [k] + keys[ci..], kids[..ci] + [l, r] + kids[ci + 1..],
                           order, height, lo, hi)
  {
    var keys', kids' := keys[..ci] + [k] + keys[ci..], kids[..ci] + [l, r] + kids[ci + 1..];
    GrowKeys(keys, lo, hi, ci, k);
    forall i | 0 <= i < |kids'|
      ensures HalfFull(kids'[i], order)
      ensures WellFormed(kids'[i], order, height, KidLo(keys', i, lo), KidHi(keys', i, hi))
    {
      GrowBounds(keys, lo, hi, ci, k, i);
      if i < ci {
        assert kids'[i] == kids[i];
      } else if i == ci {
        assert kids'[i] == l;
      } else if i == ci + 1 {
        assert kids'[i] == r;
      } else {
        assert kids'[i] == kids[i - 1];
      }
    }
  }

  lemma GrowBounds(keys: seq<int>, lo: Bound, hi: Bound, ci: nat, k: int, i: nat)
    requires ci <= |keys| && i <= |keys| + 1
    ensures
      var keys' := keys[..ci] + [k] + keys[ci..];
      && KidLo(keys', i, lo) == (if i <= ci then KidLo(keys, i, lo) else if i == ci + 1 then At(k) else KidLo(keys, i - 1, lo))
      && KidHi(keys', i, hi) == (if i < ci then KidHi(keys, i, hi) else if i == ci then At(k) else KidHi(keys, i - 1, hi))
  {
  }

  lemma GrowKeys(keys: seq<int>, lo: Bound, hi: Bound, ci: nat, k: int)
    requires Increasing(keys, lo, hi) && ci <= |keys|
    requires Above(KidLo(keys, ci, lo), k) && Below(k, KidHi(keys, ci, hi))
    ensures Increasing(keys[..ci] + [k] + keys[ci..], lo, hi)
  {
    var keys' := keys[..ci] + [k] + keys[ci..];
    assert forall i | 0 <= i < ci :: keys[i] <= keys[ci - 1] < k;
    assert forall i | ci <= i < |keys| :: k < keys[ci] <= keys[i];
    forall i | 0 <= i < |keys'|
      ensures Above(lo, keys'[i]) && Below(keys'[i], hi)
      ensures forall j | 0 <= j < i :: keys'[j] < keys'[i]
    {
      if i == ci {
        assert ci > 0 ==> Above(lo, keys[ci - 1]);
        assert ci < |keys| ==> Below(keys[ci], hi);
      } else {
        assert keys'[i] == keys[if i < ci then i else i - 1];
      }
    }
  }

  lemma SplitKids(keys: seq<int>, kids: seq<Tree>, order: nat, height: nat, lo: Bound, hi: Bound)
    requires 3 <= order == |keys|
    requires KidsWellFormed(keys, kids, order, height, lo, hi)
    ensures
      var mid := order / 2;
      && Above(lo, keys[mid]) && Below(keys[mid], hi)
      && KidsWellFormed(keys[..mid], kids[..mid + 1], order, height, lo, At(keys[mid]))
      && KidsWellFormed(keys[mid + 1..], kids[mid + 1..], order, height, At(keys[mid]), hi)
  {
    KidsPrefix(keys, kids, order, height, lo, hi, order / 2);
    KidsSuffix(keys, kids, order, height, lo, hi, order / 2);
  }

  lemma KidsPrefix(keys: seq<int>, kids: seq<Tree>, order: nat, height: nat, lo: Bound, hi: Bound, mid: nat)
    requires KidsWellFormed(keys, kids, order, height, lo, hi) && 1 <= mid < |keys|
    ensures KidsWellFormed(keys[..mid], kids[..mid + 1], order, height, lo, At(keys[mid]))
  {
    var ks, ts := keys[..mid], kids[..mid + 1];
    forall i | 0 <= i < |ts|
      ensures HalfFull(ts[i], order)
      ensures WellFormed(ts[i], order, height, KidLo(ks, i, lo), KidHi(ks, i, At(keys[mid])))
    {
      assert ts[i] == kids[i];
    }
  }

  lemma KidsSuffix(keys: seq<int>, kids: seq<Tree>, order: nat, height: nat, lo: Bound, hi: Bound, mid: nat)
    requires KidsWellFormed(keys, kids, order, height, lo, hi) && mid + 1 < |keys|
    ensures KidsWellFormed(keys[mid + 1..], kids[mid + 1..], order, height, At(keys[mid]), hi)
  {
    var ks, ts := keys[mid + 1..], kids[mid + 1..];
    forall i | 0 <= i < |ts|
      ensures HalfFull(ts[i], order)
      ensures WellFormed(ts[i], order, height, KidLo(ks, i, At(keys[mid])), KidHi(ks, i, hi))
    {
      assert ts[i] == kids[mid + 1 + i];
      assert KidLo(ks, i, At(keys[mid])) == KidLo(keys, mid + 1 + i, lo);
      assert KidHi(ks, i, hi) == KidHi(keys, mid + 1 + i, hi);
    }
  }

  lemma SplitLeafWellFormed(es: seq<Entry>, order: nat, lo: Bound, hi: Bound)
    requires 3 <= order == |es| && Sorted(es) && Within(es, lo, hi)
    ensures
      var s := SplitLeaf(es, order);
      && Above(lo, s.key) && Below(s.key, hi)
      && WellFormed(s.left, order, 0, lo, At(s.key)) && HalfFull(s.left, order)
      && WellFormed(s.right, order, 0, At(s.key), hi) && HalfFull(s.right, order)
  {
    assert AtLeast(lo, es[0].0) && es[0].0 < es[order / 2].0;
  }

  lemma InsertEntryWithin(es: seq<Entry>, id: int, row: int, lo: Bound, hi: Bound)
    requires Within(es, lo, hi) && AtLeast(lo, id) && Below(id, hi)
    ensures Within(InsertEntry(es, id, row), lo, hi)
  {
  }

  /** An insertion outcome that can stand where a node of this height and these bounds stood. */
  ghost predicate OutcomeWellFormed(o: Insertion, order: nat, height: nat, lo: Bound, hi: Bound, half: bool) {
    match o
    case One(t) => WellFormed(t, order, height, lo, hi) && (half ==> HalfFull(t, order))
    case Two(l, k, r) =>
      && Above(lo, k) && Below(k, hi)
      && WellFormed(l, order, height, lo, At(k)) && HalfFull(l, order)
      && WellFormed(r, order, height, At(k), hi) && HalfFull(r, order)
  }

  /** A node that has taken one kid more, split if that is one too many. */
  lemma GrownWellFormed(keys: seq<int>, kids: seq<Tree>, order: nat, height: nat, lo: Bound, hi: Bound, half: bool)
    requires 3 <= order && 0 < height && |keys| <= order && |kids| == |keys| + 1
    requires KidsWellFormed(keys, kids, order, height - 1, lo, hi)
    requires half ==> HalfFull(Inner(keys, kids), order)
    ensures
      var t := Inner(keys, kids);
      OutcomeWellFormed(if |keys| < order then One(t) else SplitInner(t, order), order, height, lo, hi, half)
  {
    if |keys| == order {
      SplitKids(keys, kids, order, height - 1, lo, hi);
    }
  }

  lemma AbsorbWellFormed(keys: seq<int>, kids: seq<Tree>, order: nat, height: nat, lo: Bound, hi: Bound,
                         ci: nat, o: Insertion, half: bool)
    requires 3 <= order && 0 < height && |keys| < order && ci < |kids| == |keys| + 1
    requires KidsWellFormed(keys, kids, order, height - 1, lo, hi)
    requires half ==> HalfFull(Inner(keys, kids), order)
    requires OutcomeWellFormed(o, order, height - 1, KidLo(keys, ci, lo), KidHi(keys, ci, hi), true)
    ensures OutcomeWellFormed(Absorb(keys, kids, order, ci, o), order, height, lo, hi, half)
  {
    match o
    case One(c) =>
      ReplaceKid(keys, kids, order, height - 1, lo, hi, ci, c);
      GrownWellFormed(keys, kids[ci := c], order, height, lo, hi, half);
    case Two(l, k, r) =>
      PromotedKeyPosition(keys, ci, k, lo, hi);
      InsertNonfullAt(keys, kids, ci, l, k, r);
      GrowKids(keys, kids, order, height - 1, lo, hi, ci, l, k, r);
      GrownWellFormed(keys[..ci] + [k] + keys[ci..], kids[..ci] + [l, r] + kids[ci + 1..],
                      order, height, lo, hi, half);
  }

  /** Insertion into a well-formed tree gives one, of the same height and bounds, or two around the
      promoted key; no node loses occupancy. */
  lemma {:induction false} InsertWellFormed(t: Tree, order: nat, height: nat, lo: Bound, hi: Bound,
                                            id: int, row: int)
    requires 3 <= order && Shaped(t, order)
    requires WellFormed(t, order, height, lo, hi)
    requires AtLeast(lo, id) && Below(id, hi)
    ensures OutcomeWellFormed(Insert(t, order, id, row), order, height, lo, hi, HalfFull(t, order))
    decreases t
  {
    match t
    case Leaf(es) =>
      var es' := InsertEntry(es, id, row);
      InsertEntrySorted(es, id, row);
      InsertEntryWithin(es, id, row, lo, hi);
      if |es'| == order {
        SplitLeafWellFormed(es', order, lo, hi);
      }
    case Inner(keys, kids) =>
      var ci := ChildIdx(keys, id);
      InsertWellFormed(kids[ci], order, height - 1, KidLo(keys, ci, lo), KidHi(keys, ci, hi), id, row);
      AbsorbWellFormed(keys, kids, order, height, lo, hi, ci, Insert(kids[ci], order, id, row), HalfFull(t, order));
  }

  /** Along the path of the insertion every promoted key lands at the child it came from. */
  ghost predicate PathOk(t: Tree, order: nat, id: int, row: int)
    requires 3 <= order && Shaped(t, order)
    decreases t
  {
    match t
    case Leaf(es) => Sorted(es)
    case Inner(keys, kids) =>
      var ci := ChildIdx(keys, id);
      var o := Insert(kids[ci], order, id, row);
      && PathOk(kids[ci], order, id, row)
      && (o.Two? ==> ChildIdx(keys, o.key) == ci)
  }

  lemma {:induction false} WellFormedPathOk(t: Tree, order: nat, height: nat, lo: Bound, hi: Bound, id: int, row: int)
    requires 3 <= order && Shaped(t, order)
    requires WellFormed(t, order, height, lo, hi)
    requires AtLeast(lo, id) && Below(id, hi)
    ensures PathOk(t, order, id, row)
    decreases t
  {
    if t.Inner? {
      var ci := ChildIdx(t.keys, id);
      var lo', hi' := KidLo(t.keys, ci, lo), KidHi(t.keys, ci, hi);
      WellFormedPathOk(t.kids[ci], order, height - 1, lo', hi', id, row);
      InsertWellFormed(t.kids[ci], order, height - 1, lo', hi', id, row);
      var o := Insert(t.kids[ci], order, id, row);
      if o.Two? {
        PromotedKeyPosition(t.keys, ci, o.key, lo, hi);
      }
    }
  }

  function FlattenInsertion(r: Insertion): seq<Entry> {
    match r
    case One(t) => Flatten(t)
    case Two(l, _, r) => Flatten(l) + Flatten(r)
  }

  lemma GrownFlatten(keys: seq<int>, kids: seq<Tree>, ci: nat, l: Tree, k: int, r: Tree)
    requires ChildIdx(keys, k) == ci < |kids| == |keys| + 1
    ensures Flatten(InsertNonfull(keys, kids[ci := l], k, r))
         == FlattenAll(kids[..ci]) + (Flatten(l) + Flatten(r)) + FlattenAll(kids[ci + 1..])
  {
    InsertNonfullAt(keys, kids, ci, l, k, r);
    FlattenAllAt(kids, ci, [l, r]);
    FlattenTwo(l, r);
  }

  lemma SplitFlatten(t: Tree, order: nat)
    requires t.Inner? && 3 <= order == |t.keys| && |t.kids| == order + 1
    ensures FlattenInsertion(SplitInner(t, order)) == Flatten(t)
  {
    var m := order / 2 + 1;
    FlattenAllConcat(t.kids[..m], t.kids[m..]);
    assert t.kids[..m] + t.kids[m..] == t.kids;
  }

  lemma AbsorbFlatten(keys: seq<int>, kids: seq<Tree>, order: nat, ci: nat, o: Insertion)
    requires 3 <= order && |keys| < order && ci < |kids| == |keys| + 1
    requires o.Two? ==> ChildIdx(keys, o.key) == ci
    ensures FlattenInsertion(Absorb(keys, kids, order, ci, o))
         == FlattenAll(kids[..ci]) + FlattenInsertion(o) + FlattenAll(kids[ci + 1..])
  {
    match o
    case One(c) =>
      assert kids[ci := c] == kids[..ci] + [c] + kids[ci + 1..];
      FlattenAllAt(kids, ci, [c]);
      FlattenOne(c);
    case Two(l, k, r) =>
      GrownFlatten(keys, kids, ci, l, k, r);
      var grown := InsertNonfull(keys, kids[ci := l], k, r);
      if |grown.keys| == order {
        SplitFlatten(grown, order);
      }
  }

  lemma FlattenTwo(l: Tree, r: Tree)
    ensures FlattenAll([l, r]) == Flatten(l) + Flatten(r)
  {
    assert [l] + [r] == [l, r];
    FlattenAllConcat([l], [r]);
    FlattenOne(l);
    FlattenOne(r);
  }

  lemma InsertFlattenInner(t: Tree, order: nat, height: nat, lo: Bound, hi: Bound, id: int, row: int, o: Insertion)
    requires 3 <= order && Shaped(t, order) && WellFormed(t, order, height, lo, hi) && t.Inner?
    requires PathOk(t, order, id, row)
    requires
      var kid := t.kids[ChildIdx(t.keys, id)];
      && o == Insert(kid, order, id, row)
      && FlattenInsertion(o) == InsertEntry(Flatten(kid), id, row)
    ensures FlattenInsertion(Absorb(t.keys, t.kids, order, ChildIdx(t.keys, id), o))
         == InsertEntry(Flatten(t), id, row)
  {
    var keys, kids, ci := t.keys, t.kids, ChildIdx(t.keys, id);
    AroundChild(t, order, height, lo, hi, id);
    InsertEntryMiddle(FlattenAll(kids[..ci]), Flatten(kids[ci]), FlattenAll(kids[ci + 1..]), id, row);
    AbsorbFlatten(keys, kids, order, ci, o);
  }

  lemma InsertFlattenLeaf(es: seq<Entry>, order: nat, id: int, row: int)
    requires 3 <= order && |es| < order && Sorted(es)
    ensures FlattenInsertion(Insert(Leaf(es), order, id, row)) == InsertEntry(es, id, row)
  {
    var es' := InsertEntry(es, id, row);
    InsertEntrySorted(es, id, row);
    assert |es'| == order ==> es'[..order / 2] + es'[order / 2..] == es';
  }

  /** On the in-order entries, insertion into the tree is sorted insertion. */
  lemma {:induction false} InsertFlatten(t: Tree, order: nat, height: nat, lo: Bound, hi: Bound,
                                         id: int, row: int)
    requires 3 <= order && Shaped(t, order)
    requires WellFormed(t, order, height, lo, hi)
    requires AtLeast(lo, id) && Below(id, hi)
    ensures FlattenInsertion(Insert(t, order, id, row)) == InsertEntry(Flatten(t), id, row)
    decreases t
  {
    match t
    case Leaf(es) =>
      InsertFlattenLeaf(es, order, id, row);
    case Inner(keys, kids) =>
      var ci := ChildIdx(keys, id);
      var lo', hi' := KidLo(keys, ci, lo), KidHi(keys, ci, hi);
      InsertFlatten(kids[ci], order, height - 1, lo', hi', id, row);
      WellFormedPathOk(t, order, height, lo, hi, id, row);
      InsertFlattenInner(t, order, height, lo, hi, id, row, Insert(kids[ci], order, id, row));
  }

  // ---------- whole trees ----------

  /** A whole tree as bptree_create and bptree_insert build it. */
  ghost predicate IsBPlusTree(t: Tree, order: nat) {
    exists height: nat :: WellFormed(t, order, height, NegInf, PosInf)
  }

  /** The index map a tree stands for. */
  ghost function Content(t: Tree): map<int, int> {
    ToMap(Flatten(t))
  }

  lemma TreeIsShapedAndSorted(t: Tree, order: nat)
    requires IsBPlusTree(t, order)
    ensures Shaped(t, order) && Sorted(Flatten(t))
  {
    var height: nat :| WellFormed(t, order, height, NegInf, PosInf);
    WellFormedIsShaped(t, order, height, NegInf, PosInf);
    FlattenSorted(t, order, height, NegInf, PosInf);
  }

  lemma RootWellFormed(o: Insertion, order: nat, height: nat)
    requires 3 <= order && o.Two? && OutcomeWellFormed(o, order, height, NegInf, PosInf, false)
    ensures WellFormed(Inner([o.key], [o.left, o.right]), order, height + 1, NegInf, PosInf)
  {
    var keys, kids := [o.key], [o.left, o.right];
    assert KidsWellFormed(keys, kids, order, height, NegInf, PosInf);
  }

  /** bptree_insert keeps a B+ tree and is map update on its content. */
  lemma InsertRootCorrect(t: Tree, order: nat, id: int, row: int)
    requires 3 <= order && Shaped(t, order) && IsBPlusTree(t, order)
    ensures IsBPlusTree(InsertRoot(t, order, id, row), order)
    ensures Flatten(InsertRoot(t, order, id, row)) == InsertEntry(Flatten(t), id, row)
    ensures Content(InsertRoot(t, order, id, row)) == Content(t)[id := row]
  {
    var height: nat :| WellFormed(t, order, height, NegInf, PosInf);
    InsertWellFormed(t, order, height, NegInf, PosInf, id, row);
    InsertFlatten(t, order, height, NegInf, PosInf, id, row);
    FlattenSorted(t, order, height, NegInf, PosInf);
    InsertEntryUpdatesMap(Flatten(t), id, row);
    var o := Insert(t, order, id, row);
    if o.Two? {
      FlattenTwo(o.left, o.right);
      RootWellFormed(o, order, height);
    }
  }

  /** Any sequence of insertions, applied in order. */
  ghost function UpdateAll(m: map<int, int>, ops: seq<Entry>): map<int, int>
    decreases |ops|
  {
    if ops == [] then m else UpdateAll(m[ops[0].0 := ops[0].1], ops[1..])
  }

  ghost function InsertAll(t: Tree, order: nat, ops: seq<Entry>): Tree
    requires 3 <= order && IsBPlusTree(t, order)
    decreases |ops|
  {
    TreeIsShapedAndSorted(t, order);
    if ops == [] then t
    else
      InsertRootCorrect(t, order, ops[0].0, ops[0].1);
      InsertAll(InsertRoot(t, order, ops[0].0, ops[0].1), order, ops[1..])
  }

  /** Starting from the empty tree, every insertion sequence leaves a B+ tree holding for each id the
      row of its last insertion. */
  lemma {:induction false} InsertAllCorrect(t: Tree, order: nat, ops: seq<Entry>)
    requires 3 <= order && IsBPlusTree(t, order)
    ensures IsBPlusTree(InsertAll(t, order, ops), order)
    ensures Content(InsertAll(t, order, ops)) == UpdateAll(Content(t), ops)
    decreases |ops|
  {
    TreeIsShapedAndSorted(t, order);
    if ops != [] {
      InsertRootCorrect(t, order, ops[0].0, ops[0].1);
      InsertAllCorrect(InsertRoot(t, order, ops[0].0, ops[0].1), order, ops[1..]);
    }
  }

  lemma EmptyTree(order: nat)
    requires 3 <= order
    ensures IsBPlusTree(Leaf([]), order) && Content(Leaf([])) == map[]
  {
    assert WellFormed(Leaf([]), order, 0, NegInf, PosInf);
  }

  // ---------- lookups ----------

  /** The row stored for id in an entry list, or -1. */
  function Find(es: seq<Entry>, id: int): int {
    var p := Pos(es, id);
    if p < |es| && es[p].0 == id then es[p].1 else -1
  }

  lemma FindIsMapLookup(es: seq<Entry>, id: int)
    requires Sorted(es)
    ensures Find(es, id) == if id in ToMap(es) then ToMap(es)[id] else -1
  {
    var p := Pos(es, id);
    if p < |es| && es[p].0 == id {
      assert es[p] in es;
      ToMapEntry(es, es[p]);
    } else if id in ToMap(es) {
      ToMapEntry(es, (id, ToMap(es)[id]));
      PosSeparates(es, id);
      assert false;
    }
  }

  /** A descent step of bptree_search loses nothing. */
  lemma FindInChild(t: Tree, order: nat, height: nat, lo: Bound, hi: Bound, id: int)
    requires WellFormed(t, order, height, lo, hi) && t.Inner?
    ensures Find(Flatten(t), id) == Find(Flatten(t.kids[ChildIdx(t.keys, id)]), id)
  {
    var ci := ChildIdx(t.keys, id);
    var a, b, c := FlattenAll(t.kids[..ci]), Flatten(t.kids[ci]), FlattenAll(t.kids[ci + 1..]);
    AroundChild(t, order, height, lo, hi, id);
    assert Flatten(t) == a + (b + c);
    PosSkip(a, b + c, id);
    PosStop(b, c, id);
  }

  /** The rows of the entries with keys in [from, to], in key order. */
  function RangeRows(es: seq<Entry>, from: int, to: int): seq<int> {
    if es == [] then []
    else (if from <= es[0].0 <= to then [es[0].1] else []) + RangeRows(es[1..], from, to)
  }

  lemma {:induction false} RangeRowsConcat(a: seq<Entry>, b: seq<Entry>, from: int, to: int)
    ensures RangeRows(a + b, from, to) == RangeRows(a, from, to) + RangeRows(b, from, to)
  {
    if a == [] {
      assert a + b == b;
    } else {
      assert (a + b)[1..] == a[1..] + b;
      RangeRowsConcat(a[1..], b, from, to);
    }
  }

  lemma {:induction false} RangeRowsEmpty(es: seq<Entry>, from: int, to: int)
    requires forall i | 0 <= i < |es| :: !(from <= es[i].0 <= to)
    ensures RangeRows(es, from, to) == []
  {
    if es != [] {
      RangeRowsEmpty(es[1..], from, to);
    }
  }

  /** RangeRows lists exactly the mapped rows: for each hit the number of smaller hits is its place. */
  lemma {:induction false} RangeRowsMember(es: seq<Entry>, from: int, to: int, row: int)
    ensures row in RangeRows(es, from, to) <==> exists i :: 0 <= i < |es| && from <= es[i].0 <= to && es[i].1 == row
  {
    if es != [] {
      RangeRowsMember(es[1..], from, to, row);
      if i :| 0 <= i < |es[1..]| && from <= es[1..][i].0 <= to && es[1..][i].1 == row {
        assert es[i + 1] == es[1..][i];
      }
      if i :| 0 <= i < |es| && from <= es[i].0 <= to && es[i].1 == row {
        assert i > 0 ==> es[1..][i - 1] == es[i];
      }
    }
  }

  /** ks lists the keys of m in [from, to] in ascending order. */
  ghost predicate KeyRange(m: map<int, int>, from: int, to: int, ks: seq<int>) {
    && (forall i, j | 0 <= i < j < |ks| :: ks[i] < ks[j])
    && (forall k :: k in ks <==> k in m && from <= k <= to)
  }

  lemma LastIsLargest(es: seq<Entry>, m: map<int, int>)
    requires Sorted(es) && es != [] && m == ToMap(es[..|es| - 1])
    ensures forall k | k in m :: k < es[|es| - 1].0
  {
    var front := es[..|es| - 1];
    forall k | k in m
      ensures k < es[|es| - 1].0
    {
      ToMapEntry(front, (k, m[k]));
      var i :| 0 <= i < |front| && front[i] == (k, m[k]);
      assert es[i] == front[i];
    }
  }

  /** rows lists the values of m at ks. */
  ghost predicate ValuesAt(m: map<int, int>, ks: seq<int>, rows: seq<int>) {
    |rows| == |ks| && forall i | 0 <= i < |ks| :: ks[i] in m && rows[i] == m[ks[i]]
  }

  /** A range query on a sorted entry list is the map restricted to the bounds, in ascending key order. */
  lemma {:induction false} RangeOfMap(es: seq<Entry>, from: int, to: int) returns (ks: seq<int>)
    requires Sorted(es)
    ensures KeyRange(ToMap(es), from, to, ks) && ValuesAt(ToMap(es), ks, RangeRows(es, from, to))
  {
    if es == [] {
      ks := [];
    } else {
      var last := |es| - 1;
      var front, e := es[..last], es[last];
      ks := RangeOfMap(front, from, to);
      LastIsLargest(es, ToMap(front));
      RangeRowsLast(es, from, to);
      ks := LargerKey(ToMap(front), from, to, ks, RangeRows(front, from, to), e, RangeRows(es, from, to));
    }
  }

  lemma RangeRowsLast(es: seq<Entry>, from: int, to: int)
    requires es != []
    ensures
      var e := es[|es| - 1];
      RangeRows(es, from, to) == RangeRows(es[..|es| - 1], from, to) + if from <= e.0 <= to then [e.1] else []
  {
    var front, e := es[..|es| - 1], es[|es| - 1];
    assert es == front + [e];
    RangeRowsConcat(front, [e], from, to);
    assert [e][1..] == [] && RangeRows([], from, to) == [];
  }

  lemma LargerKey(m: map<int, int>, from: int, to: int, ks: seq<int>, rows: seq<int>, e: Entry, rows': seq<int>)
    returns (ks': seq<int>)
    requires KeyRange(m, from, to, ks) && ValuesAt(m, ks, rows) && forall k | k in m :: k < e.0
    requires rows' == rows + if from <= e.0 <= to then [e.1] else []
    ensures KeyRange(m[e.0 := e.1], from, to, ks') && ValuesAt(m[e.0 := e.1], ks', rows')
  {
    assert forall i | 0 <= i < |ks| :: ks[i] in ks;
    ks' := if from <= e.0 <= to then ks + [e.0] else ks;
  }

  // ---------- occupancy and height ----------

  function Pow(b: nat, e: nat): nat {
    if e == 0 then 1 else b * Pow(b, e - 1)
  }

  /** The least number of keys below a node of the given height that keeps the occupancy rule. */
  function MinKeys(order: nat, height: nat): nat {
    if height == 0 then order / 2 else (order + 1) / 2 * MinKeys(order, height - 1)
  }

  lemma {:induction false} MinKeysClosedForm(order: nat, height: nat)
    ensures MinKeys(order, height) == Pow((order + 1) / 2, height) * (order / 2)
  {
    if height > 0 {
      MinKeysClosedForm(order, height - 1);
      MulAssociative((order + 1) / 2, Pow((order + 1) / 2, height - 1), order / 2);
    }
  }

  lemma MulAssociative(a: int, b: int, c: int)
    ensures a * (b * c) == (a * b) * c
  {
  }

  lemma MulMonotone(a: nat, b: nat, m: nat)
    requires a >= b
    ensures a * m >= b * m
  {
    assert a * m == b * m + (a - b) * m;
  }

  lemma {:induction false} FlattenAllAtLeast(ts: seq<Tree>, m: nat)
    requires forall t | t in ts :: |Flatten(t)| >= m
    ensures |FlattenAll(ts)| >= |ts| * m
  {
    if ts != [] {
      FlattenAllAtLeast(ts[1..], m);
      assert |ts| * m == m + |ts[1..]| * m;
    }
  }

  lemma {:induction false} HalfFullSize(t: Tree, order: nat, height: nat, lo: Bound, hi: Bound)
    requires 3 <= order && WellFormed(t, order, height, lo, hi) && HalfFull(t, order)
    ensures |Flatten(t)| >= MinKeys(order, height)
    decreases t
  {
    if t.Inner? {
      KidsSize(t, order, height, lo, hi);
      FlattenAllAtLeast(t.kids, MinKeys(order, height - 1));
      MulMonotone(|t.kids|, (order + 1) / 2, MinKeys(order, height - 1));
    }
  }

  lemma {:induction false} KidsSize(t: Tree, order: nat, height: nat, lo: Bound, hi: Bound)
    requires 3 <= order && WellFormed(t, order, height, lo, hi) && t.Inner?
    ensures forall k | k in t.kids :: |Flatten(k)| >= MinKeys(order, height - 1)
    decreases t, 0
  {
    forall k | k in t.kids
      ensures |Flatten(k)| >= MinKeys(order, height - 1)
    {
      var i :| 0 <= i < |t.kids| && t.kids[i] == k;
      HalfFullSize(k, order, height - 1, KidLo(t.keys, i, lo), KidHi(t.keys, i, hi));
    }
  }

  /** A tree of height h >= 1 holds at least 2 * ceil(order/2)^(h-1) * floor(order/2) keys: the descent
      is logarithmic in the number of keys. */
  lemma HeightBound(t: Tree, order: nat, height: nat)
    requires 3 <= order && 1 <= height && WellFormed(t, order, height, NegInf, PosInf)
    ensures |Content(t)| >= 2 * (Pow((order + 1) / 2, height - 1) * (order / 2))
  {
    KidsSize(t, order, height, NegInf, PosInf);
    FlattenAllAtLeast(t.kids, MinKeys(order, height - 1));
    MulMonotone(|t.kids|, 2, MinKeys(order, height - 1));
    MinKeysClosedForm(order, height - 1);
    FlattenSorted(t, order, height, NegInf, PosInf);
    ContentSize(Flatten(t));
  }

  lemma {:induction false} ContentSize(es: seq<Entry>)
    requires Sorted(es)
    ensures |ToMap(es)| == |es|
  {
    if es != [] {
      var n := |es| - 1;
      ContentSize(es[..n]);
      var m := ToMap(es[..n]);
      if es[n].0 in m {
        ToMapEntry(es[..n], (es[n].0, m[es[n].0]));
        assert false;
      }
      assert m[es[n].0 := es[n].1].Keys == m.Keys + {es[n].0};
    }
  }
}
