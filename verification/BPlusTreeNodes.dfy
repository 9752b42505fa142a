/** The linked B+ tree of src/bptree.c: nodes with in-place key, row and child arrays, leaves chained by
    next.  Every method is proved against the shape functions of BPlusTree.

    A Layout names the node that carries each piece of a shape tree.  Which objects it covers (Foot), that
    they are distinct (Apart) and which tree it stands for (Erase) are facts about the value; Holds says
    that the heap currently looks like it, with the leaves chained in order. */
module BPlusTreeNodes {
  import opened BPlusTree

  /** The shift loops of the insertion routines: a[i..n] moves up by one. */
  method OpenSlot<T>(a: array<T>, i: nat, n: nat)
    requires i <= n < a.Length
    modifies a
    ensures forall k | 0 <= k < i :: a[k] == old(a[k])
    ensures forall k | i < k <= n :: a[k] == old(a[k - 1])
  {
    var j := n;
    while j > i
      invariant i <= j <= n
      invariant forall k | 0 <= k <= j :: a[k] == old(a[k])
      invariant forall k | j < k <= n :: a[k] == old(a[k - 1])
    {
      a[j] := a[j - 1];
      j := j - 1;
    }
  }

  lemma SlotFilled<T>(was: seq<T>, now: seq<T>, i: nat, x: T)
    requires |now| == |was| + 1 && i <= |was| && now[i] == x
    requires forall k | 0 <= k < i :: now[k] == was[k]
    requires forall k | i < k < |now| :: now[k] == was[k - 1]
    ensures now == was[..i] + [x] + was[i..]
  {
  }

  /** The copy loops of the split routines: n elements of src, from position from on, go to dst. */
  method CopyOut<T>(src: array<T>, from: nat, n: nat, dst: array<T>)
    requires from + n <= src.Length && n <= dst.Length && src != dst
    modifies dst
    ensures forall i | 0 <= i < n :: dst[i] == src[from + i]
  {
    for i := 0 to n
      invariant forall k | 0 <= k < i :: dst[k] == src[from + k]
    {
      dst[i] := src[from + i];
    }
  }

  class Node {
    const isLeaf: bool
    const keys: array<int>        // one slot more than a settled node uses
    const rows: array<int>        // leaves only
    const children: array<Node?>  // inner nodes only
    var numKeys: nat
    var next: Node?               // the leaf to the right

    /** leaf_new */
    constructor NewLeaf(order: nat)
      ensures fresh(Own(this)) && Arrays(order)
      ensures LeafHolds(this, [], order, null)
    {
      isLeaf := true;
      keys := new int[order];
      rows := new int[order];
      children := new Node?[0];
      numKeys, next := 0, null;
    }

    /** internal_new */
    constructor NewInner(order: nat)
      ensures fresh(Own(this)) && Arrays(order) && !isLeaf && numKeys == 0
    {
      isLeaf := false;
      keys := new int[order];
      rows := new int[0];
      children := new Node?[order + 1];
      numKeys, next := 0, null;
    }

    ghost predicate Arrays(order: nat)
      reads this`numKeys
    {
      && keys != rows
      && keys.Length == order
      && numKeys <= order
      && (isLeaf ==> rows.Length == order)
      && (!isLeaf ==> children.Length == order + 1)
    }

    function Entries(): seq<Entry>
      reads this`numKeys, keys, rows
      requires numKeys <= keys.Length && numKeys <= rows.Length
    {
      Zip(keys[..numKeys], rows[..numKeys])
    }

    function Kids(): seq<Node?>
      reads this`numKeys, children
      requires numKeys < children.Length
    {
      children[..numKeys + 1]
    }

    /** internal_child_idx */
    method ChildIndex(id: int) returns (i: nat)
      requires numKeys <= keys.Length
      ensures i == ChildIdx(keys[..numKeys], id)
    {
      i := 0;
      while i < numKeys && id >= keys[i]
        invariant i <= numKeys
        invariant ChildIdx(keys[..numKeys], id) == i + ChildIdx(keys[i..numKeys], id)
      {
        assert keys[i..numKeys][1..] == keys[i + 1..numKeys];
        i := i + 1;
      }
      if i < numKeys {
        assert keys[i..numKeys][0] == keys[i];
      }
    }

    /** The search loop of leaf_insert_sorted. */
    method LowerBound(id: int, ghost es: seq<Entry>) returns (i: nat)
      requires numKeys <= keys.Length && numKeys <= rows.Length && Entries() == es
      ensures i == Pos(es, id)
    {
      i := 0;
      while i < numKeys && keys[i] < id
        invariant i <= numKeys
        invariant Pos(es, id) == i + Pos(es[i..], id)
      {
        assert es[i..][1..] == es[i + 1..];
        i := i + 1;
      }
    }

    /** leaf_insert_sorted */
    method LeafInsertSorted(id: int, row: int)
      requires isLeaf && keys != rows && numKeys < keys.Length == rows.Length
      modifies this`numKeys, keys, rows
      ensures numKeys <= keys.Length
      ensures Entries() == InsertEntry(old(Entries()), id, row)
    {
      ghost var es := Entries();
      var i := LowerBound(id, es);
      if i < numKeys && keys[i] == id {
        rows[i] := row;
        assert Entries() == es[i := (id, row)];
        return;
      }
      OpenSlot(keys, i, numKeys);
      OpenSlot(rows, i, numKeys);
      keys[i] := id;
      rows[i] := row;
      numKeys := numKeys + 1;
      SlotFilled(es, Entries(), i, (id, row));
    }

    /** The scan of the leaf reached by bptree_search. */
    method FindInLeaf(id: int, ghost es: seq<Entry>) returns (row: int)
      requires numKeys <= keys.Length && numKeys <= rows.Length && Entries() == es && Sorted(es)
      ensures row == Find(es, id)
    {
      for i := 0 to numKeys
        invariant forall k | 0 <= k < i :: es[k].0 != id
      {
        if keys[i] == id {
          assert es[i] == (id, rows[i]);
          PosSeparates(es, id);
          return rows[i];
        }
      }
      PosSeparates(es, id);
      return -1;
    }

    /** internal_insert_nonfull */
    method InternalInsertNonfull(key: int, rightChild: Node)
      requires !isLeaf && numKeys < keys.Length && children.Length == keys.Length + 1
      modifies this`numKeys, keys, children
      ensures numKeys == old(numKeys) + 1
      ensures
        var ks, cs := old(keys[..numKeys]), old(children[..numKeys + 1]);
        var i := ChildIdx(ks, key);
        && keys[..numKeys] == ks[..i] + [key] + ks[i..]
        && children[..numKeys + 1] == cs[..i + 1] + [rightChild] + cs[i + 1..]
    {
      ghost var ks, cs := keys[..numKeys], children[..numKeys + 1];
      var i := ChildIndex(key);
      OpenSlot(keys, i, numKeys);
      OpenSlot(children, i + 1, numKeys + 1);
      keys[i] := key;
      children[i + 1] := rightChild;
      numKeys := numKeys + 1;
      SlotFilled(ks, keys[..numKeys], i, key);
      SlotFilled(cs, children[..numKeys + 1], i + 1, rightChild);
    }

    /** split_leaf: the upper half moves to a new leaf, linked in right after this one. */
    method SplitLeaf(order: nat, ghost es: seq<Entry>, ghost end: Node?) returns (right: Node, promoted: int)
      requires 3 <= order == |es| && LeafHolds(this, es, order, end)
      modifies this
      ensures fresh(Own(right))
      ensures promoted == es[order / 2].0
      ensures LeafHolds(this, es[..order / 2], order, right)
      ensures LeafHolds(right, es[order / 2..], order, end)
    {
      right := new Node.NewLeaf(order);
      var mid := order / 2;
      CopyOut(keys, mid, order - mid, right.keys);
      CopyOut(rows, mid, order - mid, right.rows);
      right.numKeys := order - mid;
      numKeys := mid;
      right.next := next;
      next := right;
      promoted := right.keys[0];
      assert promoted == es[mid].0;
      assert Entries() == es[..mid];
      assert right.Entries() == es[mid..];
    }

    /** split_internal: the middle key goes up, the keys and children above it to a new node. */
    method SplitInternal(order: nat) returns (right: Node, promoted: int)
      requires 3 <= order == numKeys && !isLeaf && Arrays(order)
      modifies this`numKeys
      ensures fresh(Own(right)) && !right.isLeaf && right.Arrays(order)
      ensures numKeys == order / 2 && right.numKeys == order - order / 2 - 1
      ensures promoted == keys[order / 2]
      ensures right.keys[..right.numKeys] == keys[order / 2 + 1..order]
      ensures right.Kids() == children[order / 2 + 1..order + 1]
    {
      right := new Node.NewInner(order);
      var mid := order / 2;
      promoted := keys[mid];
      var rightKeys := order - mid - 1;
      CopyOut(keys, mid + 1, rightKeys, right.keys);
      CopyOut(children, mid + 1, rightKeys + 1, right.children);
      right.numKeys := rightKeys;
      numKeys := mid;
    }
  }

  // ---------- layouts ----------

  datatype Layout =
    | LeafL(node: Node, entries: seq<Entry>)
    | InnerL(node: Node, keys: seq<int>, kids: seq<Layout>)

  ghost function Own(n: Node): set<object> {
    {n, n.keys, n.rows, n.children}
  }

  ghost function Foot(l: Layout): set<object>
    decreases l
  {
    Own(l.node) + if l.LeafL? then {} else FootAll(l.kids)
  }

  ghost function FootAll(ls: seq<Layout>): set<object>
    decreases ls
  {
    if ls == [] then {} else Foot(ls[0]) + FootAll(ls[1..])
  }

  /** No storage is shared. */
  ghost predicate Apart(l: Layout)
    decreases l
  {
    l.InnerL? ==> Own(l.node) !! FootAll(l.kids) && ApartAll(l.kids)
  }

  ghost predicate ApartAll(ls: seq<Layout>)
    decreases ls
  {
    ls == [] || (Apart(ls[0]) && Foot(ls[0]) !! FootAll(ls[1..]) && ApartAll(ls[1..]))
  }

  function Erase(l: Layout): Tree
    decreases l
  {
    match l
    case LeafL(_, es) => Leaf(es)
    case InnerL(_, keys, kids) => Inner(keys, EraseAll(kids))
  }

  function EraseAll(ls: seq<Layout>): (ts: seq<Tree>)
    ensures |ts| == |ls|
    decreases ls
  {
    if ls == [] then [] else [Erase(ls[0])] + EraseAll(ls[1..])
  }

  function Nodes(ls: seq<Layout>): (ns: seq<Node?>)
    ensures |ns| == |ls|
    ensures forall i | 0 <= i < |ls| :: ns[i] == ls[i].node
  {
    seq(|ls|, i requires 0 <= i < |ls| => ls[i].node)
  }

  /** The leftmost leaf, or end when there is none. */
  ghost function FirstLeaf(l: Layout): Node
    decreases l
  {
    if l.LeafL? || l.kids == [] then l.node else FirstLeaf(l.kids[0])
  }

  ghost function FirstOf(ls: seq<Layout>, end: Node?): Node? {
    if ls == [] then end else FirstLeaf(ls[0])
  }

  ghost predicate LeafHolds(n: Node, es: seq<Entry>, order: nat, end: Node?)
    reads n, n.keys, n.rows
  {
    n.isLeaf && n.Arrays(order) && n.Entries() == es && n.next == end
  }

  ghost predicate InnerHolds(n: Node, keys: seq<int>, cs: seq<Node?>, order: nat)
    reads n`numKeys, n.keys, n.children
  {
    !n.isLeaf && n.Arrays(order) && n.keys[..n.numKeys] == keys && n.Kids() == cs
  }

  /** The heap carries the layout; its last leaf is followed by end. */
  ghost predicate Holds(l: Layout, order: nat, end: Node?)
    reads Foot(l)
    decreases l
  {
    match l
    case LeafL(n, es) => LeafHolds(n, es, order, end)
    case InnerL(n, keys, kids) => InnerHolds(n, keys, Nodes(kids), order) && HoldsAll(kids, order, end)
  }

  ghost predicate HoldsAll(ls: seq<Layout>, order: nat, end: Node?)
    reads FootAll(ls)
    decreases ls
  {
    ls == [] || (Holds(ls[0], order, FirstOf(ls[1..], end)) && HoldsAll(ls[1..], order, end))
  }

  // ---------- lists of layouts ----------

  lemma {:induction false} FootAllConcat(a: seq<Layout>, b: seq<Layout>)
    ensures FootAll(a + b) == FootAll(a) + FootAll(b)
  {
    if a == [] {
      assert a + b == b;
    } else {
      assert (a + b)[1..] == a[1..] + b;
      FootAllConcat(a[1..], b);
    }
  }

  lemma {:induction false} ApartAllConcat(a: seq<Layout>, b: seq<Layout>)
    ensures ApartAll(a + b) <==> ApartAll(a) && ApartAll(b) && FootAll(a) !! FootAll(b)
  {
    if a == [] {
      assert a + b == b;
    } else {
      assert (a + b)[1..] == a[1..] + b;
      ApartAllConcat(a[1..], b);
      FootAllConcat(a[1..], b);
    }
  }

  lemma {:induction false} HoldsAllConcat(a: seq<Layout>, b: seq<Layout>, order: nat, end: Node?)
    ensures HoldsAll(a + b, order, end) <==> HoldsAll(a, order, FirstOf(b, end)) && HoldsAll(b, order, end)
  {
    if a == [] {
      assert a + b == b;
    } else {
      assert (a + b)[1..] == a[1..] + b;
      HoldsAllConcat(a[1..], b, order, end);
      assert FirstOf(a[1..] + b, end) == FirstOf(a[1..], FirstOf(b, end)) by {
        if a[1..] == [] {
          assert a[1..] + b == b;
        }
      }
    }
  }

  lemma {:induction false} EraseAllConcat(a: seq<Layout>, b: seq<Layout>)
    ensures EraseAll(a + b) == EraseAll(a) + EraseAll(b)
  {
    if a == [] {
      assert a + b == b;
    } else {
      assert (a + b)[1..] == a[1..] + b;
      EraseAllConcat(a[1..], b);
    }
  }

  lemma OneFoot(l: Layout)
    ensures FootAll([l]) == Foot(l)
    ensures ApartAll([l]) <==> Apart(l)
  {
    assert [l][1..] == [];
  }

  lemma OneHolds(l: Layout, order: nat, end: Node?)
    ensures HoldsAll([l], order, end) <==> Holds(l, order, end)
  {
    assert [l][1..] == [];
  }

  /** The list a + m + b. */
  function Around(a: seq<Layout>, m: seq<Layout>, b: seq<Layout>): seq<Layout> {
    a + m + b
  }

  /** The facts about a list taken apart around one element. */
  lemma AroundLayout(a: seq<Layout>, l: Layout, b: seq<Layout>, order: nat, end: Node?)
    ensures FootAll(Around(a, [l], b)) == FootAll(a) + Foot(l) + FootAll(b)
    ensures ApartAll(Around(a, [l], b)) <==>
            && ApartAll(a) && Apart(l) && ApartAll(b)
            && FootAll(a) !! Foot(l) && FootAll(a) !! FootAll(b) && Foot(l) !! FootAll(b)
    ensures HoldsAll(Around(a, [l], b), order, end) <==>
            && HoldsAll(a, order, FirstLeaf(l))
            && Holds(l, order, FirstOf(b, end))
            && HoldsAll(b, order, end)
  {
    FootAllConcat(a + [l], b);
    FootAllConcat(a, [l]);
    ApartAllConcat(a + [l], b);
    ApartAllConcat(a, [l]);
    HoldsAllConcat(a + [l], b, order, end);
    HoldsAllConcat(a, [l], order, FirstOf(b, end));
    OneFoot(l);
    OneHolds(l, order, FirstOf(b, end));
  }

  lemma PairFoot(l: Layout, r: Layout)
    ensures FootAll([l, r]) == Foot(l) + Foot(r)
    ensures EraseAll([l, r]) == [Erase(l), Erase(r)]
  {
    assert [l, r][1..] == [r];
    OneFoot(r);
    EraseOne(r);
  }

  lemma PairFootAll(a: seq<Layout>, l: Layout, r: Layout, b: seq<Layout>)
    ensures FootAll(Around(a, [l, r], b)) == FootAll(a) + (Foot(l) + Foot(r)) + FootAll(b)
  {
    FootAllConcat(a + [l, r], b);
    FootAllConcat(a, [l, r]);
    PairFoot(l, r);
  }

  lemma PairApart(a: seq<Layout>, l: Layout, r: Layout, b: seq<Layout>)
    requires ApartAll(a) && Apart(l) && Apart(r) && ApartAll(b)
    requires FootAll(a) !! Foot(l) + Foot(r) && FootAll(b) !! Foot(l) + Foot(r) && FootAll(a) !! FootAll(b)
    requires Foot(l) !! Foot(r)
    ensures ApartAll(Around(a, [l, r], b))
  {
    ApartAllConcat(a + [l, r], b);
    ApartAllConcat(a, [l, r]);
    FootAllConcat(a, [l, r]);
    PairFoot(l, r);
    assert [l, r][1..] == [r];
    OneFoot(r);
  }

  lemma PairHoldsAll(a: seq<Layout>, l: Layout, r: Layout, b: seq<Layout>, order: nat, end: Node?)
    requires HoldsAll(a, order, FirstLeaf(l)) && Holds(l, order, FirstLeaf(r))
    requires Holds(r, order, FirstOf(b, end)) && HoldsAll(b, order, end)
    ensures HoldsAll(Around(a, [l, r], b), order, end)
  {
    HoldsAllConcat(a + [l, r], b, order, end);
    HoldsAllConcat(a, [l, r], order, FirstOf(b, end));
    assert [l, r][1..] == [r];
    OneHolds(r, order, FirstOf(b, end));
  }

  /** The storage of a layout as a set that exists now: nothing allocated later is in it. */
  lemma FootNow(l: Layout) returns (foot: set<object>)
    ensures foot == Foot(l)
  {
    foot := Foot(l);
  }

  lemma FootSet(ls: seq<Layout>) returns (foot: set<object>)
    ensures foot == FootAll(ls)
  {
    foot := FootAll(ls);
  }

  lemma OwnSet(n: Node) returns (own: set<object>)
    ensures own == Own(n)
  {
    own := Own(n);
  }

  /** split_internal on the keys and children of a node. */
  method SplitHeld(n: Node, order: nat, ghost keys: seq<int>, ghost cs: seq<Node?>) returns (sibling: Node, up: int)
    requires 3 <= order == |keys| && |cs| == order + 1 && InnerHolds(n, keys, cs, order)
    modifies n`numKeys
    ensures fresh(Own(sibling))
    ensures
      var mid := order / 2;
      && up == keys[mid]
      && InnerHolds(n, keys[..mid], cs[..mid + 1], order) && InnerHolds(sibling, keys[mid + 1..], cs[mid + 1..], order)
  {
    sibling, up := n.SplitInternal(order);
  }

  /** split_internal on a layout. */
  method SplitNode(n: Node, order: nat, ghost keys: seq<int>, ghost kids: seq<Layout>, ghost end: Node?)
    returns (sibling: Node, up: int, ghost l: Layout, ghost r: Layout)
    requires 3 <= order == |keys| && |kids| == order + 1
    requires InnerHolds(n, keys, Nodes(kids), order)
    requires HoldsAll(kids, order, end) && ApartAll(kids) && Own(n) !! FootAll(kids)
    modifies n`numKeys
    ensures fresh(Own(sibling))
    ensures
      var mid := order / 2;
      && up == keys[mid]
      && l == InnerL(n, keys[..mid], kids[..mid + 1])
      && r == InnerL(sibling, keys[mid + 1..], kids[mid + 1..])
    ensures Apart(l) && Apart(r) && Foot(l) !! Foot(r)
    ensures Foot(l) + Foot(r) == Own(n) + Own(sibling) + FootAll(kids)
    ensures Holds(l, order, FirstLeaf(r)) && Holds(r, order, end)
  {
    ghost var mid := order / 2;
    ghost var kidsL, kidsR := kids[..mid + 1], kids[mid + 1..];
    assert kids == kidsL + kidsR;
    HoldsAllConcat(kidsL, kidsR, order, end);
    ghost var foot := FootSet(kids);
    sibling, up := SplitHeld(n, order, keys, Nodes(kids));
    l := InnerL(n, keys[..mid], kidsL);
    r := InnerL(sibling, keys[mid + 1..], kidsR);
    ApartSplit(l, r);
    NodesSplit(kids, mid + 1);
  }

  lemma NodesSplit(kids: seq<Layout>, k: nat)
    requires k <= |kids|
    ensures Nodes(kids)[..k] == Nodes(kids[..k]) && Nodes(kids)[k..] == Nodes(kids[k..])
  {
  }

  lemma ApartSplit(l: Layout, r: Layout)
    requires l.InnerL? && r.InnerL?
    requires ApartAll(l.kids + r.kids)
    requires Own(l.node) !! Own(r.node) && Own(l.node) + Own(r.node) !! FootAll(l.kids + r.kids)
    ensures Apart(l) && Apart(r) && Foot(l) !! Foot(r)
    ensures Foot(l) + Foot(r) == Own(l.node) + Own(r.node) + FootAll(l.kids + r.kids)
  {
    FootAllConcat(l.kids, r.kids);
    ApartAllConcat(l.kids, r.kids);
  }

  lemma NodesGrown(a: seq<Layout>, kl: Layout, kr: Layout, b: seq<Layout>)
    ensures Nodes(Around(a, [kl, kr], b))
         == Nodes(Around(a, [kl], b))[..|a| + 1] + [kr.node] + Nodes(Around(a, [kl], b))[|a| + 1..]
  {
  }

  /** insert_rec after a child split: the new child goes in beside the old one. */
  method AddKid(n: Node, order: nat, key: int, right: Node, ghost keys: seq<int>,
                ghost a: seq<Layout>, ghost kl: Layout, ghost kr: Layout, ghost b: seq<Layout>)
    requires |keys| < order && |a| + |b| == |keys|
    requires InnerHolds(n, keys, Nodes(Around(a, [kl], b)), order) && right == kr.node
    requires ChildIdx(keys, key) == |a|
    modifies n`numKeys, n.keys, n.children
    ensures InnerHolds(n, keys[..|a|] + [key] + keys[|a|..], Nodes(Around(a, [kl, kr], b)), order)
  {
    NodesGrown(a, kl, kr, b);
    n.InternalInsertNonfull(key, right);
  }

  /** What insert_rec leaves behind: the layout l became l1, or l1 and a new sibling r1, and the erased
      layouts are the outcome o of the insertion on shapes. */
  ghost predicate Became(l: Layout, l1: Layout, r1: Layout, o: Insertion, order: nat, end: Node?)
    reads Foot(l1), Foot(r1)
  {
    && l1.node == l.node
    && FirstLeaf(l1) == FirstLeaf(l)
    && Apart(l1)
    && (o.One? ==> Erase(l1) == o.tree && Holds(l1, order, end))
    && (o.Two? ==>
          && Erase(l1) == o.left && Erase(r1) == o.right
          && Apart(r1) && (forall x | x in Foot(l1) :: x !in Foot(r1))
          && Holds(l1, order, FirstLeaf(r1)) && Holds(r1, order, end))
  }

  /** The storage an insertion leaves behind. */
  ghost function FootOf(l1: Layout, r1: Layout, o: Insertion): set<object> {
    if o.One? then Foot(l1) else Foot(l1) + Foot(r1)
  }

  method InsertIntoLeaf(n: Node, order: nat, id: int, row: int, ghost l: Layout, ghost end: Node?)
    returns (right: Node?, key: int, ghost l1: Layout, ghost r1: Layout)
    requires 3 <= order && l.LeafL? && l.node == n && Sorted(l.entries) && |l.entries| < order
    requires Holds(l, order, end)
    modifies Foot(l)
    ensures
      var o := Insert(Erase(l), order, id, row);
      && (right != null <==> o.Two?)
      && (o.Two? ==> key == o.key && r1.node == right)
      && Became(l, l1, r1, o, order, end)
      && (forall x | x in FootOf(l1, r1, o) && x !in Foot(l) :: fresh(x))
  {
    ghost var es := InsertEntry(l.entries, id, row);
    InsertEntrySorted(l.entries, id, row);
    n.LeafInsertSorted(id, row);
    l1 := LeafL(n, es);
    r1 := l1;
    if n.numKeys < order {
      return null, 0, l1, r1;
    }
    right, key := n.SplitLeaf(order, es, end);
    l1 := LeafL(n, es[..order / 2]);
    r1 := LeafL(right, es[order / 2..]);
  }

  lemma EraseAround(a: seq<Layout>, m: seq<Layout>, b: seq<Layout>)
    ensures EraseAll(a + m + b) == EraseAll(a) + EraseAll(m) + EraseAll(b)
  {
    EraseAllConcat(a + m, b);
    EraseAllConcat(a, m);
  }

  lemma EraseOne(l: Layout)
    ensures EraseAll([l]) == [Erase(l)]
  {
    assert [l][1..] == [];
  }

  lemma ReplaceMiddle<T>(a: seq<T>, x: T, y: T, b: seq<T>)
    ensures (a + [x] + b)[|a|] == x
    ensures (a + [x] + b)[|a| := y] == a + [y] + b
  {
  }

  lemma EraseReplaced(a: seq<Layout>, kl: Layout, k1: Layout, b: seq<Layout>)
    ensures EraseAll(Around(a, [kl], b))[|a| := Erase(k1)] == EraseAll(Around(a, [k1], b))
    ensures EraseAll(Around(a, [kl], b))[|a|] == Erase(kl)
  {
    EraseAround(a, [kl], b);
    EraseAround(a, [k1], b);
    EraseOne(kl);
    EraseOne(k1);
    ReplaceMiddle(EraseAll(a), Erase(kl), Erase(k1), EraseAll(b));
  }

  lemma EraseGrown(keys: seq<int>, key: int, a: seq<Layout>, kl: Layout, k1: Layout, r1: Layout, b: seq<Layout>)
    requires |keys| == |a| + |b| && ChildIdx(keys, key) == |a|
    ensures InsertNonfull(keys, EraseAll(Around(a, [kl], b))[|a| := Erase(k1)], key, Erase(r1))
         == Inner(keys[..|a|] + [key] + keys[|a|..], EraseAll(Around(a, [k1, r1], b)))
  {
    var ts := EraseAll(Around(a, [kl], b));
    InsertNonfullAt(keys, ts, |a|, Erase(k1), key, Erase(r1));
    EraseAround(a, [kl], b);
    EraseAround(a, [k1, r1], b);
    assert ts[..|a|] == EraseAll(a) && ts[|a| + 1..] == EraseAll(b);
    assert [k1, r1] == [k1] + [r1];
    EraseAllConcat([k1], [r1]);
    EraseOne(k1);
    EraseOne(r1);
  }

  lemma EraseSplit(ls: seq<Layout>, m: nat)
    requires m <= |ls|
    ensures EraseAll(ls[..m]) == EraseAll(ls)[..m] && EraseAll(ls[m..]) == EraseAll(ls)[m..]
  {
    assert ls == ls[..m] + ls[m..];
    EraseAllConcat(ls[..m], ls[m..]);
  }

  lemma FirstLeafKept(l: Layout, l1: Layout, a: seq<Layout>, kl: Layout, k1: Layout, b: seq<Layout>, b1: seq<Layout>)
    requires l.InnerL? && l.kids == Around(a, [kl], b)
    requires l1.InnerL? && l1.kids == a + [k1] + b1
    requires FirstLeaf(kl) == FirstLeaf(k1)
    ensures FirstLeaf(l1) == FirstLeaf(l)
  {
    assert if a == [] then l.kids[0] == kl && l1.kids[0] == k1 else l.kids[0] == a[0] == l1.kids[0];
  }

  lemma NodesReplaced(a: seq<Layout>, kl: Layout, k1: Layout, b: seq<Layout>)
    requires kl.node == k1.node
    ensures Nodes(Around(a, [k1], b)) == Nodes(Around(a, [kl], b))
  {
  }

  /** The shape of l after its child kl became k1 alone. */
  lemma BecameOne(l: Layout, l1: Layout, a: seq<Layout>, kl: Layout, k1: Layout, b: seq<Layout>, order: nat)
    requires 3 <= order && l.InnerL? && l.kids == Around(a, [kl], b) && |a| + |b| == |l.keys| < order
    requires l1.InnerL? && l1.keys == l.keys && l1.kids == Around(a, [k1], b)
    ensures Absorb(l.keys, EraseAll(l.kids), order, |a|, One(Erase(k1))) == One(Erase(l1))
  {
    EraseReplaced(a, kl, k1, b);
  }

  /** The shape of l after its child kl became k1 and r1, before any split of its own. */
  lemma BecameGrown(l: Layout, l1: Layout, key: int, a: seq<Layout>, kl: Layout, k1: Layout, r1: Layout, b: seq<Layout>)
    requires l.InnerL? && l.kids == Around(a, [kl], b) && |a| + |b| == |l.keys|
    requires l1.InnerL? && l1.kids == Around(a, [k1, r1], b)
    requires l1.keys == l.keys[..|a|] + [key] + l.keys[|a|..]
    requires ChildIdx(l.keys, key) == |a|
    ensures InsertNonfull(l.keys, EraseAll(l.kids)[|a| := Erase(k1)], key, Erase(r1)) == Erase(l1)
  {
    EraseGrown(l.keys, key, a, kl, k1, r1, b);
  }

  /** The node g, one kid over, after its split. */
  lemma BecameSplit(g: Layout, l1: Layout, rs: Layout, order: nat)
    requires g.InnerL? && 3 <= order == |g.keys| && |g.kids| == order + 1
    requires l1 == InnerL(g.node, g.keys[..order / 2], g.kids[..order / 2 + 1])
    requires rs.InnerL? && rs.keys == g.keys[order / 2 + 1..] && rs.kids == g.kids[order / 2 + 1..]
    ensures SplitInner(Erase(g), order) == Two(Erase(l1), g.keys[order / 2], Erase(rs))
    ensures FirstLeaf(l1) == FirstLeaf(g)
  {
    EraseSplit(g.kids, order / 2 + 1);
    assert l1.kids[0] == g.kids[0];
  }

  /** The situation in an inner node l right after the insertion into its child kl. */
  ghost predicate ChildDone(l: Layout, a: seq<Layout>, kl: Layout, b: seq<Layout>, k1: Layout, r1: Layout,
                            o: Insertion, order: nat, end: Node?)
    reads Own(l.node), FootAll(a), FootAll(b), Foot(k1), Foot(r1)
  {
    && l.InnerL? && l.kids == Around(a, [kl], b)
    && |l.keys| == |a| + |b| < order
    && InnerHolds(l.node, l.keys, Nodes(l.kids), order)
    && Became(kl, k1, r1, o, order, FirstOf(b, end))
    && HoldsAll(a, order, FirstLeaf(kl)) && HoldsAll(b, order, end)
    && ApartAll(a) && ApartAll(b) && FootAll(a) !! FootAll(b)
    && (forall x | x in FootOf(k1, r1, o) :: x !in FootAll(a) && x !in FootAll(b))
    && Own(l.node) !! FootAll(a) + FootOf(k1, r1, o) + FootAll(b)
  }

  /** The kids of l when the child did not split. */
  lemma KidsReadyOne(l: Layout, a: seq<Layout>, kl: Layout, b: seq<Layout>, k1: Layout, r1: Layout, o: Insertion,
                     order: nat, end: Node?, kids: seq<Layout>)
    requires o.One? && ChildDone(l, a, kl, b, k1, r1, o, order, end)
    requires kids == Around(a, [k1], b)
    ensures HoldsAll(kids, order, end) && ApartAll(kids)
    ensures FootAll(kids) == FootAll(a) + Foot(k1) + FootAll(b)
    ensures Own(l.node) !! FootAll(kids)
  {
    AroundLayout(a, k1, b, order, end);
  }

  lemma HoldsInner(l1: Layout, order: nat, end: Node?)
    requires l1.InnerL? && InnerHolds(l1.node, l1.keys, Nodes(l1.kids), order)
    requires HoldsAll(l1.kids, order, end) && ApartAll(l1.kids) && Own(l1.node) !! FootAll(l1.kids)
    ensures Apart(l1) && Holds(l1, order, end) && Foot(l1) == Own(l1.node) + FootAll(l1.kids)
  {
  }

  /** insert_rec when the child did not split. */
  lemma AbsorbOne(l: Layout, a: seq<Layout>, kl: Layout, b: seq<Layout>, k1: Layout, r1: Layout, o: Insertion,
                  order: nat, end: Node?, l1: Layout)
    requires 3 <= order && o.One? && ChildDone(l, a, kl, b, k1, r1, o, order, end)
    requires l1 == InnerL(l.node, l.keys, Around(a, [k1], b))
    ensures Apart(l1) && Holds(l1, order, end)
    ensures Foot(l1) == Own(l.node) + FootAll(a) + Foot(k1) + FootAll(b)
  {
    NodesReplaced(a, kl, k1, b);
    KidsReadyOne(l, a, kl, b, k1, r1, o, order, end, l1.kids);
    HoldsInner(l1, order, end);
  }

  /** The kids of l once the split child is in place, as a layout g that still may be one kid over. */
  lemma KidsReady(l: Layout, a: seq<Layout>, kl: Layout, b: seq<Layout>, k1: Layout, r1: Layout, o: Insertion,
                  order: nat, end: Node?, kids: seq<Layout>)
    requires o.Two? && ChildDone(l, a, kl, b, k1, r1, o, order, end)
    requires kids == Around(a, [k1, r1], b)
    ensures HoldsAll(kids, order, end) && ApartAll(kids)
    ensures FootAll(kids) == FootAll(a) + FootOf(k1, r1, o) + FootAll(b)
    ensures Own(l.node) !! FootAll(kids)
  {
    PairFootAll(a, k1, r1, b);
    PairApart(a, k1, r1, b);
    PairHoldsAll(a, k1, r1, b, order, end);
  }

  /** insert_rec when the child split: the node takes in the new child and splits if it overflows. */
  method AbsorbTwo(n: Node, order: nat, key: int, right: Node, ghost l: Layout, ghost a: seq<Layout>,
                   ghost k1: Layout, ghost r1: Layout, ghost b: seq<Layout>, ghost g: Layout, ghost end: Node?)
    returns (sibling: Node?, up: int, ghost l1: Layout, ghost rs: Layout)
    requires l.InnerL? && l.node == n && 3 <= order && |l.keys| == |a| + |b| < order
    requires InnerHolds(n, l.keys, Nodes(Around(a, [k1], b)), order)
    requires right == r1.node && ChildIdx(l.keys, key) == |a|
    requires g == InnerL(n, l.keys[..|a|] + [key] + l.keys[|a|..], Around(a, [k1, r1], b))
    requires HoldsAll(g.kids, order, end) && ApartAll(g.kids) && Own(n) !! FootAll(g.kids)
    modifies Own(n)
    ensures sibling == null ==>
      && l1 == g && |g.keys| < order
      && Apart(l1) && Foot(l1) == Own(n) + FootAll(g.kids)
      && Holds(l1, order, end)
    ensures sibling != null ==>
      && |g.keys| == order
      && l1 == InnerL(n, g.keys[..order / 2], g.kids[..order / 2 + 1])
      && rs == InnerL(sibling, g.keys[order / 2 + 1..], g.kids[order / 2 + 1..])
      && up == g.keys[order / 2]
      && fresh(Own(sibling))
      && Apart(l1) && Apart(rs) && Foot(l1) !! Foot(rs)
      && Foot(l1) + Foot(rs) == Own(n) + Own(sibling) + FootAll(g.kids)
      && Holds(l1, order, FirstLeaf(rs)) && Holds(rs, order, end)
  {
    ghost var foot := FootSet(g.kids);
    AddKid(n, order, key, right, l.keys, a, k1, r1, b);
    assert HoldsAll(g.kids, order, end);
    if n.numKeys < order {
      HoldsInner(g, order, end);
      return null, 0, g, g;
    }
    sibling, up, l1, rs := SplitNode(n, order, g.keys, g.kids, end);
  }

  /** Where insertion descends: the child's layout between its neighbours, and what its insertion means
      for the node. */
  lemma Descend(l: Layout, order: nat, id: int, row: int, ci: nat, a: seq<Layout>, kl: Layout, b: seq<Layout>)
    requires 3 <= order && Shaped(Erase(l), order) && PathOk(Erase(l), order, id, row)
    requires l.InnerL? && ci < |l.kids| == |l.keys| + 1 && ci == ChildIdx(l.keys, id)
    requires a == l.kids[..ci] && kl == l.kids[ci] && b == l.kids[ci + 1..]
    ensures l.kids == Around(a, [kl], b) && |l.keys| < order
    ensures Shaped(Erase(kl), order) && PathOk(Erase(kl), order, id, row)
    ensures
      var o := Insert(Erase(kl), order, id, row);
      && Insert(Erase(l), order, id, row) == Absorb(l.keys, EraseAll(l.kids), order, ci, o)
      && (o.Two? ==> ChildIdx(l.keys, o.key) == ci)
  {
    assert l.kids == Around(a, [kl], b);
    EraseReplaced(a, kl, kl, b);
    assert Erase(l) == Inner(l.keys, EraseAll(l.kids)) && EraseAll(l.kids)[ci] == Erase(kl);
    DescendShape(l.keys, EraseAll(l.kids), order, id, row, ci);
  }

  lemma DescendShape(keys: seq<int>, kids: seq<Tree>, order: nat, id: int, row: int, ci: nat)
    requires 3 <= order && Shaped(Inner(keys, kids), order) && PathOk(Inner(keys, kids), order, id, row)
    requires ci < |kids| == |keys| + 1 && ci == ChildIdx(keys, id)
    ensures |keys| < order && Shaped(kids[ci], order) && PathOk(kids[ci], order, id, row)
    ensures
      var o := Insert(kids[ci], order, id, row);
      && Insert(Inner(keys, kids), order, id, row) == Absorb(keys, kids, order, ci, o)
      && (o.Two? ==> ChildIdx(keys, o.key) == ci)
  {
  }

  /** The storage side of the descent. */
  lemma DescendStorage(l: Layout, order: nat, end: Node?, a: seq<Layout>, kl: Layout, b: seq<Layout>)
    requires l.InnerL? && Apart(l) && Holds(l, order, end) && l.kids == Around(a, [kl], b)
    ensures InnerHolds(l.node, l.keys, Nodes(l.kids), order)
    ensures HoldsAll(a, order, FirstLeaf(kl)) && Holds(kl, order, FirstOf(b, end)) && HoldsAll(b, order, end)
    ensures ApartAll(a) && Apart(kl) && ApartAll(b)
    ensures FootAll(a) !! Foot(kl) && FootAll(a) !! FootAll(b) && Foot(kl) !! FootAll(b)
    ensures Own(l.node) !! FootAll(a) + Foot(kl) + FootAll(b)
    ensures Foot(l) == Own(l.node) + FootAll(a) + Foot(kl) + FootAll(b)
    ensures FootAll(l.kids) == FootAll(a) + Foot(kl) + FootAll(b)
  {
    AroundLayout(a, kl, b, order, end);
  }

  /** The rest of insert_rec when the child did not split. */
  lemma FinishOne(l: Layout, a: seq<Layout>, kl: Layout, b: seq<Layout>, k1: Layout, r1: Layout, o: Insertion,
                  order: nat, end: Node?, l1: Layout)
    requires 3 <= order && o.One? && ChildDone(l, a, kl, b, k1, r1, o, order, end)
    requires l1 == InnerL(l.node, l.keys, Around(a, [k1], b))
    ensures
      var o' := Absorb(l.keys, EraseAll(l.kids), order, |a|, o);
      && o'.One?
      && Became(l, l1, l1, o', order, end)
      && Foot(l1) == Own(l.node) + FootAll(a) + Foot(k1) + FootAll(b)
  {
    AbsorbOne(l, a, kl, b, k1, r1, o, order, end, l1);
    BecameOne(l, l1, a, kl, k1, b, order);
    FirstLeafKept(l, l1, a, kl, k1, b, b);
  }

  /** What insert_rec makes of an inner node that took in a split child: g, or the two halves of g. */
  lemma TwoOutcome(l: Layout, g: Layout, a: seq<Layout>, kl: Layout, k1: Layout, r1: Layout, b: seq<Layout>,
                   key: int, order: nat)
    requires l.InnerL? && l.kids == Around(a, [kl], b) && 3 <= order && |a| + |b| == |l.keys| < order
    requires g.InnerL? && g.kids == Around(a, [k1, r1], b)
    requires g.keys == l.keys[..|a|] + [key] + l.keys[|a|..]
    requires ChildIdx(l.keys, key) == |a|
    ensures Absorb(l.keys, EraseAll(l.kids), order, |a|, Two(Erase(k1), key, Erase(r1)))
         == if |g.keys| < order then One(Erase(g)) else SplitInner(Erase(g), order)
  {
    BecameGrown(l, g, key, a, kl, k1, r1, b);
  }

  /** The rest of insert_rec when the child did split. */
  method FinishTwo(n: Node, order: nat, key: int, right: Node, ghost l: Layout, ghost end: Node?,
                   ghost a: seq<Layout>, ghost k1: Layout, ghost r1: Layout, ghost b: seq<Layout>,
                   ghost g: Layout, ghost o: Insertion)
    returns (sibling: Node?, up: int, ghost l1: Layout, ghost rs: Layout)
    requires l.InnerL? && l.node == n && 3 <= order && |l.keys| == |a| + |b| < order
    requires InnerHolds(n, l.keys, Nodes(Around(a, [k1], b)), order)
    requires right == r1.node && ChildIdx(l.keys, key) == |a|
    requires g == InnerL(n, l.keys[..|a|] + [key] + l.keys[|a|..], Around(a, [k1, r1], b))
    requires HoldsAll(g.kids, order, end) && ApartAll(g.kids) && Own(n) !! FootAll(g.kids)
    requires FirstLeaf(g) == FirstLeaf(l)
    requires o == if |g.keys| < order then One(Erase(g)) else SplitInner(Erase(g), order)
    modifies Own(n)
    ensures sibling != null <==> o.Two?
    ensures o.Two? ==> up == o.key && rs.node == sibling && fresh(Own(sibling))
    ensures Became(l, l1, rs, o, order, end)
    ensures FootOf(l1, rs, o) == Own(n) + FootAll(g.kids) + (if sibling == null then {} else Own(sibling))
  {
    sibling, up, l1, rs := AbsorbTwo(n, order, key, right, l, a, k1, r1, b, g, end);
    if sibling != null {
      BecameSplit(g, l1, rs, order);
    }
  }

  lemma FirstLeafGrown(l: Layout, g: Layout, a: seq<Layout>, kl: Layout, k1: Layout, r1: Layout, b: seq<Layout>)
    requires l.InnerL? && l.kids == Around(a, [kl], b)
    requires g.InnerL? && g.kids == Around(a, [k1, r1], b)
    requires FirstLeaf(kl) == FirstLeaf(k1)
    ensures FirstLeaf(g) == FirstLeaf(l)
  {
    assert g.kids == a + [k1] + ([r1] + b);
    FirstLeafKept(l, g, a, kl, k1, b, [r1] + b);
  }

  /** The descent step of bptree_search and bptree_range. */
  method StepDown(cur: Node, order: nat, id: int, ghost l: Layout, ghost end: Node?)
    returns (child: Node, ghost ci: nat)
    requires l.node == cur && !cur.isLeaf && Holds(l, order, end)
    ensures l.InnerL? && ci < |l.kids| == |l.keys| + 1 && ci == ChildIdx(l.keys, id)
    ensures child == l.kids[ci].node
    ensures Holds(l, order, end)
  {
    ghost var foot := FootNow(l);
    var i := cur.ChildIndex(id);
    ci := i;
    child := cur.children[i];
  }

  /** insert_rec: the tree below n is changed in place into the outcome of Insert on its shape; on a
      split the new right sibling and the promoted key are returned. */
  method InsertRec(n: Node, order: nat, id: int, row: int, ghost l: Layout, ghost end: Node?)
    returns (right: Node?, key: int, ghost l1: Layout, ghost r1: Layout)
    requires 3 <= order && l.node == n && Apart(l) && Holds(l, order, end)
    requires Shaped(Erase(l), order) && PathOk(Erase(l), order, id, row)
    modifies Foot(l)
    decreases l, 2
    ensures
      var o := Insert(Erase(l), order, id, row);
      && (right != null <==> o.Two?)
      && (o.Two? ==> key == o.key && r1.node == right)
      && Became(l, l1, r1, o, order, end)
      && (forall x | x in FootOf(l1, r1, o) && x !in Foot(l) :: fresh(x))
  {
    if n.isLeaf {
      right, key, l1, r1 := InsertIntoLeaf(n, order, id, row, l, end);
    } else {
      right, key, l1, r1 := InsertIntoInner(n, order, id, row, l, end);
    }
  }

  /** insert_rec at an inner node. */
  method InsertIntoInner(n: Node, order: nat, id: int, row: int, ghost l: Layout, ghost end: Node?)
    returns (right: Node?, key: int, ghost l1: Layout, ghost r1: Layout)
    requires 3 <= order && l.node == n && !n.isLeaf && Apart(l) && Holds(l, order, end)
    requires Shaped(Erase(l), order) && PathOk(Erase(l), order, id, row)
    modifies Foot(l)
    decreases l, 1
    ensures
      var o := Insert(Erase(l), order, id, row);
      && (right != null <==> o.Two?)
      && (o.Two? ==> key == o.key && r1.node == right)
      && Became(l, l1, r1, o, order, end)
      && (forall x | x in FootOf(l1, r1, o) && x !in Foot(l) :: fresh(x))
  {
    var child, ci := StepDown(n, order, id, l, end);
    right, key, l1, r1 := InsertIntoChild(n, order, id, row, ci, child, l, end);
  }

  /** Everything FinishTwo asks for follows from the state after the recursive call. */
  lemma SplitReady(l: Layout, a: seq<Layout>, kl: Layout, b: seq<Layout>, k1: Layout, r1: Layout, o: Insertion,
                   order: nat, end: Node?, g: Layout)
    requires 3 <= order && o.Two? && ChildDone(l, a, kl, b, k1, r1, o, order, end)
    requires ChildIdx(l.keys, o.key) == |a|
    requires g == InnerL(l.node, l.keys[..|a|] + [o.key] + l.keys[|a|..], Around(a, [k1, r1], b))
    ensures InnerHolds(l.node, l.keys, Nodes(Around(a, [k1], b)), order)
    ensures HoldsAll(g.kids, order, end) && ApartAll(g.kids) && Own(l.node) !! FootAll(g.kids)
    ensures FootAll(g.kids) == FootAll(a) + FootOf(k1, r1, o) + FootAll(b)
    ensures FirstLeaf(g) == FirstLeaf(l)
    ensures Absorb(l.keys, EraseAll(l.kids), order, |a|, o)
         == if |g.keys| < order then One(Erase(g)) else SplitInner(Erase(g), order)
  {
    KidsReady(l, a, kl, b, k1, r1, o, order, end, g.kids);
    NodesReplaced(a, kl, k1, b);
    FirstLeafGrown(l, g, a, kl, k1, r1, b);
    TwoOutcome(l, g, a, kl, k1, r1, b, o.key, order);
  }

  /** The rest of insert_rec once the child has been dealt with. */
  method FinishChild(n: Node, order: nat, key: int, right: Node?, ghost l: Layout, ghost end: Node?,
                     ghost a: seq<Layout>, ghost kl: Layout, ghost b: seq<Layout>,
                     ghost k1: Layout, ghost r1: Layout, ghost o: Insertion)
    returns (sibling: Node?, up: int, ghost l1: Layout, ghost rs: Layout)
    requires 3 <= order && l.node == n && ChildDone(l, a, kl, b, k1, r1, o, order, end)
    requires right != null <==> o.Two?
    requires o.Two? ==> right == r1.node && key == o.key && ChildIdx(l.keys, key) == |a|
    modifies Own(n)
    ensures
      var o' := Absorb(l.keys, EraseAll(l.kids), order, |a|, o);
      && (sibling != null <==> o'.Two?)
      && (o'.Two? ==> up == o'.key && rs.node == sibling && fresh(Own(sibling)))
      && Became(l, l1, rs, o', order, end)
      && FootOf(l1, rs, o') == Own(n) + (FootAll(a) + FootOf(k1, r1, o) + FootAll(b))
                             + (if sibling == null then {} else Own(sibling))
  {
    if right == null {
      l1 := InnerL(n, l.keys, Around(a, [k1], b));
      FinishOne(l, a, kl, b, k1, r1, o, order, end, l1);
      return null, 0, l1, l1;
    }
    ghost var g := InnerL(n, l.keys[..|a|] + [key] + l.keys[|a|..], Around(a, [k1, r1], b));
    SplitReady(l, a, kl, b, k1, r1, o, order, end, g);
    ghost var o' := Absorb(l.keys, EraseAll(l.kids), order, |a|, o);
    sibling, up, l1, rs := FinishTwo(n, order, key, right, l, end, a, k1, r1, b, g, o');
  }

  /** insert_rec at an inner node, the child chosen. */
  method InsertIntoChild(n: Node, order: nat, id: int, row: int, ghost ci: nat, child: Node,
                         ghost l: Layout, ghost end: Node?)
    returns (right: Node?, key: int, ghost l1: Layout, ghost r1: Layout)
    requires l.InnerL? && ci < |l.kids| == |l.keys| + 1 && ci == ChildIdx(l.keys, id) && child == l.kids[ci].node
    requires 3 <= order && l.node == n && Apart(l) && Holds(l, order, end)
    requires Shaped(Erase(l), order) && PathOk(Erase(l), order, id, row)
    modifies Foot(l)
    decreases l, 0
    ensures
      var o := Insert(Erase(l), order, id, row);
      && (right != null <==> o.Two?)
      && (o.Two? ==> key == o.key && r1.node == right)
      && Became(l, l1, r1, o, order, end)
      && (forall x | x in FootOf(l1, r1, o) && x !in Foot(l) :: fresh(x))
  {
    ghost var a, kl, b := l.kids[..ci], l.kids[ci], l.kids[ci + 1..];
    Descend(l, order, id, row, ci, a, kl, b);
    ghost var o := Insert(Erase(kl), order, id, row);
    var r, k, k1, kr := InsertBelow(child, order, id, row, l, end, a, kl, b);
    right, key, l1, r1 := FinishChild(n, order, k, r, l, end, a, kl, b, k1, kr, o);
  }

  /** The recursive call of insert_rec: nothing outside the child's storage changes. */
  method InsertBelow(child: Node, order: nat, id: int, row: int, ghost l: Layout, ghost end: Node?,
                     ghost a: seq<Layout>, ghost kl: Layout, ghost b: seq<Layout>)
    returns (right: Node?, key: int, ghost k1: Layout, ghost kr: Layout)
    requires l.InnerL? && l.kids == Around(a, [kl], b) && |l.keys| == |a| + |b| < order && child == kl.node
    requires 3 <= order && Shaped(Erase(kl), order) && PathOk(Erase(kl), order, id, row)
    requires Apart(l) && Holds(l, order, end)
    modifies Foot(l)
    decreases kl, 3
    ensures
      var o := Insert(Erase(kl), order, id, row);
      && (right != null <==> o.Two?)
      && (o.Two? ==> key == o.key && kr.node == right)
      && ChildDone(l, a, kl, b, k1, kr, o, order, end)
      && (forall x | x in FootOf(k1, kr, o) && x !in Foot(kl) :: fresh(x))
    ensures Foot(l) == Own(l.node) + FootAll(a) + Foot(kl) + FootAll(b)
  {
    DescendStorage(l, order, end, a, kl, b);
    ghost var footA := FootSet(a);
    ghost var footB := FootSet(b);
    ghost var own := OwnSet(l.node);
    right, key, k1, kr := InsertRec(child, order, id, row, kl, FirstOf(b, end));
    ghost var foot := FootOf(k1, kr, Insert(Erase(kl), order, id, row));
    assert foot !! footA && foot !! footB && foot !! own;
    assert HoldsAll(a, order, FirstLeaf(kl)) && HoldsAll(b, order, end);
  }
}
