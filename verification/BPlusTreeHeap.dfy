/** The tree object: its root, and the four operations. */
module BPlusTreeHeap {
  import opened BPlusTree
  import opened BPlusTreeNodes
  import opened BPlusTreeChain

  class BPTree {
    const order: nat
    var root: Node
    ghost var layout: Layout

    ghost predicate Valid()
      reads this, Foot(layout)
    {
      && 3 <= order
      && layout.node == root
      && this !in Foot(layout)
      && Apart(layout)
      && Holds(layout, order, null)
      && IsBPlusTree(Erase(layout), order)
    }

    ghost function Repr(): set<object>
      reads this
    {
      {this} + Foot(layout)
    }

    /** The id -> row map the index stands for. */
    ghost function Map(): map<int, int>
      reads this
    {
      Content(Erase(layout))
    }

    /** bptree_create with an accepted order. */
    constructor (order: nat)
      requires 3 <= order
      ensures Valid() && fresh(Repr())
      ensures this.order == order && Map() == map[]
    {
      this.order := order;
      var leaf := new Node.NewLeaf(order);
      root := leaf;
      layout := LeafL(leaf, []);
      new;
      EmptyTree(order);
    }

    /** bptree_create: orders below 3 are refused. */
    static method Create(order: int) returns (t: BPTree?)
      ensures t == null <==> order < 3
      ensures t != null ==> fresh(t.Repr()) && t.order == order && t.Valid() && t.Map() == map[]
    {
      if order < 3 {
        return null;
      }
      t := new BPTree(order);
    }

    /** bptree_insert */
    method Insert(id: int, row: int)
      requires Valid()
      modifies this, Foot(layout)
      ensures Valid() && fresh(Repr() - old(Repr()))
      ensures Map() == old(Map())[id := row]
    {
      ghost var foot := FootNow(layout);
      var r, l := InsertAtRoot(root, order, id, row, layout);
      root, layout := r, l;
    }

    /** bptree_search */
    method Search(id: int) returns (row: int)
      requires Valid()
      ensures row == if id in Map() then Map()[id] else -1
    {
      ghost var t := Erase(layout);
      TreeIsShapedAndSorted(t, order);
      FindIsMapLookup(Flatten(t), id);
      ghost var height: nat :| WellFormed(t, order, height, NegInf, PosInf);
      var leaf, l, end := FindLeaf(root, order, id, layout, height);
      row := leaf.FindInLeaf(id, l.entries);
    }

    /** bptree_range */
    method Range(from: int, to: int, out: array<int>, maxOut: int) returns (filled: nat)
      requires Valid() && maxOut <= out.Length
      requires out !in Repr()
      modifies out
      ensures
        var rows := RangeRows(Flatten(Erase(layout)), from, to);
        && filled == (if maxOut <= 0 then 0 else if maxOut < |rows| then maxOut else |rows|)
        && out[..filled] == rows[..filled]
    {
      ghost var es := Flatten(Erase(layout));
      if maxOut <= 0 || from > to {
        RangeRowsEmptyRange(es, from, to);
        return 0;
      }
      TreeIsShapedAndSorted(Erase(layout), order);
      ghost var height: nat :| WellFormed(Erase(layout), order, height, NegInf, PosInf);
      var leaf, ls := RangeStart(root, order, from, to, layout, height);
      filled := CollectRows(leaf, order, from, to, out, maxOut, ls, RangeRows(es, from, to));
    }
  }

  /** The walk along the leaf chain in bptree_range. */
  method CollectRows(leaf: Node, order: nat, from: int, to: int, out: array<int>, maxOut: nat,
                     ghost ls0: seq<Layout>, ghost total: seq<int>)
    returns (filled: nat)
    requires ls0 != [] && ls0[0].node == leaf && AllLeaves(ls0) && HoldsAll(ls0, order, null)
    requires out !in FootAll(ls0) && 0 < maxOut <= out.Length
    requires Sorted(EntriesOf(ls0)) && RangeRows(EntriesOf(ls0), from, to) == total
    modifies out
    ensures filled == if maxOut < |total| then maxOut else |total|
    ensures out[..filled] == total[..filled]
  {
    filled := 0;
    var cur: Node? := leaf;
    ghost var ls := ls0;
    assert out[..0] + total == total;
    while cur != null && filled < maxOut
      invariant cur == (if ls == [] then null else ls[0].node)
      invariant AllLeaves(ls) && HoldsAll(ls, order, null) && out !in FootAll(ls)
      invariant Sorted(EntriesOf(ls))
      invariant filled <= maxOut && filled <= |total| && out[..filled] == total[..filled]
      invariant filled < maxOut ==> out[..filled] + RangeRows(EntriesOf(ls), from, to) == total
      decreases |ls|
    {
      ghost var es, more := ls[0].entries, ls[1..];
      ghost var foot := FootSet(ls);
      LeafAhead(ls, order);
      SortedTail(es, EntriesOf(more));
      var past;
      filled, past := ScanLeaf(cur, from, to, out, maxOut, filled, es, EntriesOf(more), total);
      if past {
        return;
      }
      assert HoldsAll(more, order, null);
      cur := cur.next;
      ls := more;
    }
  }

  lemma LeafAhead(ls: seq<Layout>, order: nat)
    requires ls != [] && AllLeaves(ls) && HoldsAll(ls, order, null)
    ensures LeafHolds(ls[0].node, ls[0].entries, order, if ls[1..] == [] then null else ls[1].node)
    ensures EntriesOf(ls) == ls[0].entries + EntriesOf(ls[1..])
    ensures AllLeaves(ls[1..]) && HoldsAll(ls[1..], order, null)
    ensures FootAll(ls) == Own(ls[0].node) + FootAll(ls[1..])
  {
    assert ls[0] in ls;
    assert ls == [ls[0]] + ls[1..];
    EntriesOfConcat([ls[0]], ls[1..]);
    EntriesOfOne(ls[0]);
    assert ls[1..] != [] ==> ls[1] in ls;
  }

  lemma {:induction false} RangeRowsEmptyRange(es: seq<Entry>, from: int, to: int)
    ensures from > to ==> RangeRows(es, from, to) == []
  {
    if es != [] {
      RangeRowsEmptyRange(es[1..], from, to);
    }
  }

  /** The part of bptree_insert below the root pointer. */
  method InsertAtRoot(root: Node, order: nat, id: int, row: int, ghost l: Layout)
    returns (root': Node, ghost l': Layout)
    requires 3 <= order && l.node == root && Apart(l) && Holds(l, order, null)
    requires IsBPlusTree(Erase(l), order)
    modifies Foot(l)
    ensures l'.node == root' && Apart(l') && Holds(l', order, null)
    ensures IsBPlusTree(Erase(l'), order)
    ensures Content(Erase(l')) == Content(Erase(l))[id := row]
    ensures fresh(Foot(l') - Foot(l))
  {
    ghost var t := Erase(l);
    TreeIsShapedAndSorted(t, order);
    InsertRootCorrect(t, order, id, row);
    InsertionPathOk(t, order, id, row);
    var sibling, promoted, l1, r1 := InsertRec(root, order, id, row, l, null);
    if sibling == null {
      return root, l1;
    }
    root' := NewRoot(order, promoted, root, sibling, l1, r1, null);
    l' := InnerL(root', [promoted], [l1, r1]);
    PairFoot(l1, r1);
  }

  lemma InsertionPathOk(t: Tree, order: nat, id: int, row: int)
    requires 3 <= order && Shaped(t, order) && IsBPlusTree(t, order)
    ensures PathOk(t, order, id, row)
  {
    var height: nat :| WellFormed(t, order, height, NegInf, PosInf);
    WellFormedPathOk(t, order, height, NegInf, PosInf, id, row);
  }

  /** A split root gets a new root above the two halves. */
  method NewRoot(order: nat, key: int, left: Node, right: Node, ghost l: Layout, ghost r: Layout, ghost end: Node?)
    returns (n: Node)
    requires 3 <= order && left == l.node && right == r.node
    requires Apart(l) && Apart(r) && Foot(l) !! Foot(r)
    requires Holds(l, order, FirstLeaf(r)) && Holds(r, order, end)
    ensures fresh(Own(n))
    ensures
      var t := InnerL(n, [key], [l, r]);
      Apart(t) && Holds(t, order, end)
  {
    ghost var footL := FootNow(l);
    ghost var footR := FootNow(r);
    n := MakeRoot(order, key, left, right);
    assert Holds(l, order, FirstLeaf(r)) && Holds(r, order, end);
    PairFoot(l, r);
    PairHolds(l, r, order, end);
    assert Nodes([l, r]) == [left, right];
  }

  method MakeRoot(order: nat, key: int, left: Node, right: Node) returns (n: Node)
    requires 3 <= order
    ensures fresh(Own(n)) && InnerHolds(n, [key], [left, right], order)
  {
    n := new Node.NewInner(order);
    n.keys[0] := key;
    n.children[0] := left;
    n.children[1] := right;
    n.numKeys := 1;
    assert n.Kids() == [left, right];
    assert n.keys[..n.numKeys] == [key];
  }

  lemma PairHolds(l: Layout, r: Layout, order: nat, end: Node?)
    requires Apart(l) && Apart(r) && Foot(l) !! Foot(r)
    requires Holds(l, order, FirstLeaf(r)) && Holds(r, order, end)
    ensures ApartAll([l, r]) && HoldsAll([l, r], order, end)
  {
    assert [l, r][1..] == [r];
    OneFoot(r);
    OneHolds(r, order, end);
  }
}
