/** The chain of leaves of the linked tree and the descents of search and range. */
module BPlusTreeChain {
  import opened BPlusTree
  import opened BPlusTreeNodes

  /** The leaves below a layout, left to right. */
  ghost function LeafList(l: Layout): seq<Layout>
    decreases l
  {
    if l.LeafL? then [l] else LeafListAll(l.kids)
  }

  ghost function LeafListAll(ls: seq<Layout>): seq<Layout>
    decreases ls
  {
    if ls == [] then [] else LeafList(ls[0]) + LeafListAll(ls[1..])
  }

  ghost predicate AllLeaves(ls: seq<Layout>) {
    forall l | l in ls :: l.LeafL?
  }

  ghost function EntriesOf(ls: seq<Layout>): seq<Entry> {
    FlattenAll(EraseAll(ls))
  }

  lemma EntriesOfConcat(a: seq<Layout>, b: seq<Layout>)
    ensures EntriesOf(a + b) == EntriesOf(a) + EntriesOf(b)
  {
    EraseAllConcat(a, b);
    FlattenAllConcat(EraseAll(a), EraseAll(b));
  }

  lemma EntriesOfOne(l: Layout)
    ensures EntriesOf([l]) == Flatten(Erase(l))
  {
    EraseOne(l);
    FlattenOne(Erase(l));
  }

  /** Every inner node has a child: then the leaf list is not empty and starts with the first leaf. */
  ghost predicate Full(l: Layout)
    decreases l
  {
    l.InnerL? ==> l.kids != [] && forall c | c in l.kids :: Full(c)
  }

  lemma {:induction false} HoldsIsFull(l: Layout, order: nat, end: Node?)
    requires Holds(l, order, end)
    ensures Full(l)
    decreases l, 0
  {
    if l.InnerL? {
      HoldsAllFull(l.kids, order, end);
    }
  }

  lemma {:induction false} HoldsAllFull(ls: seq<Layout>, order: nat, end: Node?)
    requires HoldsAll(ls, order, end)
    ensures forall c | c in ls :: Full(c)
    decreases ls, 1
  {
    if ls != [] {
      HoldsIsFull(ls[0], order, FirstOf(ls[1..], end));
      HoldsAllFull(ls[1..], order, end);
    }
  }

  lemma {:induction false} LeafListFirst(l: Layout)
    requires Full(l)
    ensures LeafList(l) != [] && FirstLeaf(LeafList(l)[0]) == FirstLeaf(l)
    decreases l
  {
    if l.InnerL? {
      LeafListFirst(l.kids[0]);
    }
  }

  /** The next chain from the leftmost leaf is the in-order list of leaves. */
  lemma {:induction false} LeavesAreChained(l: Layout, order: nat, end: Node?)
    requires Holds(l, order, end)
    ensures HoldsAll(LeafList(l), order, end) && AllLeaves(LeafList(l))
    ensures EntriesOf(LeafList(l)) == Flatten(Erase(l))
    decreases l, 0
  {
    if l.LeafL? {
      OneHolds(l, order, end);
      EntriesOfOne(l);
    } else {
      LeavesAllChained(l.kids, order, end);
    }
  }

  lemma {:induction false} LeavesAllChained(ls: seq<Layout>, order: nat, end: Node?)
    requires HoldsAll(ls, order, end)
    ensures HoldsAll(LeafListAll(ls), order, end) && AllLeaves(LeafListAll(ls))
    ensures EntriesOf(LeafListAll(ls)) == EntriesOf(ls)
    ensures FirstOf(LeafListAll(ls), end) == FirstOf(ls, end)
    decreases ls, 1
  {
    if ls != [] {
      var x, y := LeafList(ls[0]), LeafListAll(ls[1..]);
      LeavesAreChained(ls[0], order, FirstOf(ls[1..], end));
      LeavesAllChained(ls[1..], order, end);
      HoldsAllConcat(x, y, order, end);
      EntriesOfConcat(x, y);
      HoldsIsFull(ls[0], order, FirstOf(ls[1..], end));
      LeafListFirst(ls[0]);
      assert (x + y)[0] == x[0];
    }
  }

  /** One descent step of bptree_range, on the leaves: what follows the chosen child is its right
      siblings' leaves and then the leaves that followed before. */
  lemma RangeDescendChain(l: Layout, order: nat, end: Node?, a: seq<Layout>, kl: Layout, b: seq<Layout>,
                          rest: seq<Layout>, rest': seq<Layout>)
    requires l.InnerL? && l.kids == Around(a, [kl], b) && rest' == LeafListAll(b) + rest
    requires Holds(l, order, FirstOf(rest, end)) && HoldsAll(rest, order, end) && AllLeaves(rest)
    ensures Holds(kl, order, FirstOf(rest', end)) && HoldsAll(rest', order, end) && AllLeaves(rest')
    ensures EntriesOf(rest') == EntriesOf(b) + EntriesOf(rest)
  {
    var e, leaves := FirstOf(rest, end), LeafListAll(b);
    AroundLayout(a, kl, b, order, e);
    LeavesAllChained(b, order, e);
    LeavesBefore(leaves, rest, order, end);
  }

  lemma LeavesBefore(leaves: seq<Layout>, rest: seq<Layout>, order: nat, end: Node?)
    requires HoldsAll(leaves, order, FirstOf(rest, end)) && AllLeaves(leaves)
    requires HoldsAll(rest, order, end) && AllLeaves(rest)
    ensures HoldsAll(leaves + rest, order, end) && AllLeaves(leaves + rest)
    ensures EntriesOf(leaves + rest) == EntriesOf(leaves) + EntriesOf(rest)
    ensures FirstOf(leaves + rest, end) == FirstOf(leaves, FirstOf(rest, end))
  {
    HoldsAllConcat(leaves, rest, order, end);
    EntriesOfConcat(leaves, rest);
    FirstOfConcat(leaves, rest, end);
  }

  /** The same step on the entries: what lies left of the chosen child is below from. */
  lemma RangeDescendEntries(l: Layout, order: nat, height: nat, lo: Bound, hi: Bound, from: int, to: int,
                            ci: nat, kl: Layout, b: seq<Layout>, er: seq<Entry>)
    requires l.InnerL? && ci < |l.kids| == |l.keys| + 1 && ci == ChildIdx(l.keys, from)
    requires kl == l.kids[ci] && b == l.kids[ci + 1..]
    requires WellFormed(Erase(l), order, height, lo, hi)
    requires Sorted(Flatten(Erase(l)) + er)
    ensures height > 0 && WellFormed(Erase(kl), order, height - 1, KidLo(l.keys, ci, lo), KidHi(l.keys, ci, hi))
    ensures Sorted(Flatten(Erase(kl)) + (EntriesOf(b) + er))
    ensures RangeRows(Flatten(Erase(kl)) + (EntriesOf(b) + er), from, to) == RangeRows(Flatten(Erase(l)) + er, from, to)
  {
    var a := l.kids[..ci];
    assert l.kids == Around(a, [kl], b);
    EraseReplaced(a, kl, kl, b);
    EraseSplit(l.kids, ci);
    EraseSplit(l.kids, ci + 1);
    AroundChild(Erase(l), order, height, lo, hi, from);
    var s := Flatten(Erase(kl)) + (EntriesOf(b) + er);
    Regroup(EntriesOf(a), Flatten(Erase(kl)), EntriesOf(b), er);
    assert Flatten(Erase(l)) + er == EntriesOf(a) + s;
    RangeDropLeft(EntriesOf(a), s, from, to);
  }

  lemma Regroup<T>(a: seq<T>, b: seq<T>, c: seq<T>, d: seq<T>)
    ensures a + b + c + d == a + (b + (c + d))
  {
  }

  lemma RangeDropLeft(a: seq<Entry>, s: seq<Entry>, from: int, to: int)
    requires Sorted(a + s)
    requires forall i | 0 <= i < |a| :: a[i].0 < from
    ensures Sorted(s)
    ensures RangeRows(s, from, to) == RangeRows(a + s, from, to)
  {
    SortedTail(a, s);
    RangeRowsConcat(a, s, from, to);
    RangeRowsEmpty(a, from, to);
  }

  lemma SortedTail(a: seq<Entry>, b: seq<Entry>)
    requires Sorted(a + b)
    ensures Sorted(b)
  {
    assert forall i | 0 <= i < |b| :: b[i] == (a + b)[|a| + i];
  }

  lemma FirstOfConcat(a: seq<Layout>, b: seq<Layout>, end: Node?)
    ensures FirstOf(a + b, end) == FirstOf(a, FirstOf(b, end))
  {
    if a == [] {
      assert a + b == b;
    } else {
      assert (a + b)[0] == a[0];
    }
  }

  /** One descent step of bptree_search. */
  lemma SearchDescend(l: Layout, order: nat, height: nat, lo: Bound, hi: Bound, id: int, end: Node?, ci: nat, kl: Layout)
    requires l.InnerL? && ci < |l.kids| == |l.keys| + 1 && ci == ChildIdx(l.keys, id) && kl == l.kids[ci]
    requires WellFormed(Erase(l), order, height, lo, hi) && Holds(l, order, end)
    ensures height > 0 && WellFormed(Erase(kl), order, height - 1, KidLo(l.keys, ci, lo), KidHi(l.keys, ci, hi))
    ensures Holds(kl, order, FirstOf(l.kids[ci + 1..], end))
    ensures Find(Flatten(Erase(kl)), id) == Find(Flatten(Erase(l)), id)
  {
    var a, b := l.kids[..ci], l.kids[ci + 1..];
    assert l.kids == Around(a, [kl], b);
    AroundLayout(a, kl, b, order, end);
    EraseReplaced(a, kl, kl, b);
    FindInChild(Erase(l), order, height, lo, hi, id);
  }

  /** The leaf responsible for id, and where its entries stand among those of the whole tree. */
  method FindLeaf(root: Node, order: nat, id: int, ghost l0: Layout, ghost height: nat)
    returns (leaf: Node, ghost l: Layout, ghost end: Node?)
    requires l0.node == root && Holds(l0, order, null)
    requires WellFormed(Erase(l0), order, height, NegInf, PosInf)
    ensures l.LeafL? && l.node == leaf && Holds(l, order, end)
    ensures Sorted(l.entries) && Find(l.entries, id) == Find(Flatten(Erase(l0)), id)
  {
    leaf, l, end := root, l0, null;
    ghost var h, lo, hi := height, NegInf, PosInf;
    while !leaf.isLeaf
      invariant l.node == leaf && Holds(l, order, end)
      invariant WellFormed(Erase(l), order, h, lo, hi)
      invariant Find(Flatten(Erase(l)), id) == Find(Flatten(Erase(l0)), id)
      decreases l
    {
      ghost var ci;
      leaf, ci := StepDown(leaf, order, id, l, end);
      ghost var kl := l.kids[ci];
      SearchDescend(l, order, h, lo, hi, id, end, ci, kl);
      h, lo, hi := h - 1, KidLo(l.keys, ci, lo), KidHi(l.keys, ci, hi);
      end := FirstOf(l.kids[ci + 1..], end);
      l := kl;
    }
  }

  lemma {:induction false} LeafListFoot(l: Layout)
    ensures FootAll(LeafList(l)) <= Foot(l)
    decreases l, 0
  {
    if l.LeafL? {
      OneFoot(l);
    } else {
      LeafListAllFoot(l.kids);
    }
  }

  lemma {:induction false} LeafListAllFoot(ls: seq<Layout>)
    ensures FootAll(LeafListAll(ls)) <= FootAll(ls)
    decreases ls, 1
  {
    if ls != [] {
      LeafListFoot(ls[0]);
      LeafListAllFoot(ls[1..]);
      FootAllConcat(LeafList(ls[0]), LeafListAll(ls[1..]));
    }
  }

  lemma RangeDescendFoot(l: Layout, ci: nat, rest: seq<Layout>)
    requires l.InnerL? && ci < |l.kids|
    ensures Foot(l.kids[ci]) + FootAll(LeafListAll(l.kids[ci + 1..]) + rest) <= Foot(l) + FootAll(rest)
  {
    var b := l.kids[ci + 1..];
    assert l.kids == l.kids[..ci] + [l.kids[ci]] + b;
    FootAllConcat(l.kids[..ci] + [l.kids[ci]], b);
    FootAllConcat(l.kids[..ci], [l.kids[ci]]);
    OneFoot(l.kids[ci]);
    LeafListAllFoot(b);
    FootAllConcat(LeafListAll(b), rest);
  }

  /** On the way down in bptree_range: the subtree l and the leaves after it hold all matches in es. */
  ghost predicate RangeState(l: Layout, rest: seq<Layout>, order: nat, h: nat, lo: Bound, hi: Bound,
                             from: int, to: int, es: seq<Entry>, foot: set<object>)
    reads Foot(l), FootAll(rest)
  {
    && Holds(l, order, FirstOf(rest, null)) && HoldsAll(rest, order, null)
    && (forall r | r in rest :: r.LeafL?)
    && Foot(l) + FootAll(rest) <= foot
    && WellFormed(Erase(l), order, h, lo, hi)
    && Sorted(Flatten(Erase(l)) + EntriesOf(rest))
    && RangeRows(Flatten(Erase(l)) + EntriesOf(rest), from, to) == RangeRows(es, from, to)
  }

  lemma RangeStep(l: Layout, rest: seq<Layout>, order: nat, h: nat, lo: Bound, hi: Bound, from: int, to: int,
                  es: seq<Entry>, foot: set<object>, ci: nat, rest': seq<Layout>)
    requires RangeState(l, rest, order, h, lo, hi, from, to, es, foot)
    requires l.InnerL? && ci < |l.kids| == |l.keys| + 1 && ci == ChildIdx(l.keys, from)
    requires rest' == LeafListAll(l.kids[ci + 1..]) + rest
    ensures h > 0
    ensures RangeState(l.kids[ci], rest', order, h - 1, KidLo(l.keys, ci, lo), KidHi(l.keys, ci, hi), from, to, es, foot)
  {
    var a, b := l.kids[..ci], l.kids[ci + 1..];
    assert l.kids == Around(a, [l.kids[ci]], b);
    RangeDescendChain(l, order, null, a, l.kids[ci], b, rest, rest');
    RangeDescendEntries(l, order, h, lo, hi, from, to, ci, l.kids[ci], b, EntriesOf(rest));
    RangeDescendFoot(l, ci, rest);
  }

  /** One step of the descent of bptree_range. */
  method RangeDown(n: Node, order: nat, from: int, to: int, ghost l: Layout, ghost rest: seq<Layout>,
                   ghost h: nat, ghost lo: Bound, ghost hi: Bound, ghost es: seq<Entry>, ghost foot: set<object>)
    returns (child: Node, ghost kl: Layout, ghost rest': seq<Layout>, ghost h': nat, ghost lo': Bound, ghost hi': Bound)
    requires l.node == n && !n.isLeaf && RangeState(l, rest, order, h, lo, hi, from, to, es, foot)
    ensures l.InnerL? && kl in l.kids && child == kl.node
    ensures RangeState(kl, rest', order, h', lo', hi', from, to, es, foot)
  {
    ghost var now := FootNow(l);
    ghost var later := FootSet(rest);
    ghost var ci;
    child, ci := StepDown(n, order, from, l, FirstOf(rest, null));
    assert RangeState(l, rest, order, h, lo, hi, from, to, es, foot);
    kl, rest' := l.kids[ci], LeafListAll(l.kids[ci + 1..]) + rest;
    RangeStep(l, rest, order, h, lo, hi, from, to, es, foot, ci, rest');
    h', lo', hi' := h - 1, KidLo(l.keys, ci, lo), KidHi(l.keys, ci, hi);
  }

  lemma RangeBottom(l: Layout, rest: seq<Layout>, order: nat, h: nat, lo: Bound, hi: Bound, from: int, to: int,
                    es: seq<Entry>, foot: set<object>, ls: seq<Layout>)
    requires l.LeafL? && RangeState(l, rest, order, h, lo, hi, from, to, es, foot)
    requires ls == [l] + rest
    ensures AllLeaves(ls) && HoldsAll(ls, order, null) && FootAll(ls) <= foot
    ensures Sorted(EntriesOf(ls)) && RangeRows(EntriesOf(ls), from, to) == RangeRows(es, from, to)
  {
    assert ls[1..] == rest;
    EntriesOfConcat([l], rest);
    EntriesOfOne(l);
    FootAllConcat([l], rest);
    OneFoot(l);
  }

  /** The descent of bptree_range: the leaf responsible for from and the chain of leaves ls from it on,
      which holds all matches. */
  method RangeStart(root: Node, order: nat, from: int, to: int, ghost l0: Layout, ghost height: nat)
    returns (leaf: Node, ghost ls: seq<Layout>)
    requires l0.node == root && Holds(l0, order, null)
    requires WellFormed(Erase(l0), order, height, NegInf, PosInf) && Sorted(Flatten(Erase(l0)))
    ensures ls != [] && ls[0].node == leaf && AllLeaves(ls) && HoldsAll(ls, order, null)
    ensures FootAll(ls) <= Foot(l0)
    ensures Sorted(EntriesOf(ls))
    ensures RangeRows(EntriesOf(ls), from, to) == RangeRows(Flatten(Erase(l0)), from, to)
  {
    leaf := root;
    ghost var es, foot := Flatten(Erase(l0)), Foot(l0);
    ghost var l, rest: seq<Layout> := l0, [];
    ghost var h, lo, hi := height, NegInf, PosInf;
    assert es + EntriesOf([]) == es;
    assert RangeState(l, rest, order, h, lo, hi, from, to, es, foot);
    while !leaf.isLeaf
      invariant l.node == leaf && RangeState(l, rest, order, h, lo, hi, from, to, es, foot)
      decreases l
    {
      leaf, l, rest, h, lo, hi := RangeDown(leaf, order, from, to, l, rest, h, lo, hi, es, foot);
    }
    ls := [l] + rest;
    RangeBottom(l, rest, order, h, lo, hi, from, to, es, foot, ls);
  }

  lemma RangeRowsStop(es: seq<Entry>, i: nat, tail: seq<Entry>, from: int, to: int)
    requires i < |es| && Sorted(es + tail) && es[i].0 > to
    ensures RangeRows(es[i..] + tail, from, to) == []
  {
    var s := es[i..] + tail;
    assert es + tail == es[..i] + s;
    SortedTail(es[..i], s);
    assert s[0] == es[i];
    RangeRowsEmpty(s, from, to);
  }

  lemma RangeRowsStep(es: seq<Entry>, i: nat, tail: seq<Entry>, from: int, to: int)
    requires i < |es|
    ensures RangeRows(es[i..] + tail, from, to)
         == (if from <= es[i].0 <= to then [es[i].1] else []) + RangeRows(es[i + 1..] + tail, from, to)
  {
    assert (es[i..] + tail)[1..] == es[i + 1..] + tail;
  }

  /** The scan of one leaf in bptree_range; total is what the whole call is to deliver. */
  method ScanLeaf(leaf: Node, from: int, to: int, out: array<int>, maxOut: nat, filled: nat,
                  ghost es: seq<Entry>, ghost tail: seq<Entry>, ghost total: seq<int>)
    returns (filled': nat, past: bool)
    requires leaf.numKeys <= leaf.keys.Length && leaf.numKeys <= leaf.rows.Length && leaf.Entries() == es
    requires out != leaf.keys && out != leaf.rows
    requires filled <= maxOut <= out.Length && Sorted(es + tail)
    requires out[..filled] + RangeRows(es + tail, from, to) == total
    modifies out
    ensures filled <= filled' <= maxOut && filled' <= |total| && out[..filled'] == total[..filled']
    ensures past ==> filled' == |total|
    ensures !past && filled' < maxOut ==> out[..filled'] + RangeRows(tail, from, to) == total
  {
    filled' := filled;
    var i := 0;
    assert es[0..] + tail == es + tail;
    while i < leaf.numKeys && filled' < maxOut
      invariant i <= leaf.numKeys && filled <= filled' <= maxOut
      invariant leaf.Entries() == es
      invariant out[..filled'] + RangeRows(es[i..] + tail, from, to) == total
    {
      var k := leaf.keys[i];
      assert k == es[i].0;
      if k >= from && k > to {
        RangeRowsStop(es, i, tail, from, to);
        return filled', true;
      }
      RangeRowsStep(es, i, tail, from, to);
      if k >= from {
        out[filled'] := leaf.rows[i];
        filled' := filled' + 1;
      }
      i := i + 1;
    }
    past := false;
    if i == leaf.numKeys {
      assert es[i..] + tail == tail;
    }
  }
}
