/** The trie itself: nodes with 26 child slots and a row index of -1 for "no word ends here". */
module Trie {
  import opened TrieWords

  class Node {
    const children: array<Node?>
    var rowIndex: int

    constructor ()
      ensures fresh(children) && children.Length == 26 && rowIndex == -1
      ensures forall i | 0 <= i < 26 :: children[i] == null
    {
      children := new Node?[26](_ => null);
      rowIndex := -1;
    }
  }

  class Trie {
    const root: Node
    ghost var nodes: map<string, Node>   // the node that each path from the root leads to
    ghost var depth: nat                 // no path is longer

    ghost predicate Separate()
      reads this
    {
      forall p, q | p in nodes && q in nodes && p != q ::
        nodes[p] != nodes[q] && nodes[p].children != nodes[q].children
    }

    /** Child slot i of the node at p holds the node at p with letter i added, if there is one. */
    static ghost predicate LinkAt(nodes: map<string, Node>, p: string, i: nat)
      requires p in nodes && i < 26 && nodes[p].children.Length == 26
      reads nodes[p].children
    {
      nodes[p].children[i] == if p + [Letter(i)] in nodes then nodes[p + [Letter(i)]] else null
    }

    ghost predicate Linked()
      reads this, set p | p in nodes :: nodes[p].children
    {
      && (forall p | p in nodes :: nodes[p].children.Length == 26)
      && (forall p, i: nat | p in nodes && i < 26 :: LinkAt(nodes, p, i))
    }

    static function Cut(p: string, k: nat): string
      requires k <= |p|
    {
      p[..k]
    }

    static lemma PrefixCut(p: string, w: string)
      requires p <= w
      ensures Cut(w, |p|) == p
    {
    }

    static ghost predicate ClosedUnderPrefix(paths: set<string>) {
      forall p, k: nat {:trigger Cut(p, k)} | p in paths && k <= |p| :: Cut(p, k) in paths
    }

    ghost predicate Paths()
      reads this
    {
      && "" in nodes && nodes[""] == root
      && (forall p | p in nodes :: |p| <= depth && forall i | 0 <= i < |p| :: IsLetter(p[i]))
      && ClosedUnderPrefix(nodes.Keys)
    }

    ghost predicate Valid()
      reads this, nodes.Values, set p | p in nodes :: nodes[p].children
    {
      Paths() && Separate() && Linked() && root.rowIndex == -1 && forall p | p in nodes :: nodes[p].rowIndex >= -1
    }

    /** The map from words to rows that the trie stores. */
    ghost function Words(): map<string, int>
      reads this, nodes.Values
    {
      map p | p in nodes && nodes[p].rowIndex >= 0 :: nodes[p].rowIndex
    }

    /** trie_create */
    constructor ()
      ensures Valid() && Words() == map[] && fresh(nodes.Values)
      ensures fresh(set p | p in nodes :: nodes[p].children)
    {
      root := new Node();
      depth := 0;
      new;
      nodes := map["" := root];
    }

    /** Hangs a new node below the one at path. */
    method Grow(ghost path: string, node: Node, c: char) returns (child: Node)
      requires Valid() && path in nodes && nodes[path] == node && IsLetter(c) && path + [c] !in nodes
      modifies this`nodes, this`depth, node.children
      ensures Valid() && nodes == old(nodes)[path + [c] := child]
      ensures fresh(child) && fresh(child.children) && child.rowIndex == -1
    {
      child := new Node();
      ghost var before := nodes;
      node.children[Index(c)] := child;
      nodes := nodes[path + [c] := child];
      depth := if |path| + 1 > depth then |path| + 1 else depth;
      GrownPaths(before.Keys, path, c);
      assert nodes.Keys == before.Keys + {path + [c]};
      forall p, i: nat | p in nodes && i < 26
        ensures LinkAt(nodes, p, i)
      {
        LastLetter(path, c, p, Letter(i));
        if p == path + [c] {
          NoGrandchild(before.Keys, path, c, Letter(i));
        } else {
          assert old(LinkAt(before, p, i));
          assert p != path ==> before[p].children != node.children;
        }
      }
    }

    static lemma GrownPaths(before: set<string>, path: string, c: char)
      requires path in before && ClosedUnderPrefix(before)
      ensures ClosedUnderPrefix(before + {path + [c]})
    {
      forall k: nat | k <= |path|
        ensures Cut(path + [c], k) in before
      {
        assert Cut(path + [c], k) == Cut(path, k);
      }
      assert Cut(path + [c], |path| + 1) == path + [c];
    }

    static lemma LastLetter(path: string, c: char, p: string, d: char)
      ensures p + [d] == path + [c] ==> p == path && d == c
    {
      if p + [d] == path + [c] {
        assert (p + [d])[..|p|] == p && (path + [c])[..|path|] == path;
        assert (p + [d])[|p|] == d && (path + [c])[|path|] == c;
      }
    }

    static lemma NoGrandchild(before: set<string>, path: string, c: char, d: char)
      requires path + [c] !in before && ClosedUnderPrefix(before)
      ensures path + [c] + [d] !in before
    {
      assert Cut(path + [c] + [d], |path| + 1) == path + [c];
    }

    /** trie_insert */
    method Insert(word: string, rowIndex: int) returns (rc: int)
      requires Valid()
      modifies this, nodes.Values, set p | p in nodes :: nodes[p].children
      ensures Valid()
      ensures forall p | p in nodes && p !in old(nodes) :: fresh(nodes[p]) && fresh(nodes[p].children)
      ensures forall p | p in old(nodes) :: p in nodes && nodes[p] == old(nodes)[p]
      ensures rc == if rowIndex < 0 || !IsWord(word) then -1 else 0
      ensures Words() == if rc < 0 then old(Words()) else old(Words())[word := rowIndex]
    {
      var ok := WordIsValid(word);
      if rowIndex < 0 || !ok {
        return -1;
      }
      var node := Reach(word);
      ghost var before := Words();
      node.rowIndex := rowIndex;
      assert forall p | p in nodes && p != word :: nodes[p] != node;
      assert Words() == before[word := rowIndex];
      rc := 0;
    }

    /** The walk of trie_insert: to the node of word, making the nodes that are missing. */
    method Reach(word: string) returns (node: Node)
      requires Valid() && IsWord(word)
      modifies this, set p | p in nodes :: nodes[p].children
      ensures Valid() && Words() == old(Words()) && word in nodes && nodes[word] == node
      ensures forall p | p in nodes && p !in old(nodes) :: fresh(nodes[p]) && fresh(nodes[p].children)
      ensures forall p | p in old(nodes) :: p in nodes && nodes[p] == old(nodes)[p]
    {
      node := root;
      for k := 0 to |word|
        invariant Valid() && word[..k] in nodes && nodes[word[..k]] == node
        invariant forall p | p in nodes && p !in old(nodes) ::
                    fresh(nodes[p]) && fresh(nodes[p].children) && nodes[p].rowIndex == -1
        invariant forall p | p in old(nodes) :: p in nodes && nodes[p] == old(nodes)[p]
      {
        var idx := Index(word[k]);
        assert word[..k + 1] == word[..k] + [word[k]];
        assert LinkAt(nodes, word[..k], idx);
        if node.children[idx] == null {
          node := Grow(word[..k], node, word[k]);
        } else {
          node := node.children[idx];
        }
      }
      assert word[..|word|] == word;
      assert forall p | p in old(nodes) :: nodes[p].rowIndex == old(nodes[p].rowIndex);
    }

    /** word_is_valid */
    static method WordIsValid(word: string) returns (ok: bool)
      ensures ok == IsWord(word)
      ensures ok <==> word != "" && forall i | 0 <= i < |word| :: 'a' <= word[i] <= 'z'
    {
      if word == "" {
        return false;
      }
      for i := 0 to |word|
        invariant forall j | 0 <= j < i :: IsLetter(word[j])
      {
        if word[i] < 'a' || word[i] > 'z' {
          return false;
        }
      }
      return true;
    }

    /** The walk of a search: the node of word, or null if there is none. */
    method Find(word: string) returns (node: Node?)
      requires Valid() && IsWord(word)
      ensures if word in nodes then node == nodes[word] else node == null
    {
      node := root;
      for k := 0 to |word|
        invariant word[..k] in nodes && node == nodes[word[..k]]
      {
        assert word[..k + 1] == word[..k] + [word[k]];
        assert word in nodes ==> Cut(word, k + 1) in nodes;
        assert LinkAt(nodes, word[..k], Index(word[k]));
        node := node.children[Index(word[k])];
        if node == null {
          return;
        }
      }
      assert word[..|word|] == word;
    }

    /** trie_search_exact */
    method SearchExact(word: string) returns (row: int)
      requires Valid()
      ensures row == if word in Words() then Words()[word] else -1
    {
      assert "" !in Words();
      assert forall p | p in nodes && p != "" :: IsWord(p);
      var ok := WordIsValid(word);
      if !ok {
        return -1;
      }
      var node := Find(word);
      row := if node == null then -1 else node.rowIndex;
    }

    /** collect_prefix_rows: appends the rows below node to out until it is full; full is its return value. */
    method Collect(ghost words: map<string, int>, ghost path: string, ghost d: nat,
                   node: Node, out: array<int>, maxOut: nat, filled: nat)
      returns (filled': nat, full: bool)
      requires Valid() && words == Words() && path in nodes && nodes[path] == node && d == depth + 1 - |path|
      requires filled <= maxOut <= out.Length
      modifies out
      ensures filled' <= maxOut && full == (filled' == maxOut)
      ensures out[..filled'] == Take(old(out[..filled]) + RowsUnder(words, path, d), maxOut)
      ensures forall k | maxOut <= k < out.Length :: out[k] == old(out[k])
      decreases d, 1
    {
      if filled >= maxOut {
        return filled, true;
      }
      RowsOwn(words, path, d);
      filled' := PutOwn(node.rowIndex, RowsFrom(words, path, 0, d), out, maxOut, filled);
      if filled' >= maxOut {
        return filled', true;
      }
      filled', full := CollectChildren(words, path, d, node, out, maxOut, filled');
    }

    /** The row of the node itself, if it has one. */
    static method PutOwn(row: int, ghost rest: seq<int>, out: array<int>, maxOut: nat, filled: nat)
      returns (filled': nat)
      requires filled < maxOut <= out.Length
      modifies out
      ensures filled' == filled + (if row >= 0 then 1 else 0)
      ensures
        var all := old(out[..filled]) + ((if row >= 0 then [row] else []) + rest);
        out[..filled'] + rest == all && (filled' == maxOut ==> out[..filled'] == Take(all, maxOut))
      ensures forall k | filled < k < out.Length :: out[k] == old(out[k])
    {
      filled' := filled;
      ghost var got := out[..filled];
      if row >= 0 {
        out[filled] := row;
        filled' := filled + 1;
        assert out[..filled'] == got + [row];
        OwnRow(got, row, rest, maxOut);
      }
    }

    /** The loop over the children in collect_prefix_rows. */
    method CollectChildren(ghost words: map<string, int>, ghost path: string, ghost d: nat,
                           node: Node, out: array<int>, maxOut: nat, filled: nat)
      returns (filled': nat, full: bool)
      requires Valid() && words == Words() && path in nodes && nodes[path] == node && d == depth + 1 - |path|
      requires filled < maxOut <= out.Length
      modifies out
      ensures filled' <= maxOut && full == (filled' == maxOut)
      ensures out[..filled'] == Take(old(out[..filled]) + RowsFrom(words, path, 0, d), maxOut)
      ensures forall k | maxOut <= k < out.Length :: out[k] == old(out[k])
      decreases d, 0, 1
    {
      filled', full := filled, false;
      ghost var all := out[..filled] + RowsFrom(words, path, 0, d);
      for i := 0 to 26
        invariant filled' < maxOut && !full && Valid() && words == Words()
        invariant out[..filled'] + RowsFrom(words, path, i, d) == all
        invariant forall k | maxOut <= k < out.Length :: out[k] == old(out[k])
      {
        filled', full := CollectChild(words, path, d, node, i, all, out, maxOut, filled');
        if full {
          return;
        }
      }
      RowsFromEnd(words, path, d);
      assert out[..filled'] + [] == out[..filled'];
    }

    /** One round of that loop; all is what the loop would append without a limit. */
    method CollectChild(ghost words: map<string, int>, ghost path: string, ghost d: nat, node: Node, i: nat,
                        ghost all: seq<int>, out: array<int>, maxOut: nat, filled: nat)
      returns (filled': nat, full: bool)
      requires Valid() && words == Words() && path in nodes && nodes[path] == node && d == depth + 1 - |path|
      requires filled < maxOut <= out.Length && i < 26
      requires out[..filled] + RowsFrom(words, path, i, d) == all
      modifies out
      ensures filled' <= maxOut && full == (filled' == maxOut)
      ensures if full then out[..filled'] == Take(all, maxOut) else out[..filled'] + RowsFrom(words, path, i + 1, d) == all
      ensures forall k | maxOut <= k < out.Length :: out[k] == old(out[k])
      decreases d, 0, 0
    {
      filled', full := filled, false;
      ghost var child := path + [Letter(i)];
      assert LinkAt(nodes, path, i);
      RowsFromStep(words, path, i, d);
      ghost var got := out[..filled];
      if node.children[i] != null {
        filled', full := Collect(words, child, d - 1, node.children[i], out, maxOut, filled);
        TakeStep(got, RowsUnder(words, child, d - 1), RowsFrom(words, path, i + 1, d), all, maxOut, out[..filled']);
      } else {
        NoRowsBelow(child, d - 1, out[..filled], RowsFrom(words, path, i + 1, d));
      }
    }

    /** No word starts where no path leads. */
    lemma NothingBelow(p: string, d: nat)
      requires Valid() && p !in nodes
      ensures Under(Words(), p, d) == []
    {
      forall w | w in Words()
        ensures !(p <= w)
      {
        if p <= w {
          PrefixCut(p, w);
        }
      }
      UnderNothing(Words(), p, d);
    }

    lemma NoRowsBelow(p: string, d: nat, got: seq<int>, rest: seq<int>)
      requires Valid() && p !in nodes
      ensures got + (RowsUnder(Words(), p, d) + rest) == got + rest
    {
      NothingBelow(p, d);
      assert RowsUnder(Words(), p, d) + rest == rest;
    }

    lemma Listing(prefix: string, d: nat) returns (ws: seq<string>)
      requires Valid() && d == if |prefix| <= depth then depth + 1 - |prefix| else 0
      ensures ws == Under(Words(), prefix, d) && LexList(Words(), prefix, ws)
    {
      ws := Under(Words(), prefix, d);
      forall w | w in Words() && prefix <= w
        ensures IsWord(w) && |w| < |prefix| + d
      {
        assert w in nodes && |w| <= depth;
      }
      UnderIsLexList(Words(), prefix, d);
    }

    /** trie_search_prefix: the rows of the first maxOut words with the prefix, in dictionary order. */
    method SearchPrefix(prefix: string, out: array<int>, maxOut: int) returns (filled: nat, ghost ws: seq<string>)
      requires Valid() && maxOut <= out.Length
      modifies out
      ensures LexList(Words(), prefix, ws)
      ensures filled == if maxOut <= 0 || !IsWord(prefix) then 0 else if |ws| < maxOut then |ws| else maxOut
      ensures forall k | 0 <= k < filled :: ws[k] in Words() && out[k] == Words()[ws[k]]
      ensures forall k | (if maxOut <= 0 then 0 else maxOut) <= k < out.Length :: out[k] == old(out[k])
    {
      filled := 0;
      ghost var d: nat := if |prefix| <= depth then depth + 1 - |prefix| else 0;
      ws := Listing(prefix, d);
      var ok := WordIsValid(prefix);
      if maxOut > 0 && ok {
        filled := CollectBelow(Words(), prefix, d, out, maxOut, ws);
      }
    }

    /** The rest of trie_search_prefix, for a word as the prefix. */
    method CollectBelow(ghost words: map<string, int>, prefix: string, ghost d: nat, out: array<int>, maxOut: nat,
                        ghost ws: seq<string>)
      returns (filled: nat)
      requires Valid() && words == Words() && IsWord(prefix) && maxOut <= out.Length
      requires d == if |prefix| <= depth then depth + 1 - |prefix| else 0
      requires ws == Under(words, prefix, d) && LexList(words, prefix, ws)
      modifies out
      ensures filled == if |ws| < maxOut then |ws| else maxOut
      ensures forall k | 0 <= k < filled :: ws[k] in words && out[k] == words[ws[k]]
      ensures forall k | maxOut <= k < out.Length :: out[k] == old(out[k])
    {
      var node := Find(prefix);
      if node == null {
        NothingBelow(prefix, d);
        return 0;
      }
      filled := CollectAll(words, prefix, d, node, out, maxOut, ws);
    }

    /** The collection of trie_search_prefix, from an empty result. */
    method CollectAll(ghost words: map<string, int>, ghost prefix: string, ghost d: nat, node: Node,
                      out: array<int>, maxOut: nat, ghost ws: seq<string>)
      returns (filled: nat)
      requires Valid() && words == Words() && prefix in nodes && nodes[prefix] == node && d == depth + 1 - |prefix|
      requires maxOut <= out.Length && ws == Under(words, prefix, d) && LexList(words, prefix, ws)
      modifies out
      ensures filled == if |ws| < maxOut then |ws| else maxOut
      ensures forall k | 0 <= k < filled :: ws[k] in words && out[k] == words[ws[k]]
      ensures forall k | maxOut <= k < out.Length :: out[k] == old(out[k])
    {
      var full;
      filled, full := Collect(words, prefix, d, node, out, maxOut, 0);
      TakenRows(words, prefix, ws, out[..filled], maxOut);
      assert forall k | 0 <= k < filled :: out[k] == out[..filled][k];
    }
  }
}
