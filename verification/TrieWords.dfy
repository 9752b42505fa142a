/** The prefix index of src/trie.c: what it stores and the order in which it lists words. */
module TrieWords {

  predicate IsLetter(c: char) { 'a' <= c <= 'z' }

  /** word_is_valid */
  predicate IsWord(w: string) {
    w != "" && forall i | 0 <= i < |w| :: IsLetter(w[i])
  }

  function Letter(i: nat): (c: char)
    requires i < 26
    ensures IsLetter(c)
  {
    ('a' as int + i) as char
  }

  /** char_index */
  function Index(c: char): (i: nat)
    requires IsLetter(c)
    ensures i < 26 && Letter(i) == c
  {
    c as int - 'a' as int
  }

  /** Dictionary order: a proper prefix comes first. */
  predicate LexLess(a: string, b: string) {
    if b == "" then false
    else if a == "" then true
    else if a[0] != b[0] then a[0] < b[0]
    else LexLess(a[1..], b[1..])
  }

  /** ws lists exactly the words that start with prefix, in strictly increasing dictionary order. */
  ghost predicate LexList(words: map<string, int>, prefix: string, ws: seq<string>) {
    && (forall i, j | 0 <= i < j < |ws| :: LexLess(ws[i], ws[j]))
    && (forall w :: w in ws <==> w in words && prefix <= w)
  }

  lemma {:induction false} LexIrreflexive(a: string)
    ensures !LexLess(a, a)
  {
    if a != "" {
      LexIrreflexive(a[1..]);
    }
  }

  lemma {:induction false} LexTransitive(a: string, b: string, c: string)
    requires LexLess(a, b) && LexLess(b, c)
    ensures LexLess(a, c)
  {
    if a != "" && a[0] == b[0] == c[0] {
      LexTransitive(a[1..], b[1..], c[1..]);
    }
  }

  /** The first difference decides. */
  lemma {:induction false} LexByLetter(a: string, b: string, k: nat)
    requires k < |a| && k < |b| && a[..k] == b[..k] && a[k] < b[k]
    ensures LexLess(a, b)
  {
    if k > 0 {
      assert a[0] == a[..k][0] == b[0];
      assert a[1..][..k - 1] == a[..k][1..] == b[1..][..k - 1];
      LexByLetter(a[1..], b[1..], k - 1);
    }
  }

  lemma {:induction false} LexExtends(a: string, b: string)
    requires a <= b && |a| < |b|
    ensures LexLess(a, b)
  {
    if a != "" {
      assert a[1..] <= b[1..];
      LexExtends(a[1..], b[1..]);
    }
  }

  /** The words listed are determined: two such lists agree place by place. */
  lemma {:induction false} LexListUnique(words: map<string, int>, prefix: string, a: seq<string>, b: seq<string>, k: nat)
    requires LexList(words, prefix, a) && LexList(words, prefix, b) && k <= |a| && k <= |b|
    ensures a[..k] == b[..k]
  {
    if k > 0 {
      LexListUnique(words, prefix, a, b, k - 1);
      Agree(words, prefix, a, b, k - 1);
      assert a[..k] == a[..k - 1] + [a[k - 1]] && b[..k] == b[..k - 1] + [b[k - 1]];
    }
  }

  lemma Agree(words: map<string, int>, prefix: string, a: seq<string>, b: seq<string>, k: nat)
    requires LexList(words, prefix, a) && LexList(words, prefix, b) && k < |a| && k < |b| && a[..k] == b[..k]
    ensures a[k] == b[k]
  {
    assert a[k] in a && b[k] in b;
    var i :| 0 <= i < |a| && a[i] == b[k];
    var j :| 0 <= j < |b| && b[j] == a[k];
    LexIrreflexive(a[k]);
    LexIrreflexive(b[k]);
    assert forall m | 0 <= m < k :: a[..k][m] == a[m] && b[..k][m] == b[m];
    assert i >= k && j >= k;
    if i > k && j > k {
      LexTransitive(a[k], b[k], a[k]);
    }
  }

  // ---------- the order of the recursive walk ----------

  /** The words below a node, in the order of a walk of depth d: the node itself, then its children. */
  function Under(words: map<string, int>, prefix: string, d: nat): seq<string>
    decreases d, 27
  {
    if d == 0 then [] else (if prefix in words then [prefix] else []) + UnderFrom(words, prefix, 0, d)
  }

  /** Those below the children from letter c on. */
  function UnderFrom(words: map<string, int>, prefix: string, c: nat, d: nat): seq<string>
    requires d > 0
    decreases d, 26 - c
  {
    if c >= 26 then []
    else Under(words, prefix + [Letter(c)], d - 1) + UnderFrom(words, prefix, c + 1, d)
  }

  /** A word that extends prefix continues with a letter from c on. */
  ghost predicate From(prefix: string, c: nat, w: string) {
    prefix <= w && |prefix| < |w| && IsLetter(w[|prefix|]) && Index(w[|prefix|]) >= c
  }

  ghost predicate Fits(words: map<string, int>, prefix: string, d: nat) {
    forall w | w in words && prefix <= w :: IsWord(w) && |w| < |prefix| + d
  }

  lemma FitsBelow(words: map<string, int>, prefix: string, c: nat, d: nat)
    requires Fits(words, prefix, d) && d > 0 && c < 26
    ensures Fits(words, prefix + [Letter(c)], d - 1)
  {
    forall w | w in words && prefix + [Letter(c)] <= w
      ensures IsWord(w) && |w| < |prefix| + d
    {
      assert prefix <= w;
    }
  }

  lemma SortedJoin(a: seq<string>, b: seq<string>)
    requires forall i, j | 0 <= i < j < |a| :: LexLess(a[i], a[j])
    requires forall i, j | 0 <= i < j < |b| :: LexLess(b[i], b[j])
    requires forall x, y | x in a && y in b :: LexLess(x, y)
    ensures forall i, j | 0 <= i < j < |a + b| :: LexLess((a + b)[i], (a + b)[j])
  {
    forall i, j | 0 <= i < j < |a + b|
      ensures LexLess((a + b)[i], (a + b)[j])
    {
      if i < |a| && j >= |a| {
        assert (a + b)[i] in a && (a + b)[j] in b;
      }
    }
  }

  /** A walk deep enough lists exactly the words with the prefix, in dictionary order. */
  lemma {:induction false} UnderIsLexList(words: map<string, int>, prefix: string, d: nat)
    requires Fits(words, prefix, d)
    ensures LexList(words, prefix, Under(words, prefix, d))
    decreases d, 27
  {
    if d == 0 {
      forall w | w in words
        ensures !(prefix <= w)
      {
        assert prefix <= w ==> |prefix| <= |w|;
      }
    } else {
      UnderFromSorted(words, prefix, 0, d);
      var own, rest := if prefix in words then [prefix] else [], UnderFrom(words, prefix, 0, d);
      forall x, y | x in own && y in rest
        ensures LexLess(x, y)
      {
        LexExtends(x, y);
      }
      SortedJoin(own, rest);
      forall w
        ensures w in own + rest <==> w in words && prefix <= w
      {
        if w in words && prefix <= w && w != prefix {
          assert w[..|prefix|] == prefix;
          assert From(prefix, 0, w);
        }
      }
    }
  }

  lemma {:induction false} UnderFromSorted(words: map<string, int>, prefix: string, c: nat, d: nat)
    requires Fits(words, prefix, d) && d > 0 && c <= 26
    ensures
      var ws := UnderFrom(words, prefix, c, d);
      && (forall i, j | 0 <= i < j < |ws| :: LexLess(ws[i], ws[j]))
      && (forall w :: w in ws <==> w in words && From(prefix, c, w))
    decreases d, 26 - c
  {
    if c < 26 {
      var child := prefix + [Letter(c)];
      var a, b := Under(words, child, d - 1), UnderFrom(words, prefix, c + 1, d);
      FitsBelow(words, prefix, c, d);
      UnderIsLexList(words, child, d - 1);
      UnderFromSorted(words, prefix, c + 1, d);
      forall x, y | x in a && y in b
        ensures LexLess(x, y)
      {
        assert child <= x && x[..|prefix|] == child[..|prefix|] == prefix == y[..|prefix|];
        LexByLetter(x, y, |prefix|);
      }
      SortedJoin(a, b);
      forall w
        ensures w in a + b <==> w in words && From(prefix, c, w)
      {
        StartsWithChild(prefix, c, w);
      }
    }
  }

  lemma StartsWithChild(prefix: string, c: nat, w: string)
    requires c < 26
    ensures From(prefix, c, w) <==>
              From(prefix, c + 1, w) || (prefix + [Letter(c)] <= w && IsLetter(w[|prefix|]))
  {
    var child := prefix + [Letter(c)];
    if prefix <= w && |prefix| < |w| {
      assert w[..|prefix| + 1] == prefix + [w[|prefix|]];
    }
    assert child <= w ==> child[..|prefix|] == w[..|prefix|];
  }

  /** Nothing to list where no word starts with the prefix. */
  lemma UnderNothing(words: map<string, int>, prefix: string, d: nat)
    requires forall w | w in words :: !(prefix <= w)
    ensures Under(words, prefix, d) == []
  {
    var ws := Under(words, prefix, d);
    assert Fits(words, prefix, d);
    UnderIsLexList(words, prefix, d);
    if ws != [] {
      HasFirst(ws);
    }
  }

  lemma HasFirst(ws: seq<string>)
    requires ws != []
    ensures exists w :: w in ws
  {
    assert ws[0] in ws;
  }

  /** The rows of listed words. */
  function Rows(words: map<string, int>, ws: seq<string>): (r: seq<int>)
    ensures |r| == |ws|
    ensures forall i | 0 <= i < |ws| && ws[i] in words :: r[i] == words[ws[i]]
  {
    seq(|ws|, i requires 0 <= i < |ws| => if ws[i] in words then words[ws[i]] else -1)
  }

  /** The first n elements, or all if there are fewer. */
  function Take(s: seq<int>, n: nat): (r: seq<int>)
    ensures |r| == if |s| < n then |s| else n
  {
    if |s| < n then s else s[..n]
  }

  /** Taking up to n of what is there and a either fills the result or leaves rest to take from. */
  lemma TakeStep(got: seq<int>, a: seq<int>, rest: seq<int>, all: seq<int>, n: nat, now: seq<int>)
    requires got + (a + rest) == all && |got| < n && now == Take(got + a, n)
    ensures |now| == n ==> now == Take(all, n)
    ensures |now| != n ==> now + rest == all
  {
    assert got + (a + rest) == (got + a) + rest;
    assert (got + a)[..] == got + a;
  }

  /** The row of the node itself comes before the rows below it. */
  lemma OwnRow(got: seq<int>, x: int, rest: seq<int>, n: nat)
    ensures (got + [x]) + rest == got + ([x] + rest)
    ensures |got| + 1 == n ==> got + [x] == Take(got + ([x] + rest), n)
  {
  }

  function RowsUnder(words: map<string, int>, prefix: string, d: nat): seq<int> {
    Rows(words, Under(words, prefix, d))
  }

  function RowsFrom(words: map<string, int>, prefix: string, c: nat, d: nat): seq<int>
    requires d > 0
  {
    Rows(words, UnderFrom(words, prefix, c, d))
  }

  lemma RowsOwn(words: map<string, int>, prefix: string, d: nat)
    requires d > 0
    ensures RowsUnder(words, prefix, d) == (if prefix in words then [words[prefix]] else []) + RowsFrom(words, prefix, 0, d)
  {
    var own := if prefix in words then [prefix] else [];
    RowsJoin(words, own, UnderFrom(words, prefix, 0, d));
    assert Rows(words, own) == if prefix in words then [words[prefix]] else [];
  }

  lemma RowsFromStep(words: map<string, int>, prefix: string, c: nat, d: nat)
    requires d > 0 && c < 26
    ensures RowsFrom(words, prefix, c, d)
         == RowsUnder(words, prefix + [Letter(c)], d - 1) + RowsFrom(words, prefix, c + 1, d)
  {
    RowsJoin(words, Under(words, prefix + [Letter(c)], d - 1), UnderFrom(words, prefix, c + 1, d));
  }

  lemma RowsFromEnd(words: map<string, int>, prefix: string, d: nat)
    requires d > 0
    ensures RowsFrom(words, prefix, 26, d) == []
  {
  }

  lemma TakenRows(words: map<string, int>, prefix: string, ws: seq<string>, o: seq<int>, n: nat)
    requires LexList(words, prefix, ws) && o == Take([] + Rows(words, ws), n)
    ensures |o| == if |ws| < n then |ws| else n
    ensures forall k | 0 <= k < |o| :: ws[k] in words && o[k] == words[ws[k]]
  {
    assert [] + Rows(words, ws) == Rows(words, ws);
    assert forall k | 0 <= k < |o| :: ws[k] in ws;
  }

  lemma RowsJoin(words: map<string, int>, a: seq<string>, b: seq<string>)
    ensures Rows(words, a + b) == Rows(words, a) + Rows(words, b)
  {
  }
}
