/** The LIKE matcher of src/storage.c. */
module Like {

  /** What one pattern character may stand for. */
  predicate Stands(piece: string, c: char) {
    if c == '%' then true else if c == '_' then |piece| == 1 else piece == [c]
  }

  function Joined(pieces: seq<string>): string {
    if pieces == [] then "" else pieces[0] + Joined(pieces[1..])
  }

  /** A cut of the text into one piece per pattern character, each piece standing for its character. */
  ghost predicate Cut(pieces: seq<string>, text: string, pattern: string) {
    && |pieces| == |pattern|
    && Joined(pieces) == text
    && forall i | 0 <= i < |pattern| :: Stands(pieces[i], pattern[i])
  }

  ghost predicate Matches(text: string, pattern: string) {
    exists pieces :: Cut(pieces, text, pattern)
  }

  /** The same, decided from the left. */
  predicate Like(text: string, pattern: string)
    decreases |pattern| + |text|
  {
    if pattern == "" then text == ""
    else if pattern[0] == '%' then Like(text, pattern[1..]) || (text != "" && Like(text[1..], pattern))
    else text != "" && (pattern[0] == '_' || text[0] == pattern[0]) && Like(text[1..], pattern[1..])
  }

  lemma CutStep(piece: string, pieces: seq<string>, text: string, pattern: string)
    requires pattern != "" && Stands(piece, pattern[0]) && Cut(pieces, text, pattern[1..])
    ensures Cut([piece] + pieces, piece + text, pattern)
  {
    assert ([piece] + pieces)[1..] == pieces;
  }

  lemma {:induction false} LikeCuts(text: string, pattern: string)
    requires Like(text, pattern)
    ensures Matches(text, pattern)
    decreases |pattern| + |text|
  {
    if pattern == "" {
      assert Cut([], text, pattern);
    } else if pattern[0] == '%' && Like(text, pattern[1..]) {
      LikeCuts(text, pattern[1..]);
      var pieces :| Cut(pieces, text, pattern[1..]);
      CutStep("", pieces, text, pattern);
      assert "" + text == text;
    } else {
      var head, rest := text[0], text[1..];
      assert [head] + rest == text;
      if pattern[0] == '%' {
        LikeCuts(rest, pattern);
        var pieces :| Cut(pieces, rest, pattern);
        var longer := [head] + pieces[0];
        CutStep(longer, pieces[1..], Joined(pieces[1..]), pattern);
        assert longer + Joined(pieces[1..]) == [head] + Joined(pieces);
      } else {
        LikeCuts(rest, pattern[1..]);
        var pieces :| Cut(pieces, rest, pattern[1..]);
        CutStep([head], pieces, rest, pattern);
      }
    }
  }

  lemma {:induction false} CutLikes(pieces: seq<string>, text: string, pattern: string)
    requires Cut(pieces, text, pattern)
    ensures Like(text, pattern)
    decreases |pattern| + |text|
  {
    if pattern != "" {
      var piece, more := pieces[0], pieces[1..];
      if piece == "" {
        assert text == Joined(more);
        CutLikes(more, text, pattern[1..]);
      } else {
        assert text[0] == piece[0] && text[1..] == piece[1..] + Joined(more);
        if pattern[0] == '%' {
          var shorter := [piece[1..]] + more;
          assert shorter[1..] == more;
          CutLikes(shorter, text[1..], pattern);
        } else {
          assert piece[1..] == "" && "" + Joined(more) == Joined(more);
          CutLikes(more, text[1..], pattern[1..]);
        }
      }
    }
  }

  /** Deciding from the left finds a cut exactly when there is one. */
  lemma LikeIsMatching(text: string, pattern: string)
    ensures Like(text, pattern) <==> Matches(text, pattern)
  {
    if Like(text, pattern) {
      LikeCuts(text, pattern);
    }
    if pieces :| Cut(pieces, text, pattern) {
      CutLikes(pieces, text, pattern);
    }
  }

  lemma {:induction false} StarStar(text: string, pattern: string)
    ensures Like(text, "%" + ("%" + pattern)) <==> Like(text, "%" + pattern)
    decreases |text|
  {
    var one := "%" + pattern;
    var two := "%" + one;
    assert two[1..] == one && one[1..] == pattern;
    if text != "" {
      StarStar(text[1..], pattern);
    }
  }

  lemma {:induction false} StarAll(text: string)
    ensures Like(text, "%")
  {
    assert "%"[1..] == "";
    if text != "" {
      StarAll(text[1..]);
    }
  }

  lemma StarStep(text: string, pattern: string)
    ensures Like(text, "%" + pattern) <==> Like(text, pattern) || (text != "" && Like(text[1..], "%" + pattern))
  {
    assert ("%" + pattern)[1..] == pattern;
  }

  /** like_match: t and p are the two pointers, each the text from there to the closing NUL. */
  method LikeMatch(text: string, pattern: string) returns (matched: bool)
    ensures matched <==> Matches(text, pattern)
    decreases |pattern|, 0
  {
    LikeIsMatching(text, pattern);
    var t, p := text, pattern;
    while p != ""
      invariant |p| <= |pattern| && (Like(t, p) <==> Like(text, pattern))
      decreases |p|
    {
      if p[0] == '%' {
        matched := AfterStar(t, p[1..]);
        assert p == "%" + p[1..];
        return;
      }
      if p[0] == '_' {
        if t == "" {
          return false;
        }
        t, p := t[1..], p[1..];
        continue;
      }
      if t == "" || t[0] != p[0] {
        return false;
      }
      t, p := t[1..], p[1..];
    }
    return t == "";
  }

  /** The branch of like_match for a '%': skips further ones and tries every rest of the text. */
  method AfterStar(text: string, pattern: string) returns (matched: bool)
    ensures matched <==> Like(text, "%" + pattern)
    decreases |pattern|, 1
  {
    var t, p := text, pattern;
    while p != "" && p[0] == '%'
      invariant |p| <= |pattern| && (Like(t, "%" + p) <==> Like(text, "%" + pattern))
      decreases |p|
    {
      StarStar(t, p[1..]);
      assert p == "%" + p[1..];
      p := p[1..];
    }
    if p == "" {
      StarAll(t);
      assert "%" + p == "%";
      return true;
    }
    while t != ""
      invariant Like(t, "%" + p) <==> Like(text, "%" + pattern)
      decreases |t|
    {
      StarStep(t, p);
      LikeIsMatching(t, p);
      var here := LikeMatch(t, p);
      if here {
        return true;
      }
      t := t[1..];
    }
    StarStep(t, p);
    LikeIsMatching(t, p);
    matched := LikeMatch(t, p);
  }

  // ---------- what common patterns mean ----------

  predicate NoWildcard(s: string) {
    forall i | 0 <= i < |s| :: s[i] != '%' && s[i] != '_'
  }

  /** A literal head must be there, and the rest of the pattern decides. */
  lemma {:induction false} LiteralHead(text: string, head: string, pattern: string)
    requires NoWildcard(head)
    ensures Like(text, head + pattern) <==> head <= text && Like(text[|head|..], pattern)
  {
    if head == "" {
      assert head + pattern == pattern && text[0..] == text;
    } else {
      assert (head + pattern)[1..] == head[1..] + pattern && (head + pattern)[0] == head[0];
      if text != "" {
        LiteralHead(text[1..], head[1..], pattern);
        assert head <= text <==> head[0] == text[0] && head[1..] <= text[1..] by {
          assert head == [head[0]] + head[1..] && text == [text[0]] + text[1..];
        }
        if head <= text {
          assert text[1..][|head[1..]|..] == text[|head|..];
        }
      }
    }
  }

  /** A pattern without wildcards matches only itself. */
  lemma LiteralPattern(text: string, pattern: string)
    requires NoWildcard(pattern)
    ensures Matches(text, pattern) <==> text == pattern
  {
    LikeIsMatching(text, pattern);
    LiteralHead(text, pattern, "");
    assert pattern + "" == pattern;
  }

  /** "prefix%" matches exactly the texts that start with prefix. */
  lemma PrefixPattern(text: string, prefix: string)
    requires NoWildcard(prefix)
    ensures Matches(text, prefix + "%") <==> prefix <= text
  {
    LikeIsMatching(text, prefix + "%");
    LiteralHead(text, prefix, "%");
    if prefix <= text {
      StarAll(text[|prefix|..]);
    }
  }

  /** "%part%" matches exactly the texts that contain part. */
  lemma {:induction false} InfixPattern(text: string, part: string)
    requires NoWildcard(part)
    ensures Matches(text, "%" + (part + "%")) <==> exists i :: 0 <= i <= |text| && part <= text[i..]
    decreases |text|
  {
    LikeIsMatching(text, "%" + (part + "%"));
    LikeIsMatching(text, part + "%");
    StarStep(text, part + "%");
    PrefixPattern(text, part);
    assert text[0..] == text;
    if text != "" {
      LikeIsMatching(text[1..], "%" + (part + "%"));
      InfixPattern(text[1..], part);
      assert forall i | 0 < i <= |text| :: text[i..] == text[1..][i - 1..];
      if i :| 0 <= i <= |text[1..]| && part <= text[1..][i..] {
        assert part <= text[i + 1..];
      }
      if i :| 0 < i <= |text| && part <= text[i..] {
        assert part <= text[1..][i - 1..];
      }
    }
  }
}
