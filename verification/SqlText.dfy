/** SQL text: the tokenizer of src/parser.c, and the lexemes of printed text, which it takes apart again. */
module SqlText {
  import opened Common
  import opened Cells

  // ---------- tokens ----------

  predicate IsAlnum(c: char) {
    '0' <= c <= '9' || 'a' <= c <= 'z' || 'A' <= c <= 'Z'
  }

  /** What continues an identifier, keyword or number. */
  predicate WordChar(c: char) {
    IsAlnum(c) || c == '_' || c == '.' || c == '-'
  }

  predicate Single(c: char) {
    c == ',' || c == '(' || c == ')' || c == ';' || c == '*' || c == '='
  }

  predicate Comparison(c: char) {
    c == '>' || c == '<' || c == '!'
  }

  /** The length of the longest head of s without the character stop. */
  function Until(s: string, stop: char): (n: nat)
    ensures n <= |s| && (n < |s| ==> s[n] == stop) && forall i | 0 <= i < n :: s[i] != stop
  {
    if s == "" || s[0] == stop then 0 else 1 + Until(s[1..], stop)
  }

  /** The length of the longest head of s of word characters. */
  function WordLength(s: string): (n: nat)
    ensures n <= |s| && (n < |s| ==> !WordChar(s[n])) && forall i | 0 <= i < n :: WordChar(s[i])
  {
    if s == "" || !WordChar(s[0]) then 0 else 1 + WordLength(s[1..])
  }

  /** tokenize */
  function Tokens(s: string): seq<string>
    decreases |s|
  {
    if s == "" then []
    else if IsSpace(s[0]) then Tokens(s[1..])
    else if s[0] == '-' && |s| > 1 && s[1] == '-' then Tokens(s[Until(s, '\n')..])
    else if s[0] == '\'' || s[0] == '"' then
      var n := Until(s[1..], s[0]);
      var rest := s[1 + n..];
      [s[1..][..n]] + Tokens(if rest == "" then rest else rest[1..])
    else if Single(s[0]) then [s[..1]] + Tokens(s[1..])
    else if Comparison(s[0]) then
      if |s| > 1 && s[1] == '=' then [s[..2]] + Tokens(s[2..]) else [s[..1]] + Tokens(s[1..])
    else if WordChar(s[0]) then [s[..WordLength(s)]] + Tokens(s[WordLength(s)..])
    else Tokens(s[1..])
  }

  // ---------- lexemes ----------

  datatype Lexeme =
    | Word(text: string)
    | Symbol(text: string)
    | Quoted(value: string)
    | DoubleQuoted(value: string)
    | Blank
    | NewLine
    | Spaces(text: string)    // any other blanks
    | Comment(text: string)   // to the end of the line
    | Odd(text: string)       // characters that belong to no token

  function Text(l: Lexeme): string {
    match l
    case Word(w) => w
    case Symbol(s) => s
    case Quoted(v) => "'" + (v + "'")
    case DoubleQuoted(v) => "\"" + (v + "\"")
    case Blank => " "
    case NewLine => "\n"
    case Spaces(t) => t
    case Comment(t) => "--" + (t + "\n")
    case Odd(t) => t
  }

  function TokenOf(l: Lexeme): seq<string> {
    match l
    case Word(w) => [w]
    case Symbol(s) => [s]
    case Quoted(v) => [v]
    case DoubleQuoted(v) => [v]
    case _ => []
  }

  function TextAll(ls: seq<Lexeme>): string {
    if ls == [] then "" else Text(ls[0]) + TextAll(ls[1..])
  }

  function TokenAll(ls: seq<Lexeme>): seq<string> {
    if ls == [] then [] else TokenOf(ls[0]) + TokenAll(ls[1..])
  }

  /** A word as the tokenizer reads one: word characters, not opening a comment. */
  predicate IsWordText(w: string) {
    w != "" && !(|w| > 1 && w[0] == '-' && w[1] == '-') && forall i | 0 <= i < |w| :: WordChar(w[i])
  }

  predicate IsSymbolText(s: string) {
    s in {",", "(", ")", ";", "*", "=", ">", "<", "!", ">=", "<=", "!="}
  }

  predicate OddChar(c: char) {
    !IsSpace(c) && !IsAlnum(c) && c !in "_.-,();*=<>!'\""
  }

  predicate GoodLexeme(l: Lexeme) {
    match l
    case Word(w) => IsWordText(w)
    case Symbol(s) => IsSymbolText(s)
    case Quoted(v) => forall i | 0 <= i < |v| :: v[i] != '\''
    case DoubleQuoted(v) => forall i | 0 <= i < |v| :: v[i] != '"'
    case Spaces(t) => t != "" && forall i | 0 <= i < |t| :: IsSpace(t[i])
    case Comment(t) => forall i | 0 <= i < |t| :: t[i] != '\n'
    case Odd(t) => t != "" && forall i | 0 <= i < |t| :: OddChar(t[i])
    case _ => true
  }

  /** Two lexemes the tokenizer can tell apart: a word touches no word and no comment, which opens with word
      characters, and a comparison is not followed by an equals sign. */
  predicate Junction(x: Lexeme, y: Lexeme) {
    && (x.Word? ==> !y.Word? && !y.Comment?)
    && (x.Symbol? && x.text != "" && Comparison(x.text[0]) ==> y != Symbol("="))
  }

  /** Lexemes that the tokenizer can tell apart. */
  predicate Separate(ls: seq<Lexeme>) {
    forall i | 0 <= i < |ls| :: GoodLexeme(ls[i]) && (i + 1 < |ls| ==> Junction(ls[i], ls[i + 1]))
  }

  /** Text that may stand right behind a lexeme. */
  predicate MayFollow(l: Lexeme, t: string) {
    && (l.Word? ==> t == "" || !WordChar(t[0]))
    && (l.Symbol? && l.text != "" && Comparison(l.text[0]) ==> t == "" || t[0] != '=')
  }

  lemma NextMayFollow(x: Lexeme, y: Lexeme, rest: string)
    requires GoodLexeme(y) && Junction(x, y)
    ensures MayFollow(x, Text(y) + rest)
  {
    var t := Text(y);
    assert t != "" && (t + rest)[0] == t[0];
    if y.Word? {
      assert WordChar(t[0]);
    }
  }

  lemma WordToken(w: string, rest: string)
    requires IsWordText(w) && (rest == "" || !WordChar(rest[0]))
    ensures Tokens(w + rest) == [w] + Tokens(rest)
  {
    var s := w + rest;
    assert forall i | 0 <= i < |w| :: s[i] == w[i];
    var n := WordLength(s);
    assert n >= |w| by {
      assert n < |s| ==> !WordChar(s[n]);
    }
    assert n <= |w| by {
      assert |w| < |s| ==> s[|w|] == rest[0];
    }
    assert s[..n] == w && s[n..] == rest;
  }

  lemma {:induction false} UntilQuote(v: string, rest: string)
    requires forall i | 0 <= i < |v| :: v[i] != '\''
    ensures Until(v + ("'" + rest), '\'') == |v|
  {
    var s := v + ("'" + rest);
    var n := Until(s, '\'');
    assert forall i | 0 <= i < |v| :: s[i] == v[i];
    assert s[|v|] == '\'';
  }

  lemma QuotedToken(v: string, rest: string)
    requires forall i | 0 <= i < |v| :: v[i] != '\''
    ensures Tokens(Text(Quoted(v)) + rest) == [v] + Tokens(rest)
  {
    var s := Text(Quoted(v)) + rest;
    var inner := v + ("'" + rest);
    assert s[1..] == inner;
    UntilQuote(v, rest);
    assert inner[..|v|] == v;
    assert s[1 + |v|..] == "'" + rest;
    assert ("'" + rest)[1..] == rest;
  }

  lemma SymbolToken(t: string, rest: string)
    requires IsSymbolText(t) && (Comparison(t[0]) ==> rest == "" || rest[0] != '=')
    ensures Tokens(t + rest) == [t] + Tokens(rest)
  {
    var s := t + rest;
    assert s[..|t|] == t && s[|t|..] == rest;
    assert s[0] == t[0] && (|t| > 1 ==> s[1] == t[1]);
    assert |t| == 1 && |s| > 1 ==> s[1] == rest[0];
  }

  lemma {:induction false} SkipSpacesToken(t: string, rest: string)
    requires forall i | 0 <= i < |t| :: IsSpace(t[i])
    ensures Tokens(t + rest) == Tokens(rest)
  {
    if t == "" {
      assert t + rest == rest;
    } else {
      assert (t + rest)[1..] == t[1..] + rest;
      SkipSpacesToken(t[1..], rest);
    }
  }

  lemma {:induction false} OddToken(t: string, rest: string)
    requires forall i | 0 <= i < |t| :: OddChar(t[i])
    ensures Tokens(t + rest) == Tokens(rest)
  {
    if t == "" {
      assert t + rest == rest;
    } else {
      assert (t + rest)[1..] == t[1..] + rest;
      NoToken(t[0]);
      OddToken(t[1..], rest);
    }
  }

  lemma NoToken(c: char)
    requires OddChar(c)
    ensures !IsSpace(c) && c != '\'' && c != '"' && !Single(c) && !Comparison(c) && !WordChar(c)
  {
    var known := "_.-,();*=<>!'\"";
    assert known[0] == '_' && known[1] == '.' && known[2] == '-' && known[3] == ',' && known[4] == '(' && known[5] == ')';
    assert known[6] == ';' && known[7] == '*' && known[8] == '=' && known[9] == '<' && known[10] == '>' && known[11] == '!';
    assert known[12] == '\'' && known[13] == '"';
  }

  lemma {:induction false} UntilStop(v: string, stop: char, rest: string)
    requires (forall i | 0 <= i < |v| :: v[i] != stop) && (rest == "" || rest[0] == stop)
    ensures Until(v + rest, stop) == |v|
  {
    var s := v + rest;
    var n := Until(s, stop);
    assert forall i | 0 <= i < |v| :: s[i] == v[i];
    assert rest != "" ==> s[|v|] == stop;
  }

  /** A comment up to the end of its line, or of the text. */
  lemma CommentToken(t: string, rest: string)
    requires (forall i | 0 <= i < |t| :: t[i] != '\n') && (rest == "" || rest[0] == '\n')
    ensures Tokens("--" + (t + rest)) == Tokens(rest)
  {
    var s := "--" + (t + rest);
    var line := "--" + t;
    assert s == line + rest && s[0] == '-' && s[1] == '-';
    assert forall i | 0 <= i < |line| :: line[i] != '\n';
    UntilStop(line, '\n', rest);
    assert s[|line|..] == rest;
  }

  lemma DoubleQuotedToken(v: string, rest: string)
    requires forall i | 0 <= i < |v| :: v[i] != '"'
    ensures Tokens(Text(DoubleQuoted(v)) + rest) == [v] + Tokens(rest)
  {
    var s := Text(DoubleQuoted(v)) + rest;
    var tail := "\"" + rest;
    assert s[1..] == v + tail;
    UntilStop(v, '"', tail);
    assert (v + tail)[..|v|] == v && s[1 + |v|..] == tail && tail[1..] == rest;
  }

  lemma CommentLexeme(c: string, t: string)
    requires forall i | 0 <= i < |c| :: c[i] != '\n'
    ensures Tokens(Text(Comment(c)) + t) == Tokens(t)
  {
    var line := "\n" + t;
    CommentToken(c, line);
    Chain(c, "\n", t);
    Chain("--", c + "\n", t);
    SkipSpacesToken("\n", t);
  }

  lemma LexemeTokens(l: Lexeme, t: string)
    requires GoodLexeme(l) && MayFollow(l, t)
    ensures Tokens(Text(l) + t) == TokenOf(l) + Tokens(t)
  {
    match l
    case Word(w) => WordToken(w, t);
    case Symbol(s) => SymbolToken(s, t);
    case Quoted(v) => QuotedToken(v, t);
    case DoubleQuoted(v) => DoubleQuotedToken(v, t);
    case Blank => SkipSpacesToken(" ", t);
    case NewLine => SkipSpacesToken("\n", t);
    case Spaces(blanks) => SkipSpacesToken(blanks, t);
    case Comment(c) => CommentLexeme(c, t);
    case Odd(other) => OddToken(other, t);
  }

  lemma SeparateTail(ls: seq<Lexeme>)
    requires Separate(ls) && ls != []
    ensures Separate(ls[1..]) && GoodLexeme(ls[0]) && (|ls| > 1 ==> Junction(ls[0], ls[1]) && GoodLexeme(ls[1]))
  {
    var rest := ls[1..];
    assert forall i | 0 <= i < |rest| :: rest[i] == ls[i + 1];
  }

  /** What stands behind the first lexeme may. */
  lemma FirstFollowed(ls: seq<Lexeme>, tail: string)
    requires Separate(ls) && ls != [] && MayFollow(ls[|ls| - 1], tail)
    ensures MayFollow(ls[0], TextAll(ls[1..]) + tail)
  {
    SeparateTail(ls);
    if |ls| == 1 {
      assert TextAll(ls[1..]) + tail == tail;
    } else {
      var more := TextAll(ls[1..][1..]);
      NextMayFollow(ls[0], ls[1], more + tail);
      Chain(Text(ls[1]), more, tail);
    }
  }

  /** The tokenizer takes separated lexemes apart into their tokens, whatever text may follow. */
  lemma {:induction false} TokensThen(ls: seq<Lexeme>, tail: string)
    requires Separate(ls) && (ls != [] ==> MayFollow(ls[|ls| - 1], tail))
    ensures Tokens(TextAll(ls) + tail) == TokenAll(ls) + Tokens(tail)
  {
    if ls == [] {
      assert TextAll(ls) + tail == tail;
    } else {
      var more := TextAll(ls[1..]);
      SeparateTail(ls);
      TokensThen(ls[1..], tail);
      FirstFollowed(ls, tail);
      LexemeTokens(ls[0], more + tail);
      Chain(Text(ls[0]), more, tail);
      Chain(TokenOf(ls[0]), TokenAll(ls[1..]), Tokens(tail));
    }
  }

  lemma TokensOfText(ls: seq<Lexeme>)
    requires Separate(ls)
    ensures Tokens(TextAll(ls)) == TokenAll(ls)
  {
    TokensThen(ls, "");
    assert TextAll(ls) + "" == TextAll(ls);
  }

  const LETTERS := "ABCDEFGHIJKLMNOPQRSTUVWXYZ"
  const SMALL_LETTERS := "abcdefghijklmnopqrstuvwxyz"

  /** The characters of words. */
  lemma WordCharsAre(c: char)
    ensures WordChar(c) <==> c in LETTERS || c in SMALL_LETTERS || c in "0123456789" || c in "_.-"
    ensures IsSpace(c) <==> c as int == 32 || 9 <= c as int <= 13
  {
    LettersInOrder(LETTERS, 'A');
    LettersInOrder(SMALL_LETTERS, 'a');
    LettersInOrder("0123456789", '0');
    assert "_.-"[0] == '_' && "_.-"[1] == '.' && "_.-"[2] == '-';
  }

  lemma LettersInOrder(s: string, first: char)
    requires first as int + |s| < 128 && forall i | 0 <= i < |s| :: s[i] as int == first as int + i
    ensures forall c: char :: c in s <==> 0 <= c as int - first as int < |s|
  {
    forall c: char | 0 <= c as int - first as int < |s|
      ensures c in s
    {
      assert s[c as int - first as int] == c;
    }
  }

  /** A quote that is not closed is one token to the end of the text. */
  lemma OpenQuote(ls: seq<Lexeme>, quote: char, v: string)
    requires Separate(ls) && (quote == '\'' || quote == '"') && forall i | 0 <= i < |v| :: v[i] != quote
    ensures Tokens(TextAll(ls) + ([quote] + v)) == TokenAll(ls) + [v]
  {
    var tail := [quote] + v;
    if ls != [] {
      QuoteMayFollow(ls[|ls| - 1], tail);
    }
    TokensThen(ls, tail);
    UntilStop(v, quote, "");
    assert tail[1..] == v && v + "" == v && v[..|v|] == v && tail[1 + |v|..] == "";
    assert Tokens("") == [] && [v] + [] == [v];
  }

  lemma QuoteMayFollow(l: Lexeme, tail: string)
    requires tail != "" && (tail[0] == '\'' || tail[0] == '"')
    ensures MayFollow(l, tail)
  {
  }

  /** Names, decimals, negative numbers and dates are one token each. */
  lemma OneToken(w: string)
    requires w in {"users", "user_id", "3.14", "-5", "2024-01-15"}
    ensures Tokens(w) == [w]
  {
    WordToken(w, "");
    assert w + "" == w && [w] + Tokens("") == [w];
  }

  /** A comment behind a text is skipped, with or without a line end. */
  lemma CommentLast(ls: seq<Lexeme>, t: string)
    requires Separate(ls) && (ls != [] ==> !ls[|ls| - 1].Word?) && forall i | 0 <= i < |t| :: t[i] != '\n'
    ensures Tokens(TextAll(ls) + ("--" + t)) == TokenAll(ls)
    ensures Tokens(TextAll(ls) + Text(Comment(t))) == TokenAll(ls)
  {
    OpenComment(ls, t);
    ClosedComment(ls, t);
  }

  lemma OpenComment(ls: seq<Lexeme>, t: string)
    requires Separate(ls) && (ls != [] ==> !ls[|ls| - 1].Word?) && forall i | 0 <= i < |t| :: t[i] != '\n'
    ensures Tokens(TextAll(ls) + ("--" + t)) == TokenAll(ls)
  {
    var tail := "--" + t;
    assert tail[0] == '-';
    TokensThen(ls, tail);
    CommentToken(t, "");
    assert t + "" == t;
  }

  lemma ClosedComment(ls: seq<Lexeme>, t: string)
    requires Separate(ls) && (ls != [] ==> !ls[|ls| - 1].Word?) && forall i | 0 <= i < |t| :: t[i] != '\n'
    ensures Tokens(TextAll(ls) + Text(Comment(t))) == TokenAll(ls)
  {
    var tail := Text(Comment(t));
    assert tail[0] == '-' && tail + "" == tail;
    TokensThen(ls, tail);
    CommentLexeme(t, "");
  }
}
