/** The SQL that the dictionary handler of src/router.c writes, read back by the parser: it asks for what the handler's
    cache logic takes it to ask for. */
module RouterSql {
  import opened Common
  import opened Cells
  import opened SqlText
  import opened SqlStatements
  import opened SqlGrammar
  import R = RouterCache
  import A = SqlAnswers
  import B = SqlRoundTrip
  import S = Select
  import W = Where

  /** The text for a lookup whose word needs no escaping. */
  function HandlerText(w: R.Wanted): string {
    match w
    case ByEnglish(t) => "SELECT korean" + (" FROM dictionary " + (("WHERE " + ("english" + " =")) + (" " + (("'" + (t + "'")) + ";"))))
    case ById(t) => "SELECT english, korean" + (" FROM dictionary " + (("WHERE " + ("id" + " =")) + (" " + (t + ";"))))
  }

  // ---------- lists of five lexemes ----------

  lemma FirstLexeme(x: Lexeme, ls: seq<Lexeme>)
    ensures TextAll([x] + ls) == Text(x) + TextAll(ls) && TokenAll([x] + ls) == TokenOf(x) + TokenAll(ls)
  {
    assert ([x] + ls)[1..] == ls;
  }

  lemma FiveLexemes(v: Lexeme, w: Lexeme, x: Lexeme, y: Lexeme, z: Lexeme)
    ensures TextAll([v, w, x, y, z]) == Text(v) + (Text(w) + (Text(x) + (Text(y) + Text(z))))
    ensures TokenAll([v, w, x, y, z]) == TokenOf(v) + (TokenOf(w) + (TokenOf(x) + (TokenOf(y) + TokenOf(z))))
  {
    ThreeLexemes(x, y, z);
    FirstLexeme(w, [x, y, z]);
    FirstLexeme(v, [w, x, y, z]);
    assert [w] + [x, y, z] == [w, x, y, z] && [v] + [w, x, y, z] == [v, w, x, y, z];
  }

  lemma ThreeLexemes(x: Lexeme, y: Lexeme, z: Lexeme)
    ensures TextAll([x, y, z]) == Text(x) + (Text(y) + Text(z)) && TokenAll([x, y, z]) == TokenOf(x) + (TokenOf(y) + TokenOf(z))
  {
    OneLexeme(z);
    FirstLexeme(y, [z]);
    FirstLexeme(x, [y, z]);
    assert [y] + [z] == [y, z] && [x] + [y, z] == [x, y, z];
  }

  lemma OneLexeme(z: Lexeme)
    ensures TextAll([z]) == Text(z) && TokenAll([z]) == TokenOf(z)
  {
    assert [z][1..] == [] && Text(z) + "" == Text(z) && TokenOf(z) + [] == TokenOf(z);
  }

  lemma {:induction false} TextAppend(a: seq<Lexeme>, b: seq<Lexeme>)
    ensures TextAll(a + b) == TextAll(a) + TextAll(b)
  {
    if a == [] {
      assert a + b == b;
    } else {
      assert (a + b)[1..] == a[1..] + b;
      TextAppend(a[1..], b);
      Chain(Text(a[0]), TextAll(a[1..]), TextAll(b));
    }
  }

  /** Two lists one behind the other. */
  lemma Behind(a: seq<Lexeme>, b: seq<Lexeme>)
    requires Separate(a) && Separate(b) && a != [] && b != [] && Junction(a[|a| - 1], b[0])
    ensures Separate(a + b) && TextAll(a + b) == TextAll(a) + TextAll(b) && TokenAll(a + b) == TokenAll(a) + TokenAll(b)
  {
    B.Joined(a, b);
    TextAppend(a, b);
    B.TokenAllConcat(a, b);
  }

  // ---------- the parts of the text ----------

  const FROM_PART: seq<Lexeme> := [Blank, Word("FROM"), Blank, Word("dictionary"), Blank]

  lemma FromPart()
    ensures Separate(FROM_PART) && TextAll(FROM_PART) == " FROM dictionary " && TokenAll(FROM_PART) == ["FROM", "dictionary"]
  {
    FiveLexemes(Blank, Word("FROM"), Blank, Word("dictionary"), Blank);
    FromLetters();
    FromSeparate();
  }

  lemma FromSeparate()
    ensures Separate(FROM_PART)
  {
    WordBetween("FROM");
    WordBetween("dictionary");
    B.Joined([Blank, Word("FROM")], [Blank, Word("dictionary")]);
    B.Joined([Blank, Word("FROM")] + [Blank, Word("dictionary")], [Blank]);
    assert FROM_PART == ([Blank, Word("FROM")] + [Blank, Word("dictionary")]) + [Blank];
  }

  lemma WordBetween(w: string)
    requires IsWordText(w)
    ensures Separate([Blank, Word(w)])
  {
  }

  lemma FromLetters()
    ensures " " + ("FROM" + (" " + ("dictionary" + " "))) == " FROM dictionary "
  {
  }

  /** WHERE column = */
  function WherePart(column: string): seq<Lexeme> {
    [Word("WHERE"), Blank, Word(column), Blank, Symbol("=")]
  }

  lemma WhereText(column: string)
    requires column == "english" || column == "id"
    ensures Separate(WherePart(column)) && TextAll(WherePart(column)) == "WHERE " + (column + " =")
    ensures TokenAll(WherePart(column)) == ["WHERE", column, "="]
  {
    FiveLexemes(Word("WHERE"), Blank, Word(column), Blank, Symbol("="));
    assert " " + "=" == " =" && "WHERE" + " " == "WHERE ";
    Chain("WHERE", " ", column + " =");
  }

  lemma ValueText(value: Lexeme)
    requires GoodLexeme(value) && (value.Quoted? || value.Word?)
    ensures
      var ls := [Blank, value, Symbol(";")];
      Separate(ls) && TextAll(ls) == " " + (Text(value) + ";") && TokenAll(ls) == TokenOf(value) + [";"]
  {
    ThreeLexemes(Blank, value, Symbol(";"));
  }

  /** FROM dictionary WHERE column = value; */
  function TailPart(column: string, value: Lexeme): seq<Lexeme> {
    FROM_PART + (WherePart(column) + [Blank, value, Symbol(";")])
  }

  function TailString(column: string, value: string): string {
    " FROM dictionary " + (("WHERE " + (column + " =")) + (" " + (value + ";")))
  }

  lemma TailText(column: string, value: Lexeme)
    requires (column == "english" || column == "id") && GoodLexeme(value) && (value.Quoted? || value.Word?)
    ensures
      var ls := TailPart(column, value);
      && Separate(ls) && ls[0].Blank? && TextAll(ls) == TailString(column, Text(value))
      && TokenAll(ls) == ["FROM", "dictionary"] + (["WHERE", column, "="] + (TokenOf(value) + [";"]))
  {
    FromPart();
    WhereText(column);
    ValueText(value);
    Behind(WherePart(column), [Blank, value, Symbol(";")]);
    Behind(FROM_PART, WherePart(column) + [Blank, value, Symbol(";")]);
  }

  // ---------- what the parser finds ----------

  function LookupForm(columns: seq<string>, column: string, value: string): Form {
    SelectForm("SELECT", columns, "FROM", "dictionary", Some(WhereForm("WHERE", [Plain(column, "=", value)], [])), None, None,
               [";"])
  }

  lemma ColumnNames()
    ensures ColumnOk("korean") && ColumnOk("english") && ColumnTokens("korean") == ["korean"] && ColumnTokens("english") == ["english"]
  {
    Named("korean");
    Named("english");
  }

  lemma Named(s: string)
    requires s == "korean" || s == "english"
    ensures ColumnOk(s) && ColumnTokens(s) == [s]
  {
    assert forall i | 0 <= i < |s| :: s[i] != '(';
    assert Until(s, '(') == |s|;
    NoKeyword(s);
  }

  lemma NoKeyword(s: string)
    requires s == "korean" || s == "english"
    ensures IsName(s)
  {
    OtherLetters();
    forall i | 0 <= i < |KEYWORDS|
      ensures !SameName(s, KEYWORDS[i])
    {
      Differ(s, KEYWORDS[i], 0);
    }
    NotIn(s, KEYWORDS);
  }

  lemma OtherLetters()
    ensures forall i | 0 <= i < |KEYWORDS| :: KEYWORDS[i] != "" && KEYWORDS[i][0] in {'F', 'W', 'O', 'L', 'A', 'B', 'S', 'V', 'I', 'T', 'D'}
  {
    var ks := KEYWORDS;
    assert |ks| == 14 && ks[0] == "FROM" && ks[1] == "WHERE" && ks[2] == "ORDER" && ks[3] == "LIMIT" && ks[4] == "AND" && ks[5] == "OR";
    assert ks[6] == "BETWEEN" && ks[7] == "SET" && ks[8] == "VALUES" && ks[9] == "INTO" && ks[10] == "TABLE" && ks[11] == "BY";
    assert ks[12] == "ASC" && ks[13] == "DESC";
  }

  lemma {:induction false} NotIn(s: string, words: seq<string>)
    requires forall i | 0 <= i < |words| :: !SameName(s, words[i])
    ensures !Among(s, words)
  {
    if words != [] {
      NotIn(s, words[1..]);
    }
  }

  lemma LookupMeans(columns: seq<string>, column: string, value: string)
    requires (forall i | 0 <= i < |columns| :: ColumnOk(columns[i])) && |column| < NAME_SIZE && |value| < VALUE_SIZE
    ensures
      var f := LookupForm(columns, column, value);
      && Written(f) && Spelt(f) == ["SELECT"] + (JoinTokens(ColumnsTokens(columns))
                                                 + ["FROM", "dictionary", "WHERE", column, "=", value, ";"])
      && Meant(f).kind.SELECT? && Meant(f).table == "dictionary"
      && A.ToSelect(Meant(f)) == S.SelectSql(W.Query([Clause(column, "=", value, "")], None, ""), columns, None, -1)
  {
  }

  lemma TextAsks(head: seq<Lexeme>, columns: seq<string>, column: string, value: Lexeme, v: string, text: string)
    requires Separate(head) && head != [] && Junction(head[|head| - 1], Blank)
    requires TokenAll(head) == ["SELECT"] + JoinTokens(ColumnsTokens(columns))
    requires (column == "english" || column == "id") && GoodLexeme(value) && (value.Quoted? || value.Word?) && TokenOf(value) == [v]
    requires (forall i | 0 <= i < |columns| :: ColumnOk(columns[i])) && |v| < VALUE_SIZE
    requires text == TextAll(head) + TailString(column, Text(value))
    ensures ParseSql(text) == Some(Meant(LookupForm(columns, column, v)))
  {
    var tail := TailPart(column, value);
    TailText(column, value);
    Behind(head, tail);
    LookupMeans(columns, column, v);
    TokensTogether(columns, column, v);
    TextIsParsed(head + tail, LookupForm(columns, column, v));
  }

  lemma TokensTogether(columns: seq<string>, column: string, v: string)
    ensures
      var cols := JoinTokens(ColumnsTokens(columns));
      (["SELECT"] + cols) + (["FROM", "dictionary"] + (["WHERE", column, "="] + ([v] + [";"])))
      == ["SELECT"] + (cols + ["FROM", "dictionary", "WHERE", column, "=", v, ";"])
  {
  }

  /** For a word of the dictionary the text asks for the query that the cache logic is about. */
  lemma WordAsked(w: R.Wanted)
    requires R.Word(w)
    ensures
      var p := ParseSql(HandlerText(w));
      p.Some? && p.value.kind.SELECT? && p.value.table == "dictionary" && A.ToSelect(p.value) == R.SqlOf(w)
  {
    WordParsed(w, HandlerText(w));
    ColumnNames();
    LookupMeans(["korean"], "english", w.text);
  }

  lemma WordParsed(w: R.Wanted, text: string)
    requires R.Word(w) && text == HandlerText(w)
    ensures ParseSql(text) == Some(Meant(LookupForm(["korean"], "english", w.text)))
  {
    ColumnNames();
    OneHead();
    TextAsks([Word("SELECT"), Blank, Word("korean")], ["korean"], "english", Quoted(w.text), w.text, text);
  }

  lemma OneHead()
    ensures
      var head := [Word("SELECT"), Blank, Word("korean")];
      && Separate(head) && TextAll(head) == "SELECT korean"
      && TokenAll(head) == ["SELECT"] + JoinTokens(ColumnsTokens(["korean"]))
  {
    ThreeLexemes(Word("SELECT"), Blank, Word("korean"));
    OneLetters();
    OneSeparate();
    OneColumn();
  }

  lemma OneSeparate()
    ensures Separate([Word("SELECT"), Blank, Word("korean")])
  {
  }

  lemma OneColumn()
    ensures JoinTokens(ColumnsTokens(["korean"])) == ["korean"]
  {
    ColumnNames();
    assert ColumnsTokens(["korean"]) == [["korean"]];
  }

  lemma OneLetters()
    ensures "SELECT" + (" " + "korean") == "SELECT korean"
    ensures "SELECT" + (" " + ("english" + ("," + " "))) == "SELECT english, "
    ensures "SELECT english, " + "korean" == "SELECT english, korean"
  {
  }

  /** And for an id of digits. */
  lemma IdAsked(w: R.Wanted)
    requires w.ById? && AllDigits(w.text) && |w.text| < VALUE_SIZE
    ensures
      var p := ParseSql(HandlerText(w));
      p.Some? && p.value.kind.SELECT? && p.value.table == "dictionary" && A.ToSelect(p.value) == R.SqlOf(w)
  {
    IdParsed(w, HandlerText(w));
    IdMeans(w);
  }

  lemma IdMeans(w: R.Wanted)
    requires w.ById? && |w.text| < VALUE_SIZE
    ensures
      var m := Meant(LookupForm(["english", "korean"], "id", w.text));
      m.kind.SELECT? && m.table == "dictionary" && A.ToSelect(m) == R.SqlOf(w)
  {
    BothColumns(["english", "korean"]);
    LookupMeans(["english", "korean"], "id", w.text);
  }

  lemma BothColumns(columns: seq<string>)
    requires columns == ["english", "korean"]
    ensures forall i | 0 <= i < |columns| :: ColumnOk(columns[i])
  {
    ColumnNames();
  }

  lemma IdLexeme(t: string)
    requires AllDigits(t)
    ensures GoodLexeme(Word(t))
  {
    assert forall i | 0 <= i < |t| :: IsDigit(t[i]);
  }

  lemma IdParsed(w: R.Wanted, text: string)
    requires w.ById? && AllDigits(w.text) && |w.text| < VALUE_SIZE && text == HandlerText(w)
    ensures ParseSql(text) == Some(Meant(LookupForm(["english", "korean"], "id", w.text)))
  {
    var columns, head := ["english", "korean"], [Word("SELECT"), Blank, Word("english"), Symbol(","), Blank] + [Word("korean")];
    IdLexeme(w.text);
    BothColumns(columns);
    TwoHead();
    TextAsks(head, columns, "id", Word(w.text), w.text, text);
  }

  lemma TwoHead()
    ensures
      var head := [Word("SELECT"), Blank, Word("english"), Symbol(","), Blank] + [Word("korean")];
      && Separate(head) && TextAll(head) == "SELECT english, korean"
      && TokenAll(head) == ["SELECT"] + JoinTokens(ColumnsTokens(["english", "korean"]))
  {
    FiveTexts();
    TwoSeparate();
    WithKorean([Word("SELECT"), Blank, Word("english"), Symbol(","), Blank]);
  }

  lemma WithKorean(five: seq<Lexeme>)
    requires Separate(five) && five != [] && five[|five| - 1].Blank?
    requires TextAll(five) == "SELECT english, " && TokenAll(five) == ["SELECT", "english", ","]
    ensures
      var head := five + [Word("korean")];
      && Separate(head) && TextAll(head) == "SELECT english, korean"
      && TokenAll(head) == ["SELECT"] + JoinTokens(ColumnsTokens(["english", "korean"]))
  {
    OneLexeme(Word("korean"));
    KoreanSeparate();
    Behind(five, [Word("korean")]);
    OneLetters();
    TwoColumns();
    KoreanLast();
  }

  lemma KoreanSeparate()
    ensures Separate([Word("korean")])
  {
  }

  lemma KoreanLast()
    ensures ["SELECT", "english", ","] + ["korean"] == ["SELECT"] + ["english", ",", "korean"]
  {
  }

  lemma FiveTexts()
    ensures
      var five := [Word("SELECT"), Blank, Word("english"), Symbol(","), Blank];
      TextAll(five) == "SELECT english, " && TokenAll(five) == ["SELECT", "english", ","]
  {
    FiveLexemes(Word("SELECT"), Blank, Word("english"), Symbol(","), Blank);
    OneLetters();
  }

  lemma TwoSeparate()
    ensures Separate([Word("SELECT"), Blank, Word("english"), Symbol(","), Blank])
  {
    SelectSeparate();
    WordBetween("english");
    B.Joined([Blank, Word("english")], [Symbol(","), Blank]);
    B.Joined([Word("SELECT")], [Blank, Word("english")] + [Symbol(","), Blank]);
    assert [Word("SELECT")] + ([Blank, Word("english")] + [Symbol(","), Blank])
        == [Word("SELECT"), Blank, Word("english"), Symbol(","), Blank];
  }

  lemma SelectSeparate()
    ensures Separate([Word("SELECT")]) && Separate([Symbol(","), Blank])
  {
  }

  lemma TwoColumns()
    ensures JoinTokens(ColumnsTokens(["english", "korean"])) == ["english", ",", "korean"]
  {
    ColumnNames();
    assert ColumnsTokens(["english", "korean"]) == [["english"], ["korean"]];
    JoinTwo("english", "korean");
  }

  lemma JoinTwo(a: string, b: string)
    ensures JoinTokens([[a], [b]]) == [a, ",", b]
  {
    assert [[a], [b]][1..] == [[b]];
  }
}
