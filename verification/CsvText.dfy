/** The CSV text of src/storage.c: what the writer emits for a row, what the two-stage reader makes of a
    byte sequence, and that the second undoes the first. */
module CsvText {
  import opened Common

  const NUL: char := '\0'

  predicate Special(c: char) {
    c == ',' || c == '"' || c == '\n' || c == '\r'
  }

  predicate NeedsQuotes(v: string) {
    exists i | 0 <= i < |v| :: Special(v[i])
  }

  function Escaped(c: char): string {
    if c == '"' then "\"\"" else [c]
  }

  function Doubled(v: string): string {
    if v == "" then "" else Escaped(v[0]) + Doubled(v[1..])
  }

  /** A field as written: quoted, with quotes doubled, only if it needs to be (section 2 of RFC 4180). */
  function Field(v: string): string {
    if NeedsQuotes(v) then "\"" + Doubled(v) + "\"" else v
  }

  function RowText(row: seq<string>): string {
    if row == [] then ""
    else if |row| == 1 then Field(row[0])
    else Field(row[0]) + ("," + RowText(row[1..]))
  }

  function FileText(rows: seq<seq<string>>): string {
    if rows == [] then "" else RowText(rows[0]) + ("\n" + FileText(rows[1..]))
  }

  // ---------- the reader ----------

  /** read_csv_record: the record text and what is left of the input, or end of file, or -1. */
  datatype ReadResult = Record(text: string, rest: string) | Eof | Malformed

  /** The loop of read_csv_record on the input s, in a state of that loop. */
  function Scan(s: string, inQuotes: bool, acc: string, sawAny: bool): ReadResult
    decreases |s|
  {
    if s == "" then
      if !sawAny then Eof else if inQuotes then Malformed else Record(acc, "")
    else if !inQuotes && (s[0] == '\n' || s[0] == '\r') then
      Record(acc, if s[0] == '\r' && |s| > 1 && s[1] == '\n' then s[2..] else s[1..])
    else if s[0] == '"' then
      if !inQuotes then Scan(s[1..], true, acc + [s[0]], true)
      else if |s| > 1 && s[1] == '"' then Scan(s[2..], true, acc + "\"\"", true)
      else Scan(s[1..], false, acc + [s[0]], true)
    else Scan(s[1..], inQuotes, acc + [s[0]], true)
  }

  function Read(s: string): ReadResult {
    Scan(s, false, "", false)
  }

  /** The loop of parse_csv_record on the rest s of a record; the end of s stands for the closing NUL. */
  function Split(s: string, inQuotes: bool, closed: bool, field: string, fields: seq<string>): Option<seq<string>>
    decreases |s|
  {
    var ch := if s == "" then NUL else s[0];
    if inQuotes then
      if ch == NUL then None
      else if ch == '"' then
        if |s| > 1 && s[1] == '"' then Split(s[2..], true, closed, field + "\"", fields)
        else Split(s[1..], false, true, field, fields)
      else Split(s[1..], true, closed, field + [ch], fields)
    else if closed then
      if ch == NUL then Some(fields + [field])
      else if ch == ',' then Split(s[1..], false, false, "", fields + [field])
      else None
    else if ch == '"' then
      if field != "" then None else Split(s[1..], true, false, field, fields)
    else if ch == NUL then Some(fields + [field])
    else if ch == ',' then Split(s[1..], false, false, "", fields + [field])
    else Split(s[1..], false, false, field + [ch], fields)
  }

  function Parse(record: string): Option<seq<string>> {
    Split(record, false, false, "", [])
  }

  /** Reading records and parsing them until end of file. */
  function ReadRows(s: string): Option<seq<seq<string>>>
    decreases |s|
  {
    match Read(s)
    case Eof => Some([])
    case Malformed => None
    case Record(text, rest) =>
      ReadShortens(s, false, "", false);
      match Parse(text)
      case None => None
      case Some(row) =>
        match ReadRows(rest)
        case None => None
        case Some(rows) => Some([row] + rows)
  }

  /** A record uses up input. */
  lemma {:induction false} ReadShortens(s: string, inQuotes: bool, acc: string, sawAny: bool)
    ensures
      var r := Scan(s, inQuotes, acc, sawAny);
      r.Record? ==> |r.rest| <= |s| && (!sawAny ==> |r.rest| < |s|)
    decreases |s|
  {
    if s == "" || (!inQuotes && (s[0] == '\n' || s[0] == '\r')) {
    } else if s[0] == '"' {
      if !inQuotes {
        ReadShortens(s[1..], true, acc + [s[0]], true);
      } else if |s| > 1 && s[1] == '"' {
        ReadShortens(s[2..], true, acc + "\"\"", true);
      } else {
        ReadShortens(s[1..], false, acc + [s[0]], true);
      }
    } else {
      ReadShortens(s[1..], inQuotes, acc + [s[0]], true);
    }
  }

  // ---------- reading undoes writing ----------

  predicate NulFree(v: string) {
    forall i | 0 <= i < |v| :: v[i] != NUL
  }

  /** The text after a field cannot start with another quote. */
  predicate NoQuoteAhead(s: string) {
    s == "" || s[0] != '"'
  }

  lemma {:induction false} ScanPlain(v: string, s: string, acc: string, sawAny: bool)
    requires !NeedsQuotes(v)
    ensures Scan(v + s, false, acc, sawAny) == Scan(s, false, acc + v, sawAny || v != "")
  {
    if v == "" {
      assert v + s == s && acc + v == acc;
    } else {
      assert (v + s)[1..] == v[1..] + s;
      assert !Special(v[0]);
      assert forall i | 0 <= i < |v[1..]| :: v[1..][i] == v[i + 1];
      ScanPlain(v[1..], s, acc + [v[0]], true);
      assert (acc + [v[0]]) + v[1..] == acc + v;
    }
  }

  lemma DoubledStep(v: string, tail: string)
    requires v != ""
    ensures
      var t, head := Doubled(v) + tail, Escaped(v[0]);
      |t| >= |head| && t[..|head|] == head && t[|head|..] == Doubled(v[1..]) + tail
  {
    var head, d := Escaped(v[0]), Doubled(v[1..]);
    Chain(head, d, tail);
    Halves(head, d + tail);
  }

  lemma Halves(a: string, b: string)
    ensures (a + b)[..|a|] == a && (a + b)[|a|..] == b
  {
  }

  lemma ScanInside(t: string, c: char, acc: string)
    requires |t| >= |Escaped(c)| && t[..|Escaped(c)|] == Escaped(c)
    ensures Scan(t, true, acc, true) == Scan(t[|Escaped(c)|..], true, acc + Escaped(c), true)
  {
    assert t[0] == Escaped(c)[0];
    assert c == '"' ==> t[1] == Escaped(c)[1];
  }

  lemma {:induction false} ScanQuoted(v: string, s: string, acc: string)
    requires NoQuoteAhead(s)
    ensures Scan(Doubled(v) + ("\"" + s), true, acc, true) == Scan(s, false, acc + (Doubled(v) + "\""), true)
  {
    var tail := "\"" + s;
    if v == "" {
      assert Doubled(v) + tail == tail && tail[1..] == s;
      assert acc + (Doubled(v) + "\"") == acc + "\"";
    } else {
      var head := Escaped(v[0]);
      DoubledStep(v, tail);
      ScanInside(Doubled(v) + tail, v[0], acc);
      ScanQuoted(v[1..], s, acc + head);
      assert (acc + head) + (Doubled(v[1..]) + "\"") == acc + (Doubled(v) + "\"");
    }
  }

  lemma QuotedPieces(acc: string, d: string, s: string)
    ensures ("\"" + (d + "\"")) + s == "\"" + (d + ("\"" + s)) && "\"" + d + "\"" == "\"" + (d + "\"")
    ensures (acc + "\"") + (d + "\"") == acc + ("\"" + (d + "\""))
  {
  }

  lemma ScanField(v: string, s: string, acc: string, sawAny: bool)
    requires NoQuoteAhead(s)
    ensures Scan(Field(v) + s, false, acc, sawAny) == Scan(s, false, acc + Field(v), sawAny || Field(v) != "")
  {
    if NeedsQuotes(v) {
      var inner := Doubled(v) + ("\"" + s);
      QuotedPieces(acc, Doubled(v), s);
      ScanOpen(inner, acc, sawAny);
      ScanQuoted(v, s, acc + "\"");
    } else {
      ScanPlain(v, s, acc, sawAny);
    }
  }

  lemma ScanOpen(s: string, acc: string, sawAny: bool)
    ensures Scan("\"" + s, false, acc, sawAny) == Scan(s, true, acc + "\"", true)
  {
    assert ("\"" + s)[1..] == s;
  }

  /** Record ends: LF as the writer emits, or the CRLF of RFC 4180. */
  predicate LineEnd(e: string) {
    e == "\n" || e == "\r\n"
  }

  lemma {:induction false} ScanRow(row: seq<string>, e: string, s: string, acc: string, sawAny: bool)
    requires row != [] && LineEnd(e)
    ensures Scan(RowText(row) + (e + s), false, acc, sawAny) == Record(acc + RowText(row), s)
  {
    var end := e + s;
    if |row| == 1 {
      ScanField(row[0], end, acc, sawAny);
      assert end[|e|..] == s;
    } else {
      var rest := RowText(row[1..]);
      var tail := "," + (rest + end);
      assert RowText(row) + end == Field(row[0]) + tail;
      ScanField(row[0], tail, acc, sawAny);
      assert tail[1..] == rest + end;
      var acc' := acc + Field(row[0]);
      ScanRow(row[1..], e, s, acc' + [','], true);
      assert (acc' + [',']) + rest == acc + RowText(row);
    }
  }

  lemma {:induction false} SplitPlain(v: string, s: string, field: string, fields: seq<string>)
    requires !NeedsQuotes(v) && NulFree(v)
    ensures Split(v + s, false, false, field, fields) == Split(s, false, false, field + v, fields)
  {
    if v == "" {
      assert v + s == s && field + v == field;
    } else {
      assert (v + s)[1..] == v[1..] + s;
      assert !Special(v[0]);
      assert forall i | 0 <= i < |v[1..]| :: v[1..][i] == v[i + 1];
      SplitPlain(v[1..], s, field + [v[0]], fields);
      assert (field + [v[0]]) + v[1..] == field + v;
    }
  }

  lemma SplitInside(t: string, c: char, field: string, fields: seq<string>)
    requires |t| >= |Escaped(c)| && t[..|Escaped(c)|] == Escaped(c) && c != NUL
    ensures Split(t, true, false, field, fields) == Split(t[|Escaped(c)|..], true, false, field + [c], fields)
  {
    assert t[0] == Escaped(c)[0];
    assert c == '"' ==> t[1] == Escaped(c)[1];
  }

  lemma {:induction false} SplitQuoted(v: string, s: string, field: string, fields: seq<string>)
    requires NulFree(v) && NoQuoteAhead(s)
    ensures Split(Doubled(v) + ("\"" + s), true, false, field, fields) == Split(s, false, true, field + v, fields)
  {
    var tail := "\"" + s;
    if v == "" {
      SplitClose(s, field, fields);
      assert Doubled(v) + tail == tail && field + v == field;
    } else {
      DoubledStep(v, tail);
      SplitInside(Doubled(v) + tail, v[0], field, fields);
      SplitQuoted(v[1..], s, field + [v[0]], fields);
      assert (field + [v[0]]) + v[1..] == field + v;
    }
  }

  lemma SplitClose(s: string, field: string, fields: seq<string>)
    requires NoQuoteAhead(s)
    ensures Split("\"" + s, true, false, field, fields) == Split(s, false, true, field, fields)
  {
    assert ("\"" + s)[1..] == s;
  }

  lemma SplitOpen(s: string, fields: seq<string>)
    ensures Split("\"" + s, false, false, "", fields) == Split(s, true, false, "", fields)
  {
    assert ("\"" + s)[1..] == s;
  }

  lemma SplitPush(s: string, closed: bool, v: string, fields: seq<string>)
    requires s == "" || s[0] == ','
    ensures
      Split(s, false, closed, v, fields)
      == if s == "" then Some(fields + [v]) else Split(s[1..], false, false, "", fields + [v])
  {
  }

  lemma SplitQuotedField(v: string, s: string, fields: seq<string>)
    requires NulFree(v) && NeedsQuotes(v) && NoQuoteAhead(s)
    ensures Split(Field(v) + s, false, false, "", fields) == Split(s, false, true, v, fields)
  {
    var inner := Doubled(v) + ("\"" + s);
    QuotedPieces("", Doubled(v), s);
    assert "" + v == v;
    SplitOpen(inner, fields);
    SplitQuoted(v, s, "", fields);
  }

  /** Where a written field ends, the parser is at a comma or the end, with the field's value in hand. */
  lemma SplitField(v: string, s: string, fields: seq<string>)
    requires NulFree(v) && (s == "" || s[0] == ',')
    ensures
      Split(Field(v) + s, false, false, "", fields)
      == if s == "" then Some(fields + [v]) else Split(s[1..], false, false, "", fields + [v])
  {
    assert "" + v == v;
    if NeedsQuotes(v) {
      SplitQuotedField(v, s, fields);
      SplitPush(s, true, v, fields);
    } else {
      SplitPlain(v, s, "", fields);
      SplitPush(s, false, v, fields);
    }
  }

  lemma {:induction false} SplitRow(row: seq<string>, fields: seq<string>)
    requires row != [] && forall i | 0 <= i < |row| :: NulFree(row[i])
    ensures Split(RowText(row), false, false, "", fields) == Some(fields + row)
  {
    if |row| == 1 {
      SplitField(row[0], "", fields);
      assert Field(row[0]) + "" == Field(row[0]) && [row[0]] == row;
    } else {
      var rest := RowText(row[1..]);
      SplitField(row[0], "," + rest, fields);
      assert ("," + rest)[1..] == rest;
      SplitRow(row[1..], fields + [row[0]]);
      assert (fields + [row[0]]) + row[1..] == fields + row;
    }
  }

  ghost predicate Writable(rows: seq<seq<string>>) {
    forall r | 0 <= r < |rows| :: rows[r] != [] && forall i | 0 <= i < |rows[r]| :: NulFree(rows[r][i])
  }

  /** One row comes back whole, and the next read starts right behind it. */
  lemma RowRoundTrip(row: seq<string>, e: string, s: string)
    requires row != [] && LineEnd(e) && forall i | 0 <= i < |row| :: NulFree(row[i])
    ensures Read(RowText(row) + (e + s)) == Record(RowText(row), s)
    ensures Parse(RowText(row)) == Some(row)
  {
    ScanRow(row, e, s, "", false);
    assert "" + RowText(row) == RowText(row);
    SplitRow(row, []);
    assert [] + row == row;
  }

  /** Reading a written file gives back exactly its rows, in order, and then end of file. */
  lemma {:induction false} FileRoundTrip(rows: seq<seq<string>>)
    requires Writable(rows)
    ensures ReadRows(FileText(rows)) == Some(rows)
  {
    if rows != [] {
      RowRoundTrip(rows[0], "\n", FileText(rows[1..]));
      FileRoundTrip(rows[1..]);
      assert [rows[0]] + rows[1..] == rows;
    }
  }

  /** So different tables are written as different files. */
  lemma FileTextInjective(a: seq<seq<string>>, b: seq<seq<string>>)
    requires Writable(a) && Writable(b) && FileText(a) == FileText(b)
    ensures a == b
  {
    FileRoundTrip(a);
    FileRoundTrip(b);
  }

  /** What INSERT does to the file: the row's text behind it reads as the row behind the others. */
  lemma AppendRow(rows: seq<seq<string>>, row: seq<string>)
    requires Writable(rows + [row])
    ensures FileText(rows + [row]) == FileText(rows) + (RowText(row) + "\n")
    ensures ReadRows(FileText(rows) + (RowText(row) + "\n")) == Some(rows + [row])
  {
    AppendText(rows, row);
    FileRoundTrip(rows + [row]);
  }

  lemma {:induction false} AppendText(rows: seq<seq<string>>, row: seq<string>)
    ensures FileText(rows + [row]) == FileText(rows) + (RowText(row) + "\n")
  {
    var line := RowText(row) + "\n";
    if rows == [] {
      assert rows + [row] == [row] && FileText([row]) == RowText(row) + ("\n" + FileText([]));
      assert FileText([row]) == line && FileText(rows) + line == line;
    } else {
      var text, more := RowText(rows[0]), FileText(rows[1..]);
      AppendText(rows[1..], row);
      assert (rows + [row])[1..] == rows[1..] + [row];
      Chain("\n", more, line);
      Chain(text, "\n" + more, line);
    }
  }
}
