/** What the two reading stages of the CSV codec accept, whoever wrote the file: where a record ends, and which fields
    its text stands for. */
module CsvReading {
  import opened Common
  import opened CsvText

  // ---------- records ----------

  predicate LineBreak(c: char) {
    c == '\n' || c == '\r'
  }

  /** Whether an odd number of quote characters has been read: the reader is inside quotes. */
  predicate Odd(s: string) {
    s != "" && (Odd(s[..|s| - 1]) != (s[|s| - 1] == '"'))
  }

  /** The first record ends at n: at the first line break outside quotes, or at the end of the file. */
  ghost predicate Ends(s: string, n: nat) {
    && n <= |s| && !Odd(s[..n]) && (if n < |s| then LineBreak(s[n]) else n > 0)
    && forall k | 0 <= k < n && LineBreak(s[k]) :: Odd(s[..k])
  }

  /** What is left behind a record: LF, CR LF and a lone CR all end one. */
  function Behind(s: string, n: nat): string
    requires n <= |s|
  {
    if n == |s| then ""
    else if s[n] == '\r' && n + 1 < |s| && s[n + 1] == '\n' then s[n + 2..]
    else s[n + 1..]
  }

  lemma OddStep(s: string, p: nat)
    requires p < |s|
    ensures Odd(s[..p + 1]) <==> (Odd(s[..p]) != (s[p] == '"'))
  {
    assert s[..p + 1][..p] == s[..p];
  }

  lemma Slices(s: string, p: nat)
    requires p < |s|
    ensures s[p..][1..] == s[p + 1..] && s[..p] + [s[p]] == s[..p + 1]
    ensures p + 1 < |s| ==> s[p..][2..] == s[p + 2..] && s[..p] + [s[p], s[p + 1]] == s[..p + 2]
  {
  }

  /** The scan from position p on. */
  function ScanAt(s: string, p: nat): ReadResult
    requires p <= |s|
  {
    Scan(s[p..], Odd(s[..p]), s[..p], p > 0)
  }

  /** Where a character does not end the record the scan goes on behind it, or behind a doubled quote. */
  lemma ScanOn(s: string, p: nat) returns (q: nat)
    requires p < |s| && !(LineBreak(s[p]) && !Odd(s[..p]))
    ensures p < q <= |s| && ScanAt(s, p) == ScanAt(s, q)
    ensures forall k | p < k < q :: !LineBreak(s[k])
  {
    Slices(s, p);
    OddStep(s, p);
    q := p + 1;
    if s[p] == '"' && Odd(s[..p]) && p + 1 < |s| && s[p + 1] == '"' {
      OddStep(s, p + 1);
      q := p + 2;
    }
  }

  ghost predicate Outcome(s: string, r: ReadResult, n: int) {
    if n < 0 then (r == if s == "" then Eof else Malformed) && forall m: nat :: !Ends(s, m)
    else Ends(s, n) && r == Record(s[..n], Behind(s, n))
  }

  lemma {:induction false} ScanFrom(s: string, p: nat) returns (n: int)
    requires p <= |s| && forall k | 0 <= k < p && LineBreak(s[k]) :: Odd(s[..k])
    ensures -1 <= n <= |s| && Outcome(s, ScanAt(s, p), n)
    decreases |s| - p
  {
    if p == |s| {
      assert s[..p] == s;
      n := if p == 0 || Odd(s) then -1 else p;
      assert forall m: nat | Ends(s, m) :: m == p;
    } else if !Odd(s[..p]) && LineBreak(s[p]) {
      n := p;
      Slices(s, p);
    } else {
      var q := ScanOn(s, p);
      n := ScanFrom(s, q);
    }
  }

  /** The text of the next record is everything up to its end, whatever ends it; a file is malformed exactly if it ends
      inside quotes and no record ends before. */
  lemma ReadExactly(s: string)
    ensures Read(s) == Eof <==> s == ""
    ensures forall n: nat | Ends(s, n) :: Read(s) == Record(s[..n], Behind(s, n))
    ensures Read(s).Record? ==> exists n: nat :: Ends(s, n)
    ensures Read(s) == Malformed <==> s != "" && forall n: nat :: !Ends(s, n)
  {
    var found := ScanFrom(s, 0);
    assert s[0..] == s && s[..0] == "";
    forall n: nat | Ends(s, n)
      ensures n == found
    {
    }
  }

  // ---------- fields ----------

  /** A piece of a record stands for v: bare, or v in quotes with the quotes in it doubled. */
  ghost predicate Means(piece: string, v: string) {
    (Bare(piece) && v == piece) || piece == "\"" + (Doubled(v) + "\"")
  }

  predicate Bare(piece: string) {
    forall i | 0 <= i < |piece| :: piece[i] != ',' && piece[i] != '"'
  }

  /** The record stands for the row: its pieces, with commas between them, for the fields. */
  ghost predicate Stands(record: string, row: seq<string>)
    decreases |row|, 1
  {
    row != [] &&
    if |row| == 1 then Means(record, row[0])
    else exists k: nat :: StandsAt(record, row, k)
  }

  ghost predicate StandsAt(record: string, row: seq<string>, k: nat)
    requires |row| > 1
    decreases |row|, 0
  {
    k < |record| && record[k] == ',' && Means(record[..k], row[0]) && Stands(record[k + 1..], row[1..])
  }

  lemma {:induction false} SplitBare(v: string, s: string, field: string, fields: seq<string>)
    requires Bare(v) && NulFree(v)
    ensures Split(v + s, false, false, field, fields) == Split(s, false, false, field + v, fields)
  {
    if v == "" {
      assert v + s == s && field + v == field;
    } else {
      assert (v + s)[1..] == v[1..] + s;
      assert forall i | 0 <= i < |v[1..]| :: v[1..][i] == v[i + 1];
      SplitBare(v[1..], s, field + [v[0]], fields);
      assert (field + [v[0]]) + v[1..] == field + v;
    }
  }

  lemma {:induction false} DoubledNulFree(v: string)
    requires NulFree(Doubled(v))
    ensures NulFree(v)
  {
    if v != "" {
      var d := Doubled(v);
      var head := Escaped(v[0]);
      assert d == head + Doubled(v[1..]) && d[0] == v[0];
      assert forall i | 0 <= i < |Doubled(v[1..])| :: Doubled(v[1..])[i] == d[i + |head|];
      DoubledNulFree(v[1..]);
    }
  }

  /** Behind a piece the parser is at a comma or the end, with the field in hand. */
  lemma SplitPiece(piece: string, v: string, s: string, fields: seq<string>)
    requires Means(piece, v) && NulFree(piece) && (s == "" || s[0] == ',')
    ensures
      Split(piece + s, false, false, "", fields)
      == if s == "" then Some(fields + [v]) else Split(s[1..], false, false, "", fields + [v])
  {
    assert "" + v == v;
    if Bare(piece) && v == piece {
      SplitBare(v, s, "", fields);
      SplitPush(s, false, v, fields);
    } else {
      var d := Doubled(v);
      assert forall i | 0 <= i < |d| :: d[i] == piece[i + 1];
      DoubledNulFree(v);
      QuotedPieces("", d, s);
      SplitOpen(d + ("\"" + s), fields);
      SplitQuoted(v, s, "", fields);
      SplitPush(s, true, v, fields);
    }
  }

  lemma {:induction false} StandsParsed(record: string, row: seq<string>, fields: seq<string>)
    requires Stands(record, row) && NulFree(record)
    ensures Split(record, false, false, "", fields) == Some(fields + row)
    decreases |row|
  {
    if |row| == 1 {
      SplitPiece(record, row[0], "", fields);
      assert record + "" == record && [row[0]] == row;
    } else {
      var k: nat :| StandsAt(record, row, k);
      var piece, rest := record[..k], record[k + 1..];
      assert record == piece + ("," + rest) && ("," + rest)[1..] == rest;
      SplitPiece(piece, row[0], "," + rest, fields);
      StandsParsed(rest, row[1..], fields + [row[0]]);
      assert (fields + [row[0]]) + row[1..] == fields + row;
    }
  }

  lemma {:induction false} DoubledLast(v: string, c: char)
    ensures Doubled(v + [c]) == Doubled(v) + Escaped(c)
  {
    if v == "" {
      assert (v + [c])[1..] == "" && v + [c] == [c];
      assert Escaped(c) + "" == Escaped(c) && "" + Escaped(c) == Escaped(c);
    } else {
      assert (v + [c])[1..] == v[1..] + [c];
      DoubledLast(v[1..], c);
      Chain(Escaped(v[0]), Doubled(v[1..]), Escaped(c));
    }
  }

  /** What has been read of the current piece. */
  ghost predicate PieceSoFar(raw: string, inQuotes: bool, closed: bool, field: string) {
    if inQuotes then !closed && raw == "\"" + Doubled(field)
    else if closed then raw == "\"" + (Doubled(field) + "\"")
    else Bare(raw) && raw == field
  }

  lemma PieceGrows(raw: string, field: string, c: char)
    requires PieceSoFar(raw, true, false, field)
    ensures PieceSoFar(raw + Escaped(c), true, false, field + [c])
  {
    DoubledLast(field, c);
    Chain("\"", Doubled(field), Escaped(c));
  }

  lemma PieceCloses(raw: string, field: string)
    requires PieceSoFar(raw, true, false, field)
    ensures PieceSoFar(raw + "\"", false, true, field)
  {
    Chain("\"", Doubled(field), "\"");
  }

  /** A comma behind a finished piece. */
  lemma PieceEnds(raw: string, closed: bool, field: string, rest: string, row: seq<string>)
    requires PieceSoFar(raw, false, closed, field) && Stands(rest, row)
    ensures Stands(raw + ("," + rest), [field] + row)
  {
    var record, all := raw + ("," + rest), [field] + row;
    assert record[..|raw|] == raw && record[|raw| + 1..] == rest && all[1..] == row;
    assert StandsAt(record, all, |raw|);
  }

  lemma {:induction false} ParsedStands(s: string, inQuotes: bool, closed: bool, field: string, raw: string, fields: seq<string>)
    returns (row: seq<string>)
    requires PieceSoFar(raw, inQuotes, closed, field) && NulFree(s)
    requires Split(s, inQuotes, closed, field, fields).Some?
    ensures Split(s, inQuotes, closed, field, fields) == Some(fields + row) && Stands(raw + s, row)
    decreases |s|
  {
    if s == "" {
      row := [field];
      assert raw + s == raw;
    } else {
      var c, t := s[0], s[1..];
      assert s == [c] + t;
      if inQuotes && c == '"' && t != "" && t[0] == '"' {
        var u := t[1..];
        assert s == "\"\"" + u && s[2..] == u;
        PieceGrows(raw, field, c);
        row := ParsedStands(u, true, false, field + "\"", raw + "\"\"", fields);
        Chain(raw, "\"\"", u);
      } else if !inQuotes && c == ',' {
        row := ParsedStands(t, false, false, "", "", fields + [field]);
        ParsedComma(raw, closed, field, t, row, fields);
        row := [field] + row;
      } else {
        var closes, opens := inQuotes && c == '"', !inQuotes && c == '"';
        var next := if closes || opens then field else field + [c];
        PieceMoves(raw, inQuotes, closed, field, c);
        row := ParsedStands(t, (inQuotes && !closes) || opens, closes, next, raw + [c], fields);
        Chain(raw, [c], t);
      }
    }
  }

  lemma PieceMoves(raw: string, inQuotes: bool, closed: bool, field: string, c: char)
    requires PieceSoFar(raw, inQuotes, closed, field) && !closed
    requires !inQuotes ==> c != ',' && (c == '"' ==> field == "")
    ensures
      var closes, opens := inQuotes && c == '"', !inQuotes && c == '"';
      PieceSoFar(raw + [c], (inQuotes && !closes) || opens, closes, if closes || opens then field else field + [c])
  {
    if inQuotes {
      PieceCloses(raw, field);
      if c != '"' {
        PieceGrows(raw, field, c);
      }
    } else {
      assert Doubled("") == "" && "\"" + "" == "\"" && "" + "\"" == "\"";
    }
  }

  lemma ParsedComma(raw: string, closed: bool, field: string, t: string, row: seq<string>, fields: seq<string>)
    requires PieceSoFar(raw, false, closed, field) && Stands("" + t, row)
    ensures Stands(raw + ([','] + t), [field] + row)
    ensures (fields + [field]) + row == fields + ([field] + row)
  {
    assert "" + t == t;
    PieceEnds(raw, closed, field, t, row);
  }

  /** A record is parsed into a row exactly if it stands for that row; any other record is malformed. */
  lemma ParseExactly(record: string, row: seq<string>)
    requires NulFree(record)
    ensures Parse(record) == Some(row) <==> Stands(record, row)
  {
    if Stands(record, row) {
      StandsParsed(record, row, []);
      assert [] + row == row;
    }
    if Parse(record) == Some(row) {
      var r := ParsedStands(record, false, false, "", "", []);
      assert [] + r == r && "" + record == record;
    }
  }

  // ---------- the last record ----------

  lemma WritableTail(all: seq<seq<string>>)
    requires Writable(all) && all != []
    ensures Writable(all[1..]) && all[0] != [] && forall i | 0 <= i < |all[0]| :: NulFree(all[0][i])
  {
  }

  /** A record without a line end behind it is read as well, unless it is empty. */
  lemma {:induction false} LastLine(rows: seq<seq<string>>, row: seq<string>)
    requires Writable(rows + [row])
    ensures ReadRows(FileText(rows) + RowText(row)) == Some(if RowText(row) == "" then rows else rows + [row])
    decreases |rows|
  {
    var all := rows + [row];
    WritableTail(all);
    if rows == [] {
      assert all == [row] && FileText(rows) + RowText(row) == RowText(row);
      OpenEnd(row);
    } else {
      var rest := FileText(rows[1..]) + RowText(row);
      assert all[1..] == rows[1..] + [row];
      LastLine(rows[1..], row);
      RowRoundTrip(rows[0], "\n", rest);
      Chain("\n", FileText(rows[1..]), RowText(row));
      Chain(RowText(rows[0]), "\n" + FileText(rows[1..]), RowText(row));
      assert [rows[0]] + rows[1..] == rows && [rows[0]] + (rows[1..] + [row]) == all;
    }
  }

  lemma EndsShort(t: string, s: string)
    requires t != "" && s == t + "\n" && Ends(s, |t|)
    ensures Ends(t, |t|) && Behind(t, |t|) == ""
  {
    assert s[..|t|] == t && t[..|t|] == t;
    forall k | 0 <= k < |t| && LineBreak(t[k])
      ensures Odd(t[..k])
    {
      assert s[k] == t[k] && s[..k] == t[..k];
    }
  }

  lemma ReadOpen(t: string)
    requires t != "" && Read(t + "\n") == Record(t, "")
    ensures Read(t) == Record(t, "")
  {
    var s := t + "\n";
    ReadExactly(s);
    var n: nat :| Ends(s, n);
    assert |s[..n]| == n;
    EndsShort(t, s);
    ReadExactly(t);
    assert t[..|t|] == t;
  }

  lemma OneRecord(t: string, row: seq<string>)
    requires Read(t) == Record(t, "") && Parse(t) == Some(row)
    ensures ReadRows(t) == Some([row])
  {
    assert [row] + [] == [row] && ReadRows("") == Some([]);
  }

  lemma OpenEnd(row: seq<string>)
    requires row != [] && forall i | 0 <= i < |row| :: NulFree(row[i])
    ensures ReadRows(RowText(row)) == Some(if RowText(row) == "" then [] else [row])
  {
    var t := RowText(row);
    RowRoundTrip(row, "\n", "");
    assert t + "\n" == t + ("\n" + "");
    if t != "" {
      ReadOpen(t);
      OneRecord(t, row);
    }
  }
}
