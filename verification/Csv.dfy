/** The same on FILE objects: the loops of the writer and of the two reading stages. */
module Csv {
  import opened Common
  import opened CsvText

  /** An output stream; writes succeed. */
  class OutFile {
    var data: string

    constructor ()
      ensures data == ""
    {
      data := "";
    }

    method Put(c: char)
      modifies this
      ensures data == old(data) + [c]
    {
      data := data + [c];
    }
  }

  /** An input stream with fgetc and ungetc. */
  class InFile {
    const data: string
    var pos: nat

    ghost predicate Valid()
      reads this
    {
      pos <= |data|
    }

    ghost function Rest(): string
      reads this
      requires Valid()
    {
      data[pos..]
    }

    constructor (data: string)
      ensures Valid() && Rest() == data
    {
      this.data := data;
      pos := 0;
    }

    /** fgetc, with None for EOF */
    method Get() returns (ch: Option<char>)
      requires Valid()
      modifies this
      ensures Valid()
      ensures if old(Rest()) == "" then ch == None && pos == old(pos)
              else ch == Some(old(Rest())[0]) && Rest() == old(Rest())[1..] && pos == old(pos) + 1
    {
      if pos == |data| {
        return None;
      }
      ch := Some(data[pos]);
      pos := pos + 1;
    }

    /** ungetc of the character just read */
    method Unget(ghost ch: char)
      requires Valid() && pos > 0 && data[pos - 1] == ch
      modifies this
      ensures Valid() && pos == old(pos) - 1 && Rest() == [ch] + old(Rest())
    {
      pos := pos - 1;
    }
  }

  /** write_csv_field; None is a NULL value. */
  method WriteCsvField(fp: OutFile, value: Option<string>)
    modifies fp
    ensures fp.data == old(fp.data) + Field(if value.None? then "" else value.value)
  {
    var cursor := if value.None? then "" else value.value;
    ghost var before := fp.data;
    var needsQuotes := false;
    var i := 0;
    while i < |cursor|
      invariant 0 <= i <= |cursor| && !needsQuotes && fp.data == before
      invariant forall j | 0 <= j < i :: !Special(cursor[j])
    {
      if Special(cursor[i]) {
        needsQuotes := true;
        break;
      }
      i := i + 1;
    }
    i := 0;
    if !needsQuotes {
      while i < |cursor|
        invariant 0 <= i <= |cursor| && fp.data == before + cursor[..i]
      {
        fp.Put(cursor[i]);
        i := i + 1;
        assert cursor[..i] == cursor[..i - 1] + [cursor[i - 1]];
      }
      assert cursor[..i] == cursor;
      return;
    }
    PutQuoted(fp, cursor);
  }

  /** The quoted form, character by character. */
  method PutQuoted(fp: OutFile, cursor: string)
    modifies fp
    ensures fp.data == old(fp.data) + ("\"" + Doubled(cursor) + "\"")
  {
    fp.Put('"');
    ghost var goal := fp.data + Doubled(cursor);
    assert cursor[0..] == cursor;
    for i := 0 to |cursor|
      invariant fp.data + Doubled(cursor[i..]) == goal
    {
      ghost var now := fp.data;
      assert cursor[i..][1..] == cursor[i + 1..];
      if cursor[i] == '"' {
        fp.Put('"');
        fp.Put('"');
      } else {
        fp.Put(cursor[i]);
      }
      Chain(now, Escaped(cursor[i]), Doubled(cursor[i + 1..]));
      assert fp.data == now + Escaped(cursor[i]);
    }
    assert fp.data + "" == fp.data;
    fp.Put('"');
  }

  function Texts(row: seq<Option<string>>): (r: seq<string>)
    ensures |r| == |row|
    ensures forall i | 0 <= i < |row| :: r[i] == if row[i].None? then "" else row[i].value
  {
    seq(|row|, i requires 0 <= i < |row| => if row[i].None? then "" else row[i].value)
  }

  /** write_csv_row */
  method WriteCsvRow(fp: OutFile, row: seq<Option<string>>)
    modifies fp
    ensures fp.data == old(fp.data) + (RowText(Texts(row)) + "\n")
  {
    ghost var texts := Texts(row);
    ghost var goal := fp.data + RowText(texts);
    assert texts[0..] == texts;
    for i := 0 to |row|
      invariant fp.data + RowText(texts[i..]) == goal
    {
      ghost var now := fp.data;
      assert texts[i..][1..] == texts[i + 1..];
      WriteCsvField(fp, row[i]);
      if i + 1 < |row| {
        Chain(now, Field(texts[i]), "," + RowText(texts[i + 1..]));
        Chain(now + Field(texts[i]), ",", RowText(texts[i + 1..]));
        fp.Put(',');
      }
    }
    assert fp.data + "" == fp.data;
    fp.Put('\n');
  }

  /** read_csv_record: 1 with the record, 0 at end of file, -1 for an unclosed quote. */
  method ReadCsvRecord(fp: InFile) returns (status: int, record: string)
    requires fp.Valid()
    modifies fp
    ensures fp.Valid()
    ensures
      match Read(old(fp.Rest()))
      case Eof => status == 0 && fp.Rest() == ""
      case Malformed => status == -1
      case Record(text, rest) => status == 1 && record == text && fp.Rest() == rest
  {
    record := "";
    var sawAny, inQuotes := false, false;
    ghost var goal := Read(fp.Rest());
    while true
      invariant fp.Valid() && Scan(fp.Rest(), inQuotes, record, sawAny) == goal
      decreases |fp.data| - fp.pos
    {
      ghost var s := fp.Rest();
      var ch := fp.Get();
      if ch.None? {
        break;
      }
      sawAny := true;
      if !inQuotes && (ch.value == '\n' || ch.value == '\r') {
        if ch.value == '\r' {
          var next := fp.Get();
          if next.Some? && next.value != '\n' {
            fp.Unget(next.value);
            assert fp.Rest() == s[1..];
          }
        }
        return 1, record;
      }
      record := record + [ch.value];
      if ch.value == '"' {
        if inQuotes {
          ghost var acc := record;
          var next := fp.Get();
          if next == Some('"') {
            record := record + [next.value];
            assert record == acc[..|acc| - 1] + "\"\"";
          } else {
            inQuotes := false;
            if next.Some? {
              fp.Unget(next.value);
            }
            assert fp.Rest() == s[1..];
          }
        } else {
          inQuotes := true;
        }
      }
    }
    if !sawAny {
      return 0, "";
    }
    if inQuotes {
      return -1, "";
    }
    return 1, record;
  }

  /** parse_csv_record: None for its -1. */
  method ParseCsvRecord(record: string) returns (result: Option<seq<string>>)
    ensures result == Parse(record)
  {
    var fields: seq<string> := [];
    var field, inQuotes, closed := "", false, false;
    var i := 0;
    while true
      invariant 0 <= i <= |record| && Split(record[i..], inQuotes, closed, field, fields) == Parse(record)
      invariant inQuotes ==> !closed
      decreases |record| - i
    {
      ghost var s := record[i..];
      var ch := if i < |record| then record[i] else NUL;
      if inQuotes {
        if ch == NUL {
          return None;
        }
        if ch == '"' {
          if i + 1 < |record| && record[i + 1] == '"' {
            field := field + ['"'];
            i := i + 1;
            assert s[2..] == record[i + 1..];
          } else {
            inQuotes, closed := false, true;
          }
        } else {
          field := field + [ch];
        }
      } else if closed {
        if ch != ',' && ch != NUL {
          return None;
        }
        fields, field, closed := fields + [field], "", false;
        if ch == NUL {
          return Some(fields);
        }
      } else if ch == '"' {
        if field != "" {
          return None;
        }
        inQuotes := true;
      } else if ch == ',' || ch == NUL {
        fields, field := fields + [field], "";
        if ch == NUL {
          return Some(fields);
        }
      } else {
        field := field + [ch];
      }
      i := i + 1;
    }
  }

  /** The reading loop of the table scans: every record, parsed, until end of file. */
  method ReadAll(fp: InFile) returns (result: Option<seq<seq<string>>>)
    requires fp.Valid()
    modifies fp
    ensures fp.Valid() && result == ReadRows(old(fp.Rest()))
  {
    var rows: seq<seq<string>> := [];
    PrependNothing(ReadRows(fp.Rest()));
    while true
      invariant fp.Valid()
      invariant Prepend(rows, ReadRows(fp.Rest())) == ReadRows(old(fp.Rest()))
      decreases |fp.Rest()|
    {
      ghost var s := fp.Rest();
      ReadShortens(s, false, "", false);
      var status, record := ReadCsvRecord(fp);
      if status == 0 {
        assert rows + [] == rows;
        return Some(rows);
      }
      if status < 0 {
        return None;
      }
      var row := ParseCsvRecord(record);
      if row.None? {
        return None;
      }
      PrependMore(rows, row.value, ReadRows(fp.Rest()));
      rows := rows + [row.value];
    }
  }

  lemma PrependNothing(more: Option<seq<seq<string>>>)
    ensures Prepend([], more) == more
  {
    assert more.Some? ==> [] + more.value == more.value;
  }

  lemma PrependMore(rows: seq<seq<string>>, row: seq<string>, more: Option<seq<seq<string>>>)
    ensures Prepend(rows + [row], more) == Prepend(rows, Prepend([row], more))
  {
    assert more.Some? ==> (rows + [row]) + more.value == rows + ([row] + more.value);
  }

  function Prepend(rows: seq<seq<string>>, more: Option<seq<seq<string>>>): Option<seq<seq<string>>> {
    if more.None? then None else Some(rows + more.value)
  }
}
