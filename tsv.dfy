/**
 * The external-types table: a tab-separated text whose first non-blank line
 * names the columns, parsed into rows, and the rows naming a type loaded
 * into the table the resolver falls back to.
 */
module Tsv {
  import opened Wrappers
  import opened GoStrings
  import opened IdentProperty

  /** A parsed line: column name to non-empty value. */
  type Row = map<string, string>

  /** A line without its comment: the text before the first '#'. */
  function Uncommented(line: string): (r: string)
    ensures HasPrefix(line, r) && '#' !in r
    ensures '#' !in line ==> r == line
    ensures r == line || (|r| < |line| && line[|r|] == '#')
  {
    SplitFirst(line, '#');
    assert '#' !in line ==> Split(line, '#') == [line] by {
      if '#' !in line {
        SplitNoSeparator(line, '#');
      }
    }
    Split(line, '#')[0]
  }

  /** The records of the lines: each line that is not blank once uncommented, split on tabs, in order. */
  function Records(lines: seq<string>): (recs: seq<seq<string>>)
    ensures |recs| <= |lines|
  {
    if |lines| == 0 then [] else Records(lines[..|lines| - 1]) + RecordOf(lines[|lines| - 1])
  }

  /** The record of one line, if it has one: the uncommented text split on tabs, unless it is blank. */
  function RecordOf(line: string): (r: seq<seq<string>>)
    ensures |r| <= 1
  {
    var l := Uncommented(line);
    if |TrimSpace(l)| == 0 then [] else [Split(l, '\t')]
  }

  /** A line gives no record exactly when it is blank once uncommented; otherwise its fields joined by tabs give the uncommented text back. */
  lemma RecordOfLine(line: string)
    ensures RecordOf(line) == [] <==> AllSpace(Uncommented(line))
    ensures RecordOf(line) != [] ==> |RecordOf(line)[0]| >= 1 && Join(RecordOf(line)[0], '\t') == Uncommented(line)
  {
    JoinSplit(Uncommented(line), '\t');
    TrimSpaceFacts(Uncommented(line));
  }

  /** Every record has at least one field. */
  lemma {:induction false} RecordsHaveFields(lines: seq<string>)
    ensures forall k :: 0 <= k < |Records(lines)| ==> |Records(lines)[k]| >= 1
    decreases |lines|
  {
    if |lines| > 0 {
      RecordsHaveFields(lines[..|lines| - 1]);
    }
  }

  /** A line that is blank or only a comment gives no record. */
  lemma BlankLineSkipped(lines: seq<string>, line: string)
    requires AllSpace(Uncommented(line))
    ensures Records(lines + [line]) == Records(lines)
  {
    assert (lines + [line])[..|lines|] == lines;
    RecordOfLine(line);
  }

  /** Lines are read in order: the records of two stretches of text follow each other. */
  lemma {:induction false} RecordsAppend(a: seq<string>, b: seq<string>)
    ensures Records(a + b) == Records(a) + Records(b)
    decreases |b|
  {
    if |b| == 0 {
      assert a + b == a;
    } else {
      var n := |b| - 1;
      var last := RecordOf(b[n]);
      assert Records(a + b) == Records(a + b[..n]) + last by {
        assert (a + b)[..|a + b| - 1] == a + b[..n];
        assert (a + b)[|a + b| - 1] == b[n];
      }
      assert Records(a + b[..n]) == Records(a) + Records(b[..n]) by {
        RecordsAppend(a, b[..n]);
      }
      assert Records(b) == Records(b[..n]) + last;
    }
  }

  /** The header's fields, trimmed: the column names. */
  function Trimmed(fields: seq<string>): (keys: seq<string>)
    ensures |keys| == |fields|
    ensures forall i :: 0 <= i < |fields| ==> keys[i] == TrimSpace(fields[i])
  {
    seq(|fields|, i requires 0 <= i < |fields| => TrimSpace(fields[i]))
  }

  /**
   * The row of a record's trimmed fields under the first `n` column names:
   * each field the record has, under its column name, unless empty; a
   * repeated column name keeps its last value.
   */
  function RowUpTo(keys: seq<string>, vals: seq<string>, n: nat): Row
    requires n <= |keys|
  {
    if n == 0 then map[]
    else
      var m := RowUpTo(keys, vals, n - 1);
      if n - 1 < |vals| && vals[n - 1] != "" then m[keys[n - 1] := vals[n - 1]] else m
  }

  /** The row of a record under all the column names. */
  function RowOf(keys: seq<string>, rec: seq<string>): Row {
    RowUpTo(keys, Trimmed(rec), |keys|)
  }

  /** Value `i` fills column `keys[i]`: the record has it and it is not empty. */
  predicate Fills(keys: seq<string>, vals: seq<string>, i: int) {
    0 <= i < |keys| && i < |vals| && vals[i] != ""
  }

  /** A column is in the row exactly when some value fills it. */
  lemma {:induction false} RowHas(keys: seq<string>, vals: seq<string>, n: nat, k: string)
    requires n <= |keys|
    ensures k in RowUpTo(keys, vals, n) <==> exists i :: 0 <= i < n && keys[i] == k && Fills(keys, vals, i)
    decreases n
  {
    if n > 0 {
      RowHas(keys, vals, n - 1, k);
      var m := RowUpTo(keys, vals, n - 1);
      if k in RowUpTo(keys, vals, n) && k !in m {
        assert keys[n - 1] == k && Fills(keys, vals, n - 1);
      }
      if exists i :: 0 <= i < n && keys[i] == k && Fills(keys, vals, i) {
        var i :| 0 <= i < n && keys[i] == k && Fills(keys, vals, i);
        if i < n - 1 {
          assert k in m;
        }
      }
    }
  }

  /** A column holds the value of the last field that fills it. */
  lemma {:induction false} RowValue(keys: seq<string>, vals: seq<string>, n: nat, i: nat)
    requires i < n <= |keys| && Fills(keys, vals, i)
    requires forall j :: i < j < n && keys[j] == keys[i] ==> !Fills(keys, vals, j)
    ensures keys[i] in RowUpTo(keys, vals, n) && RowUpTo(keys, vals, n)[keys[i]] == vals[i]
    decreases n
  {
    if i < n - 1 {
      RowValue(keys, vals, n - 1, i);
    }
  }

  /** The rows of the records under the column names: records whose row is empty are dropped. */
  function Rows(keys: seq<string>, recs: seq<seq<string>>): (rows: seq<Row>)
    ensures |rows| <= |recs|
    ensures forall k :: 0 <= k < |rows| ==> |rows[k]| > 0
  {
    if |recs| == 0 then []
    else
      var row := RowOf(keys, recs[|recs| - 1]);
      Rows(keys, recs[..|recs| - 1]) + (if |row| == 0 then [] else [row])
  }

  /** Rows keep the order of their records. */
  lemma {:induction false} RowsAppend(keys: seq<string>, a: seq<seq<string>>, b: seq<seq<string>>)
    ensures Rows(keys, a + b) == Rows(keys, a) + Rows(keys, b)
    decreases |b|
  {
    if |b| == 0 {
      assert a + b == a;
    } else {
      var n := |b| - 1;
      assert (a + b)[..|a + b| - 1] == a + b[..n];
      RowsAppend(keys, a, b[..n]);
    }
  }

  /** A record that fills some column gives exactly its row. */
  lemma FilledRecordKept(keys: seq<string>, rec: seq<string>, i: int)
    requires Fills(keys, Trimmed(rec), i)
    ensures Rows(keys, [rec]) == [RowOf(keys, rec)]
  {
    RowHas(keys, Trimmed(rec), |keys|, keys[i]);
    var none: seq<seq<string>> := [];
    assert [rec][..0] == none;
  }

  /** A record that fills no column gives no row. */
  lemma EmptyRecordDropped(keys: seq<string>, rec: seq<string>)
    requires forall i :: !Fills(keys, Trimmed(rec), i)
    ensures Rows(keys, [rec]) == []
  {
    if |RowOf(keys, rec)| > 0 {
      var k :| k in RowOf(keys, rec);
      RowHas(keys, Trimmed(rec), |keys|, k);
    }
    var none: seq<seq<string>> := [];
    assert [rec][..0] == none;
  }

  /** `TsvParse`: the first record is the header, and each later record gives a row when it fills some column. */
  function TsvRows(text: string): seq<Row> {
    RowsOfRecords(Records(Split(text, '\n')))
  }

  /** The rows of a run of records whose first record is the header. */
  function RowsOfRecords(recs: seq<seq<string>>): seq<Row> {
    if |recs| == 0 then [] else Rows(Trimmed(recs[0]), recs[1..])
  }

  /** `TsvParse` on the lines of a text. */
  method TsvParse(text: string) returns (dats: seq<Row>, err: Option<string>)
    ensures dats == TsvRows(text)
    ensures err.None?
  {
    var recs := ReadRecords(Split(text, '\n'));
    RecordsHaveFields(Split(text, '\n'));
    dats := HeaderAndRows(recs);
    err := None;
  }

  /**
   * The record loop of `TsvParse`: the first record becomes the trimmed
   * header, and every later one gives its row unless the row is empty.
   * Every record has a field, as the line loop guarantees.
   */
  method HeaderAndRows(recs: seq<seq<string>>) returns (dats: seq<Row>)
    requires forall k :: 0 <= k < |recs| ==> |recs[k]| >= 1
    ensures dats == RowsOfRecords(recs)
  {
    dats := [];
    var keys: seq<string> := [];
    for r := 0 to |recs|
      invariant r == 0 ==> keys == [] && dats == []
      invariant r > 0 ==> keys == Trimmed(recs[0]) && |keys| > 0 && dats == Rows(keys, recs[1..r])
    {
      var rec := recs[r];
      if |keys| == 0 && |rec| > 0 {
        var trimmed := TrimmedKeys(rec);
        keys := trimmed[..];
        assert recs[1..r + 1] == [];
        continue;
      }
      var dat := RecordRow(keys, rec);
      RowsSnoc(keys, recs, r);
      if |dat| == 0 {
        continue;
      }
      dats := dats + [dat];
    }
    if |recs| > 0 {
      assert recs[1..|recs|] == recs[1..];
    }
  }

  /** One more record after the header adds its row, unless the row is empty. */
  lemma RowsSnoc(keys: seq<string>, recs: seq<seq<string>>, n: nat)
    requires 1 <= n < |recs|
    ensures Rows(keys, recs[1..n + 1])
         == Rows(keys, recs[1..n]) + (if |RowOf(keys, recs[n])| == 0 then [] else [RowOf(keys, recs[n])])
  {
    assert recs[1..n + 1][..n - 1] == recs[1..n];
  }

  /** The line loop of `TsvParse`: comments cut, blank lines skipped, the rest split on tabs. */
  method ReadRecords(lines: seq<string>) returns (recs: seq<seq<string>>)
    ensures recs == Records(lines)
  {
    recs := [];
    for i := 0 to |lines|
      invariant recs == Records(lines[..i])
    {
      assert lines[..i + 1][..i] == lines[..i];
      var l := Split(lines[i], '#')[0];
      if |TrimSpace(l)| == 0 {
        continue;
      }
      recs := recs + [Split(l, '\t')];
    }
    assert lines[..|lines|] == lines;
  }

  method RecordRow(keys: seq<string>, rec: seq<string>) returns (dat: Row)
    ensures dat == RowOf(keys, rec)
  {
    dat := map[];
    for i := 0 to |keys|
      invariant dat == RowUpTo(keys, Trimmed(rec), i)
    {
      RowUpToNext(keys, rec, i);
      if |rec| > i {
        var v := TrimSpace(rec[i]);
        if "" != v {
          dat := dat[keys[i] := v];
        }
      }
    }
  }

  /** One more column of the row: the trimmed field fills it unless missing or empty. */
  lemma RowUpToNext(keys: seq<string>, rec: seq<string>, i: nat)
    requires i < |keys|
    ensures RowUpTo(keys, Trimmed(rec), i + 1)
         == if i < |rec| && TrimSpace(rec[i]) != "" then RowUpTo(keys, Trimmed(rec), i)[keys[i] := TrimSpace(rec[i])]
            else RowUpTo(keys, Trimmed(rec), i)
  {
  }

  /** The header loop: the record becomes the column names, each trimmed in place. */
  method TrimmedKeys(rec: seq<string>) returns (keys: array<string>)
    ensures fresh(keys)
    ensures keys[..] == Trimmed(rec)
  {
    keys := new string[|rec|](i requires 0 <= i < |rec| => rec[i]);
    for i := 0 to keys.Length
      invariant keys[..i] == Trimmed(rec)[..i]
      invariant keys[i..] == rec[i..]
    {
      assert keys[i] == rec[i];
      keys[i] := TrimSpace(keys[i]);
      assert keys[..i + 1] == keys[..i] + [keys[i]];
    }
  }

  /** A column of a row, or "" when the row lacks it (Go's zero value). */
  function Column(row: Row, key: string): string {
    if key in row then row[key] else ""
  }

  /** The table after the fill loop over the rows: each row naming a type sets that type, later rows overwriting earlier ones. */
  function FillTable(table: ExternalTypes, rows: seq<Row>): ExternalTypes {
    if |rows| == 0 then table
    else
      var t := FillTable(table, rows[..|rows| - 1]);
      var row := rows[|rows| - 1];
      if "name" in row then t[row["name"] := ExtTyp(Column(row, "type"), Column(row, "format"))] else t
  }

  /** The names a run of rows declares. */
  function DeclaredNames(rows: seq<Row>): set<string> {
    set k | 0 <= k < |rows| && "name" in rows[k] :: rows[k]["name"]
  }

  /** The table gains exactly the declared names, and every other entry keeps its value. */
  lemma {:induction false} FillTableKeys(table: ExternalTypes, rows: seq<Row>)
    ensures FillTable(table, rows).Keys == table.Keys + DeclaredNames(rows)
    ensures forall n :: n in table && n !in DeclaredNames(rows) ==> FillTable(table, rows)[n] == table[n]
    decreases |rows|
  {
    if |rows| > 0 {
      var m := |rows| - 1;
      FillTableKeys(table, rows[..m]);
      var row := rows[m];
      assert DeclaredNames(rows) == DeclaredNames(rows[..m]) + (if "name" in row then {row["name"]} else {}) by {
        forall n | n in DeclaredNames(rows)
          ensures n in DeclaredNames(rows[..m]) + (if "name" in row then {row["name"]} else {})
        {
          var k :| 0 <= k < |rows| && "name" in rows[k] && n == rows[k]["name"];
          if k < m {
            assert rows[..m][k] == rows[k];
          }
        }
        forall n | n in DeclaredNames(rows[..m])
          ensures n in DeclaredNames(rows)
        {
          var k :| 0 <= k < m && "name" in rows[..m][k] && n == rows[..m][k]["name"];
          assert rows[k] == rows[..m][k];
        }
      }
    }
  }

  /** The last row naming a type decides its entry. */
  lemma {:induction false} LastRowWins(table: ExternalTypes, rows: seq<Row>, i: nat)
    requires i < |rows| && "name" in rows[i]
    requires forall j :: i < j < |rows| && "name" in rows[j] ==> rows[j]["name"] != rows[i]["name"]
    ensures rows[i]["name"] in FillTable(table, rows)
    ensures FillTable(table, rows)[rows[i]["name"]] == ExtTyp(Column(rows[i], "type"), Column(rows[i], "format"))
    decreases |rows|
  {
    var m := |rows| - 1;
    if i < m {
      assert rows[..m][i] == rows[i];
      LastRowWins(table, rows[..m], i);
    }
  }

  /** What the types file is: absent or not a regular file, unreadable, or readable with its text. */
  datatype TypesFile = Missing | Unreadable(reason: string) | Readable(text: string)

  /** The external-types table the resolver falls back to (a package-level map). */
  class TypeTable {
    var types: ExternalTypes

    constructor ()
      ensures types == map[]
    {
      types := map[];
    }

    /** The fill loop: every row with a "name" column sets that name's type and format. */
    method Fill(rows: seq<Row>)
      modifies this
      ensures types == FillTable(old(types), rows)
    {
      for k := 0 to |rows|
        invariant types == FillTable(old(types), rows[..k])
      {
        assert rows[..k + 1][..k] == rows[..k];
        var row := rows[k];
        if "name" in row {
          types := types[row["name"] := ExtTyp(Column(row, "type"), Column(row, "format"))];
        }
      }
      assert rows[..|rows|] == rows;
    }

    /**
     * `TsvLoadTypes`: a missing file loads nothing and is no error; an
     * unreadable one is reported and loads nothing; otherwise its rows are
     * loaded.
     */
    method TsvLoadTypes(file: TypesFile) returns (err: Option<string>)
      modifies this
      ensures file.Missing? ==> err.None? && types == old(types)
      ensures file.Unreadable? ==> err == Some(file.reason) && types == old(types)
      ensures file.Readable? ==> err.None? && types == FillTable(old(types), TsvRows(file.text))
    {
      match file
      case Missing =>
        return None;
      case Unreadable(reason) =>
        return Some(reason);
      case Readable(text) =>
        var d, e := TsvParse(text);
        if e.Some? {
          return e;
        }
        Fill(d);
        return None;
    }
  }
}
