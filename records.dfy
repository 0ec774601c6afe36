/**
 * Rows fetched from the source database and the records (column name to value
 * dictionaries) the extractor builds from them.
 */
module Records {
  import opened Results

  /** A cell value. Its contents are opaque to every rule modelled here. */
  datatype Value = Missing | Int(i: int) | Text(s: string)

  /** A database row as returned by the driver: values in projection order. */
  type Row = seq<Value>

  /** A dictionary from column name to value. */
  type Record = map<string, Value>

  function Elements(s: seq<string>): (r: set<string>)
    ensures forall x :: x in r <==> x in s
  {
    set x | x in s
  }

  predicate Distinct(s: seq<string>) {
    forall i, j :: 0 <= i < j < |s| ==> s[i] != s[j]
  }

  /** A list without repeats has as many elements as its set of elements. */
  lemma {:induction false} DistinctCardinality(s: seq<string>)
    requires Distinct(s)
    ensures |Elements(s)| == |s|
  {
    if s != [] {
      DistinctCardinality(s[1..]);
      assert Elements(s) == {s[0]} + Elements(s[1..]);
      assert s[0] !in Elements(s[1..]);
    }
  }

  /** The position of the last occurrence of `c` in `s`. */
  function LastIndex(s: seq<string>, c: string): (k: nat)
    requires c in s
    ensures k < |s| && s[k] == c
    ensures forall j :: k < j < |s| ==> s[j] != c
    decreases |s|
  {
    var n := |s| - 1;
    if s[n] == c then n else LastIndex(s[..n], c)
  }

  lemma LastIndexDistinct(s: seq<string>, i: int)
    requires Distinct(s) && 0 <= i < |s|
    ensures LastIndex(s, s[i]) == i
  {
  }

  /**
   * The dictionary comprehension of create_dicts for one row: the i-th column
   * name is bound to row[i], left to right, so a repeated name ends up bound to
   * the value at its last position.
   */
  function Zip(columns: seq<string>, row: Row): (r: Record)
    requires |columns| <= |row|
    ensures r.Keys == Elements(columns)
    ensures forall c :: c in columns ==> r[c] == row[LastIndex(columns, c)]
    decreases |columns|
  {
    if columns == [] then map[]
    else
      var n := |columns| - 1;
      var prev := Zip(columns[..n], row);
      ZipStep(columns, row, prev);
      prev[columns[n] := row[n]]
  }

  /** One step of Zip: binding the last column on top of the record of the prefix. */
  lemma ZipStep(columns: seq<string>, row: Row, prev: Record)
    requires 0 < |columns| <= |row|
    requires prev.Keys == Elements(columns[..|columns| - 1])
    requires forall c :: c in columns[..|columns| - 1] ==>
      prev[c] == row[LastIndex(columns[..|columns| - 1], c)]
    ensures prev[columns[|columns| - 1] := row[|columns| - 1]].Keys == Elements(columns)
    ensures forall c :: c in columns ==>
      prev[columns[|columns| - 1] := row[|columns| - 1]][c] == row[LastIndex(columns, c)]
  {
    var n := |columns| - 1;
    ElementsSnoc(columns);
    forall c | c in columns && c != columns[n]
      ensures c in columns[..n] && LastIndex(columns, c) == LastIndex(columns[..n], c)
    {
      LastIndexBefore(columns, c);
    }
  }

  lemma ElementsSnoc(s: seq<string>)
    requires s != []
    ensures Elements(s) == Elements(s[..|s| - 1]) + {s[|s| - 1]}
  {
    assert s == s[..|s| - 1] + [s[|s| - 1]];
  }

  /** The last occurrence of a name other than the last one lies in the prefix. */
  lemma LastIndexBefore(s: seq<string>, c: string)
    requires c in s && c != s[|s| - 1]
    ensures c in s[..|s| - 1] && LastIndex(s, c) == LastIndex(s[..|s| - 1], c)
  {
    assert s == s[..|s| - 1] + [s[|s| - 1]];
  }

  /** The row's values past the last column are never read. */
  lemma ZipIgnoresExtraValues(columns: seq<string>, row: Row)
    requires |columns| <= |row|
    ensures Zip(columns, row) == Zip(columns, row[..|columns|])
  {
  }

  predicate LongEnough(columns: seq<string>, rows: seq<Row>) {
    forall j :: 0 <= j < |rows| ==> |columns| <= |rows[j]|
  }

  /**
   * create_dicts(columns, rows): one dictionary per row, in row order. Reading
   * row[i] for a row shorter than the column list raises IndexError, which
   * aborts the whole comprehension.
   */
  function CreateDicts(columns: seq<string>, rows: seq<Row>): (r: Result<seq<Record>>)
    ensures r.Ok? <==> LongEnough(columns, rows)
    ensures r.Err? ==> r.error == IndexOutOfRange
    ensures rows == [] ==> r == Ok([])
    ensures r.Ok? ==> |r.value| == |rows|
    ensures r.Ok? ==> forall j :: 0 <= j < |rows| ==>
      && r.value[j].Keys == Elements(columns)
      && forall c :: c in columns ==> r.value[j][c] == rows[j][LastIndex(columns, c)]
  {
    if LongEnough(columns, rows) then
      var records := seq(|rows|, j requires 0 <= j < |rows| => Zip(columns, rows[j]));
      assert |records| == 0 ==> records == [];
      Ok(records)
    else
      Err(IndexOutOfRange)
  }

  /** With distinct column names, record j maps columns[i] to rows[j][i] and has no other key. */
  lemma CreateDictsDistinct(columns: seq<string>, rows: seq<Row>)
    requires Distinct(columns) && LongEnough(columns, rows)
    ensures CreateDicts(columns, rows).Ok?
    ensures forall j, i :: 0 <= j < |rows| && 0 <= i < |columns| ==>
      && CreateDicts(columns, rows).value[j].Keys == Elements(columns)
      && CreateDicts(columns, rows).value[j][columns[i]] == rows[j][i]
  {
    var r := CreateDicts(columns, rows).value;
    forall j, i | 0 <= j < |rows| && 0 <= i < |columns|
      ensures r[j][columns[i]] == rows[j][i]
    {
      LastIndexDistinct(columns, i);
    }
  }

  /** A repeated column name keeps the value of its last position. */
  lemma CreateDictsRepeatedColumn()
    ensures CreateDicts(["id", "name", "id"], [[Int(1), Text("a"), Int(2)]])
      == Ok([map["id" := Int(2), "name" := Text("a")]])
  {
    var columns := ["id", "name", "id"];
    var rows := [[Int(1), Text("a"), Int(2)]];
    var expected := map["id" := Int(2), "name" := Text("a")];
    assert LongEnough(columns, rows);
    var out := CreateDicts(columns, rows).value;
    assert Elements(columns) == {"id", "name"};
    assert LastIndex(columns, "id") == 2;
    assert LastIndex(columns, "name") == 1;
    assert out[0] == expected;
    assert out == [expected];
  }
}
