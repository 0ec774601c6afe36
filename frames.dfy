/**
 * The DataFrame operations the transform stage is built from: dropping columns,
 * renaming a column, a left join against an indexed table and an inner merge.
 * A frame is an ordered list of column labels and a sequence of rows, each row a
 * record whose keys are exactly the labels.
 */
module Frames {
  import opened Results
  import opened Records

  datatype Frame = Frame(columns: seq<string>, rows: seq<Record>)

  /** Labels are unique and every row carries exactly the frame's labels. */
  predicate Valid(f: Frame) {
    && Distinct(f.columns)
    && forall j :: 0 <= j < |f.rows| ==> f.rows[j].Keys == Elements(f.columns)
  }

  /** `cols` without the labels in `drop`, in their original order. */
  function Remove(cols: seq<string>, drop: set<string>): (r: seq<string>)
    ensures Elements(r) == Elements(cols) - drop
    ensures Distinct(cols) ==> Distinct(r)
    ensures drop !! Elements(cols) ==> r == cols
    decreases |cols|
  {
    if cols == [] then []
    else if cols[0] in drop then Remove(cols[1..], drop)
    else
      var rest := Remove(cols[1..], drop);
      assert Distinct(cols) ==> cols[0] !in Elements(rest);
      assert forall k :: 0 <= k < |rest| ==> rest[k] in Elements(rest);
      [cols[0]] + rest
  }

  /** Removing labels that all stand after position n keeps exactly the first n labels. */
  lemma {:induction false} RemoveSuffix(cols: seq<string>, n: int, drop: set<string>)
    requires 0 <= n <= |cols|
    requires forall i :: 0 <= i < n ==> cols[i] !in drop
    requires forall i :: n <= i < |cols| ==> cols[i] in drop
    ensures Remove(cols, drop) == cols[..n]
    decreases |cols|
  {
    if cols != [] {
      if n == 0 {
        RemoveSuffix(cols[1..], 0, drop);
      } else {
        RemoveSuffix(cols[1..], n - 1, drop);
        assert [cols[0]] + cols[1..][..n - 1] == cols[..n];
      }
    }
  }

  /** Removing labels from a list without repeats shortens it by the number of labels it held. */
  lemma {:induction false} RemoveLength(cols: seq<string>, drop: set<string>)
    requires Distinct(cols)
    ensures |Remove(cols, drop)| == |cols| - |drop * Elements(cols)|
    decreases |cols|
  {
    if cols != [] {
      var rest := Elements(cols[1..]);
      RemoveLength(cols[1..], drop);
      ElementsCons(cols);
      CommonWithOneMore(drop, cols[0], rest);
    }
  }

  lemma ElementsCons(s: seq<string>)
    requires s != [] && Distinct(s)
    ensures Elements(s) == {s[0]} + Elements(s[1..]) && s[0] !in Elements(s[1..])
  {
    assert s == [s[0]] + s[1..];
  }

  /** Adding a new element to a set adds one to its overlap with `d` exactly when `d` holds it. */
  lemma CommonWithOneMore(d: set<string>, x: string, a: set<string>)
    requires x !in a
    ensures |d * ({x} + a)| == if x in d then |d * a| + 1 else |d * a|
  {
    if x in d {
      assert d * ({x} + a) == {x} + d * a;
    } else {
      assert d * ({x} + a) == d * a;
    }
  }

  /** The labels of `labels` that `cols` lacks, in the order they were asked for. */
  function Absent(labels: seq<string>, cols: seq<string>): (r: seq<string>)
    ensures Elements(r) == Elements(labels) - Elements(cols)
    decreases |labels|
  {
    if labels == [] then []
    else (if labels[0] in cols then [] else [labels[0]]) + Absent(labels[1..], cols)
  }

  /**
   * DataFrame.drop(columns=labels): raises KeyError naming the absent labels if
   * any label is not a column; otherwise removes those columns from the label
   * list and from every row, keeping the rows and their order.
   */
  function Drop(f: Frame, labels: seq<string>): (r: Result<Frame>)
    ensures r.Ok? <==> Elements(labels) <= Elements(f.columns)
    ensures r.Err? ==>
      && r.error.ColumnsNotFound? && r.error.labels != []
      && Elements(r.error.labels) == Elements(labels) - Elements(f.columns)
    ensures r.Ok? ==> r.value.columns == Remove(f.columns, Elements(labels))
    ensures r.Ok? ==> |r.value.rows| == |f.rows|
    ensures r.Ok? ==> forall j :: 0 <= j < |f.rows| ==> r.value.rows[j] == f.rows[j] - Elements(labels)
    ensures r.Ok? && Valid(f) ==> Valid(r.value)
  {
    var missing := Absent(labels, f.columns);
    if missing != [] then
      assert missing[0] in Elements(missing);
      Err(ColumnsNotFound(missing))
    else
      assert Elements(missing) == {};
      var drop := Elements(labels);
      Ok(Frame(Remove(f.columns, drop), seq(|f.rows|, j requires 0 <= j < |f.rows| => f.rows[j] - drop)))
  }

  /** Each row of `out` keeps every value of the row at its position in `rows`, except under the `dropped` labels. */
  predicate KeepsValues(out: seq<Record>, rows: seq<Record>, dropped: set<string>) {
    && |out| == |rows|
    && forall j, c | 0 <= j < |rows| && c in rows[j] && c !in dropped :: c in out[j] && out[j][c] == rows[j][c]
  }

  /**
   * Each row of `out` holds every value, except under the `dropped` labels, of
   * each right row sharing its `key` value with the left row at its position.
   */
  predicate KeepsPartnerValues(out: seq<Record>, lrows: seq<Record>, rrows: seq<Record>, key: string, dropped: set<string>) {
    && |out| == |lrows|
    && forall j, k, c | 0 <= j < |lrows| && 0 <= k < |rrows| && SameKey(lrows[j], rrows[k], key) && c in rrows[k] && c !in dropped ::
         c in out[j] && out[j][c] == rrows[k][c]
  }

  /** Each row of `out` whose left row has no partner holds a missing value under every label of `labels`. */
  predicate PadsUnpartnered(out: seq<Record>, lrows: seq<Record>, rrows: seq<Record>, key: string, labels: set<string>) {
    && |out| == |lrows|
    && forall j, c | 0 <= j < |lrows| && !HasPartner(lrows[j], rrows, key) && c in labels :: c in out[j] && out[j][c] == Missing
  }

  /** Keeping values is transitive: what survives two steps is what neither step drops. */
  lemma KeepsValuesCompose(out: seq<Record>, mid: seq<Record>, rows: seq<Record>, outer: set<string>, inner: set<string>)
    requires KeepsValues(out, mid, outer) && KeepsValues(mid, rows, inner)
    ensures KeepsValues(out, rows, outer + inner)
  {
  }

  lemma KeepsPartnerValuesCompose(out: seq<Record>, mid: seq<Record>, lrows: seq<Record>, rrows: seq<Record>, key: string,
                                  outer: set<string>, inner: set<string>)
    requires KeepsValues(out, mid, outer) && KeepsPartnerValues(mid, lrows, rrows, key, inner)
    ensures KeepsPartnerValues(out, lrows, rrows, key, outer + inner)
  {
  }

  lemma PadsUnpartneredCompose(out: seq<Record>, mid: seq<Record>, lrows: seq<Record>, rrows: seq<Record>, key: string,
                               outer: set<string>, labels: set<string>)
    requires KeepsValues(out, mid, outer) && PadsUnpartnered(mid, lrows, rrows, key, labels)
    ensures PadsUnpartnered(out, lrows, rrows, key, labels - outer)
  {
  }

  lemma DropKeepsValues(f: Frame, labels: seq<string>)
    requires Drop(f, labels).Ok?
    ensures KeepsValues(Drop(f, labels).value.rows, f.rows, Elements(labels))
  {
  }

  /** Dropping labels that are all present and pairwise different removes exactly that many columns. */
  lemma DropColumnCount(f: Frame, labels: seq<string>)
    requires Valid(f) && Distinct(labels) && Elements(labels) <= Elements(f.columns)
    ensures Drop(f, labels).Ok?
    ensures |Drop(f, labels).value.columns| == |f.columns| - |labels|
  {
    RemoveLength(f.columns, Elements(labels));
    DistinctCardinality(labels);
    assert Elements(labels) * Elements(f.columns) == Elements(labels);
  }

  function RenameLabel(c: string, from: string, to: string): string {
    if c == from then to else c
  }

  function RenameRecord(rec: Record, from: string, to: string): Record {
    if from in rec then (rec - {from})[to := rec[from]] else rec
  }

  /** The label list with `from` replaced by `to`. */
  function RenameLabels(cols: seq<string>, from: string, to: string): (r: seq<string>)
    ensures |r| == |cols| && forall i :: 0 <= i < |cols| ==> r[i] == RenameLabel(cols[i], from, to)
  {
    seq(|cols|, i requires 0 <= i < |cols| => RenameLabel(cols[i], from, to))
  }

  lemma RenameLabelsAbsent(cols: seq<string>, from: string, to: string)
    requires from !in cols
    ensures RenameLabels(cols, from, to) == cols
  {
  }

  lemma RenameLabelsElements(cols: seq<string>, from: string, to: string)
    requires from in cols
    ensures Elements(RenameLabels(cols, from, to)) == Elements(cols) - {from} + {to}
  {
    var r := RenameLabels(cols, from, to);
    forall c | c in Elements(cols) - {from} + {to} ensures c in r {
      var i :| 0 <= i < |cols| && cols[i] == (if c == to then from else c);
      if c != to {
        assert r[i] == c;
      }
    }
  }

  lemma RenameLabelsDistinct(cols: seq<string>, from: string, to: string)
    requires Distinct(cols) && (to == from || to !in cols)
    ensures Distinct(RenameLabels(cols, from, to))
  {
  }

  /** A row whose keys are `keys` has, once renamed, those keys with `from` replaced by `to`. */
  lemma RenameRecordKeys(rec: Record, from: string, to: string)
    requires from in rec
    ensures RenameRecord(rec, from, to).Keys == rec.Keys - {from} + {to}
  {
  }

  lemma RenameValid(f: Frame, from: string, to: string, rows: seq<Record>)
    requires Valid(f) && from in f.columns && (to == from || to !in f.columns)
    requires |rows| == |f.rows| && forall j :: 0 <= j < |f.rows| ==> rows[j] == RenameRecord(f.rows[j], from, to)
    ensures Valid(Frame(RenameLabels(f.columns, from, to), rows))
  {
    var cols := RenameLabels(f.columns, from, to);
    RenameLabelsElements(f.columns, from, to);
    RenameLabelsDistinct(f.columns, from, to);
    forall j | 0 <= j < |rows| ensures rows[j].Keys == Elements(cols) {
      RenameRecordKeys(f.rows[j], from, to);
    }
  }

  /** The labels of a renamed frame are its labels renamed one by one. */
  lemma RenameColumns(f: Frame, from: string, to: string)
    ensures Rename(f, from, to).columns == RenameLabels(f.columns, from, to)
  {
  }

  /**
   * DataFrame.rename(columns={from: to}): every label equal to `from` becomes
   * `to`, each row's value moves with it; a `from` that is not a column is
   * ignored.
   */
  function Rename(f: Frame, from: string, to: string): (r: Frame)
    ensures |r.columns| == |f.columns| && |r.rows| == |f.rows|
    ensures forall i :: 0 <= i < |f.columns| ==> r.columns[i] == if f.columns[i] == from then to else f.columns[i]
    ensures Valid(f) && from !in f.columns ==> r == f
    ensures Valid(f) && from in f.columns ==> Elements(r.columns) == Elements(f.columns) - {from} + {to}
    ensures Valid(f) && (to == from || to !in f.columns) ==> Valid(r)
    ensures Valid(f) && from in f.columns ==>
      && (forall j :: 0 <= j < |f.rows| ==> to in r.rows[j] && r.rows[j][to] == f.rows[j][from])
      && KeepsValues(r.rows, f.rows, {from, to})
  {
    var cols := RenameLabels(f.columns, from, to);
    var rows := seq(|f.rows|, j requires 0 <= j < |f.rows| => RenameRecord(f.rows[j], from, to));
    if Valid(f) && from in f.columns then
      RenameLabelsElements(f.columns, from, to);
      if to == from || to !in f.columns then
        RenameValid(f, from, to, rows);
        Frame(cols, rows)
      else
        Frame(cols, rows)
    else if Valid(f) then
      RenameLabelsAbsent(f.columns, from, to);
      assert forall j :: 0 <= j < |f.rows| ==> rows[j] == f.rows[j];
      Frame(cols, rows)
    else
      Frame(cols, rows)
  }

  /** The rows of `rows` whose `key` value equals `v`, in their order. */
  function Matching(rows: seq<Record>, key: string, v: Value): seq<Record>
    decreases |rows|
  {
    if rows == [] then []
    else (if key in rows[0] && rows[0][key] == v then [rows[0]] else []) + Matching(rows[1..], key, v)
  }

  /** The matching rows are exactly the rows holding `v` under `key`. */
  lemma {:induction false} MatchingMembership(rows: seq<Record>, key: string, v: Value)
    ensures forall m :: m in Matching(rows, key, v) ==> m in rows && key in m && m[key] == v
    ensures forall k :: 0 <= k < |rows| && key in rows[k] && rows[k][key] == v ==> rows[k] in Matching(rows, key, v)
    decreases |rows|
  {
    if rows != [] {
      MatchingMembership(rows[1..], key, v);
      assert forall k :: 1 <= k < |rows| ==> rows[k] == rows[1..][k - 1];
    }
  }

  /** No two rows share a value of `key`. */
  predicate UniqueKey(rows: seq<Record>, key: string) {
    forall i, j :: 0 <= i < j < |rows| && key in rows[i] && key in rows[j] ==> rows[i][key] != rows[j][key]
  }

  /** Both records hold the same value under `key`. */
  predicate SameKey(l: Record, m: Record, key: string) {
    key in l && key in m && l[key] == m[key]
  }

  /** Some right row shares the record's `key` value. */
  predicate HasPartner(l: Record, rrows: seq<Record>, key: string) {
    exists k :: 0 <= k < |rrows| && SameKey(l, rrows[k], key)
  }

  /** Every left row shares its `key` value with some right row. */
  predicate Partnered(lrows: seq<Record>, rrows: seq<Record>, key: string) {
    forall j :: 0 <= j < |lrows| ==> HasPartner(lrows[j], rrows, key)
  }

  lemma {:induction false} MatchingNone(rows: seq<Record>, key: string, v: Value)
    requires forall k :: 0 <= k < |rows| && key in rows[k] ==> rows[k][key] != v
    ensures Matching(rows, key, v) == []
    decreases |rows|
  {
    if rows != [] {
      MatchingNone(rows[1..], key, v);
    }
  }

  /** With unique key values, a value is matched by at most one row. */
  lemma {:induction false} MatchingUnique(rows: seq<Record>, key: string, v: Value)
    requires UniqueKey(rows, key)
    ensures |Matching(rows, key, v)| <= 1
    decreases |rows|
  {
    if rows != [] {
      MatchingUnique(rows[1..], key, v);
      if key in rows[0] && rows[0][key] == v {
        forall k | 0 <= k < |rows[1..]| && key in rows[1..][k] ensures rows[1..][k][key] != v {
          assert rows[1..][k] == rows[k + 1];
        }
        MatchingNone(rows[1..], key, v);
      }
    }
  }

  /** The record that pads a row without a partner: every label bound to a missing value. */
  function Fill(cols: seq<string>): (r: Record)
    ensures r.Keys == Elements(cols)
    ensures forall c :: c in r ==> r[c] == Missing
  {
    map c | c in cols :: Missing
  }

  /** A left row extended with a right row's non-key values. */
  function Combine(l: Record, m: Record, key: string): Record {
    l + (m - {key})
  }

  function Pairings(l: Record, ms: seq<Record>, key: string): (r: seq<Record>)
    ensures |r| == |ms|
  {
    seq(|ms|, k requires 0 <= k < |ms| => Combine(l, ms[k], key))
  }

  predicate HasKey(rows: seq<Record>, key: string) {
    forall j :: 0 <= j < |rows| ==> key in rows[j]
  }

  /** The rows of a left join: every left row, once per partner, or once padded when it has none. */
  function LeftJoinRows(lrows: seq<Record>, rrows: seq<Record>, key: string, fill: Record): (r: seq<Record>)
    requires HasKey(lrows, key)
    ensures |r| >= |lrows|
    decreases |lrows|
  {
    if lrows == [] then []
    else
      var ms := Matching(rrows, key, lrows[0][key]);
      (if ms == [] then [lrows[0] + fill] else Pairings(lrows[0], ms, key))
      + LeftJoinRows(lrows[1..], rrows, key, fill)
  }

  /** The rows of an inner merge: every left row once per partner, none when it has none. */
  function MergeRows(lrows: seq<Record>, rrows: seq<Record>, key: string): seq<Record>
    requires HasKey(lrows, key)
    decreases |lrows|
  {
    if lrows == [] then []
    else Pairings(lrows[0], Matching(rrows, key, lrows[0][key]), key) + MergeRows(lrows[1..], rrows, key)
  }

  /** Both frames have the key, and no other label of the right frame is already a left label. */
  predicate Joinable(left: Frame, right: Frame, key: string) {
    && key in left.columns
    && key in right.columns
    && Elements(left.columns) !! Elements(right.columns) - {key}
  }

  /** The labels of a joined frame: the left labels, then the right's other labels. */
  function JoinedColumns(left: Frame, right: Frame, key: string): seq<string> {
    left.columns + Remove(right.columns, {key})
  }

  lemma JoinedColumnsDistinct(left: Frame, right: Frame, key: string)
    requires Valid(left) && Valid(right) && Joinable(left, right, key)
    ensures Distinct(JoinedColumns(left, right, key))
    ensures Elements(JoinedColumns(left, right, key)) == Elements(left.columns) + (Elements(right.columns) - {key})
  {
    var a, b := left.columns, Remove(right.columns, {key});
    assert Elements(a + b) == Elements(a) + Elements(b);
    forall i, j | 0 <= i < j < |a + b| ensures (a + b)[i] != (a + b)[j] {
      if j >= |a| && i < |a| {
        assert (a + b)[i] in Elements(a);
        assert (a + b)[j] in Elements(b);
      }
    }
  }

  /** The error a join raises: a missing key first, then overlapping labels. */
  function JoinError(left: Frame, right: Frame, key: string): Error {
    if key !in right.columns || key !in left.columns then KeyNotFound(key)
    else ColumnsOverlap(Elements(left.columns) * (Elements(right.columns) - {key}))
  }

  /**
   * left.join(right.set_index(key), on=key, how='left'): every left row is kept
   * in order, extended with the non-key values of each right row sharing its key
   * value, or with missing values when no right row does.
   */
  function LeftJoin(left: Frame, right: Frame, key: string): (r: Result<Frame>)
    requires Valid(left) && Valid(right)
    ensures r.Ok? <==> Joinable(left, right, key)
    ensures r.Err? ==> r.error == JoinError(left, right, key)
    ensures r.Ok? ==> r.value.columns == JoinedColumns(left, right, key)
    ensures r.Ok? ==> Valid(r.value) && |r.value.rows| >= |left.rows|
  {
    if !Joinable(left, right, key) then Err(JoinError(left, right, key))
    else
      var fill := Fill(Remove(right.columns, {key}));
      var rows := LeftJoinRows(left.rows, right.rows, key, fill);
      JoinedColumnsDistinct(left, right, key);
      LeftJoinRowsKeys(left.rows, right.rows, key, fill, Elements(left.columns), Elements(right.columns));
      Ok(Frame(JoinedColumns(left, right, key), rows))
  }

  /** The labels of the rows one left row contributes to a join: its own and its partner's. */
  lemma HeadRowsKeys(l: Record, ms: seq<Record>, key: string, fill: Record, lkeys: set<string>, rkeys: set<string>)
    requires l.Keys == lkeys && key in lkeys && fill.Keys == rkeys - {key}
    requires forall m :: m in ms ==> m.Keys == rkeys
    ensures forall o :: o in [l + fill] ==> o.Keys == lkeys + (rkeys - {key})
    ensures forall o :: o in Pairings(l, ms, key) ==> o.Keys == lkeys + (rkeys - {key})
  {
    forall o | o in Pairings(l, ms, key) ensures o.Keys == lkeys + (rkeys - {key}) {
      var k :| 0 <= k < |ms| && Pairings(l, ms, key)[k] == o;
      assert ms[k] in ms;
    }
  }

  lemma MatchingKeys(rrows: seq<Record>, key: string, v: Value, rkeys: set<string>)
    requires forall k :: 0 <= k < |rrows| ==> rrows[k].Keys == rkeys
    ensures forall m :: m in Matching(rrows, key, v) ==> m.Keys == rkeys
  {
    MatchingMembership(rrows, key, v);
    forall m | m in Matching(rrows, key, v) ensures m.Keys == rkeys {
      var k :| 0 <= k < |rrows| && rrows[k] == m;
    }
  }

  lemma {:induction false} LeftJoinRowsKeys(lrows: seq<Record>, rrows: seq<Record>, key: string, fill: Record,
                                           lkeys: set<string>, rkeys: set<string>)
    requires forall j :: 0 <= j < |lrows| ==> lrows[j].Keys == lkeys
    requires forall k :: 0 <= k < |rrows| ==> rrows[k].Keys == rkeys
    requires key in lkeys && fill.Keys == rkeys - {key}
    ensures forall o :: o in LeftJoinRows(lrows, rrows, key, fill) ==> o.Keys == lkeys + (rkeys - {key})
    decreases |lrows|
  {
    if lrows != [] {
      LeftJoinRowsKeys(lrows[1..], rrows, key, fill, lkeys, rkeys);
      MatchingKeys(rrows, key, lrows[0][key], rkeys);
      HeadRowsKeys(lrows[0], Matching(rrows, key, lrows[0][key]), key, fill, lkeys, rkeys);
    }
  }

  lemma {:induction false} MergeRowsKeys(lrows: seq<Record>, rrows: seq<Record>, key: string,
                                        lkeys: set<string>, rkeys: set<string>)
    requires forall j :: 0 <= j < |lrows| ==> lrows[j].Keys == lkeys
    requires forall k :: 0 <= k < |rrows| ==> rrows[k].Keys == rkeys
    requires key in lkeys
    ensures forall o :: o in MergeRows(lrows, rrows, key) ==> o.Keys == lkeys + (rkeys - {key})
    decreases |lrows|
  {
    if lrows != [] {
      MergeRowsKeys(lrows[1..], rrows, key, lkeys, rkeys);
      MatchingKeys(rrows, key, lrows[0][key], rkeys);
      HeadRowsKeys(lrows[0], Matching(rrows, key, lrows[0][key]), key, map c | c in rkeys - {key} :: Missing, lkeys, rkeys);
    }
  }

  /**
   * pd.merge(left, right, on=key), an inner join: one row per pair of a left row
   * and a right row sharing the key value, in left-row order.
   */
  function Merge(left: Frame, right: Frame, key: string): (r: Result<Frame>)
    requires Valid(left) && Valid(right)
    ensures r.Ok? <==> Joinable(left, right, key)
    ensures r.Err? ==> r.error == JoinError(left, right, key)
    ensures r.Ok? ==> r.value.columns == JoinedColumns(left, right, key)
    ensures r.Ok? ==> Valid(r.value)
  {
    if !Joinable(left, right, key) then Err(JoinError(left, right, key))
    else
      var rows := MergeRows(left.rows, right.rows, key);
      JoinedColumnsDistinct(left, right, key);
      MergeRowsKeys(left.rows, right.rows, key, Elements(left.columns), Elements(right.columns));
      Ok(Frame(JoinedColumns(left, right, key), rows))
  }

  /**
   * A row is in the merge exactly when it combines some left row with some right
   * row that has the same key value; a left row without a partner contributes
   * nothing.
   */
  lemma {:induction false} MergeRowsMembership(lrows: seq<Record>, rrows: seq<Record>, key: string)
    requires HasKey(lrows, key)
    ensures forall o :: o in MergeRows(lrows, rrows, key) <==>
      exists i, k ::
        && 0 <= i < |lrows| && 0 <= k < |rrows| && key in rrows[k]
        && rrows[k][key] == lrows[i][key] && o == Combine(lrows[i], rrows[k], key)
    decreases |lrows|
  {
    if lrows != [] {
      MergeRowsMembership(lrows[1..], rrows, key);
      var l := lrows[0];
      var ms := Matching(rrows, key, l[key]);
      MatchingMembership(rrows, key, l[key]);
      forall o | o in MergeRows(lrows, rrows, key)
        ensures exists i, k ::
          && 0 <= i < |lrows| && 0 <= k < |rrows| && key in rrows[k]
          && rrows[k][key] == lrows[i][key] && o == Combine(lrows[i], rrows[k], key)
      {
        if o in Pairings(l, ms, key) {
          var p :| 0 <= p < |ms| && o == Combine(l, ms[p], key);
          assert ms[p] in ms;
          var k :| 0 <= k < |rrows| && rrows[k] == ms[p];
          assert o == Combine(lrows[0], rrows[k], key);
        } else {
          assert o in MergeRows(lrows[1..], rrows, key);
          var i, k :| 0 <= i < |lrows[1..]| && 0 <= k < |rrows| && key in rrows[k]
            && rrows[k][key] == lrows[1..][i][key] && o == Combine(lrows[1..][i], rrows[k], key);
          assert lrows[1..][i] == lrows[i + 1];
        }
      }
      forall o, i, k | 0 <= i < |lrows| && 0 <= k < |rrows| && key in rrows[k]
          && rrows[k][key] == lrows[i][key] && o == Combine(lrows[i], rrows[k], key)
        ensures o in MergeRows(lrows, rrows, key)
      {
        if i == 0 {
          assert rrows[k] in ms;
          var p :| 0 <= p < |ms| && ms[p] == rrows[k];
          assert Pairings(l, ms, key)[p] == o;
        } else {
          assert lrows[1..][i - 1] == lrows[i];
          assert o in MergeRows(lrows[1..], rrows, key);
        }
      }
    }
  }
  /** With unique key values, the one row holding `v` is all that matches `v`. */
  lemma MatchingSingle(rows: seq<Record>, key: string, v: Value, k: int)
    requires UniqueKey(rows, key) && 0 <= k < |rows| && key in rows[k] && rows[k][key] == v
    ensures Matching(rows, key, v) == [rows[k]]
  {
    MatchingUnique(rows, key, v);
    MatchingMembership(rows, key, v);
    var ms := Matching(rows, key, v);
    assert rows[k] in ms;
  }

  /** The row a left join makes of `l` given its (at most one) partners `ms`. */
  function JoinedRow(l: Record, ms: seq<Record>, key: string, fill: Record): Record {
    if ms == [] then l + fill else Combine(l, ms[0], key)
  }

  /** With unique right keys, a left join turns the first left row into exactly one row. */
  lemma LeftJoinRowsHead(lrows: seq<Record>, rrows: seq<Record>, key: string, fill: Record)
    requires HasKey(lrows, key) && UniqueKey(rrows, key) && lrows != []
    ensures HasKey(lrows[1..], key)
    ensures |LeftJoinRows(lrows, rrows, key, fill)| == |LeftJoinRows(lrows[1..], rrows, key, fill)| + 1
    ensures LeftJoinRows(lrows, rrows, key, fill)[0] == JoinedRow(lrows[0], Matching(rrows, key, lrows[0][key]), key, fill)
    ensures LeftJoinRows(lrows, rrows, key, fill)[1..] == LeftJoinRows(lrows[1..], rrows, key, fill)
  {
    var ms := Matching(rrows, key, lrows[0][key]);
    MatchingUnique(rrows, key, lrows[0][key]);
    if ms != [] {
      PairingsSingle(lrows[0], ms, key);
    }
  }

  lemma ConsAt(out: seq<Record>, tail: seq<Record>, j: int)
    requires |out| == |tail| + 1 && out[1..] == tail && 0 < j < |out|
    ensures out[j] == tail[j - 1]
  {
  }

  lemma {:induction false} LeftJoinRowsLength(lrows: seq<Record>, rrows: seq<Record>, key: string, fill: Record)
    requires HasKey(lrows, key) && UniqueKey(rrows, key)
    ensures |LeftJoinRows(lrows, rrows, key, fill)| == |lrows|
    decreases |lrows|
  {
    if lrows != [] {
      LeftJoinRowsHead(lrows, rrows, key, fill);
      LeftJoinRowsLength(lrows[1..], rrows, key, fill);
    }
  }

  lemma {:induction false} LeftJoinRowsAt(lrows: seq<Record>, rrows: seq<Record>, key: string, fill: Record, j: int)
    requires HasKey(lrows, key) && UniqueKey(rrows, key) && 0 <= j < |lrows|
    ensures j < |LeftJoinRows(lrows, rrows, key, fill)|
    ensures LeftJoinRows(lrows, rrows, key, fill)[j] == JoinedRow(lrows[j], Matching(rrows, key, lrows[j][key]), key, fill)
    decreases j
  {
    LeftJoinRowsHead(lrows, rrows, key, fill);
    if j > 0 {
      LeftJoinRowsAt(lrows[1..], rrows, key, fill, j - 1);
      var out, tail := LeftJoinRows(lrows, rrows, key, fill), LeftJoinRows(lrows[1..], rrows, key, fill);
      var l := lrows[j];
      var x := JoinedRow(l, Matching(rrows, key, l[key]), key, fill);
      assert lrows[1..][j - 1] == l;
      assert tail[j - 1] == x;
      ConsAt(out, tail, j);
    }
  }

  /** With unique right keys, a left join keeps the left rows one for one, row j made from left row j. */
  lemma LeftJoinRowsUnique(lrows: seq<Record>, rrows: seq<Record>, key: string, fill: Record)
    requires HasKey(lrows, key) && UniqueKey(rrows, key)
    ensures |LeftJoinRows(lrows, rrows, key, fill)| == |lrows|
    ensures forall j :: 0 <= j < |lrows| ==>
      LeftJoinRows(lrows, rrows, key, fill)[j] == JoinedRow(lrows[j], Matching(rrows, key, lrows[j][key]), key, fill)
  {
    LeftJoinRowsLength(lrows, rrows, key, fill);
    forall j | 0 <= j < |lrows|
      ensures LeftJoinRows(lrows, rrows, key, fill)[j] == JoinedRow(lrows[j], Matching(rrows, key, lrows[j][key]), key, fill)
    {
      LeftJoinRowsAt(lrows, rrows, key, fill, j);
    }
  }

  /**
   * When the right frame's key values are unique, a left join keeps the left
   * rows one for one: row j is left row j extended with the right row sharing
   * its key value, or padded with missing values when there is none.
   */
  lemma LeftJoinUnique(left: Frame, right: Frame, key: string)
    requires Valid(left) && Valid(right) && Joinable(left, right, key) && UniqueKey(right.rows, key)
    ensures LeftJoin(left, right, key).Ok?
    ensures |LeftJoin(left, right, key).value.rows| == |left.rows|
    ensures forall j, k | 0 <= j < |left.rows| && 0 <= k < |right.rows| && SameKey(left.rows[j], right.rows[k], key) ::
              LeftJoin(left, right, key).value.rows[j] == Combine(left.rows[j], right.rows[k], key)
    ensures forall j | 0 <= j < |left.rows| && !HasPartner(left.rows[j], right.rows, key) ::
              LeftJoin(left, right, key).value.rows[j] == left.rows[j] + Fill(Remove(right.columns, {key}))
  {
    var fill := Fill(Remove(right.columns, {key}));
    var out := LeftJoin(left, right, key).value.rows;
    LeftJoinRowsUnique(left.rows, right.rows, key, fill);
    forall j, k | 0 <= j < |left.rows| && 0 <= k < |right.rows| && SameKey(left.rows[j], right.rows[k], key)
      ensures out[j] == Combine(left.rows[j], right.rows[k], key)
    {
      MatchingSingle(right.rows, key, left.rows[j][key], k);
    }
    forall j | 0 <= j < |left.rows| && !HasPartner(left.rows[j], right.rows, key)
      ensures out[j] == left.rows[j] + fill
    {
      MatchingNone(right.rows, key, left.rows[j][key]);
    }
  }

  /** Every left row has a partner in the right rows. */
  predicate AllMatched(lrows: seq<Record>, rrows: seq<Record>, key: string)
    requires HasKey(lrows, key)
  {
    forall j :: 0 <= j < |lrows| ==> Matching(rrows, key, lrows[j][key]) != []
  }

  /** With unique right keys and a partner for the first left row, a merge turns it into exactly one row. */
  lemma MergeRowsHead(lrows: seq<Record>, rrows: seq<Record>, key: string)
    requires HasKey(lrows, key) && UniqueKey(rrows, key) && lrows != [] && Matching(rrows, key, lrows[0][key]) != []
    ensures MergeRows(lrows, rrows, key)
      == [Combine(lrows[0], Matching(rrows, key, lrows[0][key])[0], key)] + MergeRows(lrows[1..], rrows, key)
  {
    var ms := Matching(rrows, key, lrows[0][key]);
    MatchingUnique(rrows, key, lrows[0][key]);
    PairingsSingle(lrows[0], ms, key);
  }

  lemma PairingsSingle(l: Record, ms: seq<Record>, key: string)
    requires |ms| == 1
    ensures Pairings(l, ms, key) == [Combine(l, ms[0], key)]
  {
  }

  lemma AllMatchedTail(lrows: seq<Record>, rrows: seq<Record>, key: string)
    requires HasKey(lrows, key) && AllMatched(lrows, rrows, key) && lrows != []
    ensures HasKey(lrows[1..], key) && AllMatched(lrows[1..], rrows, key)
  {
    forall j | 0 <= j < |lrows[1..]| ensures Matching(rrows, key, lrows[1..][j][key]) != [] {
      assert lrows[1..][j] == lrows[j + 1];
    }
  }

  lemma {:induction false} MergeRowsLength(lrows: seq<Record>, rrows: seq<Record>, key: string)
    requires HasKey(lrows, key) && UniqueKey(rrows, key) && AllMatched(lrows, rrows, key)
    ensures |MergeRows(lrows, rrows, key)| == |lrows|
    decreases |lrows|
  {
    if lrows != [] {
      MergeRowsHead(lrows, rrows, key);
      AllMatchedTail(lrows, rrows, key);
      MergeRowsLength(lrows[1..], rrows, key);
    }
  }

  lemma {:induction false} MergeRowsAt(lrows: seq<Record>, rrows: seq<Record>, key: string, j: int)
    requires HasKey(lrows, key) && UniqueKey(rrows, key) && AllMatched(lrows, rrows, key) && 0 <= j < |lrows|
    ensures j < |MergeRows(lrows, rrows, key)|
    ensures MergeRows(lrows, rrows, key)[j] == Combine(lrows[j], Matching(rrows, key, lrows[j][key])[0], key)
    decreases j
  {
    MergeRowsHead(lrows, rrows, key);
    if j > 0 {
      AllMatchedTail(lrows, rrows, key);
      MergeRowsAt(lrows[1..], rrows, key, j - 1);
      assert lrows[1..][j - 1] == lrows[j];
    }
  }

  /** With unique right keys and a partner for every left row, a merge keeps the left rows one for one. */
  lemma MergeRowsUnique(lrows: seq<Record>, rrows: seq<Record>, key: string)
    requires HasKey(lrows, key) && UniqueKey(rrows, key) && AllMatched(lrows, rrows, key)
    ensures |MergeRows(lrows, rrows, key)| == |lrows|
    ensures forall j :: 0 <= j < |lrows| ==>
      MergeRows(lrows, rrows, key)[j] == Combine(lrows[j], Matching(rrows, key, lrows[j][key])[0], key)
  {
    MergeRowsLength(lrows, rrows, key);
    forall j | 0 <= j < |lrows|
      ensures MergeRows(lrows, rrows, key)[j] == Combine(lrows[j], Matching(rrows, key, lrows[j][key])[0], key)
    {
      MergeRowsAt(lrows, rrows, key, j);
    }
  }

  /**
   * When the right frame's key values are unique and every left row has a
   * partner, an inner merge keeps the left rows one for one, each extended with
   * its partner.
   */
  lemma MergeUnique(left: Frame, right: Frame, key: string)
    requires Valid(left) && Valid(right) && Joinable(left, right, key) && UniqueKey(right.rows, key)
    requires Partnered(left.rows, right.rows, key)
    ensures Merge(left, right, key).Ok?
    ensures |Merge(left, right, key).value.rows| == |left.rows|
    ensures forall j, k | 0 <= j < |left.rows| && 0 <= k < |right.rows| && SameKey(left.rows[j], right.rows[k], key) ::
              Merge(left, right, key).value.rows[j] == Combine(left.rows[j], right.rows[k], key)
  {
    var out := Merge(left, right, key).value.rows;
    assert AllMatched(left.rows, right.rows, key) by {
      forall j | 0 <= j < |left.rows| ensures Matching(right.rows, key, left.rows[j][key]) != [] {
        var k :| 0 <= k < |right.rows| && SameKey(left.rows[j], right.rows[k], key);
        MatchingMembership(right.rows, key, left.rows[j][key]);
      }
    }
    MergeRowsUnique(left.rows, right.rows, key);
    forall j, k | 0 <= j < |left.rows| && 0 <= k < |right.rows| && SameKey(left.rows[j], right.rows[k], key)
      ensures out[j] == Combine(left.rows[j], right.rows[k], key)
    {
      MatchingSingle(right.rows, key, left.rows[j][key], k);
    }
  }

  /** The left rows that have a partner, in order: the rows an inner merge keeps. */
  function Partners(lrows: seq<Record>, rrows: seq<Record>, key: string): seq<Record>
    decreases |lrows|
  {
    if lrows == [] then []
    else (if HasPartner(lrows[0], rrows, key) then [lrows[0]] else []) + Partners(lrows[1..], rrows, key)
  }

  /** A row is kept exactly when it is a left row with a partner. */
  lemma {:induction false} PartnersMembership(lrows: seq<Record>, rrows: seq<Record>, key: string)
    ensures forall l :: l in Partners(lrows, rrows, key) <==> l in lrows && HasPartner(l, rrows, key)
    decreases |lrows|
  {
    if lrows != [] {
      PartnersMembership(lrows[1..], rrows, key);
      assert forall l :: l in lrows <==> l == lrows[0] || l in lrows[1..];
    }
  }

  /** No row is left out exactly when every left row has a partner; then all are kept as they are. */
  lemma {:induction false} PartnersLength(lrows: seq<Record>, rrows: seq<Record>, key: string)
    ensures |Partners(lrows, rrows, key)| <= |lrows|
    ensures |Partners(lrows, rrows, key)| == |lrows| <==> Partnered(lrows, rrows, key)
    ensures Partnered(lrows, rrows, key) ==> Partners(lrows, rrows, key) == lrows
    decreases |lrows|
  {
    if lrows != [] {
      PartnersLength(lrows[1..], rrows, key);
      if Partnered(lrows, rrows, key) {
        assert Partnered(lrows[1..], rrows, key) by {
          forall j | 0 <= j < |lrows[1..]| ensures HasPartner(lrows[1..][j], rrows, key) {
            assert lrows[1..][j] == lrows[j + 1];
          }
        }
        assert lrows == [lrows[0]] + lrows[1..];
      } else if Partnered(lrows[1..], rrows, key) {
        assert !HasPartner(lrows[0], rrows, key) by {
          forall j | 1 <= j < |lrows| ensures HasPartner(lrows[j], rrows, key) {
            assert lrows[1..][j - 1] == lrows[j];
          }
        }
      }
    }
  }

  /** A left row holding the key has a partner exactly when some right row matches its key value. */
  lemma PartnerMatching(l: Record, rrows: seq<Record>, key: string)
    requires key in l
    ensures HasPartner(l, rrows, key) <==> Matching(rrows, key, l[key]) != []
  {
    MatchingMembership(rrows, key, l[key]);
    if HasPartner(l, rrows, key) {
      var k :| 0 <= k < |rrows| && SameKey(l, rrows[k], key);
      assert rrows[k] in Matching(rrows, key, l[key]);
    }
  }

  /** The kept rows all have a partner and share the labels of the left rows. */
  lemma PartnersShape(lrows: seq<Record>, rrows: seq<Record>, key: string, keys: set<string>)
    requires forall i :: 0 <= i < |lrows| ==> lrows[i].Keys == keys
    ensures Partnered(Partners(lrows, rrows, key), rrows, key)
    ensures forall j :: 0 <= j < |Partners(lrows, rrows, key)| ==> Partners(lrows, rrows, key)[j].Keys == keys
  {
    var ps := Partners(lrows, rrows, key);
    PartnersMembership(lrows, rrows, key);
    forall j | 0 <= j < |ps| ensures HasPartner(ps[j], rrows, key) && ps[j].Keys == keys {
      assert ps[j] in ps;
      var i :| 0 <= i < |lrows| && lrows[i] == ps[j];
    }
  }

  /** A left row without a partner contributes nothing to a merge, so merging only the kept rows gives the same rows. */
  lemma {:induction false} MergeRowsPartners(lrows: seq<Record>, rrows: seq<Record>, key: string)
    requires HasKey(lrows, key)
    ensures HasKey(Partners(lrows, rrows, key), key)
    ensures MergeRows(lrows, rrows, key) == MergeRows(Partners(lrows, rrows, key), rrows, key)
    decreases |lrows|
  {
    var ps := Partners(lrows, rrows, key);
    PartnersMembership(lrows, rrows, key);
    forall j | 0 <= j < |ps| ensures key in ps[j] {
      assert ps[j] in ps;
    }
    if lrows != [] {
      var l := lrows[0];
      assert HasKey(lrows[1..], key);
      MergeRowsPartners(lrows[1..], rrows, key);
      PartnerMatching(l, rrows, key);
      if HasPartner(l, rrows, key) {
        assert ps == [l] + Partners(lrows[1..], rrows, key);
        assert ps[1..] == Partners(lrows[1..], rrows, key);
      } else {
        assert Pairings(l, Matching(rrows, key, l[key]), key) == [];
        assert MergeRows(lrows, rrows, key) == MergeRows(lrows[1..], rrows, key);
        assert ps == Partners(lrows[1..], rrows, key);
      }
    }
  }

  /**
   * With unique right keys, an inner merge keeps exactly the left rows that have
   * a partner, in order, each extended with its partner; a left row without a
   * partner gives no row.
   */
  lemma MergePartners(left: Frame, right: Frame, key: string)
    requires Valid(left) && Valid(right) && Joinable(left, right, key) && UniqueKey(right.rows, key)
    ensures Merge(left, right, key).Ok?
    ensures |Merge(left, right, key).value.rows| == |Partners(left.rows, right.rows, key)|
    ensures forall j, k | 0 <= j < |Partners(left.rows, right.rows, key)| && 0 <= k < |right.rows|
                          && SameKey(Partners(left.rows, right.rows, key)[j], right.rows[k], key) ::
              Merge(left, right, key).value.rows[j] == Combine(Partners(left.rows, right.rows, key)[j], right.rows[k], key)
  {
    var kept := Frame(left.columns, Partners(left.rows, right.rows, key));
    assert HasKey(left.rows, key);
    MergeRowsPartners(left.rows, right.rows, key);
    PartnersShape(left.rows, right.rows, key, Elements(left.columns));
    assert Valid(kept);
    MergeUnique(kept, right, key);
  }

  /** Rows that keep the key values of the rows they came from keep which of them have partners. */
  lemma HasPartnerKept(ls: seq<Record>, rs: seq<Record>, lrows: seq<Record>, rrows: seq<Record>, key: string,
                       ldropped: set<string>, rdropped: set<string>, j: int)
    requires KeepsValues(ls, lrows, ldropped) && KeepsValues(rs, rrows, rdropped)
    requires key !in ldropped && key !in rdropped && HasKey(lrows, key) && HasKey(rrows, key) && 0 <= j < |lrows|
    ensures HasPartner(ls[j], rs, key) <==> HasPartner(lrows[j], rrows, key)
  {
    if HasPartner(ls[j], rs, key) {
      var k :| 0 <= k < |rs| && SameKey(ls[j], rs[k], key);
      assert SameKey(lrows[j], rrows[k], key);
    }
    if HasPartner(lrows[j], rrows, key) {
      var k :| 0 <= k < |rrows| && SameKey(lrows[j], rrows[k], key);
      assert SameKey(ls[j], rs[k], key);
    }
  }

  lemma KeepsValuesTail(out: seq<Record>, rows: seq<Record>, dropped: set<string>)
    requires KeepsValues(out, rows, dropped) && rows != []
    ensures KeepsValues(out[1..], rows[1..], dropped)
  {
    forall j, c | 0 <= j < |rows[1..]| && c in rows[1..][j] && c !in dropped
      ensures c in out[1..][j] && out[1..][j][c] == rows[1..][j][c]
    {
      assert rows[1..][j] == rows[j + 1] && out[1..][j] == out[j + 1];
    }
  }

  lemma KeepsValuesCons(o: Record, out: seq<Record>, r: Record, rows: seq<Record>, dropped: set<string>)
    requires forall c | c in r && c !in dropped :: c in o && o[c] == r[c]
    requires KeepsValues(out, rows, dropped)
    ensures KeepsValues([o] + out, [r] + rows, dropped)
  {
    forall j, c | 0 <= j < |[r] + rows| && c in ([r] + rows)[j] && c !in dropped
      ensures c in ([o] + out)[j] && ([o] + out)[j][c] == ([r] + rows)[j][c]
    {
      if j > 0 {
        assert ([r] + rows)[j] == rows[j - 1] && ([o] + out)[j] == out[j - 1];
      }
    }
  }

  /** Rows that keep the values of the rows they came from keep them in the kept rows too. */
  lemma {:induction false} PartnersKept(ls: seq<Record>, rs: seq<Record>, lrows: seq<Record>, rrows: seq<Record>, key: string,
                                         ldropped: set<string>, rdropped: set<string>)
    requires KeepsValues(ls, lrows, ldropped) && KeepsValues(rs, rrows, rdropped)
    requires key !in ldropped && key !in rdropped && HasKey(lrows, key) && HasKey(rrows, key)
    ensures KeepsValues(Partners(ls, rs, key), Partners(lrows, rrows, key), ldropped)
    decreases |lrows|
  {
    if lrows != [] {
      KeepsValuesTail(ls, lrows, ldropped);
      assert HasKey(lrows[1..], key);
      PartnersKept(ls[1..], rs, lrows[1..], rrows, key, ldropped, rdropped);
      HasPartnerKept(ls, rs, lrows, rrows, key, ldropped, rdropped, 0);
      if HasPartner(lrows[0], rrows, key) {
        KeepsValuesCons(ls[0], Partners(ls[1..], rs, key), lrows[0], Partners(lrows[1..], rrows, key), ldropped);
      }
    }
  }

  /** Rows that keep the key of the rows they came from keep their partners. */
  lemma PartneredKept(ls: seq<Record>, rs: seq<Record>, lrows: seq<Record>, rrows: seq<Record>, key: string,
                      ldropped: set<string>, rdropped: set<string>)
    requires KeepsValues(ls, lrows, ldropped) && KeepsValues(rs, rrows, rdropped)
    requires key !in ldropped && key !in rdropped && Partnered(lrows, rrows, key)
    ensures Partnered(ls, rs, key)
  {
    forall j | 0 <= j < |ls| ensures HasPartner(ls[j], rs, key) {
      var k :| 0 <= k < |rrows| && SameKey(lrows[j], rrows[k], key);
      assert SameKey(ls[j], rs[k], key);
    }
  }

  /** Rows that keep a key every original row holds keep its uniqueness. */
  lemma UniqueKeyKept(rs: seq<Record>, rrows: seq<Record>, key: string, dropped: set<string>)
    requires KeepsValues(rs, rrows, dropped) && key !in dropped && HasKey(rrows, key) && UniqueKey(rrows, key)
    ensures UniqueKey(rs, key)
  {
    forall i, k | 0 <= i < k < |rs| && key in rs[i] && key in rs[k] ensures rs[i][key] != rs[k][key] {
      assert key in rrows[i] && key in rrows[k];
    }
  }

  /**
   * With unique right keys, a left join keeps every value of each left row, adds
   * every non-key value of its partner, and pads a row without a partner with
   * missing values under every other right label.
   */
  lemma LeftJoinValues(left: Frame, right: Frame, key: string)
    requires Valid(left) && Valid(right) && Joinable(left, right, key) && UniqueKey(right.rows, key)
    ensures LeftJoin(left, right, key).Ok?
    ensures KeepsValues(LeftJoin(left, right, key).value.rows, left.rows, {})
    ensures KeepsPartnerValues(LeftJoin(left, right, key).value.rows, left.rows, right.rows, key, {key})
    ensures PadsUnpartnered(LeftJoin(left, right, key).value.rows, left.rows, right.rows, key, Elements(right.columns) - {key})
  {
    var fill := Fill(Remove(right.columns, {key}));
    LeftJoinUnique(left, right, key);
    JoinableDisjoint(left, right, key);
    assert forall j, c | 0 <= j < |left.rows| && c in left.rows[j] :: c !in fill by {
      assert forall j :: 0 <= j < |left.rows| ==> left.rows[j].Keys == Elements(left.columns);
    }
    JoinedValues(LeftJoin(left, right, key).value.rows, left.rows, right.rows, key, fill);
  }

  /** In frames that can be joined, a row of each side shares no label but the key. */
  lemma JoinableDisjoint(left: Frame, right: Frame, key: string)
    requires Valid(left) && Valid(right) && Joinable(left, right, key)
    ensures forall j, k, c | 0 <= j < |left.rows| && 0 <= k < |right.rows| && c in left.rows[j] && c in right.rows[k] :: c == key
  {
  }

  /**
   * A merge whose rows pair each left row with its one partner, the key then
   * removed, keeps the values the left and the right rows kept of the rows they
   * came from.
   */
  lemma MergedValues(out: seq<Record>, ls: seq<Record>, rs: seq<Record>, lrows: seq<Record>, rrows: seq<Record>,
                     key: string, ldropped: set<string>, rdropped: set<string>)
    requires KeepsValues(ls, lrows, ldropped) && KeepsValues(rs, rrows, rdropped)
    requires key !in ldropped && key !in rdropped && Partnered(ls, rs, key)
    requires forall j, k, c | 0 <= j < |ls| && 0 <= k < |rs| && c in ls[j] && c in rs[k] :: c == key
    requires |out| == |ls|
    requires forall j, k | 0 <= j < |ls| && 0 <= k < |rs| && SameKey(ls[j], rs[k], key) :: out[j] == Combine(ls[j], rs[k], key) - {key}
    ensures KeepsValues(out, lrows, ldropped + {key})
    ensures KeepsPartnerValues(out, lrows, rrows, key, rdropped + {key})
  {
    forall j, c | 0 <= j < |lrows| && c in lrows[j] && c !in ldropped + {key}
      ensures c in out[j] && out[j][c] == lrows[j][c]
    {
      var k :| 0 <= k < |rs| && SameKey(ls[j], rs[k], key);
      assert c in ls[j] && c !in rs[k];
      assert out[j] == Combine(ls[j], rs[k], key) - {key};
    }
    forall j, k, c | 0 <= j < |lrows| && 0 <= k < |rrows| && SameKey(lrows[j], rrows[k], key) && c in rrows[k] && c !in rdropped + {key}
      ensures c in out[j] && out[j][c] == rrows[k][c]
    {
      assert SameKey(ls[j], rs[k], key);
      assert c in rs[k] && rs[k][c] == rrows[k][c];
      assert out[j] == Combine(ls[j], rs[k], key) - {key};
    }
  }

  /**
   * A join whose rows extend each left row with its one partner, or pad it when
   * it has none, keeps every left value, adds every non-key value of the
   * partner, and pads with missing values under the right frame's other labels.
   */
  lemma JoinedValues(out: seq<Record>, lrows: seq<Record>, rrows: seq<Record>, key: string, fill: Record)
    requires |out| == |lrows|
    requires forall j, k | 0 <= j < |lrows| && 0 <= k < |rrows| && SameKey(lrows[j], rrows[k], key) ::
      out[j] == Combine(lrows[j], rrows[k], key)
    requires forall j | 0 <= j < |lrows| && !HasPartner(lrows[j], rrows, key) :: out[j] == lrows[j] + fill
    requires forall j, k, c | 0 <= j < |lrows| && 0 <= k < |rrows| && c in lrows[j] && c in rrows[k] :: c == key
    requires forall j, c | 0 <= j < |lrows| && c in lrows[j] :: c !in fill
    requires forall c | c in fill :: fill[c] == Missing
    ensures KeepsValues(out, lrows, {})
    ensures KeepsPartnerValues(out, lrows, rrows, key, {key})
    ensures PadsUnpartnered(out, lrows, rrows, key, fill.Keys)
  {
    forall j, c | 0 <= j < |lrows| && c in lrows[j] ensures c in out[j] && out[j][c] == lrows[j][c] {
      if HasPartner(lrows[j], rrows, key) {
        var k :| 0 <= k < |rrows| && SameKey(lrows[j], rrows[k], key);
        assert out[j] == Combine(lrows[j], rrows[k], key);
      }
    }
  }
}
