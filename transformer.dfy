/**
 * The transform stage: the staged-file completeness check, the per-table
 * reshaping of the ingested frames, and the synthetic date dimension.
 *
 * Two versions of the stage exist, transform_lambda and transforming_lambda.
 * They share the file list, the design and address reshaping and the date
 * dimension; they differ in the currency reshaping (transform_lambda joins the
 * currency names in, transforming_lambda only drops the audit columns), in the
 * completeness error message, and in that only transform_lambda reshapes staff.
 */
module Transformer {
  import opened Results
  import opened Records
  import opened Frames
  import opened Calendar
  import opened Extraction

  /** The bookkeeping columns every source table carries and no output keeps. */
  const AUDIT_COLUMNS: seq<string> := ["created_at", "last_updated"]

  /** The staged files, one per source table, in the order they are processed. */
  const FILE_LIST: seq<string> :=
    ["address", "design", "counterparty", "purchase_order", "staff", "sales_order",
     "payment", "transaction", "payment_type", "currency", "department"]

  /** The messages of the completeness error, in transform_lambda and in transforming_lambda. */
  const FILES_NOT_COMPLETE := "ERROR: Files are not complete"
  const FILES_NOT_COMPLETE_PLAIN := "Files are not complete"

  /** Every staged file is among the listed object keys. */
  predicate Complete(keys: seq<string>) {
    forall i :: 0 <= i < |FILE_LIST| ==> FILE_LIST[i] in keys
  }

  /**
   * The completeness check over a bucket listing. `contents` is the listing's
   * object keys, or None when the response has no "Contents" entry (an empty
   * bucket), which raises KeyError. Otherwise the files are checked in order and
   * the first missing one raises `message` (FILES_NOT_COMPLETE in
   * transform_lambda, FILES_NOT_COMPLETE_PLAIN in transforming_lambda); when none
   * is missing the file list is returned.
   */
  method ListCsvFiles(contents: Option<seq<string>>, message: string) returns (r: Result<seq<string>>)
    ensures contents.None? ==> r == Err(KeyNotFound("Contents"))
    ensures contents.Some? ==> (r.Ok? <==> Complete(contents.value))
    ensures contents.Some? && r.Err? ==> r.error == FilesNotComplete(message)
    ensures r.Ok? ==> r.value == FILE_LIST
  {
    if contents.None? {
      return Err(KeyNotFound("Contents"));
    }
    var keys := contents.value;
    var i := 0;
    while i < |FILE_LIST|
      invariant 0 <= i <= |FILE_LIST|
      invariant forall k :: 0 <= k < i ==> FILE_LIST[k] in keys
    {
      if FILE_LIST[i] !in keys {
        return Err(FilesNotComplete(message));
      }
      i := i + 1;
    }
    return Ok(FILE_LIST);
  }

  /** A listing lacking one of the files fails the check, whatever else it holds. */
  lemma IncompleteListing(keys: seq<string>, i: int)
    requires 0 <= i < |FILE_LIST| && FILE_LIST[i] !in keys
    ensures !Complete(keys)
  {
  }

  /** The listing of exactly the staged files is complete. */
  lemma FileListComplete()
    ensures Complete(FILE_LIST)
    ensures |FILE_LIST| == 11 && Distinct(FILE_LIST)
  {
  }

  predicate HasAudit(f: Frame) {
    "created_at" in f.columns && "last_updated" in f.columns
  }

  /**
   * Drops the two audit columns: transform_design in both versions, and
   * transform_currency of transforming_lambda. Fails with KeyError naming the audit
   * columns the frame lacks; otherwise keeps every row in order with every other
   * value, and keeps the other labels in order.
   */
  function DropAudit(f: Frame): (r: Result<Frame>)
    requires Valid(f)
    ensures r.Ok? <==> HasAudit(f)
    ensures r.Err? ==> r.error.ColumnsNotFound? && Elements(r.error.labels) == Elements(AUDIT_COLUMNS) - Elements(f.columns)
    ensures r.Ok? ==> Valid(r.value) && |r.value.columns| == |f.columns| - 2
    ensures r.Ok? ==> Elements(r.value.columns) == Elements(f.columns) - {"created_at", "last_updated"}
    ensures r.Ok? ==> KeepsValues(r.value.rows, f.rows, {"created_at", "last_updated"})
  {
    assert Elements(AUDIT_COLUMNS) == {"created_at", "last_updated"};
    if HasAudit(f) then
      DropColumnCount(f, AUDIT_COLUMNS);
      Drop(f, AUDIT_COLUMNS)
    else
      Drop(f, AUDIT_COLUMNS)
  }

  /**
   * transform_address: drops the audit columns, then renames `address_id` to
   * `location_id`; every row keeps its values, the key's value now under the new
   * label.
   */
  function TransformAddress(f: Frame): (r: Result<Frame>)
    requires Valid(f)
    ensures r.Ok? <==> HasAudit(f)
    ensures r.Err? ==> r.error.ColumnsNotFound? && Elements(r.error.labels) == Elements(AUDIT_COLUMNS) - Elements(f.columns)
    ensures r.Ok? && "location_id" !in f.columns ==> Valid(r.value)
    ensures r.Ok? && "address_id" in f.columns ==>
      Elements(r.value.columns) == Elements(f.columns) - {"created_at", "last_updated", "address_id"} + {"location_id"}
    ensures r.Ok? && "address_id" in f.columns ==>
      && |r.value.rows| == |f.rows|
      && forall j :: 0 <= j < |f.rows| ==> "location_id" in r.value.rows[j] && r.value.rows[j]["location_id"] == f.rows[j]["address_id"]
    ensures r.Ok? ==> KeepsValues(r.value.rows, f.rows, {"created_at", "last_updated", "address_id", "location_id"})
    ensures r.Ok? && "address_id" !in f.columns ==> r == DropAudit(f)
  {
    var dropped := DropAudit(f);
    if dropped.Err? then Err(dropped.error)
    else
      var g := dropped.value;
      if "address_id" in f.columns then
        assert "address_id" in Elements(g.columns);
        assert forall j :: 0 <= j < |f.rows| ==> "address_id" in f.rows[j];
        var out := Rename(g, "address_id", "location_id");
        KeepsValuesCompose(out.rows, g.rows, f.rows, {"address_id", "location_id"}, {"created_at", "last_updated"});
        assert {"address_id", "location_id"} + {"created_at", "last_updated"}
          == {"created_at", "last_updated", "address_id", "location_id"};
        Ok(out)
      else
        Ok(Rename(g, "address_id", "location_id"))
  }

  /** The reference table of currency names is keyed by currency code. */
  predicate CurrencyInfo(info: Frame) {
    Valid(info) && info.columns == ["currency_code", "currency_name"] && UniqueKey(info.rows, "currency_code")
  }

  /**
   * transform_currency of transform_lambda: left-joins the reference table on
   * `currency_code`, then drops the audit columns. The reference table is a
   * parameter here; the stage reads it from a file beside the code.
   */
  function TransformCurrency(f: Frame, info: Frame): (r: Result<Frame>)
    requires Valid(f) && Valid(info)
    ensures Joinable(f, info, "currency_code") && HasAudit(f) ==> r.Ok?
    ensures !Joinable(f, info, "currency_code") ==> r == Err(JoinError(f, info, "currency_code"))
    ensures r.Ok? ==> Valid(r.value) && |r.value.rows| >= |f.rows|
    ensures r.Ok? ==>
      Elements(r.value.columns) == Elements(f.columns) + (Elements(info.columns) - {"currency_code"}) - {"created_at", "last_updated"}
  {
    var joined := LeftJoin(f, info, "currency_code");
    if joined.Err? then Err(joined.error)
    else
      JoinedColumnsDistinct(f, info, "currency_code");
      assert HasAudit(f) ==> HasAudit(joined.value) by {
        assert Elements(f.columns) <= Elements(joined.value.columns);
      }
      DropAudit(joined.value)
  }

  /**
   * transform_staff: drops the audit columns of staff, the audit columns and
   * `manager` of department, merges the two on `department_id` (inner), and
   * drops `department_id` from the result.
   */
  function TransformStaff(staff: Frame, department: Frame): (r: Result<Frame>)
    requires Valid(staff) && Valid(department)
    ensures r.Ok? ==> HasAudit(staff) && HasAudit(department) && "manager" in department.columns
    ensures r.Ok? ==> Valid(r.value) && "department_id" !in r.value.columns
    ensures r.Ok? ==>
      Elements(r.value.columns) == (Elements(staff.columns) - STAFF_DROPPED_OWN) + (Elements(department.columns) - DEPARTMENT_DROPPED_ALL)
  {
    var s := DropAudit(staff);
    var d := Drop(department, DEPARTMENT_DROPPED);
    if s.Err? then Err(s.error)
    else if d.Err? then Err(d.error)
    else
      assert HasAudit(department) && "manager" in department.columns
        && Elements(d.value.columns) == Elements(department.columns) - {"created_at", "last_updated", "manager"} by {
        DepartmentDropped(department);
      }
      var out := MergeDepartment(s.value, d.value);
      assert out.Ok? ==>
        Elements(out.value.columns) == (Elements(staff.columns) - STAFF_DROPPED_OWN) + (Elements(department.columns) - DEPARTMENT_DROPPED_ALL) by {
        StaffColumnAlgebra(Elements(staff.columns), Elements(department.columns));
      }
      out
  }

  /** The merge on `department_id` and the removal of that key from the merged frame. */
  function MergeDepartment(staff: Frame, department: Frame): (r: Result<Frame>)
    requires Valid(staff) && Valid(department)
    ensures r.Ok? <==> Joinable(staff, department, "department_id")
    ensures r.Ok? ==> Valid(r.value) && "department_id" !in r.value.columns
    ensures r.Ok? ==> Elements(r.value.columns) == Elements(staff.columns) + Elements(department.columns) - {"department_id"}
  {
    var merged := Merge(staff, department, "department_id");
    if merged.Err? then Err(merged.error)
    else
      JoinedColumnsDistinct(staff, department, "department_id");
      Drop(merged.value, ["department_id"])
  }

  /** The labels transform_staff removes from the department frame before the merge. */
  const DEPARTMENT_DROPPED: seq<string> := ["created_at", "last_updated", "manager"]

  /** The labels of each input that transform_staff's result lacks. */
  const STAFF_DROPPED_OWN: set<string> := {"created_at", "last_updated", "department_id"}
  const DEPARTMENT_DROPPED_ALL: set<string> := {"created_at", "last_updated", "manager", "department_id"}

  lemma DepartmentDropped(department: Frame)
    requires Drop(department, DEPARTMENT_DROPPED).Ok?
    ensures HasAudit(department) && "manager" in department.columns
    ensures Elements(Drop(department, DEPARTMENT_DROPPED).value.columns)
      == Elements(department.columns) - {"created_at", "last_updated", "manager"}
    ensures Elements(DEPARTMENT_DROPPED) == {"created_at", "last_updated", "manager"}
  {
    assert Elements(DEPARTMENT_DROPPED) == {"created_at", "last_updated", "manager"};
  }

  lemma StaffColumnAlgebra(staff: set<string>, department: set<string>)
    ensures (staff - {"created_at", "last_updated"}) + ((department - {"created_at", "last_updated", "manager"}) - {"department_id"}) - {"department_id"}
      == (staff - STAFF_DROPPED_OWN) + (department - DEPARTMENT_DROPPED_ALL)
  {
  }

  /**
   * create_dim_date: the date dimension over [from, to] as a frame of eight
   * columns, one row per day in order. A bound that is not a calendar day, or
   * lies outside what a pandas timestamp can hold, fails.
   */
  function CreateDimDate(from: Date, to: Date): (r: Result<Frame>)
    ensures r.Ok? <==> Representable(from) && Representable(to)
    ensures r.Err? ==> r.error == BoundError(from, to)
    ensures r.Ok? ==> Valid(r.value) && r.value.columns == DIM_DATE_COLUMNS
    ensures r.Ok? ==> |r.value.rows| == Span(from, to)
    ensures r.Ok? ==> forall j :: 0 <= j < Span(from, to) ==> r.value.rows[j] == RowRecord(RowOf(AddDays(from, j)))
  {
    if Representable(from) && Representable(to) then Ok(DimDateFrame(DimDate(from, to)))
    else Err(BoundError(from, to))
  }

  // The label sets of the extracted tables and of what each reshaping leaves of them.

  lemma CurrencyColumnSet()
    ensures Elements(CURRENCY_COLUMNS) == {"currency_id", "currency_code", "created_at", "last_updated"}
  {
  }

  lemma StaffColumnSet()
    ensures Elements(STAFF_COLUMNS) ==
      {"staff_id", "first_name", "last_name", "department_id", "email_address", "created_at", "last_updated"}
  {
  }

  lemma DepartmentColumnSet()
    ensures Elements(DEPARTMENT_COLUMNS) ==
      {"department_id", "department_name", "location", "manager", "created_at", "last_updated"}
  {
  }

  lemma AddressLacksLocation()
    ensures "location_id" !in ADDRESS_COLUMNS
  {
  }

  lemma CurrencyLacksName()
    ensures "currency_name" !in CURRENCY_COLUMNS
  {
  }

  lemma StaffLacksDepartmentDetails()
    ensures "department_name" !in STAFF_COLUMNS && "location" !in STAFF_COLUMNS
  {
  }

  lemma DesignAlgebra()
    ensures {"design_id", "created_at", "last_updated", "design_name", "file_location", "file_name"} - {"created_at", "last_updated"}
      == {"design_id", "design_name", "file_location", "file_name"}
  {
  }

  lemma PlainCurrencyAlgebra()
    ensures {"currency_id", "currency_code", "created_at", "last_updated"} - {"created_at", "last_updated"}
      == {"currency_id", "currency_code"}
  {
  }

  lemma AddressAlgebra()
    ensures
      {"address_id", "address_line_1", "address_line_2", "district", "city", "postal_code", "country", "phone", "created_at", "last_updated"}
        - {"created_at", "last_updated", "address_id"} + {"location_id"}
      == {"location_id", "address_line_1", "address_line_2", "district", "city", "postal_code", "country", "phone"}
  {
  }

  lemma CurrencyAlgebra()
    ensures
      {"currency_id", "currency_code", "created_at", "last_updated"} + ({"currency_code", "currency_name"} - {"currency_code"})
        - {"created_at", "last_updated"}
      == {"currency_id", "currency_code", "currency_name"}
  {
  }

  lemma StaffAlgebra()
    ensures
      ({"staff_id", "first_name", "last_name", "department_id", "email_address", "created_at", "last_updated"} - STAFF_DROPPED_OWN)
        + ({"department_id", "department_name", "location", "manager", "created_at", "last_updated"} - DEPARTMENT_DROPPED_ALL)
      == {"staff_id", "first_name", "last_name", "email_address", "department_name", "location"}
  {
  }

  /** transform_design on the design table as extracted: four columns, one row per design. */
  lemma DesignShape(f: Frame)
    requires Valid(f) && f.columns == DESIGN_COLUMNS
    ensures DropAudit(f).Ok?
    ensures |DropAudit(f).value.columns| == 4 && |DropAudit(f).value.rows| == |f.rows|
    ensures Elements(DropAudit(f).value.columns) == {"design_id", "design_name", "file_location", "file_name"}
  {
    DesignKeys();
    DesignAlgebra();
  }

  /** The transform_currency of transforming_lambda on the currency table as extracted: the id and the code remain. */
  lemma PlainCurrencyShape(f: Frame)
    requires Valid(f) && f.columns == CURRENCY_COLUMNS
    ensures DropAudit(f).Ok?
    ensures |DropAudit(f).value.columns| == 2 && |DropAudit(f).value.rows| == |f.rows|
    ensures Elements(DropAudit(f).value.columns) == {"currency_id", "currency_code"}
  {
    CurrencyColumnSet();
    PlainCurrencyAlgebra();
  }

  /** The labels transform_address gives the address table, in order. */
  const LOCATION_COLUMNS: seq<string> :=
    ["location_id", "address_line_1", "address_line_2", "district", "city", "postal_code", "country", "phone"]

  /**
   * transform_address on the address table as extracted: the eight labels in
   * order, the renamed key first, one row per address.
   */
  lemma AddressShape(f: Frame)
    requires Valid(f) && f.columns == ADDRESS_COLUMNS
    ensures TransformAddress(f).Ok? && Valid(TransformAddress(f).value)
    ensures TransformAddress(f).value.columns == LOCATION_COLUMNS
    ensures |TransformAddress(f).value.rows| == |f.rows|
  {
    AddressKeys();
    AddressAlgebra();
    AddressLacksLocation();
    AddressColumnOrder(f);
  }

  /** The labels of the address frame, after the audit columns are dropped and the key is renamed. */
  lemma AddressColumnOrder(f: Frame)
    requires Valid(f) && f.columns == ADDRESS_COLUMNS && TransformAddress(f).Ok?
    ensures TransformAddress(f).value.columns == LOCATION_COLUMNS
  {
    var g := DropAudit(f).value;
    AddressDroppedColumns(f);
    assert "address_id" in f.columns;
    assert TransformAddress(f) == Ok(Rename(g, "address_id", "location_id"));
    RenameColumns(g, "address_id", "location_id");
    AddressRenamedLabels();
  }

  lemma AddressDroppedColumns(f: Frame)
    requires Valid(f) && f.columns == ADDRESS_COLUMNS && DropAudit(f).Ok?
    ensures DropAudit(f).value.columns == ADDRESS_COLUMNS[..8]
  {
    assert DropAudit(f) == Drop(f, AUDIT_COLUMNS);
    AuditLabels();
    AddressRemoveAudit();
  }

  lemma AuditLabels()
    ensures Elements(AUDIT_COLUMNS) == {"created_at", "last_updated"}
  {
    assert Elements(AUDIT_COLUMNS) == {"created_at", "last_updated"};
  }

  lemma AddressRemoveAudit()
    ensures Remove(ADDRESS_COLUMNS, {"created_at", "last_updated"}) == ADDRESS_COLUMNS[..8]
  {
    RemoveSuffix(ADDRESS_COLUMNS, 8, {"created_at", "last_updated"});
  }

  lemma AddressRenamedLabels()
    ensures RenameLabels(ADDRESS_COLUMNS[..8], "address_id", "location_id") == LOCATION_COLUMNS
  {
  }

  /**
   * The transform_currency of transform_lambda on the currency table as extracted and the
   * reference table: three columns, one row per currency.
   */
  lemma CurrencyShape(f: Frame, info: Frame)
    requires Valid(f) && f.columns == CURRENCY_COLUMNS && CurrencyInfo(info)
    ensures TransformCurrency(f, info).Ok?
    ensures |TransformCurrency(f, info).value.rows| == |f.rows|
    ensures Elements(TransformCurrency(f, info).value.columns) == {"currency_id", "currency_code", "currency_name"}
  {
    CurrencyColumnSet();
    CurrencyAlgebra();
    CurrencyLacksName();
    CurrencyInfoColumns(info);
    CurrencyRows(f, info);
  }

  lemma CurrencyInfoColumns(info: Frame)
    requires CurrencyInfo(info)
    ensures Elements(info.columns) == {"currency_code", "currency_name"}
    ensures Elements(info.columns) - {"currency_code"} == {"currency_name"}
  {
    assert Elements(info.columns) == {"currency_code", "currency_name"};
  }

  /**
   * With a reference table keyed by currency code, transform_currency keeps one
   * row per currency, in order, holding its own values but the audit columns,
   * the name the reference table gives its code, and a missing name when the
   * table lacks the code.
   */
  lemma CurrencyRows(f: Frame, info: Frame)
    requires Valid(f) && CurrencyInfo(info) && TransformCurrency(f, info).Ok?
    ensures KeepsValues(TransformCurrency(f, info).value.rows, f.rows, Elements(AUDIT_COLUMNS))
    ensures KeepsPartnerValues(TransformCurrency(f, info).value.rows, f.rows, info.rows, "currency_code",
                               Elements(AUDIT_COLUMNS) + {"currency_code"})
    ensures PadsUnpartnered(TransformCurrency(f, info).value.rows, f.rows, info.rows, "currency_code", {"currency_name"})
  {
    var key := "currency_code";
    var audit := Elements(AUDIT_COLUMNS);
    LeftJoinValues(f, info, key);
    var joined := LeftJoin(f, info, key).value;
    assert TransformCurrency(f, info) == Drop(joined, AUDIT_COLUMNS);
    DropKeepsValues(joined, AUDIT_COLUMNS);
    CurrencyInfoColumns(info);
    assert audit == {"created_at", "last_updated"};
    JoinedThenDropped(TransformCurrency(f, info).value.rows, joined.rows, f.rows, info.rows, key, audit, {"currency_name"});
  }

  /** What a left join keeps and pads survives a drop of labels other than the padded ones. */
  lemma JoinedThenDropped(out: seq<Record>, joined: seq<Record>, lrows: seq<Record>, rrows: seq<Record>, key: string,
                          dropped: set<string>, padded: set<string>)
    requires KeepsValues(out, joined, dropped)
    requires KeepsValues(joined, lrows, {}) && KeepsPartnerValues(joined, lrows, rrows, key, {key})
    requires PadsUnpartnered(joined, lrows, rrows, key, padded) && padded !! dropped
    ensures KeepsValues(out, lrows, dropped)
    ensures KeepsPartnerValues(out, lrows, rrows, key, dropped + {key})
    ensures PadsUnpartnered(out, lrows, rrows, key, padded)
  {
    KeepsValuesCompose(out, joined, lrows, dropped, {});
    assert dropped + {} == dropped;
    KeepsPartnerValuesCompose(out, joined, lrows, rrows, key, dropped, {key});
    PadsUnpartneredCompose(out, joined, lrows, rrows, key, dropped, padded);
    assert padded - dropped == padded;
  }

  /** transform_staff on the staff and department tables as extracted: six columns. */
  lemma StaffShape(staff: Frame, department: Frame)
    requires Valid(staff) && staff.columns == STAFF_COLUMNS
    requires Valid(department) && department.columns == DEPARTMENT_COLUMNS
    ensures TransformStaff(staff, department).Ok?
    ensures Elements(TransformStaff(staff, department).value.columns) ==
      {"staff_id", "first_name", "last_name", "email_address", "department_name", "location"}
  {
    StaffColumnSet();
    DepartmentColumnSet();
    StaffAlgebra();
    StaffJoinable(staff, department);
  }

  lemma StaffJoinable(staff: Frame, department: Frame)
    requires Valid(staff) && staff.columns == STAFF_COLUMNS
    requires Valid(department) && department.columns == DEPARTMENT_COLUMNS
    ensures DropAudit(staff).Ok? && Drop(department, DEPARTMENT_DROPPED).Ok?
    ensures Joinable(DropAudit(staff).value, Drop(department, DEPARTMENT_DROPPED).value, "department_id")
  {
    StaffColumnSet();
    DepartmentColumnSet();
    StaffLacksDepartmentDetails();
    DepartmentDropped(department);
  }

  /**
   * When no two departments share an id, transform_staff keeps one row per staff
   * member whose department id some department holds, in order, and none for a
   * member whose id no department holds. A kept row holds the member's own
   * values but the audit columns and the department id, and the values of their
   * department but its audit columns, manager and id.
   */
  lemma StaffRows(staff: Frame, department: Frame)
    requires Valid(staff) && Valid(department)
    requires TransformStaff(staff, department).Ok?
    requires UniqueKey(department.rows, "department_id")
    ensures |TransformStaff(staff, department).value.rows| == |Partners(staff.rows, department.rows, "department_id")|
    ensures KeepsValues(TransformStaff(staff, department).value.rows,
                        Partners(staff.rows, department.rows, "department_id"), STAFF_DROPPED_OWN)
    ensures KeepsPartnerValues(TransformStaff(staff, department).value.rows,
                               Partners(staff.rows, department.rows, "department_id"), department.rows,
                               "department_id", DEPARTMENT_DROPPED_ALL)
  {
    StaffMergeInputs(staff, department);
    StaffDroppedSets();
    MergedStaffRows(staff.rows, department.rows, DropAudit(staff).value, Drop(department, DEPARTMENT_DROPPED).value,
                    TransformStaff(staff, department).value, Elements(AUDIT_COLUMNS), Elements(DEPARTMENT_DROPPED));
  }

  /** When every staff member's department exists, no staff row is lost. */
  lemma StaffRowsAllPartnered(staff: Frame, department: Frame)
    requires Valid(staff) && Valid(department)
    requires TransformStaff(staff, department).Ok?
    requires UniqueKey(department.rows, "department_id")
    ensures |TransformStaff(staff, department).value.rows| == |staff.rows| <==>
      Partnered(staff.rows, department.rows, "department_id")
  {
    StaffRows(staff, department);
    PartnersLength(staff.rows, department.rows, "department_id");
  }

  /** StaffRows over the two frames merged and the merge's result. */
  lemma MergedStaffRows(staff: seq<Record>, department: seq<Record>, s: Frame, d: Frame, out: Frame,
                        audit: set<string>, dropped: set<string>)
    requires Valid(s) && Valid(d) && MergeDepartment(s, d) == Ok(out)
    requires KeepsValues(s.rows, staff, audit) && KeepsValues(d.rows, department, dropped)
    requires "department_id" !in audit && "department_id" !in dropped
    requires HasKey(staff, "department_id") && HasKey(department, "department_id")
    requires UniqueKey(department, "department_id")
    ensures KeepsValues(out.rows, Partners(staff, department, "department_id"), audit + {"department_id"})
    ensures KeepsPartnerValues(out.rows, Partners(staff, department, "department_id"), department, "department_id",
                               dropped + {"department_id"})
  {
    var key := "department_id";
    var ps := Partners(s.rows, d.rows, key);
    UniqueKeyKept(d.rows, department, key, dropped);
    MergeDepartmentRows(s, d);
    PartnersKept(s.rows, d.rows, staff, department, key, audit, dropped);
    PartnersDisjoint(s, d, key);
    MergedValues(out.rows, ps, d.rows, Partners(staff, department, key), department, key, audit, dropped);
  }

  /** The kept rows of a frame that can be joined share only the key with the right rows, and all have partners. */
  lemma PartnersDisjoint(s: Frame, d: Frame, key: string)
    requires Valid(s) && Valid(d) && Joinable(s, d, key)
    ensures Partnered(Partners(s.rows, d.rows, key), d.rows, key)
    ensures forall j, k, c | 0 <= j < |Partners(s.rows, d.rows, key)| && 0 <= k < |d.rows|
                             && c in Partners(s.rows, d.rows, key)[j] && c in d.rows[k] :: c == key
  {
    PartnersShape(s.rows, d.rows, key, Elements(s.columns));
  }

  lemma StaffDroppedSets()
    ensures Elements(AUDIT_COLUMNS) + {"department_id"} == STAFF_DROPPED_OWN
    ensures Elements(DEPARTMENT_DROPPED) + {"department_id"} == DEPARTMENT_DROPPED_ALL
  {
    assert Elements(AUDIT_COLUMNS) == {"created_at", "last_updated"};
    assert Elements(DEPARTMENT_DROPPED) == {"created_at", "last_updated", "manager"};
  }

  /** The two frames transform_staff merges: what each keeps of its input, and that they can be merged. */
  lemma StaffMergeInputs(staff: Frame, department: Frame)
    requires Valid(staff) && Valid(department)
    requires TransformStaff(staff, department).Ok?
    ensures DropAudit(staff).Ok? && Drop(department, DEPARTMENT_DROPPED).Ok?
    ensures Valid(DropAudit(staff).value) && Valid(Drop(department, DEPARTMENT_DROPPED).value)
    ensures MergeDepartment(DropAudit(staff).value, Drop(department, DEPARTMENT_DROPPED).value)
      == TransformStaff(staff, department)
    ensures Joinable(DropAudit(staff).value, Drop(department, DEPARTMENT_DROPPED).value, "department_id")
    ensures KeepsValues(DropAudit(staff).value.rows, staff.rows, Elements(AUDIT_COLUMNS))
    ensures KeepsValues(Drop(department, DEPARTMENT_DROPPED).value.rows, department.rows, Elements(DEPARTMENT_DROPPED))
    ensures "department_id" !in Elements(AUDIT_COLUMNS) && "department_id" !in Elements(DEPARTMENT_DROPPED)
    ensures HasKey(staff.rows, "department_id") && HasKey(department.rows, "department_id")
  {
    var d := Drop(department, DEPARTMENT_DROPPED);
    assert DropAudit(staff) == Drop(staff, AUDIT_COLUMNS);
    DropKeepsValues(staff, AUDIT_COLUMNS);
    DropKeepsValues(department, DEPARTMENT_DROPPED);
    assert "department_id" in Elements(DropAudit(staff).value.columns);
    assert "department_id" in Elements(d.value.columns);
  }

  /**
   * Under unique department ids, the merge keeps one row per staff row with a
   * department, in order, combined with its department, the id removed.
   */
  lemma MergeDepartmentRows(s: Frame, d: Frame)
    requires Valid(s) && Valid(d) && MergeDepartment(s, d).Ok?
    requires UniqueKey(d.rows, "department_id")
    ensures |MergeDepartment(s, d).value.rows| == |Partners(s.rows, d.rows, "department_id")|
    ensures forall j, k | 0 <= j < |Partners(s.rows, d.rows, "department_id")| && 0 <= k < |d.rows|
                          && SameKey(Partners(s.rows, d.rows, "department_id")[j], d.rows[k], "department_id") ::
      MergeDepartment(s, d).value.rows[j] == Combine(Partners(s.rows, d.rows, "department_id")[j], d.rows[k], "department_id") - {"department_id"}
  {
    MergePartners(s, d, "department_id");
    assert Elements(["department_id"]) == {"department_id"};
  }

  /** create_dim_date with its default bounds: 180 rows of eight columns, the first for Thursday 3 November 2022. */
  lemma DefaultDimDateFrame()
    ensures CreateDimDate(DEFAULT_FROM, DEFAULT_TO).Ok?
    ensures |CreateDimDate(DEFAULT_FROM, DEFAULT_TO).value.rows| == 180
    ensures |CreateDimDate(DEFAULT_FROM, DEFAULT_TO).value.columns| == 8
    ensures CreateDimDate(DEFAULT_FROM, DEFAULT_TO).value.rows[0] ==
      RowRecord(DateRow(20221103, 2022, 11, 3, 3, "Thursday", "November", 4))
  {
    DefaultRepresentable();
    DefaultDimDate();
  }
}
