/**
 * The extractors: each runs a fixed projection over one source table and hands
 * the driver's column names and rows to create_dicts. The column names the
 * driver reports are those of the projection list, so an extractor is modelled
 * as CreateDicts(Projection(t), rows) with the rows as an abstract input.
 */
module Extraction {
  import opened Results
  import opened Records

  /** The closed set of source tables the extractors read. */
  datatype Table =
    | Address | Counterparty | Design | SalesOrder | Transaction | PaymentType
    | Payment | Currency | Staff | Department | PurchaseOrder

  /** The projection list of each extractor's query, in query order. */
  const ADDRESS_COLUMNS: seq<string> :=
    ["address_id", "address_line_1", "address_line_2", "district", "city", "postal_code", "country", "phone",
     "created_at", "last_updated"]
  const COUNTERPARTY_COLUMNS: seq<string> :=
    ["counterparty_id", "counterparty_legal_name", "legal_address_id", "commercial_contact",
     "delivery_contact", "created_at", "last_updated"]
  const DESIGN_COLUMNS: seq<string> :=
    ["design_id", "created_at", "last_updated", "design_name", "file_location", "file_name"]
  const SALES_ORDER_COLUMNS: seq<string> :=
    ["sales_order_id", "created_at", "last_updated", "design_id", "staff_id", "counterparty_id",
     "units_sold", "unit_price", "currency_id", "agreed_delivery_date", "agreed_payment_date",
     "agreed_delivery_location_id"]
  const TRANSACTION_COLUMNS: seq<string> :=
    ["transaction_id", "transaction_type", "sales_order_id", "purchase_order_id", "created_at",
     "last_updated"]
  const PAYMENT_TYPE_COLUMNS: seq<string> :=
    ["payment_type_id", "payment_type_name", "created_at", "last_updated"]
  const PAYMENT_COLUMNS: seq<string> :=
    ["payment_id", "created_at", "last_updated", "transaction_id", "counterparty_id", "payment_amount",
     "currency_id", "payment_type_id", "paid", "payment_date", "company_ac_number", "counterparty_ac_number"]
  const CURRENCY_COLUMNS: seq<string> := ["currency_id", "currency_code", "created_at", "last_updated"]
  const STAFF_COLUMNS: seq<string> :=
    ["staff_id", "first_name", "last_name", "department_id", "email_address", "created_at", "last_updated"]
  const DEPARTMENT_COLUMNS: seq<string> :=
    ["department_id", "department_name", "location", "manager", "created_at", "last_updated"]
  const PURCHASE_ORDER_COLUMNS: seq<string> :=
    ["purchase_order_id", "created_at", "last_updated", "staff_id", "counterparty_id", "item_code",
     "item_quantity", "item_unit_price", "currency_id", "agreed_delivery_date", "agreed_payment_date",
     "agreed_delivery_location_id"]

  function Projection(t: Table): seq<string> {
    match t
    case Address => ADDRESS_COLUMNS
    case Counterparty => COUNTERPARTY_COLUMNS
    case Design => DESIGN_COLUMNS
    case SalesOrder => SALES_ORDER_COLUMNS
    case Transaction => TRANSACTION_COLUMNS
    case PaymentType => PAYMENT_TYPE_COLUMNS
    case Payment => PAYMENT_COLUMNS
    case Currency => CURRENCY_COLUMNS
    case Staff => STAFF_COLUMNS
    case Department => DEPARTMENT_COLUMNS
    case PurchaseOrder => PURCHASE_ORDER_COLUMNS
  }

  /** No projection names a column twice (checked one table at a time). */
  lemma ProjectionDistinct(t: Table)
    ensures Distinct(Projection(t))
  {
    match t
    case Address => AddressDistinct();
    case Counterparty => CounterpartyDistinct();
    case Design => DesignDistinct();
    case SalesOrder => SalesOrderDistinct();
    case Transaction => TransactionDistinct();
    case PaymentType => PaymentTypeDistinct();
    case Payment => PaymentDistinct();
    case Currency => CurrencyDistinct();
    case Staff => StaffDistinct();
    case Department => DepartmentDistinct();
    case PurchaseOrder => PurchaseOrderDistinct();
  }

  lemma AddressDistinct()
    ensures Distinct(ADDRESS_COLUMNS)
  {
  }

  lemma CounterpartyDistinct()
    ensures Distinct(COUNTERPARTY_COLUMNS)
  {
  }

  lemma DesignDistinct()
    ensures Distinct(DESIGN_COLUMNS)
  {
  }

  lemma SalesOrderDistinct()
    ensures Distinct(SALES_ORDER_COLUMNS)
  {
  }

  lemma TransactionDistinct()
    ensures Distinct(TRANSACTION_COLUMNS)
  {
  }

  lemma PaymentTypeDistinct()
    ensures Distinct(PAYMENT_TYPE_COLUMNS)
  {
  }

  lemma PaymentDistinct()
    ensures Distinct(PAYMENT_COLUMNS)
  {
  }

  lemma CurrencyDistinct()
    ensures Distinct(CURRENCY_COLUMNS)
  {
  }

  lemma StaffDistinct()
    ensures Distinct(STAFF_COLUMNS)
  {
  }

  lemma DepartmentDistinct()
    ensures Distinct(DEPARTMENT_COLUMNS)
  {
  }

  lemma PurchaseOrderDistinct()
    ensures Distinct(PURCHASE_ORDER_COLUMNS)
  {
  }

  /**
   * extract_<table>: one record per fetched row, in fetch order, whose keys are
   * exactly the projected columns and whose value for the i-th projected column
   * is the row's i-th value. A row shorter than the projection raises IndexError.
   */
  function Extract(t: Table, rows: seq<Row>): (r: Result<seq<Record>>)
    ensures r.Ok? <==> LongEnough(Projection(t), rows)
    ensures r.Err? ==> r.error == IndexOutOfRange
    ensures r.Ok? ==> |r.value| == |rows|
    ensures r.Ok? ==> forall j, i :: 0 <= j < |rows| && 0 <= i < |Projection(t)| ==>
      && r.value[j].Keys == Elements(Projection(t))
      && r.value[j][Projection(t)[i]] == rows[j][i]
  {
    var columns := Projection(t);
    if LongEnough(columns, rows) then
      ProjectionDistinct(t);
      CreateDictsDistinct(columns, rows);
      CreateDicts(columns, rows)
    else
      CreateDicts(columns, rows)
  }

  /** The address projection names these ten columns. */
  lemma AddressKeys()
    ensures Elements(Projection(Address)) ==
      {"address_id", "address_line_1", "address_line_2", "district", "city",
       "postal_code", "country", "phone", "created_at", "last_updated"}
  {
  }

  /** The counterparty projection names these seven columns. */
  lemma CounterpartyKeys()
    ensures Elements(Projection(Counterparty)) ==
      {"counterparty_id", "counterparty_legal_name", "legal_address_id", "commercial_contact",
       "delivery_contact", "created_at", "last_updated"}
  {
  }

  /** The design projection names these six columns. */
  lemma DesignKeys()
    ensures Elements(Projection(Design)) ==
      {"design_id", "created_at", "last_updated", "design_name", "file_location", "file_name"}
  {
  }

  /** Every extracted address record carries exactly the ten projected address columns. */
  lemma AddressRecords(rows: seq<Row>)
    ensures Extract(Address, rows).Ok? ==> forall j :: 0 <= j < |rows| ==>
      Extract(Address, rows).value[j].Keys ==
        {"address_id", "address_line_1", "address_line_2", "district", "city",
         "postal_code", "country", "phone", "created_at", "last_updated"}
  {
    AddressKeys();
  }

  /** Every extracted counterparty record carries exactly the seven projected counterparty columns. */
  lemma CounterpartyRecords(rows: seq<Row>)
    ensures Extract(Counterparty, rows).Ok? ==> forall j :: 0 <= j < |rows| ==>
      Extract(Counterparty, rows).value[j].Keys ==
        {"counterparty_id", "counterparty_legal_name", "legal_address_id", "commercial_contact",
         "delivery_contact", "created_at", "last_updated"}
  {
    CounterpartyKeys();
  }

  /** Every extracted design record carries exactly the six projected design columns. */
  lemma DesignRecords(rows: seq<Row>)
    ensures Extract(Design, rows).Ok? ==> forall j :: 0 <= j < |rows| ==>
      Extract(Design, rows).value[j].Keys ==
        {"design_id", "created_at", "last_updated", "design_name", "file_location", "file_name"}
  {
    DesignKeys();
  }
}
