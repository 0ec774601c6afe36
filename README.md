# de-project core in Dafny

This project models the data-shaping core of a small ETL pipeline. The pipeline
extracts tables from an operational PostgreSQL database, stages them as CSV files,
and reshapes them for a star-schema warehouse. The model covers these parts:

- **Extraction** (`records.dfy`, `extraction.dfy`)
  - `create_dicts` turns the driver's column names and rows into one dictionary
    per row.
  - Three copies of it exist in the repository. They are the same comprehension,
    and one definition, `Records.CreateDicts`, models all three.
  - Each `extract_<table>` method runs a fixed projection and passes the result to
    `create_dicts`. It is modelled as `CreateDicts(Projection(t), rows)`, with the
    fetched rows as an input.
- **Frames** (`frames.dfy`)
  - This is the slice of pandas the transforms use. A frame is a list of column
    labels plus rows held as dictionaries.
  - `drop(columns=...)` raises KeyError for an absent label.
  - `rename(columns={a: b})` does nothing when `a` is absent.
  - `join(other.set_index(key), on=key, how='left')` keeps every left row.
  - `pd.merge(..., on=key)` is an inner merge.
- **Calendar** (`calendar.dfy`)
  - This is the proleptic Gregorian calendar behind `pd.date_range` and the
    `.dt` accessors used by `create_dim_date`. Days are counted from 0001-01-01,
    which is day 0 and a Monday.
  - The bounds are those of a nanosecond pandas timestamp, 1677-09-22 to
    2262-04-11.
- **Transformer** (`transformer.dfy`)
  - The completeness check over the staged files, and the reshaping of the
    currency, design, address and staff tables.
  - The date dimension.
  - Both versions of the transform stage, `transform_lambda` and
    `transforming_lambda`.
- **StateMonitor** (`monitor.dfy`)
  - The `Monitor` class of the extraction stage. It keeps the last seen
    row-change counters and reports whether new counters differ.

`results.dfy` holds the `Option` and `Result` types, plus the errors the source
raises:
- IndexError;
- KeyError on a column or key;
- the overlap error of a join;
- the completeness exception;
- an invalid date;
- an out-of-bounds timestamp.

The completeness check reads the listing's `Contents` entry before it checks any
file. A listing of an empty bucket has no such entry, so the check raises
KeyError, and `ListCsvFiles` models that error.

## Model

| member | source | states |
|---|---|---|
| Records.Zip | src/extraction_lambda/extraction/extractor.py:21-22 | the record of one row has exactly the column names as keys, and each name is bound to the row's value at the name's last position |
| Records.ZipIgnoresExtraValues | src/extraction_lambda/extraction/extractor.py:21-22 | values of a row beyond the last column are never read |
| Records.CreateDicts | src/extraction_lambda/extraction/extractor.py:18-24 | succeeds exactly when every row has a value for every column, and otherwise fails with IndexError; no rows give an empty list; one record per row, in row order, record j built from row j |
| Records.CreateDictsDistinct | src/extraction/extractor.py:21-25 | with distinct column names, record j maps the i-th name to the i-th value of row j and has no other key |
| Records.CreateDictsRepeatedColumn | src/extract_db.py:13-17 | a repeated column name keeps the value at its last position |
| Extraction.Extract | src/extraction_lambda/extraction/extractor.py:26-112 | an extractor yields one record per fetched row, whose keys are exactly the projected columns and whose value for the i-th column is the row's i-th value; a short row raises IndexError |
| Extraction.ProjectionDistinct | src/extraction_lambda/extraction/extractor.py:26-112 | no extractor's projection lists a column twice, so no value is overwritten |
| Extraction.AddressRecords | src/extraction_lambda/extraction/extractor.py:26-32 | every extracted address record has exactly the ten columns the address query selects |
| Extraction.CounterpartyRecords | src/extraction_lambda/extraction/extractor.py:34-40 | every extracted counterparty record has exactly the seven columns the counterparty query selects |
| Extraction.DesignRecords | src/extraction_lambda/extraction/extractor.py:42-48 | every extracted design record has exactly the six columns the design query selects |
| Frames.Drop | src/transform_lambda/transform.py:93-94 | succeeds exactly when every label is present; otherwise fails with KeyError naming exactly the absent labels; keeps the other labels in order, one row per row, each row losing just the dropped labels, and a well-formed frame stays well-formed |
| Frames.DropKeepsValues | src/transform_lambda/transform.py:93-94 | every row keeps every value not under a dropped label |
| Frames.DropColumnCount | src/transform_lambda/transform.py:93-94 | dropping k distinct present labels removes exactly k columns |
| Frames.Rename | src/transform_lambda/transform.py:96-98 | relabels `from` as `to` in place and leaves a frame without `from` as it was; the row's value moves to the new label, every other value stays, and the frame stays well-formed unless `to` was already another column |
| Frames.JoinedColumnsDistinct | src/transform_lambda/transform.py:88-90 | the joined labels are distinct: the left labels, then the right's labels other than the key |
| Frames.LeftJoin | src/transform_lambda/transform.py:88-90 | succeeds exactly when both frames have the key and share no other label, and otherwise fails with KeyError or the overlap error; the result is well-formed and keeps at least every left row |
| Frames.LeftJoinUnique | src/transform_lambda/transform.py:88-90 | with unique right keys, row j is left row j extended with its partner's non-key values, or padded with missing values when it has no partner |
| Frames.LeftJoinValues | src/transform_lambda/transform.py:88-90 | with unique right keys, every left value is kept, every non-key value of the partner is added, and an unpartnered row has a missing value under every other right label |
| Frames.Merge | src/transform_lambda/transform.py:119-120 | succeeds exactly when both frames have the key and share no other label, otherwise it fails as a join does; the result is well-formed with the joined labels |
| Frames.MergeRowsMembership | src/transform_lambda/transform.py:119-120 | a merged row is exactly a left row combined with a right row sharing its key value |
| Frames.MergeUnique | src/transform_lambda/transform.py:119-120 | with unique right keys and a partner for every left row, the merge keeps the left rows one for one, row j combined with its partner |
| Frames.PartnersMembership | src/transform_lambda/transform.py:119-120 | a row is among the rows an inner merge keeps exactly when it is a left row with a partner |
| Frames.PartnersLength | src/transform_lambda/transform.py:119-120 | the merge keeps at most the left rows, and keeps all of them, unchanged, exactly when every left row has a partner |
| Frames.MergeRowsPartners | src/transform_lambda/transform.py:119-120 | a left row without a partner contributes no merged row: merging only the partnered left rows gives the same rows |
| Frames.MergePartners | src/transform_lambda/transform.py:119-120 | with unique right keys and no other condition, the merge has one row per partnered left row, in left order, each combined with its partner |
| Calendar.DaysBeforeYearClosedForm | src/transform_lambda/transform.py:102-103 | counting the days year by year agrees with 365 days a year plus the leap days every 4, 100 and 400 years |
| Calendar.NextDay | src/transform_lambda/transform.py:102-103 | the day after a valid date is a valid date whose ordinal is one more and whose YYYYMMDD key is larger |
| Calendar.AddDays | src/transform_lambda/transform.py:102-103 | moving k days forward gives a valid date whose ordinal is k more |
| Calendar.AddDaysCompose | src/transform_lambda/transform.py:102-103 | moving i days then j days is moving i + j days |
| Calendar.DayNumberInjective | src/transform_lambda/transform.py:102-103 | two valid dates with the same ordinal are the same date |
| Calendar.DateIdDecodes | src/transform_lambda/transform.py:104 | the YYYYMMDD key decodes back to the year, month and day |
| Calendar.RowOf | src/transform_lambda/transform.py:104-111 | a day's row has its year, month and day and a key that decodes to them; a Monday-based weekday number with the matching name; the month's name; and the quarter holding the month |
| Calendar.DimDateCoversRange | src/transform_lambda/transform.py:102-103 | every row's day lies in [from, to], and every valid day in [from, to] has its row at the position of its distance from `from` |
| Calendar.DimDateConsecutive | src/transform_lambda/transform.py:102-108 | consecutive rows are consecutive days, and their weekday numbers advance by one modulo 7 |
| Calendar.DimDateKeysIncrease | src/transform_lambda/transform.py:104 | the date key strictly increases down the rows |
| Calendar.DefaultDimDate | src/transform_lambda/transform.py:100-101 | the default range 2022-11-3 to 2023-5-1 has 180 days, the first being Thursday 3 November 2022 of the fourth quarter |
| Calendar.BoundDayNumbers | src/transform_lambda/transform.py:102-103 | the first and the last day a pandas timestamp can hold are valid dates with the stated ordinals |
| Calendar.DefaultRepresentable | src/transform_lambda/transform.py:100-103 | both default bounds are within what a pandas timestamp can hold |
| Calendar.DimDateFrame | src/transform_lambda/transform.py:112 | the returned frame is well-formed, has the eight derived columns but not `date`, and holds one row per day, row j being the row of day j |
| Transformer.ListCsvFiles | src/transform_lambda/transform.py:32-41 | a listing without `Contents` raises KeyError; otherwise the check succeeds exactly when every staged file is listed, fails with the given message otherwise, and returns the file list on success |
| Transformer.IncompleteListing | src/transforming_lambda/transform.py:30-36 | a listing lacking any one staged file fails the check, whatever else it lists |
| Transformer.FileListComplete | src/transforming_lambda/transform.py:21-24 | the eleven staged files are distinct, and a listing of exactly them passes the check |
| Transformer.DropAudit | src/transform_lambda/transform.py:93-94 | succeeds exactly when both audit columns are present, and otherwise KeyError names the missing ones; removes exactly those two labels and keeps every row and every other value |
| Transformer.DesignShape | src/transforming_lambda/transform.py:51-52 | on the design table as extracted: succeeds, with the four columns id, name, file location and file name, one row per design |
| Transformer.PlainCurrencyShape | src/transforming_lambda/transform.py:48-49 | on the currency table as extracted: succeeds, leaving the two columns id and code, one row per currency |
| Transformer.TransformAddress | src/transform_lambda/transform.py:96-98 | succeeds exactly when both audit columns are present, and otherwise KeyError names the missing ones; the labels lose the audit columns and `address_id` becomes `location_id`; every row keeps its key under the new label and every other value but the audit ones; a frame without `address_id` only loses its audit columns |
| Transformer.AddressShape | src/transforming_lambda/transform.py:54-56 | on the address table as extracted: succeeds with a well-formed frame whose labels are, in order, `location_id`, the two address lines, district, city, postal code, country and phone, one row per address |
| Transformer.TransformCurrency | src/transform_lambda/transform.py:82-91 | a table with the key and the audit columns, sharing no other label with the reference table, succeeds; without a joinable key it fails with the join's error; the result is well-formed, with the table's labels plus the name column minus the audit columns |
| Transformer.CurrencyShape | src/transform_lambda/transform.py:88-91 | on the currency table as extracted and a reference table keyed by code: succeeds, with one row per currency and the columns id, code and name |
| Transformer.CurrencyRows | src/transform_lambda/transform.py:88-91 | each currency keeps its own values but the audit columns, gains the name the reference table gives its code, and gets a missing name when the reference table lacks the code |
| Transformer.TransformStaff | src/transform_lambda/transform.py:114-121 | succeeds only when both tables have the audit columns and department has `manager`; the result is well-formed without `department_id`; its labels are staff's without the audit columns and the id, plus department's without the audit columns, manager and id (its rows are stated by StaffRows) |
| Transformer.MergeDepartment | src/transform_lambda/transform.py:119-121 | succeeds exactly when both frames have `department_id` and share no other label; the result is well-formed without the id and has both frames' other labels |
| Transformer.MergeDepartmentRows | src/transform_lambda/transform.py:119-121 | with unique department ids, the merge keeps one row per staff row that has a department, in staff order, combined with that department, the id removed |
| Transformer.StaffShape | src/transform_lambda/transform.py:114-121 | on the staff and department tables as extracted: succeeds, with the six columns staff id, first and last name, email, department name and location |
| Transformer.StaffRows | src/transform_lambda/transform.py:114-121 | with unique department ids, one row per staff member whose department exists, in staff order, and none for a member without one; each row keeps the member's values but the audit columns and the id, and gains their department's values but its audit columns, manager and id |
| Transformer.StaffRowsAllPartnered | src/transform_lambda/transform.py:119-120 | with unique department ids, no staff row is lost exactly when every staff member's department exists |
| Transformer.CreateDimDate | src/transform_lambda/transform.py:100-112 | succeeds exactly when both bounds are representable days, and otherwise raises the date error; eight columns, one row per day of the range, row j describing the j-th day after `from` |
| Transformer.DefaultDimDateFrame | src/transforming_lambda/transform.py:58-70 | with the default bounds: 180 rows of eight columns, the first describing Thursday 3 November 2022 |
| StateMonitor.Monitor.constructor | src/extraction_lambda/extraction/monitor.py:4-6 | a new monitor keeps the bucket name, and all three counters start at zero |
| StateMonitor.Monitor.HasChanged | src/extraction_lambda/extraction/monitor.py:8-9 | always reports a change |
| StateMonitor.Monitor.HasStateChanged | src/extraction_lambda/extraction/monitor.py:11-12 | reports a change exactly when the new counters have other keys or some counter differs; when no change is reported, the keys and every counter are the same |
| StateMonitor.DiffersIsInequality | src/extraction_lambda/extraction/monitor.py:11-12 | differing keys or some differing counter is exactly dictionary inequality |
| StateMonitor.FreshMonitorChecks | src/extraction_lambda/extraction/monitor.py:4-12 | a fresh monitor reports no change for all-zero counters, and a change once rows were inserted and deleted |

## Left out

- S3 listing, reading and writing; CSV and parquet encoding; the database connection and its queries; secrets; logging. These are I/O. The listing's keys, the fetched rows and the frames are inputs instead.
- The handlers, the loader, the savers and storers, and the counterparty and fact transforms are not part of this model.
- Reading `currency.csv` is not modelled, and neither is the RuntimeError raised when the file cannot be read. The reference table is a parameter, `info`.
- The parsing of date strings such as '2022-11-3' is not modelled. `CreateDimDate` takes the bounds as dates. A date that does not exist in the calendar fails with `InvalidDate`, without modelling pandas' exact message.
- The time-of-day part of a timestamp is not modelled. Days are whole.
- Frames.Merge: pandas adds the suffixes `_x` and `_y` when the two frames share a non-key label. The model treats that case as an error, as a join does. The frames of `transform_staff` never share one.
- Frames.Merge: the model orders the inner merge's rows as the left rows, each followed by its partners. This is the order of pandas 2.2 and later. Earlier pandas versions grouped an inner merge's rows by key value, in the order each key first appears.
- Frames.MergeUnique: its positional statements describe the row order of pandas 2.2 and later. Under earlier versions they hold only when equal keys are contiguous among the left rows.
- Frames.MergePartners: its positional statements describe the row order of pandas 2.2 and later, as for MergeUnique.
- Transformer.MergeDepartmentRows: row j is the j-th staff row with a department under pandas 2.2 and later. Earlier versions grouped rows by department id.
- Transformer.StaffRows: row j is the j-th staff row with a department under pandas 2.2 and later. Earlier versions grouped rows by department id. The set of rows is the same in either order.
- Frames.LeftJoin: when right keys repeat, only the count of rows (at least one per left row) is stated.
- Frames.Rename: a rename to a label already present gives duplicate labels in pandas. That frame is left unchecked here (`Valid` is not promised).
- Dictionary and column ordering beyond label order: records are maps, so the key order of a Python dict is not modelled.
- Missing values are a single `Missing` value. NaN and its dtype effects are not modelled.
- The extractor copies differ in their sets and names. `src/extraction/extractor.py` and `src/extract_db.py` call the counterparty extractor `extract_counter_party`, and `src/extract_db.py` has no department or purchase-order extractor. Each extractor in the model stands for the one that selects the same table in every copy that has one.
- StateMonitor.Monitor.HasStateChanged: counters are modelled as `int` values. The source compares arbitrary dictionaries.
- Transformer.TransformStaff: its own contract states the labels only. The rows are stated by StaffRows, for unique department ids. When department ids repeat, a staff row appears once per department holding its id, and that is not stated.
- Transformer.TransformCurrency: success is stated in one direction only. A joinable table with both audit columns succeeds, and a table without a joinable key fails with the join's error. A joinable table that lacks an audit column fails with KeyError, but this is not stated separately.
