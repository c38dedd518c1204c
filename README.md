# EHR analysis: a verified model

The analysis tool reads two tab-separated files: a patient file and a lab
file. It stores their rows in two SQLite tables, `Patients(id PRIMARY KEY,
gender, dob, race)` and `Labs(patient_id, lab_name, lab_value, lab_units,
lab_date)`. `parse_data` returns one `Patient` handle per patient line and
one `Lab` handle per lab line. A handle holds only an id. Every field of a
handle is a fresh `SELECT` followed by `fetchone()`: `gender`, `dob` and
`race` select `WHERE id = ?` from Patients, and `lab_name`, `lab_value`,
`lab_units` and `lab_date` select `WHERE patient_id = ?` from Labs. The derived values are
built on top of these lookups:

- `Patient.labs`;
- `is_sick(lab_name, operator, value)`;
- `age`;
- `earliest_admission`.

The model has seven modules:

- `Errors`: one error per exception the tool raises.
- `Text`: `str.strip()`, `str.split("\t")`, decimal digits, and the decimal
  part of `float()`.
- `Timestamp`: `strptime` with `"%Y-%m-%d %H:%M:%S.%f"`, Python's day ordinal,
  `.days` of a difference, and `int(days / 365)`.
- `Database`: the store as a class `Store`. Its fields are the two tables,
  each a sequence of rows. `Reset` models `DROP`/`CREATE`. `Insert` models
  the checks SQLite makes on an insert: the column count and the Patients
  primary key.
- `Records`: the handles, their fields, and the derived values.
- `Ingest`: `parse_data` as a method over the store, with a pure definition
  of what loading a file stores and which error stops it.
- `Fixture`: the sample tables of the repository's tests and what the model
  computes from them.

Conventions:

- A file is the sequence of lines `readlines()` returns.
- The clock reading `datetime.datetime.today()` is an explicit `today`
  argument.
- "The row `fetchone()` returns" is the lowest-indexed matching row,
  meaning the first inserted.
- Lab values are real numbers.

Every field of a `Lab` handle is looked up by patient id alone. Every lab
handle of a patient therefore reads that patient's FIRST Labs row, whatever
line it was built from. `is_sick` tests that one row once per handle, so
the first row alone decides its answer. Both behaviours are modelled as the
code has them, and they are stated as lemmas: `LabRowResolution`,
`FirstLabVerdict`/`IsSick`, and `FirstRowDecides`. They are not treated as
defects.

## Model

| member | source | states |
|---|---|---|
| Database.FirstMatch | src/ehr_analysis.py:21-25 | the row `fetchone()` returns is the lowest-indexed row with the key and none before it has the key; there is no row exactly when no row of the table has the key |
| Database.MatchingRows | src/ehr_analysis.py:98-103 | `fetchall()` returns only rows with the key, is non-empty exactly when the table has such a row, and starts with the row `fetchone()` would return |
| Database.MatchingRowsCount | src/ehr_analysis.py:98-103 | `fetchall()` returns exactly as many rows as the table holds for the key |
| Database.MatchingRowsArity | src/ehr_analysis.py:98-103 | the fetched rows have the table's column count |
| Database.MatchingRowsContains | src/ehr_analysis.py:98-103 | every row of the table with the key is among the fetched rows |
| Database.MatchingRowsIn | src/ehr_analysis.py:98-103 | every fetched row is a row of the table |
| Database.MatchingRowsSnoc | src/ehr_analysis.py:98-103 | one more stored row adds itself to the fetched rows when it has the key, and nothing otherwise |
| Database.FirstMatchExtend | src/ehr_analysis.py:21-25 | rows stored after a key's first row never change which row `fetchone()` returns |
| Database.Store.Open | src/ehr_analysis.py:8 | a store opened on existing tables holds them unchanged |
| Database.Store.Reset | src/ehr_analysis.py:176-186 | after dropping and recreating the tables, both are empty |
| Database.InsertError | src/ehr_analysis.py:196-214 | a wrong column count fails with WrongArity before anything else; with the right count, a Patients id already stored fails with DuplicateKey; no other failure; a successful insert keeps the column counts and the distinct Patients ids |
| Database.Store.Insert | src/ehr_analysis.py:197-200 | the insert fails exactly when the row's field count differs from the table's, or a Patients id is already stored; the row is appended on success, the table is unchanged on failure, and the other table is unchanged either way |
| Records.Field | src/ehr_analysis.py:21-25 | a column lookup fails with NotFound exactly when no row has the key; otherwise it yields that column of the first row with the key |
| Records.LabName | src/ehr_analysis.py:18-25 | `lab_name` is the name of the first Labs row with the handle's patient id, NotFound when there is none |
| Records.LabValue | src/ehr_analysis.py:27-34 | the same for `lab_value` |
| Records.LabUnits | src/ehr_analysis.py:36-43 | the same for `lab_units` |
| Records.LabDate | src/ehr_analysis.py:45-52 | the same for `lab_date` |
| Records.Gender | src/ehr_analysis.py:66-73 | `gender` is the gender of the first Patients row with the id, NotFound when there is none |
| Records.Dob | src/ehr_analysis.py:75-82 | the same for `dob` |
| Records.Race | src/ehr_analysis.py:84-91 | the same for `race` |
| Records.PatientRowRoundTrip | src/ehr_analysis.py:66-91 | a patient handle built from a stored row's id reads back exactly that row's gender, dob and race, because the ids are distinct |
| Records.LabRowResolution | src/ehr_analysis.py:18-52 | a lab handle built from Labs row `j` reads all four fields from one row `i <= j`, the first row of that patient |
| Records.PatientLabs | src/ehr_analysis.py:93-107 | `Patient.labs` has one handle per Labs row of the patient; it is empty exactly when there is none; every handle carries the patient's id |
| Records.Exceeds | src/ehr_analysis.py:120-125 | the comparison holds only for the operators ">" and "<" |
| Records.FirstLabVerdict | src/ehr_analysis.py:113-126 | the `is_sick` verdict is False without a Labs row for the patient or when its first row names another lab; it is True exactly when the first row names the lab and its value parses and passes the comparison; it fails (only with ValueParse) exactly when the first row names the lab and its value does not parse |
| Records.VerdictIgnoresLaterRows | src/ehr_analysis.py:113-126 | rows stored after the patient's first Labs row never change the `is_sick` verdict |
| Records.IsSick | src/ehr_analysis.py:113-126 | the loop's answer is the verdict on the patient's first Labs row: False with no row or a different name, a ValueParse error when the value does not parse, otherwise the strict comparison; no lab row gives False; an unknown operator never gives True; True implies a stored row of the patient with that name whose value exceeds the threshold |
| Records.Age | src/ehr_analysis.py:128-136 | the age is NotFound exactly when the patient has no row; with a stored dob that parses it is the truncated year count from the birth to `today`; with a stored dob that does not parse it fails with DateParse |
| Records.AgeMonotone | src/ehr_analysis.py:128-136 | a later clock reading never gives a smaller age |
| Records.AgeNonNegative | src/ehr_analysis.py:128-136 | the age is never negative when the clock is not before the birth |
| Records.ParseAll | src/ehr_analysis.py:149-159 | parsing the dates in order either yields one parsed date per row, each the parse of that row's text, or fails with DateParse at a date that does not parse |
| Records.ParseAllPrefixError | src/ehr_analysis.py:149-159 | a date that fails early fails the whole scan |
| Records.ParseAllSnoc | src/ehr_analysis.py:149-159 | the scan of one more date parses the earlier dates and then the new one |
| Records.Earliest | src/ehr_analysis.py:149-161 | the kept date is one of the dates and no date is before it |
| Records.EarliestIsLeastYears | src/ehr_analysis.py:160-166 | the year count to the earliest date is attained at one of the dates and is at most the count to any of them |
| Records.EarliestSnoc | src/ehr_analysis.py:155-161 | a new date replaces the kept one only when it is strictly earlier |
| Records.EarliestIgnoresOrder | src/ehr_analysis.py:149-161 | the earliest date does not depend on the order of the rows |
| Records.EarliestLabDate | src/ehr_analysis.py:149-161 | the loop fails with the scan's DateParse error, yields nothing exactly when there is no date, and otherwise yields the earliest of the parsed dates |
| Records.AdmissionFrom | src/ehr_analysis.py:149-167 | `earliest_admission` on the patient's lab dates and dob lookup fails only with DateParse, NotFound or NoLabs; NoLabs exactly when there is no lab date and the dob parses; on success every date and the dob parse, and the result is the year count from birth to one of the dates and at most the count to any of them |
| Records.AdmissionFromOutcome | src/ehr_analysis.py:149-167 | a lab date that does not parse gives DateParse whatever the dob; with every date parsing, a missing dob gives NotFound and an unparsable one DateParse; with every date and the dob parsing and at least one date, the result is Ok |
| Records.EarliestAdmissionOf | src/ehr_analysis.py:138-167 | on the store: success needs both a Labs and a Patients row for the id, and NoLabs comes exactly when there is no Labs row and the dob parses |
| Records.EarliestAdmission | src/ehr_analysis.py:138-167 | the method computes `EarliestAdmissionOf`, whose error order and success condition `AdmissionFromOutcome` and `AdmissionSucceeds` state; with no Labs row it always fails |
| Records.AdmissionWithoutLabs | src/ehr_analysis.py:149-167 | with no lab row and a dob that parses, the result is NoLabs |
| Records.AdmissionNotAfterAnyLab | src/ehr_analysis.py:138-167 | the admission age is at most the year count from birth to any lab date of the patient |
| Records.FetchedDateIn | src/ehr_analysis.py:143-151 | each lab date `earliest_admission` fetches is the date of one of the patient's own Labs rows |
| Records.AdmissionAttained | src/ehr_analysis.py:138-167 | a successful admission age is the year count from birth to one of the patient's own Labs rows; with `AdmissionNotAfterAnyLab` it is the least such count |
| Records.AdmissionSucceeds | src/ehr_analysis.py:138-167 | with a Labs row for the patient, every one of the patient's lab dates parsing, and a stored dob that parses, `earliest_admission` succeeds |
| Ingest.SplitLine | src/ehr_analysis.py:194 | splitting a stripped line gives at least one field, no field holds a tab, and the fields joined by tabs are the stripped line |
| Ingest.DataRowJoinsBack | src/ehr_analysis.py:193-194 | each data row joins back to its line stripped |
| Ingest.LastIndexOf | src/ehr_analysis.py:195 | the key the dict keeps for a header name is its last occurrence; there is none exactly when the name is absent |
| Ingest.RowDict | src/ehr_analysis.py:195 | the dict comprehension fails (IndexError) exactly when the line has fewer fields than the header; its keys are the header names; each maps to the field under the name's last occurrence |
| Ingest.DataRows | src/ehr_analysis.py:193-194 | one split row per line after the header, each with at least one field |
| Ingest.RowOutcome | src/ehr_analysis.py:193-214 | one data line fails first with MissingField when it is shorter than the header, then with MissingKeyColumn when the header lacks the key, then with WrongArity when its field count is not the table's, then, for Patients, with DuplicateKey when its id is already stored; on success it yields the field under the last key column of the header |
| Ingest.FirstRejectedFrom | src/ehr_analysis.py:193-200 | every row before the returned position loads once its predecessors are stored; the row at the position, if any, fails |
| Ingest.Accepted | src/ehr_analysis.py:190-200 | a load stores at most the file's data rows: every row before the stored count loads after its predecessors, and the row at that count, if any, is rejected |
| Ingest.LoadError | src/ehr_analysis.py:190-214 | a load fails with EmptyFile exactly when the file has no line, and succeeds exactly when the file has a header line and every data line loads after the ones before it |
| Ingest.LoadRow | src/ehr_analysis.py:194-200 | one loop iteration yields the handle id or the error the line's outcome names, and appends the line to the table exactly when it succeeds |
| Ingest.LoadTable | src/ehr_analysis.py:190-200 | loading a file stores its data rows up to the first rejected one and reports that row's error (EmptyFile without a header line); on success it yields one handle id per line, the field under the key column |
| Ingest.ParseData | src/ehr_analysis.py:170-217 | `parse_data` empties the store and loads the lab file, then the patient file; a lab failure leaves Patients empty; it succeeds exactly when both files load; the first error is the lab file's; on success both tables hold every data line and the handles match the lines in order |
| Ingest.LabHandles | src/ehr_analysis.py:196 | one lab handle per id, in order |
| Ingest.PatientHandles | src/ehr_analysis.py:210 | one patient handle per id, in order |
| Ingest.RowOutcomeOk | src/ehr_analysis.py:195-200 | a line loads exactly when it has at least the header's field count, the header names the key, its field count is the table's, and, for Patients, its id is not yet stored |
| Ingest.LoadedIdsDistinct | src/ehr_analysis.py:211-214 | a patient file that loads has distinct ids |
| Ingest.WellFormedRowLoads | src/ehr_analysis.py:193-200 | every line of a well-formed file loads after the lines before it |
| Ingest.LoadedIsWellFormed | src/ehr_analysis.py:190-214 | a file that loads is well formed |
| Ingest.WellFormedLoads | src/ehr_analysis.py:190-214 | a well-formed file loads without error |
| Ingest.LoadSucceedsIff | src/ehr_analysis.py:190-214 | loading succeeds if and only if the file is well formed |
| Ingest.DuplicatePatientRejected | src/ehr_analysis.py:183-186 | two patient lines with the same id make the load fail |
| Ingest.SplitWrittenLine | src/ehr_analysis.py:206 | a line written from tab-free fields with no outer whitespace reads back as exactly those fields |
| Ingest.ReadWrittenFile | src/ehr_analysis.py:191-194 | reading a written file gives back its header and its data rows |
| Text.TrimLeftShape | src/ehr_analysis.py:194 | dropping leading whitespace keeps the suffix after the leading whitespace run, which starts with a non-space |
| Text.TrimRightShape | src/ehr_analysis.py:194 | dropping trailing whitespace keeps the prefix before the trailing whitespace run, which ends with a non-space |
| Text.Strip | src/ehr_analysis.py:194 | `strip()` never lengthens its input, and neither starts nor ends with whitespace |
| Text.StripPadded | src/ehr_analysis.py:194 | `strip()` removes exactly the surrounding whitespace |
| Text.StripUnpadded | src/ehr_analysis.py:194 | text with no outer whitespace is its own strip |
| Text.Split | src/ehr_analysis.py:194 | `split("\t")` gives at least one piece; no piece holds a tab; the pieces joined by tabs are the input |
| Text.SplitJoin | src/ehr_analysis.py:194 | splitting undoes joining for tab-free fields, empty fields included |
| Text.DigitsValue | src/ehr_analysis.py:131-133 | the value of `n` digits is below `10^n`; with `PadDigitsValue` and `DigitsValueCons` this fixes the value |
| Text.DigitsValueCons | src/ehr_analysis.py:131-133 | read from the front, the first of `n + 1` digits counts `10^n` times, plus the value of the rest |
| Text.Pad | src/ehr_analysis.py:131-133 | a number written at a fixed width has that many digits and reads back as the number when it fits |
| Text.PadDigitsValue | src/ehr_analysis.py:131-133 | digits read and written back at the same width are unchanged |
| Text.FractionValue | src/ehr_analysis.py:119 | the digits after a decimal point denote a value in [0, 1) |
| Text.FractionValueDigits | src/ehr_analysis.py:119 | `n` digits after a decimal point, scaled by `10^n`, give the whole number those digits denote: ".25" is 25 / 100 |
| Text.ParseUnsigned | src/ehr_analysis.py:119 | an unsigned decimal is never negative |
| Text.ParseUnsignedDigits | src/ehr_analysis.py:119 | a plain run of digits is a whole unsigned decimal |
| Text.ParseUnsignedDecimal | src/ehr_analysis.py:119 | digits, a point and digits read as the whole part plus the fraction |
| Text.ParseNumber | src/ehr_analysis.py:119 | `float()` succeeds only on text that is not blank once stripped, and a negative result comes from text that starts with a minus sign after stripping |
| Text.ParseNumberPadded | src/ehr_analysis.py:119 | `float()` ignores surrounding whitespace, negates the unsigned reading after a minus sign, keeps it after a plus sign or no sign, and fails exactly when the unsigned reading fails |
| Text.ParseNumberOfDigits | src/ehr_analysis.py:119 | `float()` of a decimal digit string is the number its digits denote |
| Text.ParseNumberOfNegativeDigits | src/ehr_analysis.py:119 | with a minus sign in front, the result is the negated number |
| Timestamp.DaysInMonth | src/ehr_analysis.py:131-133 | every month has 28 to 31 days, and its length is the gap between the cumulative day counts of its start and the next month's start (or the year's end) |
| Timestamp.Parse | src/ehr_analysis.py:131-133 | `strptime` yields only valid datetimes and fails with DateParse otherwise |
| Timestamp.ParseFormat | src/ehr_analysis.py:131-133 | the canonical text of every valid datetime parses back to it |
| Timestamp.FormatParse | src/ehr_analysis.py:131-133 | whatever parses is the canonical text of the datetime it yields |
| Timestamp.BeforeIsStrictTotalOrder | src/ehr_analysis.py:160 | `<` on datetimes is irreflexive, asymmetric, total and transitive |
| Timestamp.Before | src/ehr_analysis.py:160 | on valid datetimes, `<` compared field by field holds exactly when the first instant is earlier |
| Timestamp.OrdinalInOrder | src/ehr_analysis.py:134 | the day ordinal orders calendar dates as their fields do |
| Timestamp.BeforeMatchesInstant | src/ehr_analysis.py:160-165 | field-by-field `<` agrees with the order of the instants, and equal instants are equal datetimes |
| Timestamp.FloorDays | src/ehr_analysis.py:134 | `.days` is the whole number of days in the difference, rounded down |
| Timestamp.TruncDiv365 | src/ehr_analysis.py:135 | `int(x / 365)` rounds toward zero, for both signs |
| Timestamp.YearsBetween | src/ehr_analysis.py:134-135 | the year count is the floored day difference divided by 365 and truncated toward zero: non-negative with `r * 365 <= days < (r + 1) * 365` when the end is not before the start, non-positive with `(r - 1) * 365 < days <= r * 365` otherwise |
| Timestamp.YearsNonNegative | src/ehr_analysis.py:134-135 | the year count is never negative when the end is not before the start |
| Timestamp.YearsMonotone | src/ehr_analysis.py:134-135 | a later end never gives a smaller year count |
| Fixture.PatientTableWellFormed | tests/test_ehr_analysis.py:11-16 | the sample patient table names its key column, has four fields per row and distinct ids |
| Fixture.LabTableWellFormed | tests/test_ehr_analysis.py:18-27 | the sample lab table names its key column and has five fields per row |
| Fixture.SampleFilesLoad | tests/test_ehr_analysis.py:30-36 | both sample files load without error |
| Fixture.SamplePatientHandles | tests/test_ehr_analysis.py:43 | the handles of the sample patient file are three, the first for id "1" |
| Fixture.SampleLabHandles | tests/test_ehr_analysis.py:53 | the handles of the sample lab file are seven, the first for patient "1" |
| Fixture.LoadSample | tests/test_ehr_analysis.py:39-53 | `parse_data` on the sample files stores the sample rows and returns three patient and seven lab handles, the first for patient "1" |
| Fixture.ReloadSample | src/ehr_analysis.py:176-186 | a store opened on any tables an earlier run left, then loaded from the sample files, holds exactly the sample rows: nothing from the earlier run remains |
| Fixture.SamplePatientFile | tests/test_ehr_analysis.py:11-16 | the sample patient table written out header first reads back as that table, so a file meeting the sample preconditions exists |
| Fixture.SampleLabFile | tests/test_ehr_analysis.py:18-27 | the sample lab table written out header first reads back as that table |
| Fixture.SampleFields | tests/test_ehr_analysis.py:39-57 | on the sample tables, patient "1" reads F, 1947-01-01 and white, and its lab handle reads HDL, 50, mg/dL, 1980-01-01 |
| Fixture.SampleSession | tests/test_ehr_analysis.py:39-87 | `parse_data` on the sample files, then the fields of the first returned handles, gives the values the tests expect, and `earliest_admission` of the first patient is 33 |
| Fixture.SampleIsSick | tests/test_ehr_analysis.py:71-79 | on the sample labs, `is_sick("HDL", ">", 30)` for patient "1" is True |
| Fixture.FirstRowDecides | src/ehr_analysis.py:113-126 | HDL at 50 in a later row does not make `is_sick("HDL", ">", 30)` True when the patient's first row is LDL |
| Fixture.NewYearDays | src/ehr_analysis.py:134 | between two New Year midnights lie exactly the days of the years between them |
| Fixture.SampleEarliest | tests/test_ehr_analysis.py:82-87 | the earliest of patient 1's lab dates is 1980-01-01 |
| Fixture.SampleAdmission | tests/test_ehr_analysis.py:82-87 | from a 1947-01-01 birth to a 1980-01-01 first lab there are 12053 days, an admission age of 33 |
| Fixture.SampleAge | tests/test_ehr_analysis.py:60-68 | with the clock at 2023-01-01, a patient born 1947-01-01 is 76 (27759 days) |
| Fixture.Parse1947 | src/ehr_analysis.py:131-133 | the sample text "1947-01-01 00:00:00.000000" parses to midnight on 1 January 1947 |
| Fixture.Parse1980 | src/ehr_analysis.py:152-154 | the same for 1980 |
| Fixture.Parse2019 | src/ehr_analysis.py:156-158 | the same for 2019 |
| Fixture.SampleLabDates | tests/test_ehr_analysis.py:18-27 | the stored lab dates of patient "1" are those of 1980, 2019 and 2019, in row order |
| Fixture.SampleEarliestAdmission | tests/test_ehr_analysis.py:82-87 | on the sample store, `earliest_admission` of patient "1", parsing the stored text, is 33 |
| Fixture.SampleStoredAge | tests/test_ehr_analysis.py:60-68 | on the sample store, with the clock at 2023-01-01, `age` of patient "1", parsing the stored dob text, is 76 |

## Left out

- SQLite itself is not modelled. Two tables as sequences of rows stand for
  it. Left out with it:
  - column types and affinity;
  - cursors;
  - transactions;
  - `connection.commit()` (src/ehr_analysis.py:216);
  - persistence across runs, beyond `Store.Open` on the tables a previous
    run left.

  A failed insert leaves the rows stored before it, as statement-level
  failure in SQLite does.
- The order in which `SELECT` returns rows is taken to be insertion order.
  SQLite does not promise that order, but a plain table scan follows it.
- File I/O is outside the model: `open`, `encoding="utf-8-sig"` (BOM
  removal) and `readlines()`. A file is its sequence of lines, so a missing
  or unreadable file is not modelled.
- The store as it is before any ingestion ("no such table") is not
  modelled. Every operation assumes both tables exist.
- `datetime.datetime.today()` is an argument: the clock is not modelled.
- `float()` is modelled for a decimal subset: optional whitespace, an
  optional sign, digits with at most one point. Exponents, `inf`/`nan` and
  digit underscores are left out, and so are IEEE rounding and non-ASCII
  digits and whitespace. Values are exact reals.
- `strptime` is modelled only for the canonical fixed-width form
  "YYYY-MM-DD HH:MM:SS.ffffff". The leniencies Python accepts, such as
  fewer digits per field or shorter microseconds, are not modelled and
  read as DateParse errors.
- `Lab.__str__` and `Patient.__str__` (src/ehr_analysis.py:54-56, 109-111)
  are left out: they only concatenate text. The `pickle` import is unused.
- The `fake_files` helper the tests use to write the sample files is not
  part of this model. `Fixture.ReadsAs` stands for any file that reads as
  the sample table. `Ingest.WriteFile` is a helper that writes a table
  out; `Fixture.SamplePatientFile` and `Fixture.SampleLabFile` show that the
  written sample tables read back so.
- The date arithmetic of the sample values is shown on `DateTime` values
  (`Fixture.SampleAdmission`, `Fixture.SampleAge`). `Fixture.Parse1947`,
  `Parse1980` and `Parse2019` connect them to the stored text.
- The age test expects 76 with whatever clock ran it. `Fixture.SampleAge`
  fixes the clock at the start of 2023.
- Text.Strip: its `ensures` states the shape of the result only. That the
  result is exactly the input with its outer whitespace removed is stated by
  `Text.StripPadded`.
- Ingest.DataRows: its `ensures` gives the count and non-emptiness of the
  rows. Their contents are related to the lines by
  `Ingest.DataRowJoinsBack`.
- Text.ParseNumber: its `ensures` states the shape of the text it accepts
  only. Its value is stated by `Text.ParseNumberPadded`,
  `Text.ParseUnsignedDecimal` and `Text.ParseNumberOfDigits`.
