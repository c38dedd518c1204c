/** The sample data of the repository's tests, and what the model computes
    from it. */
module Fixture {
  import opened Errors
  import opened Text
  import opened Timestamp
  import opened Database
  import opened Records
  import opened Ingest

  /** The sample patient file names the date-of-birth column `birth_date`,
      not `dob`; the rows are stored by position all the same. */
  const PatientHeader: seq<string> := ["id", "gender", "birth_date", "race"]

  const PatientRows: seq<seq<string>> := [
    ["1", "F", "1947-01-01 00:00:00.000000", "white"],
    ["2", "M", "1975-01-01 00:00:00.000000", "black"],
    ["3", "F", "1990-01-01 00:00:00.000000", "white"]
  ]

  const LabHeader: seq<string> := ["patient_id", "lab_name", "lab_value", "lab_units", "lab_date"]

  const LabRows: seq<seq<string>> := [
    ["1", "HDL", "50", "mg/dL", "1980-01-01 00:00:00.000000"],
    ["1", "HDL", "50", "mg/dL", "2019-01-01 00:00:00.000000"],
    ["1", "LDL", "100", "mg/dL", "2019-01-01 00:00:00.000000"],
    ["2", "HDL", "50", "mg/dL", "2007-01-01 00:00:00.000000"],
    ["2", "LDL", "100", "mg/dL", "2007-01-01 00:00:00.000000"],
    ["3", "HDL", "50", "mg/dL", "2023-01-01 00:00:00.000000"],
    ["3", "LDL", "100", "mg/dL", "2023-01-01 00:00:00.000000"]
  ]

  /** The lines of a file read as this header and these rows. The helper
      that writes the sample files is not part of this model; any lines that
      read so will do (`ReadWrittenFile` gives one such file). */
  predicate ReadsAs(lines: seq<string>, header: seq<string>, rows: seq<seq<string>>) {
    |lines| > 0 && Header(lines) == header && DataRows(lines) == rows
  }

  /** The sample patient table names the key column and has distinct ids
      and four fields a row. */
  lemma PatientTableWellFormed()
    ensures WellFormedTable(Patients, PatientHeader, PatientRows)
  {
    assert KeyName(Patients) in PatientHeader;
    assert forall k :: 0 <= k < |PatientRows| ==> |PatientHeader| <= |PatientRows[k]| == Arity(Patients);
    assert forall i, j :: 0 <= i < j < |PatientRows| ==>
      |PatientRows[i]| > 0 && |PatientRows[j]| > 0 && PatientRows[i][0] != PatientRows[j][0];
  }

  /** The sample lab table names the key column and has five fields a row. */
  lemma LabTableWellFormed()
    ensures WellFormedTable(Labs, LabHeader, LabRows)
  {
    assert KeyName(Labs) in LabHeader;
    assert forall k :: 0 <= k < |LabRows| ==> |LabHeader| <= |LabRows[k]| == Arity(Labs);
  }

  /** Both sample files load without error. */
  lemma SampleFilesLoad(patientLines: seq<string>, labLines: seq<string>)
    requires ReadsAs(patientLines, PatientHeader, PatientRows)
    requires ReadsAs(labLines, LabHeader, LabRows)
    ensures LoadError(Patients, patientLines) == None
    ensures LoadError(Labs, labLines) == None
  {
    PatientTableWellFormed();
    LabTableWellFormed();
    WellFormedLoads(Patients, patientLines);
    WellFormedLoads(Labs, labLines);
  }

  /** The fields of the first patient and of the first lab row read back as
      the sample data holds them. */
  lemma SampleFields(s: Store)
    requires s.Valid() && s.patients == PatientRows && s.labs == LabRows
    ensures Gender(s, Patient("1")) == Ok("F")
    ensures Dob(s, Patient("1")) == Ok("1947-01-01 00:00:00.000000")
    ensures Race(s, Patient("1")) == Ok("white")
    ensures LabName(s, Lab("1")) == Ok("HDL")
    ensures LabValue(s, Lab("1")) == Ok("50")
    ensures LabUnits(s, Lab("1")) == Ok("mg/dL")
    ensures LabDate(s, Lab("1")) == Ok("1980-01-01 00:00:00.000000")
  {
    assert FirstMatch(PatientRows, "1") == Some(0);
    assert FirstMatch(LabRows, "1") == Some(0);
  }

  /** The handles of the sample patient file are built from its `id`
      column: the first is patient "1". */
  lemma SamplePatientHandles(lines: seq<string>, ids: seq<string>)
    requires ReadsAs(lines, PatientHeader, PatientRows) && HandlesFor(Patients, lines, ids)
    ensures |ids| == 3 && ids[0] == "1"
  {
    assert LastIndexOf(PatientHeader, "id") == Some(0);
    assert HandleIs(Patients, PatientHeader, PatientRows[0], ids[0]);
  }

  /** The handles of the sample lab file are built from its `patient_id`
      column: the first is for patient "1". */
  lemma SampleLabHandles(lines: seq<string>, ids: seq<string>)
    requires ReadsAs(lines, LabHeader, LabRows) && HandlesFor(Labs, lines, ids)
    ensures |ids| == 7 && ids[0] == "1"
  {
    assert LastIndexOf(LabHeader, "patient_id") == Some(0);
    assert HandleIs(Labs, LabHeader, LabRows[0], ids[0]);
  }

  /** `parse_data` on the sample files: both tables hold the sample rows,
      and the first handles are for patient "1". */
  method LoadSample(s: Store, patientLines: seq<string>, labLines: seq<string>)
    returns (patients: seq<Patient>, labs: seq<Lab>)
    requires s.Valid()
    requires ReadsAs(patientLines, PatientHeader, PatientRows)
    requires ReadsAs(labLines, LabHeader, LabRows)
    modifies s
    ensures s.Valid() && s.patients == PatientRows && s.labs == LabRows
    ensures |patients| == 3 && |labs| == 7
    ensures patients[0] == Patient("1") && labs[0] == Lab("1")
  {
    SampleFilesLoad(patientLines, labLines);
    var r := ParseData(s, patientLines, labLines);
    patients, labs := r.value.0, r.value.1;
    SamplePatientHandles(patientLines, PatientIds(patients));
    SampleLabHandles(labLines, LabIds(labs));
    assert PatientIds(patients)[0] == patients[0].id;
    assert LabIds(labs)[0] == labs[0].patientId;
  }

  /** A store opened on whatever tables an earlier run left behind, then
      `parse_data` on the sample files: only the sample rows remain. */
  method ReloadSample(oldLabs: seq<seq<string>>, oldPatients: seq<seq<string>>,
                      patientLines: seq<string>, labLines: seq<string>) returns (s: Store)
    requires TablesValid(oldLabs, oldPatients)
    requires ReadsAs(patientLines, PatientHeader, PatientRows)
    requires ReadsAs(labLines, LabHeader, LabRows)
    ensures s.Valid() && s.patients == PatientRows && s.labs == LabRows
  {
    s := new Store.Open(oldLabs, oldPatients);
    var patients, labs := LoadSample(s, patientLines, labLines);
  }

  /** `parse_data` on the sample files, then the fields of the first handles
      it returns: patient "1", female, born 1947, white; lab row "1", HDL at
      50 mg/dL taken in 1980. */
  method SampleSession(s: Store, patientLines: seq<string>, labLines: seq<string>)
    returns (patients: seq<Patient>, labs: seq<Lab>)
    requires s.Valid()
    requires ReadsAs(patientLines, PatientHeader, PatientRows)
    requires ReadsAs(labLines, LabHeader, LabRows)
    modifies s
    ensures s.Valid() && |patients| == 3 && |labs| == 7
    ensures Gender(s, patients[0]) == Ok("F")
    ensures Dob(s, patients[0]) == Ok("1947-01-01 00:00:00.000000")
    ensures Race(s, patients[0]) == Ok("white")
    ensures LabName(s, labs[0]) == Ok("HDL")
    ensures LabValue(s, labs[0]) == Ok("50")
    ensures LabUnits(s, labs[0]) == Ok("mg/dL")
    ensures LabDate(s, labs[0]) == Ok("1980-01-01 00:00:00.000000")
    ensures EarliestAdmissionOf(s, patients[0]) == Ok(33)
  {
    patients, labs := LoadSample(s, patientLines, labLines);
    SampleFields(s);
    SampleEarliestAdmission(s);
  }

  /** The sample value text reads as the number. */
  lemma FiftyParses()
    ensures ParseNumber("50") == Some(50.0)
  {
    ParseNumberOfDigits("50");
    assert DigitsValue("50") == 50;
  }

  /** Patient 1's first lab row is HDL at 50, so `is_sick("HDL", ">", 30)`
      holds. */
  lemma SampleIsSick()
    ensures HasArity(LabRows, Arity(Labs))
    ensures FirstLabVerdict(LabRows, "1", "HDL", ">", 30.0) == Ok(true)
  {
    LabTableWellFormed();
    assert FirstMatch(LabRows, "1") == Some(0);
    assert LabRows[0][LabNameColumn] == "HDL" && LabRows[0][LabValueColumn] == "50";
    FiftyParses();
  }

  /** A table whose first row for patient 1 is LDL, followed by an HDL row at
      50. */
  const LdlFirst: seq<seq<string>> := [
    ["1", "LDL", "100", "mg/dL", "2019-01-01 00:00:00.000000"],
    ["1", "HDL", "50", "mg/dL", "1980-01-01 00:00:00.000000"]
  ]

  /** Only the first lab row of a patient counts: with an LDL row first, an
      HDL row at 50 further down does not make `is_sick("HDL", ">", 30)`
      hold. */
  lemma FirstRowDecides()
    ensures HasArity(LdlFirst, Arity(Labs))
    ensures KeyIs(LdlFirst[1], "1") && LdlFirst[1][LabNameColumn] == "HDL"
    ensures ParseNumber(LdlFirst[1][LabValueColumn]) == Some(50.0) && Exceeds(">", 50.0, 30.0)
    ensures FirstLabVerdict(LdlFirst, "1", "HDL", ">", 30.0) == Ok(false)
  {
    assert FirstMatch(LdlFirst, "1") == Some(0);
    assert LdlFirst[0][LabNameColumn] == "LDL";
    assert LdlFirst[1][LabValueColumn] == "50";
    FiftyParses();
  }

  /** Midnight on the first of January. */
  function NewYear(y: int): DateTime {
    DateTime(y, 1, 1, 0, 0, 0, 0)
  }

  /** Between two New Year midnights lie exactly the days of the years
      between them. */
  lemma NewYearDays(a: int, b: int)
    requires 1 <= a <= b <= 9999
    ensures Valid(NewYear(a)) && Valid(NewYear(b))
    ensures FloorDays(NewYear(b), NewYear(a)) == DaysBeforeYear(b) - DaysBeforeYear(a)
  {
    var n := DaysBeforeYear(b) - DaysBeforeYear(a);
    assert Instant(NewYear(b)) - Instant(NewYear(a)) == n * 86400000000;
    var d := FloorDays(NewYear(b), NewYear(a));
    assert d * 86400000000 <= n * 86400000000 < (d + 1) * 86400000000;
  }

  /** The first sample patient's lab dates: the 1980 one is the earliest. */
  lemma SampleEarliest()
    ensures Valid(NewYear(1980)) && Valid(NewYear(2019))
    ensures Earliest([NewYear(1980), NewYear(2019), NewYear(2019)]) == NewYear(1980)
  {
    var a, b := NewYear(1980), NewYear(2019);
    assert !Before(b, a);
    assert Earliest([a]) == a;
    EarliestSnoc([a], b);
    assert [a] + [b] == [a, b];
    EarliestSnoc([a, b], b);
    assert [a, b] + [b] == [a, b, b];
  }

  /** Patient 1 was born at the start of 1947 and first seen at the start of
      1980, 12053 days later: an admission age of 33. */
  lemma SampleAdmission()
    ensures Valid(NewYear(1947)) && Valid(NewYear(1980))
    ensures FloorDays(NewYear(1980), NewYear(1947)) == 12053
    ensures YearsBetween(NewYear(1947), NewYear(1980)) == 33
  {
    NewYearDays(1947, 1980);
    assert 1946 / 4 == 486 && 1946 / 100 == 19 && 1946 / 400 == 4;
    assert 1979 / 4 == 494 && 1979 / 100 == 19 && 1979 / 400 == 4;
  }

  /** With the clock at the start of 2023 the first patient is 76: 27759
      days. */
  lemma SampleAge()
    ensures Valid(NewYear(1947)) && Valid(NewYear(2023))
    ensures FloorDays(NewYear(2023), NewYear(1947)) == 27759
    ensures YearsBetween(NewYear(1947), NewYear(2023)) == 76
  {
    NewYearDays(1947, 2023);
    assert 1946 / 4 == 486 && 1946 / 100 == 19 && 1946 / 400 == 4;
    assert 2022 / 4 == 505 && 2022 / 100 == 20 && 2022 / 400 == 5;
  }

  /** The first `k + 1` digits denote ten times what the first `k` denote,
      plus the next digit. */
  lemma DigitsPrefix(ds: string, k: nat)
    requires AllDigits(ds) && k < |ds|
    ensures DigitsValue(ds[..k + 1]) == DigitsValue(ds[..k]) * 10 + (ds[k] as int - '0' as int)
  {
    assert ds[..k + 1][..k] == ds[..k];
  }

  /** Two digits denote ten times the first plus the second. */
  lemma TwoDigits(ds: string)
    requires AllDigits(ds) && |ds| == 2
    ensures DigitsValue(ds) == 10 * (ds[0] as int - '0' as int) + (ds[1] as int - '0' as int)
  {
    assert ds[..0] == [];
    DigitsPrefix(ds, 0);
    DigitsPrefix(ds, 1);
    assert ds[..2] == ds;
  }

  /** Four digits denote the year they spell. */
  lemma FourDigits(ds: string)
    requires AllDigits(ds) && |ds| == 4
    ensures DigitsValue(ds) == 1000 * (ds[0] as int - '0' as int) + 100 * (ds[1] as int - '0' as int)
                               + 10 * (ds[2] as int - '0' as int) + (ds[3] as int - '0' as int)
  {
    assert ds[..0] == [];
    DigitsPrefix(ds, 0);
    DigitsPrefix(ds, 1);
    DigitsPrefix(ds, 2);
    DigitsPrefix(ds, 3);
    assert ds[..4] == ds;
  }

  /** Digits that are all zeros denote zero. */
  lemma ZeroDigits(ds: string)
    requires forall k :: 0 <= k < |ds| ==> ds[k] == '0'
    ensures AllDigits(ds) && DigitsValue(ds) == 0
    decreases |ds|
  {
    if |ds| > 0 {
      ZeroDigits(ds[..|ds| - 1]);
    }
  }

  /** The canonical text of a New Year midnight: the padded year, then
      the first of January at midnight. */
  lemma NewYearFormat(y: int)
    requires 1 <= y <= 9999
    ensures Valid(NewYear(y))
    ensures Format(NewYear(y)) == Pad(y, 4) + "-01-01 00:00:00.000000"
  {
    SmallPads();
    var p := Pad(y, 4);
    assert Format(NewYear(y)) == Layout(p, "01", "01", "00", "00", "00", "000000");
    NewYearLayout(p);
  }

  /** The layout of a year with the first of January at midnight. */
  lemma NewYearLayout(p: string)
    requires |p| == 4
    ensures Layout(p, "01", "01", "00", "00", "00", "000000") == p + "-01-01 00:00:00.000000"
  {
    LayoutFields(p, "01", "01", "00", "00", "00", "000000");
    var s := Layout(p, "01", "01", "00", "00", "00", "000000");
    var t := p + "-01-01 00:00:00.000000";
    assert s[0..4] == t[0..4];
    assert s[4..] == t[4..];
    assert s == s[0..4] + s[4..];
  }

  /** The zero-padded month, day and clock fields of a New Year midnight. */
  lemma SmallPads()
    ensures Pad(0, 2) == "00" && Pad(1, 2) == "01" && Pad(0, 6) == "000000"
  {
    ZeroDigits("00");
    PadDigitsValue("00");
    TwoDigits("01");
    PadDigitsValue("01");
    ZeroDigits("000000");
    PadDigitsValue("000000");
  }

  /** A date text of four year digits and the first of January at midnight
      parses to that New Year midnight. */
  lemma NewYearParses(ys: string, text: string)
    requires |ys| == 4 && AllDigits(ys) && 1 <= DigitsValue(ys)
    requires text == ys + "-01-01 00:00:00.000000"
    ensures Parse(text) == Ok(NewYear(DigitsValue(ys)))
  {
    PadDigitsValue(ys);
    NewYearFormat(DigitsValue(ys));
    ParseFormat(NewYear(DigitsValue(ys)));
  }

  // The sample date texts parse to their New Year midnights.

  lemma Parse1947()
    ensures Parse("1947-01-01 00:00:00.000000") == Ok(NewYear(1947))
  {
    YearTextParses("1947");
    assert "1947" + "-01-01 00:00:00.000000" == "1947-01-01 00:00:00.000000";
  }

  lemma Parse1980()
    ensures Parse("1980-01-01 00:00:00.000000") == Ok(NewYear(1980))
  {
    YearTextParses("1980");
    assert "1980" + "-01-01 00:00:00.000000" == "1980-01-01 00:00:00.000000";
  }

  lemma Parse2019()
    ensures Parse("2019-01-01 00:00:00.000000") == Ok(NewYear(2019))
  {
    YearTextParses("2019");
    assert "2019" + "-01-01 00:00:00.000000" == "2019-01-01 00:00:00.000000";
  }

  /** A New Year date text with a four-digit year parses to that year's
      New Year midnight. */
  lemma YearTextParses(ys: string)
    requires |ys| == 4 && AllDigits(ys) && ys[0] != '0'
    ensures Parse(ys + "-01-01 00:00:00.000000") == Ok(NewYear(DigitsValue(ys)))
    ensures DigitsValue(ys) == 1000 * (ys[0] as int - '0' as int) + 100 * (ys[1] as int - '0' as int)
                               + 10 * (ys[2] as int - '0' as int) + (ys[3] as int - '0' as int)
  {
    FourDigits(ys);
    NewYearParses(ys, ys + "-01-01 00:00:00.000000");
  }

  /** Patient 1 has the first three sample lab rows, dated 1980, 2019 and
      2019. */
  lemma SampleLabDates()
    ensures HasArity(MatchingRows(LabRows, "1"), Arity(Labs))
    ensures LabDates(MatchingRows(LabRows, "1")) ==
      ["1980-01-01 00:00:00.000000", "2019-01-01 00:00:00.000000", "2019-01-01 00:00:00.000000"]
  {
    assert MatchingRows(LabRows[3..], "1") == [] by {
      assert LabRows[3..][1..] == LabRows[4..];
      assert LabRows[4..][1..] == LabRows[5..];
      assert LabRows[5..][1..] == LabRows[6..];
      assert LabRows[6..][1..] == [];
    }
    assert LabRows[1..][1..] == LabRows[2..] && LabRows[2..][1..] == LabRows[3..];
    assert MatchingRows(LabRows, "1") == LabRows[..3];
  }

  /** Three dates that each parse parse together, in order. */
  lemma ParseThree(d1: string, d2: string, d3: string, t1: DateTime, t2: DateTime, t3: DateTime)
    requires Parse(d1) == Ok(t1) && Parse(d2) == Ok(t2) && Parse(d3) == Ok(t3)
    ensures ParseAll([d1, d2, d3]) == Ok([t1, t2, t3])
  {
    var a, b, c := [d1], [d1, d2], [d1, d2, d3];
    assert a[..0] == [] && ParseAll([]) == Ok([]);
    assert [] + [t1] == [t1];
    assert ParseAll(a) == Ok([t1]);
    assert b[..1] == a && [t1] + [t2] == [t1, t2];
    assert ParseAll(b) == Ok([t1, t2]);
    assert c[..2] == b && [t1, t2] + [t3] == [t1, t2, t3];
  }

  /** `age` of the first sample patient, with the clock at the start of
      2023, read from the stored date-of-birth text: 76. */
  lemma SampleStoredAge(s: Store)
    requires s.Valid() && s.patients == PatientRows && s.labs == LabRows
    ensures Valid(NewYear(2023))
    ensures Age(s, Patient("1"), NewYear(2023)) == Ok(76)
  {
    SampleFields(s);
    Parse1947();
    SampleAge();
  }

  /** `earliest_admission` of the first sample patient: born in 1947, first
      seen in 1980, so 33. */
  lemma SampleEarliestAdmission(s: Store)
    requires s.Valid() && s.patients == PatientRows && s.labs == LabRows
    ensures EarliestAdmissionOf(s, Patient("1")) == Ok(33)
  {
    SampleFields(s);
    SampleLabDates();
    var d1, d2 := "1980-01-01 00:00:00.000000", "2019-01-01 00:00:00.000000";
    Parse1947();
    Parse1980();
    Parse2019();
    ParseThree(d1, d2, d2, NewYear(1980), NewYear(2019), NewYear(2019));
    SampleEarliest();
    SampleAdmission();
  }
  /** A joined line starts with its first field and ends with its last. */
  lemma {:induction false} JoinEnds(fields: seq<string>, sep: char)
    requires |fields| >= 1 && forall k :: 0 <= k < |fields| ==> |fields[k]| > 0
    ensures var line := Join(fields, sep);
      |line| > 0 && line[0] == fields[0][0]
      && line[|line| - 1] == fields[|fields| - 1][|fields[|fields| - 1]| - 1]
    decreases |fields|
  {
    if |fields| > 1 {
      JoinEnds(fields[1..], sep);
    }
  }

  /** A row of the sample tables survives a write and a read: no field holds
      a tab, and the line neither starts nor ends with whitespace. */
  lemma SampleRowWritable(row: seq<string>)
    requires |row| >= 1 && forall k :: 0 <= k < |row| ==> |row[k]| > 0 && '\t' !in row[k]
    requires !IsSpace(row[0][0]) && !IsSpace(row[|row| - 1][|row[|row| - 1]| - 1])
    ensures Writable(row)
  {
    JoinEnds(row, '\t');
  }

  /** The sample patient table written out as a file, header first, reads
      back as the sample table: such a file exists. */
  lemma SamplePatientFile()
    ensures ReadsAs(WriteFile([PatientHeader] + PatientRows), PatientHeader, PatientRows)
  {
    var table := [PatientHeader] + PatientRows;
    forall k | 0 <= k < |table| ensures |table[k]| >= 1 && Writable(table[k]) {
      SampleRowWritable(table[k]);
    }
    ReadWrittenFile(table);
    assert table[1..] == PatientRows;
  }

  /** The sample lab table written out as a file reads back as the sample
      table. */
  lemma SampleLabFile()
    ensures ReadsAs(WriteFile([LabHeader] + LabRows), LabHeader, LabRows)
  {
    var table := [LabHeader] + LabRows;
    forall k | 0 <= k < |table| ensures |table[k]| >= 1 && Writable(table[k]) {
      SampleRowWritable(table[k]);
    }
    ReadWrittenFile(table);
    assert table[1..] == LabRows;
  }
}
