/** The record model: `Lab` and `Patient` handles, which hold only an
    identifier, and the fields and derived values the analysis tool computes
    from them by querying the store each time. */
module Records {
  import opened Errors
  import opened Text
  import opened Timestamp
  import opened Database

  /** A lab handle: the patient id it was built from, nothing else. */
  datatype Lab = Lab(patientId: string)

  /** A patient handle: the patient id, nothing else. */
  datatype Patient = Patient(id: string)

  /** What `SELECT <column> FROM <table> WHERE <key column> = ?` followed by
      `fetchone()[0]` yields: the column of the first row with the key, or a
      failure when no row has it. */
  ghost predicate Resolves(rows: seq<seq<string>>, key: string, column: nat, r: Result<string>) {
    && (r.Err? <==> !HasRow(rows, key))
    && (r.Err? ==> r.error == NotFound)
    && (r.Ok? ==> exists i :: IsFirstRow(rows, key, i) && column < |rows[i]| && r.value == rows[i][column])
  }

  function Field(rows: seq<seq<string>>, key: string, column: nat): (r: Result<string>)
    requires forall i :: 0 <= i < |rows| ==> column < |rows[i]|
    ensures Resolves(rows, key, column, r)
  {
    match FirstMatch(rows, key)
    case None => Err(NotFound)
    case Some(i) => Ok(rows[i][column])
  }

  // The fields of a lab handle. Every one of them reads the first Labs row
  // of the handle's patient, whichever row the handle was built from.

  function LabName(s: Store, lab: Lab): (r: Result<string>)
    reads s
    requires s.Valid()
    ensures Resolves(s.labs, lab.patientId, LabNameColumn, r)
  {
    Field(s.labs, lab.patientId, LabNameColumn)
  }

  function LabValue(s: Store, lab: Lab): (r: Result<string>)
    reads s
    requires s.Valid()
    ensures Resolves(s.labs, lab.patientId, LabValueColumn, r)
  {
    Field(s.labs, lab.patientId, LabValueColumn)
  }

  function LabUnits(s: Store, lab: Lab): (r: Result<string>)
    reads s
    requires s.Valid()
    ensures Resolves(s.labs, lab.patientId, LabUnitsColumn, r)
  {
    Field(s.labs, lab.patientId, LabUnitsColumn)
  }

  function LabDate(s: Store, lab: Lab): (r: Result<string>)
    reads s
    requires s.Valid()
    ensures Resolves(s.labs, lab.patientId, LabDateColumn, r)
  {
    Field(s.labs, lab.patientId, LabDateColumn)
  }

  // The fields of a patient handle.

  function Gender(s: Store, p: Patient): (r: Result<string>)
    reads s
    requires s.Valid()
    ensures Resolves(s.patients, p.id, GenderColumn, r)
  {
    Field(s.patients, p.id, GenderColumn)
  }

  function Dob(s: Store, p: Patient): (r: Result<string>)
    reads s
    requires s.Valid()
    ensures Resolves(s.patients, p.id, DobColumn, r)
  {
    Field(s.patients, p.id, DobColumn)
  }

  function Race(s: Store, p: Patient): (r: Result<string>)
    reads s
    requires s.Valid()
    ensures Resolves(s.patients, p.id, RaceColumn, r)
  {
    Field(s.patients, p.id, RaceColumn)
  }

  /** Patients rows have distinct ids, so a patient handle built from a row's
      id reads back exactly that row's gender, date of birth and race. */
  lemma PatientRowRoundTrip(s: Store, j: int)
    requires s.Valid() && 0 <= j < |s.patients|
    ensures var p := Patient(s.patients[j][PatientIdColumn]);
      && Gender(s, p) == Ok(s.patients[j][GenderColumn])
      && Dob(s, p) == Ok(s.patients[j][DobColumn])
      && Race(s, p) == Ok(s.patients[j][RaceColumn])
  {
    var key := s.patients[j][PatientIdColumn];
    assert KeyIs(s.patients[j], key);
    assert IsFirstRow(s.patients, key, j);
    var i := FirstMatch(s.patients, key).value;
    assert i == j;
  }

  /** A lab handle built from row `j` reads the first Labs row of its patient,
      which is row `j` only when no earlier row has the same patient id. */
  lemma LabRowResolution(s: Store, j: int)
    requires s.Valid() && 0 <= j < |s.labs|
    ensures var lab := Lab(s.labs[j][LabPatientIdColumn]);
      exists i :: 0 <= i <= j && IsFirstRow(s.labs, lab.patientId, i)
        && LabName(s, lab) == Ok(s.labs[i][LabNameColumn])
        && LabValue(s, lab) == Ok(s.labs[i][LabValueColumn])
        && LabUnits(s, lab) == Ok(s.labs[i][LabUnitsColumn])
        && LabDate(s, lab) == Ok(s.labs[i][LabDateColumn])
  {
    var key := s.labs[j][LabPatientIdColumn];
    assert KeyIs(s.labs[j], key);
    var i := FirstMatch(s.labs, key).value;
    assert IsFirstRow(s.labs, key, i);
  }

  /** `Patient.labs`: one lab handle per Labs row of the patient, each
      carrying the patient's own id. */
  method PatientLabs(s: Store, p: Patient) returns (labs: seq<Lab>)
    requires s.Valid()
    ensures |labs| == |MatchIndices(s.labs, p.id)|
    ensures |labs| > 0 <==> HasRow(s.labs, p.id)
    ensures forall k :: 0 <= k < |labs| ==> labs[k] == Lab(p.id)
  {
    var info := MatchingRows(s.labs, p.id);
    MatchingRowsCount(s.labs, p.id);
    labs := [];
    for i := 0 to |info|
      invariant |labs| == i
      invariant forall k :: 0 <= k < i ==> labs[k] == Lab(p.id)
    {
      labs := labs + [Lab(info[i][LabPatientIdColumn])];
    }
  }

  /** The comparison `is_sick` makes: ">" and "<" are strict, any other
      operator never holds. */
  function Exceeds(op: string, x: real, threshold: real): (b: bool)
    ensures b ==> op == ">" || op == "<"
  {
    if op == ">" then x > threshold
    else if op == "<" then x < threshold
    else false
  }

  /** The verdict `is_sick` reaches through its lab handles: they all read
      the patient's first Labs row, so that row alone decides. */
  function FirstLabVerdict(labs: seq<seq<string>>, id: string, name: string, op: string,
                           threshold: real): (r: Result<bool>)
    requires HasArity(labs, Arity(Labs))
    ensures !HasRow(labs, id) ==> r == Ok(false)
    ensures r.Err? ==> r.error == ValueParse
    ensures r == Ok(true) <==>
      exists i :: IsFirstRow(labs, id, i) && labs[i][LabNameColumn] == name
        && ParseNumber(labs[i][LabValueColumn]).Some?
        && Exceeds(op, ParseNumber(labs[i][LabValueColumn]).value, threshold)
    ensures r.Err? <==>
      exists i :: IsFirstRow(labs, id, i) && labs[i][LabNameColumn] == name
        && ParseNumber(labs[i][LabValueColumn]).None?
    ensures HasRow(labs, id) && labs[FirstMatch(labs, id).value][LabNameColumn] != name ==> r == Ok(false)
  {
    assert forall i :: IsFirstRow(labs, id, i) ==> i == FirstMatch(labs, id).value;
    match FirstMatch(labs, id)
    case None => Ok(false)
    case Some(i) =>
      if labs[i][LabNameColumn] != name then Ok(false)
      else match ParseNumber(labs[i][LabValueColumn])
        case None => Err(ValueParse)
        case Some(x) => Ok(Exceeds(op, x, threshold))
  }

  /** Rows appended after the patient's first Labs row never change the
      verdict. */
  lemma VerdictIgnoresLaterRows(labs: seq<seq<string>>, extra: seq<seq<string>>, id: string,
                                name: string, op: string, threshold: real)
    requires HasArity(labs + extra, Arity(Labs)) && HasRow(labs, id)
    ensures HasArity(labs, Arity(Labs))
    ensures FirstLabVerdict(labs + extra, id, name, op, threshold)
         == FirstLabVerdict(labs, id, name, op, threshold)
  {
    assert HasArity(labs, Arity(Labs)) by {
      forall i | 0 <= i < |labs| ensures |labs[i]| == Arity(Labs) {
        assert (labs + extra)[i] == labs[i];
      }
    }
    FirstMatchExtend(labs, extra, id);
    var i := FirstMatch(labs, id).value;
    assert (labs + extra)[i] == labs[i];
  }

  /** `Patient.is_sick(lab_name, operator, value)`. */
  method IsSick(s: Store, p: Patient, name: string, op: string, threshold: real) returns (r: Result<bool>)
    requires s.Valid()
    ensures r == FirstLabVerdict(s.labs, p.id, name, op, threshold)
    ensures !HasRow(s.labs, p.id) ==> r == Ok(false)
    ensures op != ">" && op != "<" ==> r != Ok(true)
    ensures r == Ok(true) ==>
      exists i :: 0 <= i < |s.labs| && KeyIs(s.labs[i], p.id)
        && s.labs[i][LabNameColumn] == name
        && ParseNumber(s.labs[i][LabValueColumn]).Some?
        && Exceeds(op, ParseNumber(s.labs[i][LabValueColumn]).value, threshold)
  {
    var labs := PatientLabs(s, p);
    for i := 0 to |labs|
      invariant i > 0 ==> FirstLabVerdict(s.labs, p.id, name, op, threshold) == Ok(false)
    {
      var labName := LabName(s, labs[i]).value;
      if labName == name {
        var labValue := ParseNumber(LabValue(s, labs[i]).value);
        if labValue.None? {
          return Err(ValueParse);
        }
        if op == ">" {
          if labValue.value > threshold {
            return Ok(true);
          }
        } else if op == "<" {
          if labValue.value < threshold {
            return Ok(true);
          }
        }
      }
    }
    return Ok(false);
  }

  /** `Patient.age`, with the clock reading passed in as `today`. */
  function Age(s: Store, p: Patient, today: DateTime): (r: Result<int>)
    reads s
    requires s.Valid() && Valid(today)
    ensures r == Err(NotFound) <==> !HasRow(s.patients, p.id)
    ensures Dob(s, p).Ok? && Parse(Dob(s, p).value).Ok? ==>
      r == Ok(YearsBetween(Parse(Dob(s, p).value).value, today))
    ensures Dob(s, p).Ok? && Parse(Dob(s, p).value).Err? ==> r == Err(DateParse)
  {
    match Dob(s, p)
    case Err(e) => Err(e)
    case Ok(dob) =>
      match Parse(dob)
      case Err(e) => Err(e)
      case Ok(birth) => Ok(YearsBetween(birth, today))
  }

  /** Age never decreases as the clock moves forward. */
  lemma AgeMonotone(s: Store, p: Patient, t1: DateTime, t2: DateTime)
    requires s.Valid() && Valid(t1) && Valid(t2)
    requires !Before(t2, t1)
    requires Age(s, p, t1).Ok?
    ensures Age(s, p, t2).Ok? && Age(s, p, t1).value <= Age(s, p, t2).value
  {
    var birth := Parse(Dob(s, p).value).value;
    YearsMonotone(birth, t1, t2);
  }

  /** The lab-date column of each row. */
  function LabDates(rows: seq<seq<string>>): (dates: seq<string>)
    requires HasArity(rows, Arity(Labs))
    ensures |dates| == |rows|
    ensures forall k :: 0 <= k < |rows| ==> dates[k] == rows[k][LabDateColumn]
  {
    seq(|rows|, k requires 0 <= k < |rows| => rows[k][LabDateColumn])
  }

  /** The lab dates parsed in order; the first that does not parse fails. */
  function ParseAll(dates: seq<string>): (r: Result<seq<DateTime>>)
    ensures r.Ok? ==> |r.value| == |dates| && forall k :: 0 <= k < |dates| ==> Parse(dates[k]) == Ok(r.value[k])
    ensures r.Err? ==> r.error == DateParse && exists k :: 0 <= k < |dates| && Parse(dates[k]).Err?
  {
    if dates == [] then Ok([])
    else
      var init := dates[..|dates| - 1];
      match ParseAll(init)
      case Err(e) =>
        assert forall k :: 0 <= k < |init| ==> init[k] == dates[k];
        Err(e)
      case Ok(ts) =>
        match Parse(dates[|dates| - 1])
        case Err(e) => Err(e)
        case Ok(t) => Ok(ts + [t])
  }

  lemma {:induction false} ParseAllPrefixError(dates: seq<string>, n: nat)
    requires n <= |dates| && ParseAll(dates[..n]).Err?
    ensures ParseAll(dates).Err?
    decreases |dates| - n
  {
    if n < |dates| {
      assert dates[..n + 1][..n] == dates[..n];
      ParseAllPrefixError(dates, n + 1);
    } else {
      assert dates[..n] == dates;
    }
  }

  lemma ParseAllSnoc(dates: seq<string>, i: nat)
    requires i < |dates|
    ensures ParseAll(dates[..i + 1]) ==
      match ParseAll(dates[..i])
      case Err(e) => Err(e)
      case Ok(ts) => match Parse(dates[i]) case Err(e) => Err(e) case Ok(t) => Ok(ts + [t])
  {
    assert dates[..i + 1][..i] == dates[..i];
  }

  /** The earliest of the timestamps, kept as the `earliest_admission` loop
      keeps it: a later one replaces it only when strictly earlier. */
  function Earliest(ts: seq<DateTime>): (m: DateTime)
    requires |ts| > 0
    ensures m in ts
    ensures forall k :: 0 <= k < |ts| ==> !Before(ts[k], m)
  {
    if |ts| == 1 then ts[0]
    else
      var init := ts[..|ts| - 1];
      var m := Earliest(init);
      var t := ts[|ts| - 1];
      assert forall k :: 0 <= k < |init| ==> init[k] == ts[k];
      if Before(t, m) then
        assert forall k :: 0 <= k < |init| ==> !Before(init[k], t) by {
          forall k | 0 <= k < |init| ensures !Before(init[k], t) {
            BeforeIsStrictTotalOrder(init[k], t, m);
          }
        }
        t
      else m
  }

  /** Extending the timestamps by one keeps the earlier minimum unless the
      new one is strictly earlier. */
  lemma EarliestSnoc(ts: seq<DateTime>, t: DateTime)
    requires |ts| > 0
    ensures Earliest(ts + [t]) == if Before(t, Earliest(ts)) then t else Earliest(ts)
  {
    assert (ts + [t])[..|ts|] == ts;
  }

  /** The earliest timestamp does not depend on the order of the rows. */
  lemma EarliestIgnoresOrder(a: seq<DateTime>, b: seq<DateTime>)
    requires |a| > 0 && multiset(a) == multiset(b)
    ensures |b| > 0 && Earliest(a) == Earliest(b)
  {
    assert |b| == |multiset(b)| == |multiset(a)| == |a|;
    var ma, mb := Earliest(a), Earliest(b);
    assert ma in multiset(b);
    assert mb in multiset(a);
    assert ma in b && mb in a;
    BeforeIsStrictTotalOrder(ma, mb, ma);
  }

  /** The outcome of `earliest_admission` from the patient's lab dates and
      the date-of-birth lookup: the lab dates parsed in order, then the date
      of birth found and parsed, then the year count from birth to the
      earliest lab date; no lab date at all fails last. */
  function AdmissionFrom(dates: seq<string>, dob: Result<string>): (r: Result<int>)
    requires dob.Err? ==> dob.error == NotFound
    ensures r.Err? ==> r.error == DateParse || r.error == NotFound || r.error == NoLabs
    ensures r.Ok? ==> |dates| > 0 && dob.Ok?
    ensures r == Err(NoLabs) <==> |dates| == 0 && dob.Ok? && Parse(dob.value).Ok?
    ensures r.Ok? ==> Parse(dob.value).Ok? && forall k :: 0 <= k < |dates| ==> Parse(dates[k]).Ok?
    ensures r.Ok? ==>
      exists k :: 0 <= k < |dates| && Parse(dates[k]).Ok?
        && r.value == YearsBetween(Parse(dob.value).value, Parse(dates[k]).value)
    ensures r.Ok? ==> forall k :: 0 <= k < |dates| && Parse(dates[k]).Ok? ==>
      r.value <= YearsBetween(Parse(dob.value).value, Parse(dates[k]).value)
  {
    assert |dates| == 0 ==> dates == [] && ParseAll(dates) == Ok([]);
    match ParseAll(dates)
    case Err(e) => Err(e)
    case Ok(ts) =>
      match dob
      case Err(e) => Err(e)
      case Ok(text) =>
        match Parse(text)
        case Err(e) => Err(e)
        case Ok(birth) =>
          if |ts| == 0 then Err(NoLabs)
          else
            EarliestIsLeastYears(birth, ts);
            Ok(YearsBetween(birth, Earliest(ts)))
  }

  /** The year count to the earliest date is attained at one of the dates
      and is at most the count to any of them. */
  lemma EarliestIsLeastYears(birth: DateTime, ts: seq<DateTime>)
    requires Valid(birth) && |ts| > 0 && forall k :: 0 <= k < |ts| ==> Valid(ts[k])
    ensures Valid(Earliest(ts))
    ensures exists k :: 0 <= k < |ts| && ts[k] == Earliest(ts)
    ensures forall k :: 0 <= k < |ts| ==> YearsBetween(birth, Earliest(ts)) <= YearsBetween(birth, ts[k])
  {
    var m := Earliest(ts);
    forall k | 0 <= k < |ts| ensures YearsBetween(birth, m) <= YearsBetween(birth, ts[k]) {
      YearsMonotone(birth, m, ts[k]);
    }
  }

  /** The order in which `earliest_admission` reports its failures: a lab
      date that does not parse comes first, whatever the date of birth; then
      a missing date of birth; then one that does not parse. With every date
      and the date of birth parsing, and at least one date, it succeeds. */
  lemma AdmissionFromOutcome(dates: seq<string>, dob: Result<string>)
    requires dob.Err? ==> dob.error == NotFound
    ensures (exists k :: 0 <= k < |dates| && Parse(dates[k]).Err?) ==> AdmissionFrom(dates, dob) == Err(DateParse)
    ensures (forall k :: 0 <= k < |dates| ==> Parse(dates[k]).Ok?) && dob.Err? ==>
      AdmissionFrom(dates, dob) == Err(NotFound)
    ensures (forall k :: 0 <= k < |dates| ==> Parse(dates[k]).Ok?) && dob.Ok? && Parse(dob.value).Err? ==>
      AdmissionFrom(dates, dob) == Err(DateParse)
    ensures ((forall k :: 0 <= k < |dates| ==> Parse(dates[k]).Ok?) && |dates| > 0
             && dob.Ok? && Parse(dob.value).Ok?) ==> AdmissionFrom(dates, dob).Ok?
  {
    if exists k :: 0 <= k < |dates| && Parse(dates[k]).Err? {
      assert ParseAll(dates).Err?;
    }
    if forall k :: 0 <= k < |dates| ==> Parse(dates[k]).Ok? {
      assert ParseAll(dates).Ok?;
      assert |dates| > 0 ==> |ParseAll(dates).value| > 0;
    }
  }

  /** What `earliest_admission` computes on the store. */
  function EarliestAdmissionOf(s: Store, p: Patient): (r: Result<int>)
    reads s
    requires s.Valid()
    ensures r.Err? ==> r.error == DateParse || r.error == NotFound || r.error == NoLabs
    ensures r.Ok? ==> HasRow(s.labs, p.id) && HasRow(s.patients, p.id)
    ensures r == Err(NoLabs) <==> !HasRow(s.labs, p.id) && Dob(s, p).Ok? && Parse(Dob(s, p).value).Ok?
  {
    var rows := MatchingRows(s.labs, p.id);
    MatchingRowsArity(s.labs, p.id, Arity(Labs));
    AdmissionFrom(LabDates(rows), Dob(s, p))
  }

  /** The loop of `Patient.earliest_admission`: each lab date parsed in
      turn, the first failure ending the scan, and the least date kept;
      `None` when there is no date at all. */
  method EarliestLabDate(dates: seq<string>) returns (r: Result<Option<DateTime>>)
    ensures ParseAll(dates).Err? ==> r == Err(ParseAll(dates).error)
    ensures ParseAll(dates).Ok? ==> r.Ok? && (r.value.None? <==> |dates| == 0)
    ensures ParseAll(dates).Ok? && |dates| > 0 ==> r.value == Some(Earliest(ParseAll(dates).value))
  {
    // Python leaves `earliest_time` unbound until the first row; any value
    // stands for it here, as it is only read once a row has set it.
    var earliest := DateTime(1, 1, 1, 0, 0, 0, 0);
    ghost var ts: seq<DateTime> := [];
    for i := 0 to |dates|
      invariant ParseAll(dates[..i]) == Ok(ts)
      invariant |ts| == i
      invariant i > 0 ==> earliest == Earliest(ts)
    {
      ParseAllSnoc(dates, i);
      var t := Parse(dates[i]);
      if t.Err? {
        ParseAllPrefixError(dates, i + 1);
        return Err(t.error);
      }
      if i > 0 {
        EarliestSnoc(ts, t.value);
      }
      if i == 0 || Before(t.value, earliest) {
        earliest := t.value;
      }
      ts := ts + [t.value];
    }
    assert dates[..|dates|] == dates;
    if |dates| == 0 {
      return Ok(None);
    }
    return Ok(Some(earliest));
  }

  /** `Patient.earliest_admission`. */
  method EarliestAdmission(s: Store, p: Patient) returns (r: Result<int>)
    requires s.Valid()
    ensures r == EarliestAdmissionOf(s, p)
    ensures !HasRow(s.labs, p.id) ==> r.Err?
  {
    var info := MatchingRows(s.labs, p.id);
    MatchingRowsArity(s.labs, p.id, Arity(Labs));
    var earliest := EarliestLabDate(LabDates(info));
    if earliest.Err? {
      return Err(earliest.error);
    }
    var dob := Dob(s, p);
    if dob.Err? {
      return Err(dob.error);
    }
    var birth := Parse(dob.value);
    if birth.Err? {
      return Err(birth.error);
    }
    if earliest.value.None? {
      return Err(NoLabs);
    }
    return Ok(YearsBetween(birth.value, earliest.value.value));
  }

  /** No lab row at all, with a date of birth that parses, is an error. */
  lemma AdmissionWithoutLabs(s: Store, p: Patient)
    requires s.Valid() && !HasRow(s.labs, p.id)
    requires Dob(s, p).Ok? && Parse(Dob(s, p).value).Ok?
    ensures EarliestAdmissionOf(s, p) == Err(NoLabs)
  {
    assert MatchingRows(s.labs, p.id) == [];
    assert LabDates([]) == [];
  }

  /** The admission age is at most the year count to any of the patient's
      lab dates. */
  lemma AdmissionNotAfterAnyLab(s: Store, p: Patient, i: int)
    requires s.Valid() && EarliestAdmissionOf(s, p).Ok?
    requires 0 <= i < |s.labs| && KeyIs(s.labs[i], p.id)
    ensures Parse(s.labs[i][LabDateColumn]).Ok? && Parse(Dob(s, p).value).Ok?
    ensures EarliestAdmissionOf(s, p).value
         <= YearsBetween(Parse(Dob(s, p).value).value, Parse(s.labs[i][LabDateColumn]).value)
  {
    var rows := MatchingRows(s.labs, p.id);
    MatchingRowsArity(s.labs, p.id, Arity(Labs));
    MatchingRowsContains(s.labs, p.id, i);
    var k :| 0 <= k < |rows| && rows[k] == s.labs[i];
    var dates := LabDates(rows);
    var ts := ParseAll(dates).value;
    assert dates[k] == s.labs[i][LabDateColumn];
    var birth := Parse(Dob(s, p).value).value;
    YearsMonotone(birth, Earliest(ts), ts[k]);
  }

  /** Each fetched lab date is the date of one of the patient's own Labs
      rows. */
  lemma FetchedDateIn(s: Store, p: Patient, k: int)
    requires s.Valid()
    requires 0 <= k < |MatchingRows(s.labs, p.id)|
    ensures HasArity(MatchingRows(s.labs, p.id), Arity(Labs))
    ensures exists i ::
      && 0 <= i < |s.labs| && KeyIs(s.labs[i], p.id)
      && s.labs[i][LabDateColumn] == LabDates(MatchingRows(s.labs, p.id))[k]
  {
    var rows := MatchingRows(s.labs, p.id);
    MatchingRowsArity(s.labs, p.id, Arity(Labs));
    MatchingRowsIn(s.labs, p.id, k);
    var i :| 0 <= i < |s.labs| && s.labs[i] == rows[k];
    assert KeyIs(s.labs[i], p.id) && s.labs[i][LabDateColumn] == LabDates(rows)[k];
  }

  /** The admission age is the year count to one of the patient's own lab
      dates; with `AdmissionNotAfterAnyLab` it is the least such count. */
  lemma AdmissionAttained(s: Store, p: Patient)
    requires s.Valid() && EarliestAdmissionOf(s, p).Ok?
    ensures Dob(s, p).Ok? && Parse(Dob(s, p).value).Ok?
    ensures exists i ::
      && 0 <= i < |s.labs| && KeyIs(s.labs[i], p.id) && Parse(s.labs[i][LabDateColumn]).Ok?
      && EarliestAdmissionOf(s, p).value
         == YearsBetween(Parse(Dob(s, p).value).value, Parse(s.labs[i][LabDateColumn]).value)
  {
    var rows := MatchingRows(s.labs, p.id);
    MatchingRowsArity(s.labs, p.id, Arity(Labs));
    var dates := LabDates(rows);
    var r := AdmissionFrom(dates, Dob(s, p));
    assert r == EarliestAdmissionOf(s, p);
    var birth := Parse(Dob(s, p).value).value;
    var k :| 0 <= k < |dates| && Parse(dates[k]).Ok? && r.value == YearsBetween(birth, Parse(dates[k]).value);
    FetchedDateIn(s, p, k);
  }

  /** `earliest_admission` succeeds when the patient has a Labs row, a
      stored date of birth that parses, and lab dates that all parse. */
  lemma AdmissionSucceeds(s: Store, p: Patient)
    requires s.Valid() && HasRow(s.labs, p.id) && Dob(s, p).Ok? && Parse(Dob(s, p).value).Ok?
    requires forall i :: 0 <= i < |s.labs| && KeyIs(s.labs[i], p.id) ==> Parse(s.labs[i][LabDateColumn]).Ok?
    ensures EarliestAdmissionOf(s, p).Ok?
  {
    var rows := MatchingRows(s.labs, p.id);
    MatchingRowsArity(s.labs, p.id, Arity(Labs));
    var dates := LabDates(rows);
    forall k | 0 <= k < |dates| ensures Parse(dates[k]).Ok? {
      FetchedDateIn(s, p, k);
    }
    AdmissionFromOutcome(dates, Dob(s, p));
  }

  /** Nobody is born after the clock reading: the age is never negative. */
  lemma AgeNonNegative(s: Store, p: Patient, today: DateTime)
    requires s.Valid() && Valid(today) && Age(s, p, today).Ok?
    requires !Before(today, Parse(Dob(s, p).value).value)
    ensures Age(s, p, today).value >= 0
  {
    YearsNonNegative(Parse(Dob(s, p).value).value, today);
  }
}
