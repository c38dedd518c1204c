/** Ingestion of the two tab-separated files: `parse_data` resets the store,
    then loads every data line of the lab file into Labs and every data line
    of the patient file into Patients, building one handle per line from the
    field its header names `patient_id` or `id`. A file is given as the
    sequence of its lines. */
module Ingest {
  import opened Errors
  import opened Text
  import opened Database
  import opened Records

  /** `line.strip().split("\t")`. */
  function SplitLine(line: string): (fields: seq<string>)
    ensures |fields| >= 1
    ensures forall k :: 0 <= k < |fields| ==> '\t' !in fields[k]
    ensures Join(fields, '\t') == Strip(line)
  {
    Split(Strip(line), '\t')
  }

  /** The header field a handle takes its id from. */
  function KeyName(t: Table): string {
    if t == Labs then "patient_id" else "id"
  }

  /** The position of the last occurrence of `name`: the one whose entry a
      dict comprehension over the header keeps. */
  function LastIndexOf(columns: seq<string>, name: string): (r: Option<nat>)
    ensures r.None? <==> name !in columns
    ensures r.Some? ==> r.value < |columns| && columns[r.value] == name
    ensures r.Some? ==> forall j :: r.value < j < |columns| ==> columns[j] != name
  {
    if columns == [] then None
    else if columns[|columns| - 1] == name then Some(|columns| - 1)
    else
      var init := columns[..|columns| - 1];
      assert forall j :: 0 <= j < |init| ==> init[j] == columns[j];
      LastIndexOf(init, name)
  }

  /** `{columns[i]: fields[i] for i in range(len(columns))}`: fails when the
      line has fewer fields than the header; a repeated header name keeps
      the field of its last occurrence. */
  function RowDict(columns: seq<string>, fields: seq<string>): (r: Result<map<string, string>>)
    ensures r.Err? <==> |fields| < |columns|
    ensures r.Err? ==> r.error == MissingField
    ensures r.Ok? ==> forall c :: c in r.value <==> c in columns
    ensures r.Ok? ==> forall c :: c in columns ==>
      LastIndexOf(columns, c).Some? && r.value[c] == fields[LastIndexOf(columns, c).value]
  {
    if columns == [] then Ok(map[])
    else
      var n := |columns| - 1;
      var init := columns[..n];
      assert forall j :: 0 <= j < n ==> init[j] == columns[j];
      assert columns == init + [columns[n]];
      match RowDict(init, fields)
      case Err(e) => Err(e)
      case Ok(d) =>
        if |fields| <= n then Err(MissingField)
        else Ok(d[columns[n] := fields[n]])
  }

  /** The header of a file: its first line, split. */
  function Header(lines: seq<string>): seq<string>
    requires |lines| > 0
  {
    SplitLine(lines[0])
  }

  /** The data lines of a file, split into fields. */
  function DataRows(lines: seq<string>): (rows: seq<seq<string>>)
    ensures |rows| == if lines == [] then 0 else |lines| - 1
    ensures forall k :: 0 <= k < |rows| ==> |rows[k]| >= 1
  {
    if lines == [] then []
    else seq(|lines| - 1, k requires 0 <= k < |lines| - 1 => SplitLine(lines[k + 1]))
  }

  /** Each stored row joins back, with tabs, to its line stripped. */
  lemma DataRowJoinsBack(lines: seq<string>, k: int)
    requires 0 <= k < |DataRows(lines)|
    ensures Join(DataRows(lines)[k], '\t') == Strip(lines[k + 1])
  {
  }

  /** What loading one data line does when the table already holds `rows`:
      the handle id it yields, or the error that stops the load. */
  function RowOutcome(t: Table, columns: seq<string>, fields: seq<string>,
                      rows: seq<seq<string>>): (r: Result<string>)
    ensures r.Err? ==> r.error in {MissingField, MissingKeyColumn, WrongArity, DuplicateKey}
    ensures r.Ok? ==> HandleIs(t, columns, fields, r.value)
    ensures |fields| < |columns| ==> r == Err(MissingField)
    ensures |columns| <= |fields| && KeyName(t) !in columns ==> r == Err(MissingKeyColumn)
    ensures |columns| <= |fields| && KeyName(t) in columns && |fields| != Arity(t) ==> r == Err(WrongArity)
    ensures (|columns| <= |fields| && KeyName(t) in columns && |fields| == Arity(t)
             && t == Patients && FirstMatch(rows, fields[0]).Some?) ==> r == Err(DuplicateKey)
  {
    match RowDict(columns, fields)
    case Err(e) => Err(e)
    case Ok(d) =>
      if KeyName(t) !in d then Err(MissingKeyColumn)
      else match InsertError(t, rows, fields)
        case Some(e) => Err(e)
        case None => Ok(d[KeyName(t)])
  }

  /** The first data row, from `i` on, that loading rejects after every row
      before it was stored; `|data|` when there is none. */
  function FirstRejectedFrom(t: Table, columns: seq<string>, data: seq<seq<string>>, i: nat): (n: nat)
    requires i <= |data|
    ensures i <= n <= |data|
    ensures forall k :: i <= k < n ==> RowOutcome(t, columns, data[k], data[..k]).Ok?
    ensures n < |data| ==> RowOutcome(t, columns, data[n], data[..n]).Err?
    decreases |data| - i
  {
    if i == |data| then i
    else if RowOutcome(t, columns, data[i], data[..i]).Err? then i
    else FirstRejectedFrom(t, columns, data, i + 1)
  }

  /** How many data rows of the file a load stores: every row before that
      count loads after its predecessors, and the row at it does not. */
  function Accepted(t: Table, lines: seq<string>): (n: nat)
    ensures n <= |DataRows(lines)|
    ensures lines != [] ==> forall k :: 0 <= k < n ==>
      RowOutcome(t, Header(lines), DataRows(lines)[k], DataRows(lines)[..k]).Ok?
    ensures lines != [] && n < |DataRows(lines)| ==>
      RowOutcome(t, Header(lines), DataRows(lines)[n], DataRows(lines)[..n]).Err?
  {
    if lines == [] then 0 else FirstRejectedFrom(t, Header(lines), DataRows(lines), 0)
  }

  /** The error that stops a load of the file, if any: an empty file has no
      header line. */
  function LoadError(t: Table, lines: seq<string>): (r: Option<Error>)
    ensures r == Some(EmptyFile) <==> lines == []
    ensures r.None? <==> lines != [] && forall k :: 0 <= k < |DataRows(lines)| ==>
      RowOutcome(t, Header(lines), DataRows(lines)[k], DataRows(lines)[..k]).Ok?
  {
    if lines == [] then Some(EmptyFile)
    else
      var data := DataRows(lines);
      var n := Accepted(t, lines);
      if n == |data| then None
      else Some(RowOutcome(t, Header(lines), data[n], data[..n]).error)
  }

  /** `id` is the handle id of a data row under the header: the field under
      the last header column named for the table's key. */
  predicate HandleIs(t: Table, columns: seq<string>, row: seq<string>, id: string) {
    && LastIndexOf(columns, KeyName(t)).Some?
    && LastIndexOf(columns, KeyName(t)).value < |row|
    && id == row[LastIndexOf(columns, KeyName(t)).value]
  }

  lemma PrefixSnoc(data: seq<seq<string>>, i: nat)
    requires i < |data|
    ensures data[..i + 1] == data[..i] + [data[i]]
  {
  }

  /** Each of the first `n` data rows is accepted after the ones before it
      were stored, and yields the handle id in `ids`. */
  predicate AcceptsPrefix(t: Table, columns: seq<string>, data: seq<seq<string>>, ids: seq<string>, n: nat) {
    && n <= |data| && |ids| == n
    && (forall k :: 0 <= k < n ==> RowOutcome(t, columns, data[k], data[..k]).Ok?)
    && (forall k :: 0 <= k < n ==> HandleIs(t, columns, data[k], ids[k]))
  }

  lemma AcceptsPrefixSnoc(t: Table, columns: seq<string>, data: seq<seq<string>>, ids: seq<string>,
                          n: nat, id: string)
    requires AcceptsPrefix(t, columns, data, ids, n) && n < |data|
    requires RowOutcome(t, columns, data[n], data[..n]) == Ok(id)
    ensures AcceptsPrefix(t, columns, data, ids + [id], n + 1)
  {
    var more := ids + [id];
    forall k | 0 <= k < n + 1
      ensures RowOutcome(t, columns, data[k], data[..k]).Ok? && HandleIs(t, columns, data[k], more[k])
    {
      if k < n {
        assert more[k] == ids[k];
      }
    }
  }

  /** `ids` are the handle ids of all data rows of the file, in file order. */
  predicate HandlesFor(t: Table, lines: seq<string>, ids: seq<string>) {
    && |lines| > 0
    && |ids| == |DataRows(lines)|
    && forall k :: 0 <= k < |ids| ==> HandleIs(t, Header(lines), DataRows(lines)[k], ids[k])
  }

  lemma AcceptedHandles(t: Table, lines: seq<string>, ids: seq<string>)
    requires |lines| > 0 && AcceptsPrefix(t, Header(lines), DataRows(lines), ids, |DataRows(lines)|)
    ensures HandlesFor(t, lines, ids)
  {
  }

  lemma LoadedAll(t: Table, lines: seq<string>)
    requires LoadError(t, lines).None?
    ensures DataRows(lines)[..Accepted(t, lines)] == DataRows(lines)
  {
  }

  function PatientIds(ps: seq<Patient>): (ids: seq<string>)
    ensures |ids| == |ps| && forall k :: 0 <= k < |ps| ==> ids[k] == ps[k].id
  {
    seq(|ps|, k requires 0 <= k < |ps| => ps[k].id)
  }

  function LabIds(ls: seq<Lab>): (ids: seq<string>)
    ensures |ids| == |ls| && forall k :: 0 <= k < |ls| ==> ids[k] == ls[k].patientId
  {
    seq(|ls|, k requires 0 <= k < |ls| => ls[k].patientId)
  }

  /** One lab handle per id, in order. */
  function LabHandles(ids: seq<string>): (labs: seq<Lab>)
    ensures LabIds(labs) == ids
  {
    if ids == [] then [] else LabHandles(ids[..|ids| - 1]) + [Lab(ids[|ids| - 1])]
  }

  /** One patient handle per id, in order. */
  function PatientHandles(ids: seq<string>): (patients: seq<Patient>)
    ensures PatientIds(patients) == ids
  {
    if ids == [] then [] else PatientHandles(ids[..|ids| - 1]) + [Patient(ids[|ids| - 1])]
  }

  lemma FirstRejectedIs(t: Table, columns: seq<string>, data: seq<seq<string>>, n: nat)
    requires n <= |data|
    requires forall k :: 0 <= k < n ==> RowOutcome(t, columns, data[k], data[..k]).Ok?
    requires n < |data| ==> RowOutcome(t, columns, data[n], data[..n]).Err?
    ensures FirstRejectedFrom(t, columns, data, 0) == n
  {
  }

  /** One iteration of the loading loop: the dict over the header, the
      handle id it yields, and the insert. */
  method LoadRow(s: Store, t: Table, columns: seq<string>, fields: seq<string>)
    returns (id: string, err: Option<Error>)
    requires s.Valid()
    modifies s
    ensures s.Valid()
    ensures s.Rows(Other(t)) == old(s.Rows(Other(t)))
    ensures RowOutcome(t, columns, fields, old(s.Rows(t))) == if err.Some? then Err(err.value) else Ok(id)
    ensures s.Rows(t) == if err.None? then old(s.Rows(t)) + [fields] else old(s.Rows(t))
  {
    var dict := RowDict(columns, fields);
    if dict.Err? {
      return "", Some(dict.error);
    }
    if KeyName(t) !in dict.value {
      return "", Some(MissingKeyColumn);
    }
    id := dict.value[KeyName(t)];
    err := s.Insert(t, fields);
  }

  /** The `with open(...)` block of `parse_data` for one table, run on an
      empty table: each data line is split, turned into a dict over the
      header, yields a handle id and is inserted; the first failure stops the
      load with the rows before it stored. */
  method LoadTable(s: Store, t: Table, lines: seq<string>) returns (ids: seq<string>, err: Option<Error>)
    requires s.Valid() && s.Rows(t) == []
    modifies s
    ensures s.Valid()
    ensures s.Rows(Other(t)) == old(s.Rows(Other(t)))
    ensures s.Rows(t) == DataRows(lines)[..Accepted(t, lines)]
    ensures err == LoadError(t, lines)
    ensures err.None? ==> |lines| > 0 && AcceptsPrefix(t, Header(lines), DataRows(lines), ids, |DataRows(lines)|)
  {
    if |lines| == 0 {
      return [], Some(EmptyFile);
    }
    var columns := Header(lines);
    ghost var data := DataRows(lines);
    ids := [];
    for i := 1 to |lines|
      invariant s.Valid()
      invariant s.Rows(Other(t)) == old(s.Rows(Other(t)))
      invariant s.Rows(t) == data[..i - 1]
      invariant AcceptsPrefix(t, columns, data, ids, i - 1)
    {
      var fields := SplitLine(lines[i]);
      assert fields == data[i - 1];
      var id, e := LoadRow(s, t, columns, fields);
      if e.Some? {
        FirstRejectedIs(t, columns, data, i - 1);
        return ids, e;
      }
      AcceptsPrefixSnoc(t, columns, data, ids, i - 1, id);
      ids := ids + [id];
      PrefixSnoc(data, i - 1);
    }
    FirstRejectedIs(t, columns, data, |data|);
    assert data[..|data|] == data;
    return ids, None;
  }

  /** `parse_data(patient_filename, lab_filename)`: the store is emptied,
      the lab file loaded, then the patient file; the handles come back in
      file order, one per data line. */
  method ParseData(s: Store, patientLines: seq<string>, labLines: seq<string>)
    returns (r: Result<(seq<Patient>, seq<Lab>)>)
    requires s.Valid()
    modifies s
    ensures s.Valid()
    ensures s.labs == DataRows(labLines)[..Accepted(Labs, labLines)]
    ensures r.Ok? ==> s.labs == DataRows(labLines) && s.patients == DataRows(patientLines)
    ensures s.patients == if LoadError(Labs, labLines).Some? then []
                          else DataRows(patientLines)[..Accepted(Patients, patientLines)]
    ensures r.Ok? <==> LoadError(Labs, labLines).None? && LoadError(Patients, patientLines).None?
    ensures r.Err? ==> Some(r.error) == if LoadError(Labs, labLines).Some? then LoadError(Labs, labLines)
                                        else LoadError(Patients, patientLines)
    ensures r.Ok? ==> HandlesFor(Patients, patientLines, PatientIds(r.value.0))
    ensures r.Ok? ==> HandlesFor(Labs, labLines, LabIds(r.value.1))
  {
    s.Reset();
    var labIds, labErr := LoadTable(s, Labs, labLines);
    if labErr.Some? {
      return Err(labErr.value);
    }
    LoadedAll(Labs, labLines);
    assert s.labs == DataRows(labLines);
    var patientIds, patientErr := LoadTable(s, Patients, patientLines);
    assert s.labs == DataRows(labLines);
    if patientErr.Some? {
      return Err(patientErr.value);
    }
    LoadedAll(Patients, patientLines);
    var labs := LabHandles(labIds);
    var patients := PatientHandles(patientIds);
    AcceptedHandles(Labs, labLines, labIds);
    AcceptedHandles(Patients, patientLines, patientIds);
    return Ok((patients, labs));
  }

  /** What loading one data line demands, stated without the load itself:
      as many fields as the header, the key named in the header, the
      table's arity, and for Patients an id not stored yet. */
  lemma RowOutcomeOk(t: Table, columns: seq<string>, row: seq<string>, rows: seq<seq<string>>)
    ensures RowOutcome(t, columns, row, rows).Ok? <==>
      && |columns| <= |row|
      && KeyName(t) in columns
      && |row| == Arity(t)
      && (t == Patients ==> !HasRow(rows, row[0]))
  {
  }

  /** A header and data rows every one of which loads: the key in the
      header when there is any data, every row as many fields as the header
      and exactly the table's arity, and for Patients no two rows with the
      same first field. */
  predicate WellFormedTable(t: Table, columns: seq<string>, data: seq<seq<string>>) {
    && (|data| > 0 ==> KeyName(t) in columns)
    && (forall k :: 0 <= k < |data| ==> |columns| <= |data[k]| == Arity(t))
    && (t == Patients ==> forall i, j :: 0 <= i < j < |data| ==> |data[i]| > 0 && |data[j]| > 0 && data[i][0] != data[j][0])
  }

  /** A file with a header line whose header and data rows are well formed. */
  predicate WellFormedFile(t: Table, lines: seq<string>) {
    |lines| > 0 && WellFormedTable(t, Header(lines), DataRows(lines))
  }

  /** A loaded Patients file has distinct ids: each line's id was not yet
      stored when it was inserted. */
  lemma LoadedIdsDistinct(lines: seq<string>, i: int, j: int)
    requires LoadError(Patients, lines).None?
    requires 0 <= i < j < |DataRows(lines)|
    ensures DataRows(lines)[i][0] != DataRows(lines)[j][0]
  {
    var data := DataRows(lines);
    assert RowOutcome(Patients, Header(lines), data[j], data[..j]).Ok?;
    RowOutcomeOk(Patients, Header(lines), data[j], data[..j]);
    assert data[..j][i] == data[i];
  }

  /** A line of a well-formed file loads once the lines before it are
      stored. */
  lemma WellFormedRowLoads(t: Table, lines: seq<string>, k: int)
    requires WellFormedFile(t, lines) && 0 <= k < |DataRows(lines)|
    ensures RowOutcome(t, Header(lines), DataRows(lines)[k], DataRows(lines)[..k]).Ok?
  {
    var data := DataRows(lines);
    RowOutcomeOk(t, Header(lines), data[k], data[..k]);
  }

  /** A file that loads is well formed. */
  lemma LoadedIsWellFormed(t: Table, lines: seq<string>)
    requires LoadError(t, lines).None?
    ensures WellFormedFile(t, lines)
  {
    var columns, data := Header(lines), DataRows(lines);
    forall k | 0 <= k < |data| ensures |columns| <= |data[k]| == Arity(t) && KeyName(t) in columns {
      RowOutcomeOk(t, columns, data[k], data[..k]);
    }
    if t == Patients {
      forall i, j | 0 <= i < j < |data| ensures data[i][0] != data[j][0] {
        LoadedIdsDistinct(lines, i, j);
      }
    }
  }

  /** A well-formed file loads. */
  lemma WellFormedLoads(t: Table, lines: seq<string>)
    requires WellFormedFile(t, lines)
    ensures LoadError(t, lines).None?
  {
    var columns, data := Header(lines), DataRows(lines);
    forall k | 0 <= k < |data| ensures RowOutcome(t, columns, data[k], data[..k]).Ok? {
      WellFormedRowLoads(t, lines, k);
    }
    FirstRejectedIs(t, columns, data, |data|);
  }

  /** Loading a file succeeds exactly when the file is well formed. */
  lemma LoadSucceedsIff(t: Table, lines: seq<string>)
    ensures LoadError(t, lines).None? <==> WellFormedFile(t, lines)
  {
    if LoadError(t, lines).None? {
      LoadedIsWellFormed(t, lines);
    }
    if WellFormedFile(t, lines) {
      WellFormedLoads(t, lines);
    }
  }

  /** A data line of Patients repeating an earlier line's id makes
      `parse_data` fail. */
  lemma DuplicatePatientRejected(lines: seq<string>, i: int, j: int)
    requires 0 <= i < j < |DataRows(lines)|
    requires DataRows(lines)[i][0] == DataRows(lines)[j][0]
    ensures LoadError(Patients, lines).Some?
  {
    LoadSucceedsIff(Patients, lines);
  }

  /** The line a table row is written as: its fields joined by tabs, ended
      by a newline. */
  function WriteLine(fields: seq<string>): string
    requires |fields| >= 1
  {
    Join(fields, '\t') + "\n"
  }

  /** Fields that survive a write and a read: no tab inside, and no
      whitespace at either end of the line. */
  predicate Writable(fields: seq<string>) {
    && |fields| >= 1
    && (forall k :: 0 <= k < |fields| ==> '\t' !in fields[k])
    && var line := Join(fields, '\t');
       line == [] || (!IsSpace(line[0]) && !IsSpace(line[|line| - 1]))
  }

  lemma StripNewline(line: string)
    requires line == [] || (!IsSpace(line[0]) && !IsSpace(line[|line| - 1]))
    ensures Strip(line + "\n") == line
  {
    assert AllSpace("\n") by {
      assert IsSpace('\n');
    }
    StripPadded([], line, "\n");
    assert [] + line + "\n" == line + "\n";
  }

  /** Reading a written line gives the fields back. */
  lemma SplitWrittenLine(fields: seq<string>)
    requires Writable(fields)
    ensures SplitLine(WriteLine(fields)) == fields
  {
    StripNewline(Join(fields, '\t'));
    SplitJoin(fields, '\t');
  }

  /** A file written from a table, header first. */
  function WriteFile(table: seq<seq<string>>): (lines: seq<string>)
    requires forall k :: 0 <= k < |table| ==> |table[k]| >= 1
    ensures |lines| == |table|
    ensures forall k :: 0 <= k < |table| ==> lines[k] == WriteLine(table[k])
  {
    seq(|table|, k requires 0 <= k < |table| => WriteLine(table[k]))
  }

  /** Reading a written file gives back its header and its data rows. */
  lemma ReadWrittenFile(table: seq<seq<string>>)
    requires |table| > 0 && forall k :: 0 <= k < |table| ==> |table[k]| >= 1 && Writable(table[k])
    ensures Header(WriteFile(table)) == table[0]
    ensures DataRows(WriteFile(table)) == table[1..]
  {
    var lines := WriteFile(table);
    SplitWrittenLine(table[0]);
    var data := DataRows(lines);
    forall k | 0 <= k < |table| - 1 ensures data[k] == table[1..][k] {
      assert data[k] == SplitLine(lines[k + 1]);
      assert lines[k + 1] == WriteLine(table[k + 1]);
      SplitWrittenLine(table[k + 1]);
    }
  }
}
