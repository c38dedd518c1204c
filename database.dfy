/** The relational store behind the analysis tool, as two in-memory tables of
    text rows: `Labs(patient_id, lab_name, lab_value, lab_units, lab_date)` and
    `Patients(id PRIMARY KEY, gender, dob, race)`. A row is stored
    positionally; its first column is the key the record model looks rows up by. */
module Database {
  import opened Errors

  datatype Table = Labs | Patients

  function Other(t: Table): Table {
    if t == Labs then Patients else Labs
  }

  /** Number of columns of each table. */
  function Arity(t: Table): nat {
    if t == Labs then 5 else 4
  }

  // Column positions in a Labs row.
  const LabPatientIdColumn := 0
  const LabNameColumn := 1
  const LabValueColumn := 2
  const LabUnitsColumn := 3
  const LabDateColumn := 4

  // Column positions in a Patients row.
  const PatientIdColumn := 0
  const GenderColumn := 1
  const DobColumn := 2
  const RaceColumn := 3

  /** `WHERE <first column> = key` holds of the row. */
  predicate KeyIs(row: seq<string>, key: string) {
    |row| > 0 && row[0] == key
  }

  predicate HasRow(rows: seq<seq<string>>, key: string) {
    exists i :: 0 <= i < |rows| && KeyIs(rows[i], key)
  }

  /** Row `i` is the lowest-indexed row with that key. */
  predicate IsFirstRow(rows: seq<seq<string>>, key: string, i: int) {
    && 0 <= i < |rows|
    && KeyIs(rows[i], key)
    && forall j :: 0 <= j < i ==> !KeyIs(rows[j], key)
  }

  predicate HasArity(rows: seq<seq<string>>, n: nat) {
    forall i :: 0 <= i < |rows| ==> |rows[i]| == n
  }

  /** The primary key of Patients: no two rows share their first column. */
  predicate DistinctKeys(rows: seq<seq<string>>) {
    forall i, j :: 0 <= i < j < |rows| ==> |rows[i]| == 0 || !KeyIs(rows[j], rows[i][0])
  }

  /** What the table schemas guarantee of their contents. */
  predicate TablesValid(labs: seq<seq<string>>, patients: seq<seq<string>>) {
    HasArity(labs, Arity(Labs)) && HasArity(patients, Arity(Patients)) && DistinctKeys(patients)
  }

  /** The error an `INSERT INTO <t> VALUES (?, …)` of `row` raises when the
      table already holds `rows`: a wrong number of bindings, or a duplicated
      primary key in Patients. */
  function InsertError(t: Table, rows: seq<seq<string>>, row: seq<string>): (r: Option<Error>)
    ensures r.Some? ==> r.value == WrongArity || (t == Patients && r.value == DuplicateKey)
    ensures |row| != Arity(t) ==> r == Some(WrongArity)
    ensures |row| == Arity(t) && t == Patients && HasRow(rows, row[0]) ==> r == Some(DuplicateKey)
    ensures r.None? && HasArity(rows, Arity(t)) ==> HasArity(rows + [row], Arity(t))
    ensures r.None? && t == Patients && DistinctKeys(rows) ==> DistinctKeys(rows + [row])
  {
    if |row| != Arity(t) then Some(WrongArity)
    else if t == Patients && HasRow(rows, row[0]) then Some(DuplicateKey)
    else None
  }

  /** The lowest index of a row with the key: the row a `fetchone()` after
      `SELECT … WHERE key = ?` returns, taking the store's scan order to be
      insertion order. */
  function FirstMatch(rows: seq<seq<string>>, key: string): (r: Option<nat>)
    ensures r.Some? ==> IsFirstRow(rows, key, r.value)
    ensures r.None? <==> !HasRow(rows, key)
  {
    if rows == [] then None
    else if KeyIs(rows[0], key) then Some(0)
    else match FirstMatch(rows[1..], key)
      case None =>
        assert forall i :: 1 <= i < |rows| ==> rows[i] == rows[1..][i - 1];
        None
      case Some(i) => Some(i + 1)
  }

  /** The indices of the rows with the key. */
  function MatchIndices(rows: seq<seq<string>>, key: string): set<int> {
    set i | 0 <= i < |rows| && KeyIs(rows[i], key)
  }

  /** The rows `SELECT * … WHERE key = ?` and `fetchall()` return, in table
      order: each of them has the key, the first is the first row with it. */
  function MatchingRows(rows: seq<seq<string>>, key: string): (r: seq<seq<string>>)
    ensures forall k :: 0 <= k < |r| ==> KeyIs(r[k], key)
    ensures |r| > 0 <==> HasRow(rows, key)
    ensures |r| > 0 ==> r[0] == rows[FirstMatch(rows, key).value]
    decreases |rows|
  {
    if rows == [] then []
    else
      var rest := MatchingRows(rows[1..], key);
      if KeyIs(rows[0], key) then [rows[0]] + rest
      else
        assert HasRow(rows[1..], key) <==> HasRow(rows, key) by {
          if HasRow(rows[1..], key) {
            var i :| 0 <= i < |rows[1..]| && KeyIs(rows[1..][i], key);
            assert rows[i + 1] == rows[1..][i];
          }
          if HasRow(rows, key) {
            var i :| 0 <= i < |rows| && KeyIs(rows[i], key);
            assert rows[1..][i - 1] == rows[i];
          }
        }
        rest
  }

  /** Filtering a table extended by one row extends the filtered rows by
      that row when it has the key. */
  lemma {:induction false} MatchingRowsSnoc(rows: seq<seq<string>>, row: seq<string>, key: string)
    ensures MatchingRows(rows + [row], key)
         == MatchingRows(rows, key) + (if KeyIs(row, key) then [row] else [])
    decreases |rows|
  {
    if rows == [] {
      assert [] + [row] == [row];
      assert [row][1..] == [];
    } else {
      assert (rows + [row])[1..] == rows[1..] + [row];
      MatchingRowsSnoc(rows[1..], row, key);
    }
  }

  /** The indices of a table extended by one row gain that row's index when
      it has the key. */
  lemma MatchIndicesSnoc(rows: seq<seq<string>>, row: seq<string>, key: string)
    ensures MatchIndices(rows + [row], key)
         == MatchIndices(rows, key) + (if KeyIs(row, key) then {|rows|} else {})
  {
    var all := rows + [row];
    forall i | 0 <= i < |rows| ensures all[i] == rows[i] { }
    assert all[|rows|] == row;
  }

  /** There is one matching row for every row of the table with the key:
      `fetchall()` returns as many rows as the table holds for it. */
  lemma {:induction false} MatchingRowsCount(rows: seq<seq<string>>, key: string)
    ensures |MatchingRows(rows, key)| == |MatchIndices(rows, key)|
    decreases |rows|
  {
    if rows != [] {
      var n := |rows| - 1;
      var init := rows[..n];
      assert rows == init + [rows[n]];
      MatchingRowsCount(init, key);
      MatchingRowsSnoc(init, rows[n], key);
      MatchIndicesSnoc(init, rows[n], key);
      assert n !in MatchIndices(init, key);
    }
  }

  /** Every matching row is a row of the table. */
  lemma {:induction false} MatchingRowsIn(rows: seq<seq<string>>, key: string, k: int)
    requires 0 <= k < |MatchingRows(rows, key)|
    ensures MatchingRows(rows, key)[k] in rows
    decreases |rows|
  {
    var rest := MatchingRows(rows[1..], key);
    if KeyIs(rows[0], key) && k == 0 {
    } else {
      var j := if KeyIs(rows[0], key) then k - 1 else k;
      assert MatchingRows(rows, key)[k] == rest[j];
      MatchingRowsIn(rows[1..], key, j);
    }
  }

  /** The matching rows come from the table, so they have its arity. */
  lemma {:induction false} MatchingRowsArity(rows: seq<seq<string>>, key: string, n: nat)
    requires HasArity(rows, n)
    ensures HasArity(MatchingRows(rows, key), n)
    decreases |rows|
  {
    if rows != [] {
      assert HasArity(rows[1..], n) by {
        forall i | 0 <= i < |rows[1..]| ensures |rows[1..][i]| == n {
          assert rows[1..][i] == rows[i + 1];
        }
      }
      MatchingRowsArity(rows[1..], key, n);
    }
  }

  /** Every row with the key is among the matching rows. */
  lemma {:induction false} MatchingRowsContains(rows: seq<seq<string>>, key: string, i: int)
    requires 0 <= i < |rows| && KeyIs(rows[i], key)
    ensures rows[i] in MatchingRows(rows, key)
    decreases |rows|
  {
    if i > 0 {
      assert rows[1..][i - 1] == rows[i];
      MatchingRowsContains(rows[1..], key, i - 1);
    }
  }

  /** Rows added after the first row with a key do not change which row is
      first. */
  lemma FirstMatchExtend(rows: seq<seq<string>>, extra: seq<seq<string>>, key: string)
    requires HasRow(rows, key)
    ensures FirstMatch(rows + extra, key) == FirstMatch(rows, key)
  {
    var i := FirstMatch(rows, key).value;
    var all := rows + extra;
    assert IsFirstRow(all, key, i) by {
      assert all[i] == rows[i];
      forall j | 0 <= j < i ensures !KeyIs(all[j], key) {
        assert all[j] == rows[j];
      }
    }
    assert HasRow(all, key) by {
      assert KeyIs(all[i], key);
    }
    var k := FirstMatch(all, key).value;
    assert !(k < i) && !(i < k);
  }

  /** The process-wide store: the two tables, updated in place by ingestion. */
  class Store {
    var labs: seq<seq<string>>
    var patients: seq<seq<string>>

    ghost predicate Valid()
      reads this
    {
      TablesValid(labs, patients)
    }

    function Rows(t: Table): seq<seq<string>>
      reads this
    {
      if t == Labs then labs else patients
    }

    /** The store as a previous run left it on disk. */
    constructor Open(labs0: seq<seq<string>>, patients0: seq<seq<string>>)
      requires TablesValid(labs0, patients0)
      ensures Valid()
      ensures labs == labs0 && patients == patients0
    {
      labs := labs0;
      patients := patients0;
    }

    /** `DROP TABLE IF EXISTS` and `CREATE TABLE` for both tables. */
    method Reset()
      modifies this
      ensures Valid()
      ensures labs == [] && patients == []
    {
      labs := [];
      patients := [];
    }

    /** `INSERT INTO <t> VALUES (?, …)`: appends the row, or fails and leaves
        the table as it was. */
    method Insert(t: Table, row: seq<string>) returns (err: Option<Error>)
      requires Valid()
      modifies this
      ensures Valid()
      ensures err == InsertError(t, old(Rows(t)), row)
      ensures Rows(t) == if err.None? then old(Rows(t)) + [row] else old(Rows(t))
      ensures Rows(Other(t)) == old(Rows(Other(t)))
    {
      err := InsertError(t, Rows(t), row);
      if err.None? {
        if t == Labs {
          labs := labs + [row];
        } else {
          patients := patients + [row];
        }
      }
    }
  }
}
