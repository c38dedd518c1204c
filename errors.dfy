/** Failure-carrying values shared by every module of the model. Each error
    names the Python exception the analysis tool raises in that situation. */
module Errors {

  datatype Error =
    | EmptyFile         // readlines() returned no line, so `data[0]` raises IndexError
    | MissingField      // a data row shorter than the header: IndexError in the dict comprehension
    | MissingKeyColumn  // no `patient_id` / `id` header: KeyError on the row dictionary
    | WrongArity        // a row whose length differs from the table's columns: sqlite3.ProgrammingError
    | DuplicateKey      // a second Patients row with the same id: sqlite3.IntegrityError
    | NotFound          // a lookup that matches no row: `fetchone()` is None, TypeError
    | NoLabs            // earliest_admission without any Labs row: UnboundLocalError
    | ValueParse        // float(lab_value) fails: ValueError
    | DateParse         // strptime fails: ValueError

  datatype Option<+T> = None | Some(value: T)

  datatype Result<+T> = Ok(value: T) | Err(error: Error)
}
