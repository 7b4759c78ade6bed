/** The CSV file that keeps the records, and the form's submit handler that
    validates a reading, loads the table, appends the new record and writes
    the whole table back. */
module Store {
  import opened Records

  datatype Option<T> = None | Some(value: T)

  /** A table as the program handles it: its column names and its rows. */
  datatype Table = Table(columns: seq<string>, rows: seq<Record>)

  class RecordStore {
    /** The contents of the CSV file; None while the file does not exist. */
    var file: Option<seq<Record>>

    /** The rows the file holds; a missing file holds none. */
    function Rows(): seq<Record>
      reads this
    {
      if file.Some? then file.value else []
    }

    /** Every stored record was built by the submit handler: its fleet is
        one of the form's choices and its worked hours are the difference of
        its readings. */
    ghost predicate Valid()
      reads this
    {
      forall r :: r in Rows() ==> WellFormed(r) && r.fleet in FleetChoices
    }

    constructor (existing: Option<seq<Record>>)
      requires existing.Some? ==> forall r :: r in existing.value ==> WellFormed(r) && r.fleet in FleetChoices
      ensures Valid() && file == existing
    {
      file := existing;
    }

    /** Reads the file; when it does not exist, an empty table with the six
        canonical columns. */
    method Load() returns (t: Table)
      ensures t.columns == Columns
      ensures t.rows == Rows()
      ensures file.None? ==> t.rows == []
    {
      if file.Some? {
        t := Table(Columns, file.value);
      } else {
        t := Table(Columns, []);
      }
    }

    /** Overwrites the file with the whole table. */
    method Save(t: Table)
      requires t.columns == Columns
      modifies this
      ensures file == Some(t.rows)
    {
      file := Some(t.rows);
    }

    /** The form's submit handler. A rejected submission leaves the file as
        it was; an accepted one leaves it holding the old rows, unchanged and
        in place, followed by the new record. */
    method Submit(date: string, operator: string, fleet: string, initial: Hundredths, final: Hundredths)
      returns (o: Outcome)
      requires Valid()
      requires fleet in FleetChoices
      modifies this
      ensures Valid()
      ensures o == Validate(date, operator, fleet, initial, final)
      ensures o.Rejected? ==> file == old(file)
      ensures o.Accepted? ==> file == Some(old(Rows()) + [o.record])
      ensures |Rows()| == |old(Rows())| + (if o.Accepted? then 1 else 0)
      ensures forall i :: 0 <= i < |old(Rows())| ==> Rows()[i] == old(Rows())[i]
    {
      o := Validate(date, operator, fleet, initial, final);
      if o.Accepted? {
        var df := Load();
        df := Table(df.columns, df.rows + [o.record]);
        Save(df);
      }
    }
  }
}
