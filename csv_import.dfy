/** The CSV import: the table is truncated, the first CSV row is taken as
    the header, and every later row is either inserted as a student record
    or skipped, with one counter for each. The conversion of the CGPA text
    to a number is a parameter of the model. */
module CsvImport {
  import opened Wrappers
  import opened Students

  /** One parsed CSV line: its fields in order. */
  type Row = seq<string>

  /** What opening the file path yields. */
  datatype CsvFile = Missing | Unreadable | Readable(rows: seq<Row>)

  /** What the import loop does with one data row. */
  datatype RowOutcome = Insert(student: Student) | WrongFieldCount | InvalidCgpa

  function CheckRow(row: Row, parse: string -> Option<int>): RowOutcome
  {
    if |row| != 3 then WrongFieldCount
    else match parse(row[2])
      case None => InvalidCgpa
      case Some(cgpa) => Insert(Student(row[0], row[1], cgpa))
  }

  function Kept(row: Row, parse: string -> Option<int>): seq<Student>
  {
    match CheckRow(row, parse)
    case Insert(s) => [s]
    case _ => []
  }

  /** The records the import inserts for the given data rows, in row order. */
  function Accepted(rows: seq<Row>, parse: string -> Option<int>): seq<Student>
  {
    if rows == [] then []
    else Accepted(rows[..|rows| - 1], parse) + Kept(rows[|rows| - 1], parse)
  }

  /** How many of the given data rows the import skips. */
  function Skipped(rows: seq<Row>, parse: string -> Option<int>): nat
  {
    if rows == [] then 0
    else Skipped(rows[..|rows| - 1], parse) + (if CheckRow(rows[|rows| - 1], parse).Insert? then 0 else 1)
  }

  /** Every data row is counted once: inserted or skipped. */
  lemma {:induction false} AcceptedPlusSkipped(rows: seq<Row>, parse: string -> Option<int>)
    ensures |Accepted(rows, parse)| + Skipped(rows, parse) == |rows|
  {
    if rows != [] {
      AcceptedPlusSkipped(rows[..|rows| - 1], parse);
    }
  }

  /** Importing two runs of rows back to back inserts the records of the
      first run, then those of the second: the input order is kept. */
  lemma {:induction false} AcceptedAppend(a: seq<Row>, b: seq<Row>, parse: string -> Option<int>)
    ensures Accepted(a + b, parse) == Accepted(a, parse) + Accepted(b, parse)
    decreases |b|
  {
    if b == [] {
      assert a + b == a;
    } else {
      assert (a + b)[..|a + b| - 1] == a + b[..|b| - 1];
      AcceptedAppend(a, b[..|b| - 1], parse);
    }
  }

  /** A record is inserted exactly when some data row has three fields, the
      third of which parses, and the record is that row's id, name and
      parsed CGPA. */
  lemma {:induction false} AcceptedExactly(rows: seq<Row>, parse: string -> Option<int>, s: Student)
    ensures s in Accepted(rows, parse) <==>
      exists i :: 0 <= i < |rows| && |rows[i]| == 3 && parse(rows[i][2]) == Some(s.cgpa) &&
        s == Student(rows[i][0], rows[i][1], s.cgpa)
  {
    if rows != [] {
      var init := rows[..|rows| - 1];
      AcceptedExactly(init, parse, s);
      var last := rows[|rows| - 1];
      if s in Accepted(rows, parse) && s !in Accepted(init, parse) {
        assert s in Kept(last, parse);
        assert |rows[|rows| - 1]| == 3;
      }
      if s !in Accepted(rows, parse) {
        forall i | 0 <= i < |rows| && |rows[i]| == 3 && parse(rows[i][2]) == Some(s.cgpa)
          ensures s != Student(rows[i][0], rows[i][1], s.cgpa)
        {
          if i < |rows| - 1 {
            assert rows[i] == init[i];
          }
        }
      }
    }
  }

  /** The `student_records` table as the importing connection sees it,
      and the part of it that is committed. */
  class StudentTable {
    var rows: seq<Student>
    var committed: seq<Student>

    constructor (existing: seq<Student>)
      ensures rows == existing && committed == existing
    {
      rows := existing;
      committed := existing;
    }

    /** `TRUNCATE TABLE`: empties the table; in MySQL it commits at once. */
    method Truncate()
      modifies this
      ensures rows == [] && committed == []
    {
      rows := [];
      committed := [];
    }

    /** `INSERT`: appends a row, visible to this connection until committed. */
    method Insert(s: Student)
      modifies this
      ensures rows == old(rows) + [s] && committed == old(committed)
    {
      rows := rows + [s];
    }

    method Commit()
      modifies this
      ensures rows == old(rows) && committed == rows
    {
      committed := rows;
    }
  }

  /** The import. A missing file is reported before the table is touched.
      Otherwise the table is truncated first; a file that cannot be opened,
      or that has no header row (joining the missing header raises), ends
      the import with failure and an empty table. Otherwise every row after
      the header is inserted or skipped, the inserts are committed, and the
      table holds exactly the accepted rows in input order. The counters
      are the figures the import reports. */
  method ImportCsv(file: CsvFile, parse: string -> Option<int>, table: StudentTable)
    returns (ok: bool, recordCount: nat, skippedCount: nat)
    modifies table
    ensures file.Missing? ==>
      !ok && table.rows == old(table.rows) && table.committed == old(table.committed)
    ensures file.Unreadable? || file == Readable([]) ==>
      !ok && table.rows == [] && table.committed == []
    ensures !ok ==> recordCount == 0 && skippedCount == 0
    ensures file.Readable? && file.rows != [] ==>
      ok &&
      table.rows == Accepted(file.rows[1..], parse) && table.committed == table.rows &&
      recordCount == |table.rows| && skippedCount == Skipped(file.rows[1..], parse) &&
      recordCount + skippedCount == |file.rows| - 1
  {
    recordCount, skippedCount := 0, 0;
    if file.Missing? {
      return false, 0, 0;
    }
    table.Truncate();
    if file.Unreadable? || file.rows == [] {
      return false, 0, 0;
    }
    var data := file.rows[1..];
    for i := 0 to |data|
      invariant table.rows == Accepted(data[..i], parse) && table.committed == []
      invariant recordCount == |table.rows| && skippedCount == Skipped(data[..i], parse)
      invariant recordCount + skippedCount == i
    {
      var row := data[i];
      assert data[..i + 1][..i] == data[..i];
      if |row| != 3 {
        skippedCount := skippedCount + 1;
        continue;
      }
      var cgpa := parse(row[2]);
      if cgpa.None? {
        skippedCount := skippedCount + 1;
        continue;
      }
      table.Insert(Student(row[0], row[1], cgpa.value));
      recordCount := recordCount + 1;
    }
    assert data[..|data|] == data;
    table.Commit();
    ok := true;
  }
}
