/** A row of the `student_records` table. The CGPA is held in hundredths,
    so a CGPA of 3.85 is the integer 385. */
module Students {

  datatype Student = Student(idNo: string, name: string, cgpa: int)

  /** The CGPA column of a list of rows, in row order. */
  function Scores(students: seq<Student>): (r: seq<int>)
    ensures |r| == |students|
    ensures forall i :: 0 <= i < |r| ==> r[i] == students[i].cgpa
  {
    if students == [] then [] else [students[0].cgpa] + Scores(students[1..])
  }

  /** The order `ORDER BY cgpa DESC` produces: whatever the tie order among
      equal scores, no row has a lower CGPA than a row after it. */
  predicate SortedByCgpaDesc(students: seq<Student>)
  {
    forall i, j :: 0 <= i < j < |students| ==> students[i].cgpa >= students[j].cgpa
  }
}
