/** The CGPA gap analysis: students arrive ordered by CGPA descending; the
    report ranks them 1..n, shows each student's gap to the next one,
    highlights every gap equal to the largest, and, when the largest gap
    is positive, names the first pair with that gap and the average gap. */
module GapAnalysis {
  import opened Wrappers
  import opened Seqs
  import opened Students

  /** The gap between each student and the next, in ranking order. */
  function Gaps(students: seq<Student>): seq<int>
  {
    if |students| < 2 then []
    else [students[0].cgpa - students[1].cgpa] + Gaps(students[1..])
  }

  /** There is one gap fewer than students (none for no student), and gap
      `i` is the drop from student `i` to student `i + 1`. */
  lemma {:induction false} GapsShape(students: seq<Student>)
    ensures |Gaps(students)| == if |students| == 0 then 0 else |students| - 1
    ensures forall i :: 0 <= i < |Gaps(students)| ==>
      Gaps(students)[i] == students[i].cgpa - students[i + 1].cgpa
  {
    if |students| >= 2 {
      GapsShape(students[1..]);
    }
  }

  /** In a ranking by CGPA descending no gap is negative. */
  lemma GapsNonNegative(students: seq<Student>)
    requires SortedByCgpaDesc(students)
    ensures forall i :: 0 <= i < |Gaps(students)| ==> Gaps(students)[i] >= 0
  {
    GapsShape(students);
  }

  /** The gaps telescope: together they are the drop from the first CGPA to the last. */
  lemma {:induction false} GapsTelescope(students: seq<Student>)
    requires |students| > 0
    ensures Sum(Gaps(students)) == students[0].cgpa - students[|students| - 1].cgpa
  {
    if |students| >= 2 {
      GapsTelescope(students[1..]);
    }
  }

  /** `max(gaps) if gaps else 0`. */
  function MaxGap(gaps: seq<int>): (m: int)
    ensures gaps == [] ==> m == 0
    ensures gaps != [] ==> m in gaps
    ensures forall i :: 0 <= i < |gaps| ==> gaps[i] <= m
  {
    if gaps == [] then 0 else Max(gaps)
  }

  /** `sum(gaps) / len(gaps) if gaps else 0`. */
  function AverageGap(gaps: seq<int>): real
  {
    if gaps == [] then 0.0 else Sum(gaps) as real / |gaps| as real
  }

  /** In a ranking of at least two students the largest gap is positive
      exactly when the first CGPA is above the last, that is, unless all
      students share one CGPA. */
  lemma MaxGapPositive(students: seq<Student>)
    requires SortedByCgpaDesc(students)
    ensures MaxGap(Gaps(students)) > 0 <==> |students| >= 2 && students[0].cgpa > students[|students| - 1].cgpa
  {
    var gaps := Gaps(students);
    GapsShape(students);
    if |students| >= 2 {
      GapsTelescope(students);
      GapsNonNegative(students);
      var m := MaxGap(gaps);
      if m > 0 {
        SumPositive(gaps, FirstIndex(gaps, m));
      } else {
        SumAtMost(gaps, 0);
      }
    }
  }

  /** The average gap of a ranking is the total drop spread over the gaps,
      and lies between 0 and the largest gap. */
  lemma AverageGapOfRanking(students: seq<Student>)
    requires SortedByCgpaDesc(students)
    requires |students| >= 2
    ensures AverageGap(Gaps(students)) ==
      (students[0].cgpa - students[|students| - 1].cgpa) as real / (|students| - 1) as real
    ensures 0.0 <= AverageGap(Gaps(students)) <= MaxGap(Gaps(students)) as real
  {
    var gaps := Gaps(students);
    GapsShape(students);
    GapsTelescope(students);
    assert |gaps| == |students| - 1;
    assert Sum(gaps) == students[0].cgpa - students[|students| - 1].cgpa;
    GapsNonNegative(students);
    SumAtLeast(gaps, 0);
    SumAtMost(gaps, MaxGap(gaps));
    MeanBetween(|gaps|, 0, MaxGap(gaps), Sum(gaps));
  }

  /** Builds the list of gaps with one pass over consecutive pairs. */
  method ComputeGaps(students: seq<Student>) returns (gaps: seq<int>)
    ensures gaps == Gaps(students)
    ensures |gaps| == if |students| == 0 then 0 else |students| - 1
    ensures forall i :: 0 <= i < |gaps| ==> gaps[i] == students[i].cgpa - students[i + 1].cgpa
  {
    gaps := [];
    var i := 0;
    while i < |students| - 1
      invariant 0 <= i <= if |students| == 0 then 0 else |students| - 1
      invariant |gaps| == i
      invariant forall j :: 0 <= j < i ==> gaps[j] == students[j].cgpa - students[j + 1].cgpa
    {
      gaps := gaps + [students[i].cgpa - students[i + 1].cgpa];
      i := i + 1;
    }
    GapsShape(students);
    assert |gaps| == |Gaps(students)|;
    forall j | 0 <= j < |gaps| ensures gaps[j] == Gaps(students)[j] {
      assert gaps[j] == students[j].cgpa - students[j + 1].cgpa;
      assert Gaps(students)[j] == students[j].cgpa - students[j + 1].cgpa;
    }
  }

  /** The gap column: "N/A" for the last student, otherwise the gap to the
      next student, marked when it equals the largest gap. */
  datatype GapCell = NotApplicable | Shown(gap: int, highlighted: bool)

  datatype GapRow = GapRow(rank: nat, student: Student, cell: GapCell)

  /** The closing analysis: the largest gap, the pair of students around it
      and the average gap. */
  datatype LargestGap = LargestGap(gap: int, higher: Student, lower: Student, averageGap: real)

  datatype GapReport = GapReport(rows: seq<GapRow>, maxGap: int, largest: Option<LargestGap>)

  /** One row per student, ranked from 1 in the given order. */
  method BuildRows(students: seq<Student>, maxGap: int) returns (rows: seq<GapRow>)
    ensures |rows| == |students|
    ensures forall i :: 0 <= i < |rows| ==> rows[i].rank == i + 1 && rows[i].student == students[i]
    ensures forall i :: 0 <= i < |rows| ==> (rows[i].cell.NotApplicable? <==> i == |rows| - 1)
    ensures forall i :: 0 <= i < |rows| - 1 ==>
      rows[i].cell.gap == students[i].cgpa - students[i + 1].cgpa &&
      (rows[i].cell.highlighted <==> rows[i].cell.gap == maxGap)
  {
    rows := [];
    var i := 0;
    while i < |students|
      invariant 0 <= i <= |students| && |rows| == i
      invariant forall j :: 0 <= j < i ==> rows[j].rank == j + 1 && rows[j].student == students[j]
      invariant forall j :: 0 <= j < i ==> (rows[j].cell.NotApplicable? <==> j == |students| - 1)
      invariant forall j :: 0 <= j < i && j < |students| - 1 ==>
        rows[j].cell.gap == students[j].cgpa - students[j + 1].cgpa &&
        (rows[j].cell.highlighted <==> rows[j].cell.gap == maxGap)
    {
      var cell;
      if i < |students| - 1 {
        var gap := students[i].cgpa - students[i + 1].cgpa;
        cell := Shown(gap, gap == maxGap);
      } else {
        cell := NotApplicable;
      }
      rows := rows + [GapRow(i + 1, students[i], cell)];
      i := i + 1;
    }
  }

  /** The gap analysis over students listed by CGPA descending. Rows carry
      ranks 1..n and the gaps; every row whose gap ties the maximum is
      highlighted; the closing analysis appears only when the largest gap
      is positive and then names the first pair with that gap. */
  method RunGapAnalysis(students: seq<Student>) returns (report: GapReport)
    ensures report.maxGap == MaxGap(Gaps(students))
    ensures |report.rows| == |students|
    ensures forall i :: 0 <= i < |students| ==>
      report.rows[i].rank == i + 1 && report.rows[i].student == students[i]
    ensures forall i :: 0 <= i < |students| ==>
      (report.rows[i].cell.NotApplicable? <==> i == |students| - 1)
    ensures forall i :: 0 <= i < |Gaps(students)| ==>
      i < |report.rows| &&
      report.rows[i].cell == Shown(Gaps(students)[i], Gaps(students)[i] == report.maxGap)
    ensures |students| >= 2 ==>
      exists i :: 0 <= i < |report.rows| && report.rows[i].cell.Shown? && report.rows[i].cell.highlighted
    ensures report.largest.Some? <==> report.maxGap > 0
    ensures report.largest.Some? ==>
      var k := FirstIndex(Gaps(students), report.maxGap);
      k + 1 < |students| &&
      report.largest.value == LargestGap(report.maxGap, students[k], students[k + 1], AverageGap(Gaps(students)))
  {
    var gaps := ComputeGaps(students);
    GapsShape(students);
    var maxGap := MaxGap(gaps);
    var rows := BuildRows(students, maxGap);
    var largest := None;
    if maxGap > 0 {
      var k := FirstIndex(gaps, maxGap);
      largest := Some(LargestGap(maxGap, students[k], students[k + 1], AverageGap(gaps)));
    }
    report := GapReport(rows, maxGap, largest);
    forall i | 0 <= i < |gaps|
      ensures report.rows[i].cell == Shown(gaps[i], gaps[i] == maxGap)
    {
      assert i < |rows| - 1;
      assert rows[i].cell.gap == students[i].cgpa - students[i + 1].cgpa;
      assert gaps[i] == students[i].cgpa - students[i + 1].cgpa;
    }
    if |students| >= 2 {
      var k := FirstIndex(gaps, maxGap);
      assert k < |students| - 1;
      assert gaps[k] == maxGap;
      assert rows[k].cell.gap == students[k].cgpa - students[k + 1].cgpa;
    }
  }
}
