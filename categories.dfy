/** The two classification schemes of the query exercises over CGPA in
    hundredths: the performance categories and the letter grades, and the
    letter-grade query that lists each student with a grade and then the
    grade distribution with percentages. */
module Categories {
  import opened Wrappers
  import opened Students
  import opened Grading

  datatype Performance = Excellent | VeryGood | Good | Satisfactory | NeedsImprovement

  const PerformanceLadder: Ladder<Performance> :=
    Ladder([Band(Excellent, 380), Band(VeryGood, 350), Band(Good, 330), Band(Satisfactory, 300)],
           NeedsImprovement)

  function PerformanceCategory(cgpa: int): Performance
  {
    Classify(PerformanceLadder, cgpa)
  }

  /** Each category covers exactly its interval of the CGPA scale, lower
      bounds inclusive; for instance 3.50 is Very Good. */
  lemma PerformanceCategoryIntervals(cgpa: int)
    ensures PerformanceCategory(cgpa) == Excellent <==> 380 <= cgpa
    ensures PerformanceCategory(cgpa) == VeryGood <==> 350 <= cgpa < 380
    ensures PerformanceCategory(cgpa) == Good <==> 330 <= cgpa < 350
    ensures PerformanceCategory(cgpa) == Satisfactory <==> 300 <= cgpa < 330
    ensures PerformanceCategory(cgpa) == NeedsImprovement <==> cgpa < 300
    ensures PerformanceCategory(350) == VeryGood
  {
    var bands := PerformanceLadder.bands;
    assert Descending(bands);
    var k := BandIndex(bands, cgpa);
    BandIndexInterval(bands, cgpa, k);
    BandIndexInterval(bands, 350, 1);
  }

  datatype LetterGrade = APlus | A | AMinus | BPlus | B | BMinus | CPlus | C | F

  const LetterGradeLadder: Ladder<LetterGrade> :=
    Ladder([Band(APlus, 390), Band(A, 370), Band(AMinus, 350), Band(BPlus, 330),
            Band(B, 300), Band(BMinus, 270), Band(CPlus, 230), Band(C, 200)],
           F)

  function LetterGradeOf(cgpa: int): LetterGrade
  {
    Classify(LetterGradeLadder, cgpa)
  }

  lemma LetterGradeLadderDescending()
    ensures Descending(LetterGradeLadder.bands)
  {
  }

  /** Each letter grade covers exactly its interval of the CGPA scale. */
  lemma LetterGradeIntervals(cgpa: int)
    ensures LetterGradeOf(cgpa) == APlus <==> 390 <= cgpa
    ensures LetterGradeOf(cgpa) == A <==> 370 <= cgpa < 390
    ensures LetterGradeOf(cgpa) == AMinus <==> 350 <= cgpa < 370
    ensures LetterGradeOf(cgpa) == BPlus <==> 330 <= cgpa < 350
    ensures LetterGradeOf(cgpa) == B <==> 300 <= cgpa < 330
    ensures LetterGradeOf(cgpa) == BMinus <==> 270 <= cgpa < 300
    ensures LetterGradeOf(cgpa) == CPlus <==> 230 <= cgpa < 270
    ensures LetterGradeOf(cgpa) == C <==> 200 <= cgpa < 230
    ensures LetterGradeOf(cgpa) == F <==> cgpa < 200
  {
    var bands := LetterGradeLadder.bands;
    LetterGradeLadderDescending();
    var k := BandIndex(bands, cgpa);
    BandIndexInterval(bands, cgpa, k);
  }

  /** The expected result of the performance query: one row per non-empty
      category, ordered by minimum CGPA descending, whose counts add up to
      the number of students, each average between its minimum and maximum. */
  lemma PerformanceSummaryProperties(students: seq<Student>)
    ensures var r := Summarize(PerformanceLadder, Scores(students));
      CountSum(r) == |students| &&
      (forall i, j :: 0 <= i < j < |r| ==> r[i].minScore > r[j].minScore) &&
      (forall e :: e in r ==> e.count > 0 && e.minScore as real <= e.Average() <= e.maxScore as real)
  {
    assert Descending(PerformanceLadder.bands);
    SummarizeCounts(PerformanceLadder, Scores(students));
    SummarizeOrdered(PerformanceLadder, Scores(students));
    SummarizeStats(PerformanceLadder, Scores(students));
  }

  datatype GradedStudent = GradedStudent(student: Student, grade: LetterGrade)

  /** The first letter-grade query: every student with a grade, in the given order. */
  function GradeListing(students: seq<Student>): (r: seq<GradedStudent>)
    ensures |r| == |students|
    ensures forall i :: 0 <= i < |r| ==> r[i] == GradedStudent(students[i], LetterGradeOf(students[i].cgpa))
  {
    if students == [] then []
    else [GradedStudent(students[0], LetterGradeOf(students[0].cgpa))] + GradeListing(students[1..])
  }

  /** The letter-grade query over the rows of the table, in the order the
      caller gives them (the listing query sorts them by CGPA descending,
      which this model does not impose): the per-student listing, the grade distribution and its
      percentage column. Both queries read the same table, so the total
      is zero only when the distribution is empty, the division never
      fails, and the percentages add up to 100 whenever there is a student. */
  method RunLetterGradeQuery(students: seq<Student>)
    returns (listing: seq<GradedStudent>, distribution: seq<CategoryStats<LetterGrade>>, percentages: seq<real>)
    ensures |listing| == |students|
    ensures forall i :: 0 <= i < |students| ==>
      listing[i].student == students[i] && listing[i].grade == LetterGradeOf(students[i].cgpa)
    ensures distribution == Summarize(LetterGradeLadder, Scores(students))
    ensures CountSum(distribution) == |students|
    ensures forall i, j :: 0 <= i < j < |distribution| ==> distribution[i].minScore > distribution[j].minScore
    ensures |percentages| == |distribution|
    ensures |students| == 0 ==> distribution == [] && percentages == []
    ensures |students| > 0 ==> forall i :: 0 <= i < |distribution| ==>
      percentages[i] == Percent(distribution[i].count, |students|)
    ensures |students| > 0 ==> SumReal(percentages) == 100.0
  {
    listing := GradeListing(students);
    LetterGradeLadderDescending();
    distribution, percentages := Distribution(LetterGradeLadder, Scores(students));
  }
}
