/**
  The per-course workload profile (`CourseAssignmentTimeTaken`): expected total
  hours and hours per day for each of the five deadline categories, seeded
  from `CourseWorkloadConstants`.
*/
module Workload {
  import opened Wrappers
  import opened Text

  // CourseWorkloadConstants
  const HW_TOTAL_HRS: int := 3
  const HW_HRS_PER_DAY: int := 1
  const QUIZ_TOTAL_HRS: int := 5
  const QUIZ_HRS_PER_DAY: int := 1
  const TEST_TOTAL_HRS: int := 10
  const TEST_HRS_PER_DAY: int := 3
  const CW_TOTAL_HRS: int := 4
  const CW_HRS_PER_DAY: int := 1
  const LAB_TOTAL_HRS: int := 5
  const LAB_HRS_PER_DAY: int := 2

  /** `CourseAssignmentTimeTaken.DeadlineType`. */
  datatype DeadlineType = Homework | Quiz | Test | Classwork | Lab

  /** The category's name, as the classifier spells it. */
  function Name(t: DeadlineType): string {
    match t
    case Homework => "homework"
    case Quiz => "quiz"
    case Test => "test"
    case Classwork => "classwork"
    case Lab => "lab"
  }

  /** `CourseAssignmentTimeTaken`. */
  datatype TimeTaken = TimeTaken(
    hwTotalHrs: int, hwHrsPerDay: int,
    quizTotalHrs: int, quizHrsPerDay: int,
    testTotalHrs: int, testHrsPerDay: int,
    cwTotalHrs: int, cwHrsPerDay: int,
    labTotalHrs: int, labHrsPerDay: int)

  /** `CourseAssignmentTimeTaken.init()`: every pair from the workload constants. */
  function DefaultTimeTaken(): (p: TimeTaken)
    ensures GetHours(p, Homework) == (3, 1)
    ensures GetHours(p, Quiz) == (5, 1)
    ensures GetHours(p, Test) == (10, 3)
    ensures GetHours(p, Classwork) == (4, 1)
    ensures GetHours(p, Lab) == (5, 2)
  {
    TimeTaken(HW_TOTAL_HRS, HW_HRS_PER_DAY, QUIZ_TOTAL_HRS, QUIZ_HRS_PER_DAY,
              TEST_TOTAL_HRS, TEST_HRS_PER_DAY, CW_TOTAL_HRS, CW_HRS_PER_DAY,
              LAB_TOTAL_HRS, LAB_HRS_PER_DAY)
  }

  /**
    `setTimeTaken(...)`: overwrites all ten fields; the previous profile plays
    no part in the result.
  */
  function SetTimeTaken(p: TimeTaken,
                        hwTotalHrs: int, hwHrsPerDay: int,
                        quizTotalHrs: int, quizHrsPerDay: int,
                        testTotalHrs: int, testHrsPerDay: int,
                        cwTotalHrs: int, cwHrsPerDay: int,
                        labTotalHrs: int, labHrsPerDay: int): (r: TimeTaken)
    ensures GetHours(r, Homework) == (hwTotalHrs, hwHrsPerDay)
    ensures GetHours(r, Quiz) == (quizTotalHrs, quizHrsPerDay)
    ensures GetHours(r, Test) == (testTotalHrs, testHrsPerDay)
    ensures GetHours(r, Classwork) == (cwTotalHrs, cwHrsPerDay)
    ensures GetHours(r, Lab) == (labTotalHrs, labHrsPerDay)
  {
    TimeTaken(hwTotalHrs, hwHrsPerDay, quizTotalHrs, quizHrsPerDay,
              testTotalHrs, testHrsPerDay, cwTotalHrs, cwHrsPerDay,
              labTotalHrs, labHrsPerDay)
  }

  /** `getHours(for:)`: the (total hours, hours per day) pair of one category. */
  function GetHours(p: TimeTaken, t: DeadlineType): (r: (int, int))
    ensures t == Homework ==> r == (p.hwTotalHrs, p.hwHrsPerDay)
    ensures t == Quiz ==> r == (p.quizTotalHrs, p.quizHrsPerDay)
    ensures t == Test ==> r == (p.testTotalHrs, p.testHrsPerDay)
    ensures t == Classwork ==> r == (p.cwTotalHrs, p.cwHrsPerDay)
    ensures t == Lab ==> r == (p.labTotalHrs, p.labHrsPerDay)
  {
    match t
    case Homework => (p.hwTotalHrs, p.hwHrsPerDay)
    case Quiz => (p.quizTotalHrs, p.quizHrsPerDay)
    case Test => (p.testTotalHrs, p.testHrsPerDay)
    case Classwork => (p.cwTotalHrs, p.cwHrsPerDay)
    case Lab => (p.labTotalHrs, p.labHrsPerDay)
  }

  /** A profile is determined by its five pairs. */
  lemma ProfileDeterminedByHours(p: TimeTaken, q: TimeTaken)
    requires forall t: DeadlineType :: GetHours(p, t) == GetHours(q, t)
    ensures p == q
  {
    assert GetHours(p, Homework) == GetHours(q, Homework);
    assert GetHours(p, Quiz) == GetHours(q, Quiz);
    assert GetHours(p, Test) == GetHours(q, Test);
    assert GetHours(p, Classwork) == GetHours(q, Classwork);
    assert GetHours(p, Lab) == GetHours(q, Lab);
  }

  /** `DeadlineType(from:)`: the five names, compared after lower-casing. */
  function DeadlineTypeFrom(s: string): (r: Option<DeadlineType>)
    ensures r.Some? ==> Lower(s) == Name(r.value)
  {
    var l := Lower(s);
    if l == "homework" then Some(Homework)
    else if l == "quiz" then Some(Quiz)
    else if l == "test" then Some(Test)
    else if l == "classwork" then Some(Classwork)
    else if l == "lab" then Some(Lab)
    else None
  }

  /** Each category's own name is recognised as that category. */
  lemma DeadlineTypeFromName(t: DeadlineType)
    ensures DeadlineTypeFrom(Name(t)) == Some(t)
  {
    var n := Name(t);
    NameIsLowerCase(t);
    LowerOfLowerCase(n);
    DeadlineTypeFromExactly(n, t);
  }

  lemma NameIsLowerCase(t: DeadlineType)
    ensures HasNoUpper(Name(t))
  {
  }

  /**
    Recognition is case-insensitive and accepts exactly the five names: the
    result is `Some(t)` precisely when the lower-cased input is `t`'s name.
  */
  lemma DeadlineTypeFromExactly(s: string, t: DeadlineType)
    ensures DeadlineTypeFrom(s) == Some(t) <==> Lower(s) == Name(t)
  {
  }

  /**
    The expected-hours pair the report parser gives a deadline of category
    `category`: the profile's pair for a recognised category, the homework
    constants otherwise.
  */
  function ExpectedHours(category: string, p: TimeTaken): (r: (int, int))
    ensures DeadlineTypeFrom(category).None? ==> r == (HW_TOTAL_HRS, HW_HRS_PER_DAY)
  {
    match DeadlineTypeFrom(category)
    case Some(t) => GetHours(p, t)
    case None => (HW_TOTAL_HRS, HW_HRS_PER_DAY)
  }

  /** A category's own name is costed with that category's pair of the profile. */
  lemma ExpectedHoursOfName(t: DeadlineType, p: TimeTaken)
    ensures ExpectedHours(Name(t), p) == GetHours(p, t)
  {
    DeadlineTypeFromName(t);
  }

  /** A "test" deadline is expected to take 10 hours at 3 per day by default. */
  lemma DefaultTestHours()
    ensures ExpectedHours("test", DefaultTimeTaken()) == (10, 3)
  {
    ExpectedHoursOfName(Test, DefaultTimeTaken());
  }

  /** The empty classification is costed as homework, whatever the profile. */
  lemma ExpectedHoursOfEmpty(p: TimeTaken)
    ensures ExpectedHours("", p) == (HW_TOTAL_HRS, HW_HRS_PER_DAY)
  {
    assert Lower("") == "";
  }

  /**
    With the default profile the fallback coincides with the homework pair, so
    an unclassified deadline is costed as homework (3 hours at 1 per day).
  */
  lemma UnclassifiedCostsAsHomework(category: string)
    requires DeadlineTypeFrom(category).None?
    ensures ExpectedHours(category, DefaultTimeTaken()) == GetHours(DefaultTimeTaken(), Homework) == (3, 1)
  {
  }
}
