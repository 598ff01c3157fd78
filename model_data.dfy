/**
  `ModelData`: the app's shared state (the course list and the seven course
  name slots) and the operations that change it: the period-ordered name
  refresh and the reconciliation of a parsed report with the stored courses.
*/
module AppModel {
  import opened Wrappers
  import opened Text
  import opened Sorting
  import opened Workload
  import opened Deadlines
  import opened Courses
  import opened Report
  import opened Reconcile

  /** `CourseInfo.courseNames` always has seven slots. */
  const COURSE_SLOTS := 7

  /** `{ $0.period < $1.period }`, as a non-strict order. */
  function PeriodOrder(): (Course, Course) -> bool {
    (a: Course, b: Course) => LexLe(a.period, b.period)
  }

  lemma PeriodOrderIsTotalPreorder()
    ensures TotalPreorder(PeriodOrder())
  {
    forall a: Course, b: Course ensures LexLe(a.period, b.period) || LexLe(b.period, a.period) {
      LexLeTotal(a.period, b.period);
    }
    forall a: Course, b: Course, c: Course | LexLe(a.period, b.period) && LexLe(b.period, c.period)
      ensures LexLe(a.period, c.period)
    {
      LexLeTransitive(a.period, b.period, c.period);
    }
  }

  /** `courses.sorted { $0.period < $1.period }`. */
  function SortByPeriod(courses: seq<Course>): (r: seq<Course>)
    ensures multiset(r) == multiset(courses) && |r| == |courses|
    ensures forall i, j :: 0 <= i < j < |r| ==> LexLe(r[i].period, r[j].period)
  {
    PeriodOrderIsTotalPreorder();
    var r := Sort(courses, PeriodOrder());
    SortedLength(r, courses);
    assert forall i, j :: 0 <= i < j < |r| ==> PeriodOrder()(r[i], r[j]);
    r
  }

  /**
    The header of the parsed page as the `Course(term:title:period:instructor:)`
    the parser builds, with the fresh identifier the initialiser draws.
  */
  function ParsedCourse(h: Header, freshId: nat): Course {
    Course(freshId, h.term, h.title, h.period, h.instructor, None, None)
  }

  /**
    `updateDeadlines` traps when the matched course already holds two
    deadlines with the same key; reconciling is defined when it does not.
  */
  predicate CanMerge(courses: seq<Course>, h: Header) {
    var k := IndexOfCourse(courses, ParsedCourse(h, 0));
    k >= 0 ==> KeysDistinct(DeadlinesOf(courses[k]))
  }

  /**
    The outcome of reconciling the parsed header `h` and deadlines `parsed`
    with the course list `before`, giving the course handed to the file
    upsert and the list `after`:
    - a stored course with the same term, title, period and instructor keeps
      its identity, gets the merge of its deadlines with the parsed ones, in
      due-date order, and the default workload profile; the list itself is
      not changed;
    - otherwise the parsed course, with the parsed deadlines in due-date
      order and the default profile, is appended.
  */
  ghost predicate Reconciled(before: seq<Course>, h: Header, parsed: seq<Deadline>, freshId: nat,
                             course: Course, after: seq<Course>)
  {
    var k := IndexOfCourse(before, ParsedCourse(h, freshId));
    && course.deadlines.Some?
    && SortedBy(course.deadlines.value, DueLe)
    && course.timeTaken == Some(DefaultTimeTaken())
    && if k >= 0 then
         && course == before[k].(deadlines := course.deadlines, timeTaken := course.timeTaken)
         && KeysDistinct(DeadlinesOf(before[k])) && KeysDistinct(course.deadlines.value)
         && KeyMap(course.deadlines.value) == MergeInto(KeyMap(DeadlinesOf(before[k])), parsed)
         && after == before
       else
         && course == ParsedCourse(h, freshId).(deadlines := course.deadlines, timeTaken := course.timeTaken)
         && multiset(course.deadlines.value) == multiset(parsed)
         && after == before + [course]
  }

  /** The composite-key lookup does not depend on the probe's identifier. */
  lemma IndexIgnoresId(courses: seq<Course>, h: Header, a: nat, b: nat)
    ensures IndexOfCourse(courses, ParsedCourse(h, a)) == IndexOfCourse(courses, ParsedCourse(h, b))
  {
    var k := IndexOfCourse(courses, ParsedCourse(h, a));
    var k' := IndexOfCourse(courses, ParsedCourse(h, b));
    assert forall c :: SameCourse(c, ParsedCourse(h, a)) <==> SameCourse(c, ParsedCourse(h, b));
    IndexOfCourseFound(courses, ParsedCourse(h, a));
    IndexOfCourseFound(courses, ParsedCourse(h, b));
  }

  /**
    A re-parse never loses progress: every deadline of the stored course is
    still there under its key, with its category, actual hours and completion
    mark.
  */
  lemma ReparseKeepsProgress(before: seq<Course>, h: Header, parsed: seq<Deadline>, freshId: nat,
                             course: Course, after: seq<Course>, e: Deadline)
    requires Reconciled(before, h, parsed, freshId, course, after)
    requires IndexOfCourse(before, ParsedCourse(h, freshId)) >= 0
    requires e in DeadlinesOf(before[IndexOfCourse(before, ParsedCourse(h, freshId))])
    ensures exists r :: (r in course.deadlines.value && Key(r) == Key(e)
      && r.deadlineType == e.deadlineType && r.isCompleted == e.isCompleted
      && r.actualTotalHrs == e.actualTotalHrs && r.actualHrsPerDay == e.actualHrsPerDay)
  {
    var k := IndexOfCourse(before, ParsedCourse(h, freshId));
    var current := DeadlinesOf(before[k]);
    var merged := course.deadlines.value;
    assert KeysDistinct(current) && KeysDistinct(merged);
    assert KeyMap(merged) == MergeInto(KeyMap(current), parsed);
    KeptUnderKey(current, parsed, merged, e);
  }

  /** The deadline-level step of `ReparseKeepsProgress`. */
  lemma KeptUnderKey(current: seq<Deadline>, parsed: seq<Deadline>, merged: seq<Deadline>, e: Deadline)
    requires KeysDistinct(current) && KeysDistinct(merged)
    requires KeyMap(merged) == MergeInto(KeyMap(current), parsed)
    requires e in current
    ensures exists r :: (r in merged && Key(r) == Key(e)
      && r.deadlineType == e.deadlineType && r.isCompleted == e.isCompleted
      && r.actualTotalHrs == e.actualTotalHrs && r.actualHrsPerDay == e.actualHrsPerDay)
  {
    var i :| 0 <= i < |current| && current[i] == e;
    assert Key(e) in KeyMap(current) && KeyMap(current)[Key(e)] == e;
    MergeKeepsProgress(KeyMap(current), parsed, Key(e));
    assert Key(e) in KeyMap(merged);
    var j :| 0 <= j < |merged| && Key(merged[j]) == Key(e);
    assert merged[j] == KeyMap(merged)[Key(e)];
  }

  /**
    The list grows only for a course not seen before, and then by one; a
    re-parsed course keeps its identifier.
  */
  lemma ReconcileShape(before: seq<Course>, h: Header, parsed: seq<Deadline>, freshId: nat,
                       course: Course, after: seq<Course>)
    requires Reconciled(before, h, parsed, freshId, course, after)
    ensures IsCourseInArray(before, ParsedCourse(h, freshId)) ==> after == before && course.id in IdsOf(before)
    ensures !IsCourseInArray(before, ParsedCourse(h, freshId)) ==> |after| == |before| + 1 && course.id == freshId
  {
    IndexOfCourseFound(before, ParsedCourse(h, freshId));
    var k := IndexOfCourse(before, ParsedCourse(h, freshId));
    if k >= 0 {
      assert course.id == before[k].id;
    }
  }

  /**
    Reconciling the same report twice ends where reconciling it once does:
    the course list is unchanged by the second run, and the second course
    differs from the first at most in the order of its deadlines, so writing
    it to the saved list over the first leaves what writing it alone would.
  */
  lemma ReconcileTwice(before: seq<Course>, h: Header, parsed: seq<Deadline>,
                       id1: nat, c1: Course, after1: seq<Course>,
                       id2: nat, c2: Course, after2: seq<Course>, stored: seq<Course>)
    requires Reconciled(before, h, parsed, id1, c1, after1)
    requires Reconciled(after1, h, parsed, id2, c2, after2)
    requires KeysDistinct(parsed)
    ensures after2 == after1
    ensures c2 == c1.(deadlines := c2.deadlines)
    ensures KeysDistinct(c1.deadlines.value) && KeysDistinct(c2.deadlines.value)
    ensures KeyMap(c2.deadlines.value) == KeyMap(c1.deadlines.value)
    ensures multiset(c2.deadlines.value) == multiset(c1.deadlines.value)
    ensures Upsert(Upsert(stored, c1), c2) == Upsert(stored, c2)
  {
    var k1 := IndexOfCourse(before, ParsedCourse(h, id1));
    if k1 >= 0 {
      IndexIgnoresId(before, h, id1, id2);
    } else {
      SecondRunFindsFirst(before, h, id1, id2, c1);
      var d1 := c1.deadlines.value;
      PermutationKeepsKeyMap(d1, parsed);
      MergeFromEmpty(parsed);
      MergeIdempotent(map[], parsed);
    }
    KeyMapDeterminesMultiset(c2.deadlines.value, c1.deadlines.value);
    UpsertOverwrites(stored, c1, c2);
  }

  /** A course appended by the first run is the one the second run finds. */
  lemma SecondRunFindsFirst(before: seq<Course>, h: Header, id1: nat, id2: nat, c1: Course)
    requires IndexOfCourse(before, ParsedCourse(h, id1)) == -1
    requires SameCourse(c1, ParsedCourse(h, id1))
    ensures IndexOfCourse(before + [c1], ParsedCourse(h, id2)) == |before|
  {
    var after := before + [c1];
    var probe := ParsedCourse(h, id2);
    IndexIgnoresId(before, h, id1, id2);
    IndexOfCourseFound(before, probe);
    IndexOfCourseFound(after, probe);
    assert SameCourse(after[|before|], probe);
  }

  function IdsOf(courses: seq<Course>): set<nat> {
    set c | c in courses :: c.id
  }


  class ModelData {
    var courses: seq<Course>
    var courseNames: seq<string>

    ghost predicate Valid()
      reads this
    {
      |courseNames| == COURSE_SLOTS
    }

    /**
      `init()`, with the course list read from the saved file passed in:
      seven empty name slots, then `updateCourseNames`.
    */
    constructor (loaded: seq<Course>)
      ensures Valid()
      ensures multiset(courses) == multiset(loaded)
      ensures forall i, j :: 0 <= i < j < |courses| ==> LexLe(courses[i].period, courses[j].period)
      ensures forall i :: 0 <= i < COURSE_SLOTS ==> courseNames[i] == if i < |courses| then courses[i].title else ""
    {
      courses := loaded;
      courseNames := seq(COURSE_SLOTS, _ => "");
      new;
      UpdateCourseNames();
    }

    /** `getCourse(at:)`: the course at the index, or none when it is out of range. */
    function GetCourse(index: int): (r: Option<Course>)
      reads this
      ensures r.Some? <==> 0 <= index < |courses|
      ensures r.Some? ==> r.value == courses[index]
    {
      if 0 <= index < |courses| then Some(courses[index]) else None
    }

    /**
      `updateCourseNames()`: the courses are put in period order and the first
      seven titles, in that order, fill the name slots; slots beyond the
      number of courses keep their old names.
    */
    method UpdateCourseNames()
      requires Valid()
      modifies this
      ensures Valid()
      ensures multiset(courses) == multiset(old(courses))
      ensures forall i, j :: 0 <= i < j < |courses| ==> LexLe(courses[i].period, courses[j].period)
      ensures forall i :: 0 <= i < COURSE_SLOTS ==>
        courseNames[i] == if i < |courses| then courses[i].title else old(courseNames)[i]
    {
      var sorted := SortByPeriod(courses);
      var n := if |sorted| < COURSE_SLOTS then |sorted| else COURSE_SLOTS;
      for i := 0 to n
        invariant |courseNames| == COURSE_SLOTS
        invariant forall k :: 0 <= k < COURSE_SLOTS ==>
          courseNames[k] == if k < i then sorted[k].title else old(courseNames)[k]
      {
        courseNames := courseNames[i := sorted[i].title];
      }
      courses := sorted;
    }

    /**
      The in-memory part of `parseHTMLAndSaveToDocumentDirectory(fileName:)`:
      parses the page, reconciles it with `courses`, and returns the course
      handed to the file upsert together with the file's new contents, given
      its old contents `stored`. `freshId` stands for the `UUID()` of the
      parsed course.
    */
    method ParseHTMLAndSave(page: Page, p: Parsers, freshId: nat, stored: seq<Course>)
      returns (course: Course, written: seq<Course>)
      requires CanMerge(courses, ParseHeader(page.titleText))
      modifies this
      ensures Reconciled(old(courses), ParseHeader(page.titleText), PageDeadlines(page, p), freshId, course, courses)
      ensures courseNames == old(courseNames)
      ensures written == Upsert(stored, course)
    {
      var header, parsed := ParsePage(page, p);
      var probe := ParsedCourse(header, freshId);
      var profile := DefaultTimeTaken();
      var index := IndexOfCourse(courses, probe);
      IndexIgnoresId(courses, header, freshId, 0);
      if index != -1 {
        var existing := GetCourse(index).value;
        var merged := UpdateDeadlines(DeadlinesOf(existing), parsed);
        course := existing.(deadlines := Some(merged));
        course := course.(timeTaken := Some(profile));
        course := SetDeadlines(course, merged);
        PermutationKeepsKeyMap(course.deadlines.value, merged);
      } else {
        course := SetDeadlines(probe, parsed);
        course := course.(timeTaken := Some(profile));
        courses := courses + [course];
      }
      written := AppendCourse(stored, course);
    }
  }
}
