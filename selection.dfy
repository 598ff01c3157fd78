/**
  Choosing what to remind about: the actionable deadlines of a course
  (`filterDeadlines`), the not-yet-completed ones (`filterCompletedDeadlines`),
  the collated order across courses (`sortCourseDeadlinesByDueDays`) and the
  set of categories in use (`findDistinctDeadlineTypes`).
*/
module Selection {
  import opened Wrappers
  import opened Text
  import opened Dates
  import opened Sorting
  import opened Deadlines
  import opened Courses

  /** The `(course, deadline)` pairs the selection functions return. */
  datatype Entry = Entry(course: Course, deadline: Deadline)

  /** The pairs `(c, d)` for the deadlines `d` of `ds` that pass `keep`, in list order. */
  function Collect(c: Course, ds: seq<Deadline>, keep: Deadline -> bool): (r: seq<Entry>)
    ensures |r| <= |ds|
    decreases |ds|
  {
    if ds == [] then []
    else
      var d := ds[|ds| - 1];
      Collect(c, ds[..|ds| - 1], keep) + (if keep(d) then [Entry(c, d)] else [])
  }

  /** A pair is collected exactly when it pairs `c` with a deadline of `ds` that passes. */
  lemma {:induction false} CollectExactly(c: Course, ds: seq<Deadline>, keep: Deadline -> bool, e: Entry)
    ensures e in Collect(c, ds, keep) <==> e.course == c && e.deadline in ds && keep(e.deadline)
    decreases |ds|
  {
    if ds != [] {
      var init := ds[..|ds| - 1];
      CollectExactly(c, init, keep, e);
      assert ds == init + [ds[|ds| - 1]];
    }
  }

  // ---------------------------------------------------------------------------
  // Orders on entries
  // ---------------------------------------------------------------------------

  function Days(e: Entry, now: int): int {
    DaysToDue(e.deadline, now)
  }

  /** `{ $0.deadline.daysToDue < $1.deadline.daysToDue }`, as a non-strict order. */
  function DaysOrder(now: int): (Entry, Entry) -> bool {
    (a: Entry, b: Entry) => Days(a, now) <= Days(b, now)
  }

  lemma DaysOrderIsTotalPreorder(now: int)
    ensures TotalPreorder(DaysOrder(now))
  {
  }

  /** Fewer days first, equal days by title (Swift's `String <`, as code-point order). */
  function DaysTitleOrder(now: int): (Entry, Entry) -> bool {
    (a: Entry, b: Entry) =>
      Days(a, now) < Days(b, now)
      || (Days(a, now) == Days(b, now) && LexLe(a.deadline.title, b.deadline.title))
  }

  lemma DaysTitleOrderIsTotalPreorder(now: int)
    ensures TotalPreorder(DaysTitleOrder(now))
  {
    var le := DaysTitleOrder(now);
    forall a: Entry, b: Entry ensures le(a, b) || le(b, a) {
      LexLeTotal(a.deadline.title, b.deadline.title);
    }
    forall a: Entry, b: Entry, c: Entry | le(a, b) && le(b, c) ensures le(a, c) {
      if Days(a, now) == Days(b, now) == Days(c, now) {
        LexLeTransitive(a.deadline.title, b.deadline.title, c.deadline.title);
      }
    }
  }

  // ---------------------------------------------------------------------------
  // filterDeadlines
  // ---------------------------------------------------------------------------

  /** The division in the filter is defined for every deadline of the course. */
  predicate CostsDefined(c: Course) {
    forall d :: d in DeadlinesOf(c) ==> CanCost(d)
  }

  function ActionableTest(now: int): Deadline -> bool {
    (d: Deadline) => CanCost(d) && IsActionable(d, now)
  }

  /** The pairs `filterDeadlines` keeps, before sorting. */
  function ActionableOf(c: Course, now: int): seq<Entry> {
    Collect(c, DeadlinesOf(c), ActionableTest(now))
  }

  /**
    The filter keeps exactly the deadlines of the course that are not
    completed, have a parsable due date and are due within the days the work
    needs; each is paired with the course.
  */
  lemma ActionableOfExactly(c: Course, now: int, e: Entry)
    requires CostsDefined(c)
    ensures e in ActionableOf(c, now) <==>
      && e.course == c && e.deadline in DeadlinesOf(c)
      && !e.deadline.isCompleted && e.deadline.dueDate.At?
      && DaysBetween(now, e.deadline.dueDate.instant)
         <= Threshold(e.deadline.expectedTotalHrs, e.deadline.expectedHrsPerDay)
  {
    CollectExactly(c, DeadlinesOf(c), ActionableTest(now), e);
  }

  /**
    `filterDeadlines(course:)`: the actionable pairs of the course, sorted by
    days to due. Swift traps on a zero pace, hence the precondition.
  */
  method FilterDeadlines(c: Course, now: int) returns (r: seq<Entry>)
    requires CostsDefined(c)
    ensures multiset(r) == multiset(ActionableOf(c, now))
    ensures SortedBy(r, DaysOrder(now))
  {
    if c.deadlines.None? {
      return [];
    }
    var ds := c.deadlines.value;
    var filtered: seq<Entry> := [];
    for i := 0 to |ds|
      invariant filtered == Collect(c, ds[..i], ActionableTest(now))
    {
      var d := ds[i];
      assert ds[..i + 1][..i] == ds[..i];
      assert d in DeadlinesOf(c);
      if !d.isCompleted && d.dueDate.At? {
        var d1 := DaysBetween(now, d.dueDate.instant);
        var d2 := TruncDiv(d.expectedTotalHrs + d.expectedHrsPerDay - 1, d.expectedHrsPerDay);
        if d1 <= d2 {
          filtered := filtered + [Entry(c, d)];
        }
      }
    }
    assert ds[..|ds|] == ds;
    DaysOrderIsTotalPreorder(now);
    r := Sort(filtered, DaysOrder(now));
  }

  // ---------------------------------------------------------------------------
  // filterCompletedDeadlines
  // ---------------------------------------------------------------------------

  const PENDING: Deadline -> bool := (d: Deadline) => !d.isCompleted

  /**
    `filterCompletedDeadlines(course:)`: despite its name, the pairs of the
    course's deadlines that are NOT completed, sorted by days to due.
  */
  method FilterCompletedDeadlines(c: Course, now: int) returns (r: seq<Entry>)
    ensures multiset(r) == multiset(Collect(c, DeadlinesOf(c), PENDING))
    ensures SortedBy(r, DaysOrder(now))
  {
    if c.deadlines.None? {
      return [];
    }
    var ds := c.deadlines.value;
    var filtered: seq<Entry> := [];
    for i := 0 to |ds|
      invariant filtered == Collect(c, ds[..i], PENDING)
    {
      assert ds[..i + 1][..i] == ds[..i];
      if !ds[i].isCompleted {
        filtered := filtered + [Entry(c, ds[i])];
      }
    }
    assert ds[..|ds|] == ds;
    DaysOrderIsTotalPreorder(now);
    r := Sort(filtered, DaysOrder(now));
  }

  /** Every actionable pair is also a pending one. */
  lemma ActionableArePending(c: Course, now: int, e: Entry)
    requires CostsDefined(c) && e in ActionableOf(c, now)
    ensures e in Collect(c, DeadlinesOf(c), PENDING)
  {
    ActionableOfExactly(c, now, e);
    CollectExactly(c, DeadlinesOf(c), PENDING, e);
  }

  // ---------------------------------------------------------------------------
  // sortCourseDeadlinesByDueDays
  // ---------------------------------------------------------------------------

  /**
    `sortCourseDeadlinesByDueDays`: the same pairs, fewer days to due first
    and, on equal days, in title order.
  */
  function SortByDaysThenTitle(entries: seq<Entry>, now: int): (r: seq<Entry>)
    ensures multiset(r) == multiset(entries)
    ensures forall i, j :: 0 <= i < j < |r| ==>
      Days(r[i], now) <= Days(r[j], now)
      && (Days(r[i], now) == Days(r[j], now) ==> LexLe(r[i].deadline.title, r[j].deadline.title))
  {
    DaysTitleOrderIsTotalPreorder(now);
    var r := Sort(entries, DaysTitleOrder(now));
    assert forall i, j :: 0 <= i < j < |r| ==> DaysTitleOrder(now)(r[i], r[j]);
    r
  }

  // ---------------------------------------------------------------------------
  // findDistinctDeadlineTypes
  // ---------------------------------------------------------------------------

  /** The categories of all deadlines of all courses. */
  function TypesOf(courses: seq<Course>): set<string> {
    set c, d | c in courses && d in DeadlinesOf(c) :: d.deadlineType
  }

  function TypesIn(ds: seq<Deadline>): set<string> {
    set d | d in ds :: d.deadlineType
  }

  lemma TypesOfSnoc(courses: seq<Course>, c: Course)
    ensures TypesOf(courses + [c]) == TypesOf(courses) + TypesIn(DeadlinesOf(c))
  {
    var s := courses + [c];
    forall t | t in TypesOf(s) ensures t in TypesOf(courses) + TypesIn(DeadlinesOf(c)) {
      var c', d :| c' in s && d in DeadlinesOf(c') && d.deadlineType == t;
    }
    forall t | t in TypesIn(DeadlinesOf(c)) ensures t in TypesOf(s) {
      var d :| d in DeadlinesOf(c) && d.deadlineType == t;
      assert c in s;
    }
  }

  lemma TypesInSnoc(ds: seq<Deadline>, d: Deadline)
    ensures TypesIn(ds + [d]) == TypesIn(ds) + {d.deadlineType}
  {
    var s := ds + [d];
    forall t | t in TypesIn(s) ensures t in TypesIn(ds) + {d.deadlineType} {
      var d' :| d' in s && d'.deadlineType == t;
    }
    assert d in s;
  }

  /**
    `findDistinctDeadlineTypes(courses:)`: every category used by some
    deadline of some course, each once, in no particular order.
  */
  method FindDistinctDeadlineTypes(courses: seq<Course>) returns (types: seq<string>)
    ensures forall t :: t in types <==> t in TypesOf(courses)
    ensures forall i, j :: 0 <= i < j < |types| ==> types[i] != types[j]
  {
    var distinct: set<string> := {};
    for i := 0 to |courses|
      invariant distinct == TypesOf(courses[..i])
    {
      assert courses[..i + 1] == courses[..i] + [courses[i]];
      TypesOfSnoc(courses[..i], courses[i]);
      if courses[i].deadlines.Some? {
        var ds := courses[i].deadlines.value;
        var seen := distinct;
        for j := 0 to |ds|
          invariant distinct == seen + TypesIn(ds[..j])
        {
          assert ds[..j + 1] == ds[..j] + [ds[j]];
          TypesInSnoc(ds[..j], ds[j]);
          distinct := distinct + {ds[j].deadlineType};
        }
        assert ds[..|ds|] == ds;
      } else {
        assert TypesIn(DeadlinesOf(courses[i])) == {};
      }
    }
    assert courses[..|courses|] == courses;
    types := Elements(distinct);
  }

  /** `Array(set)`: the elements of a set, each once, in some order. */
  method Elements(s: set<string>) returns (r: seq<string>)
    ensures forall t :: t in r <==> t in s
    ensures forall i, j :: 0 <= i < j < |r| ==> r[i] != r[j]
  {
    r := [];
    var rest := s;
    while rest != {}
      invariant rest <= s
      invariant forall t :: t in r <==> t in s && t !in rest
      invariant forall i, j :: 0 <= i < j < |r| ==> r[i] != r[j]
      decreases |rest|
    {
      var t :| t in rest;
      r := r + [t];
      rest := rest - {t};
    }
  }
}
