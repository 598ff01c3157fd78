/**
  `Course`: the header fields, the optional deadline list kept in due-date
  order, and the optional workload profile; with the `mutating` methods that
  rewrite the list.
*/
module Courses {
  import opened Wrappers
  import opened Dates
  import opened Sorting
  import opened Workload
  import opened Deadlines

  /** The `UUID` is modelled by a number chosen by the caller. */
  datatype Course = Course(
    id: nat,
    term: string,
    title: string,
    period: string,
    instructor: string,
    deadlines: Option<seq<Deadline>>,
    timeTaken: Option<TimeTaken>)

  /** A course's deadline list, with no list read as the empty one. */
  function DeadlinesOf(c: Course): seq<Deadline> {
    c.deadlines.GetOr([])
  }

  /** `r` is a permutation of `s` in due-date order (unparsable dates as `distantPast`). */
  ghost predicate DueOrdered(r: seq<Deadline>, s: seq<Deadline>) {
    multiset(r) == multiset(s) && SortedBy(r, DueLe)
  }

  /** `sorted { ($0.dueDateAsDate ?? .distantPast) < ($1.dueDateAsDate ?? .distantPast) }`. */
  function SortByDue(s: seq<Deadline>): (r: seq<Deadline>)
    ensures DueOrdered(r, s) && |r| == |s|
  {
    DueLeIsTotalPreorder();
    var r := Sort(s, DueLe);
    SortedLength(r, s);
    r
  }

  /** `setDeadlines`: the list is replaced by the given deadlines in due-date order. */
  method SetDeadlines(c: Course, ds: seq<Deadline>) returns (c': Course)
    ensures c'.deadlines.Some? && DueOrdered(c'.deadlines.value, ds)
    ensures c' == c.(deadlines := c'.deadlines)
  {
    c' := c.(deadlines := Some(SortByDue(ds)));
  }

  /**
    `addDeadline`: a course without a list gets the one-element list; otherwise
    the deadline is appended and the list re-sorted.
  */
  method AddDeadline(c: Course, d: Deadline) returns (c': Course)
    ensures c.deadlines.None? ==> c' == c.(deadlines := Some([d]))
    ensures c.deadlines.Some? ==> c'.deadlines.Some? && DueOrdered(c'.deadlines.value, c.deadlines.value + [d])
    ensures c' == c.(deadlines := c'.deadlines)
  {
    if c.deadlines.None? {
      c' := c.(deadlines := Some([d]));
    } else {
      var ds := c.deadlines.value + [d];
      c' := c.(deadlines := Some(SortByDue(ds)));
    }
  }

  /** The added deadline is in the list, and the list grew by one. */
  lemma AddDeadlineAdds(c: Course, d: Deadline, r: seq<Deadline>)
    requires c.deadlines.Some? && DueOrdered(r, c.deadlines.value + [d])
    ensures d in r && |r| == |c.deadlines.value| + 1
  {
    assert d in multiset(c.deadlines.value + [d]);
    SortedLength(r, c.deadlines.value + [d]);
  }

  /** Swift's `Int(_: Double)`: truncation toward zero. */
  function TruncReal(x: real): (n: int)
    ensures x >= 0.0 ==> n as real <= x < n as real + 1.0
    ensures x < 0.0 ==> n as real - 1.0 < x <= n as real
  {
    if x >= 0.0 then x.Floor else -((-x).Floor)
  }

  /** Same title and same link: the match `updateDeadline` looks for. */
  predicate Matches(d: Deadline, nd: Deadline) {
    d.title == nd.title && d.link == nd.link
  }

  /** `firstIndex(where:)` for that match: the first matching index, or -1. */
  function MatchIndex(ds: seq<Deadline>, nd: Deadline): (k: int)
    ensures -1 <= k < |ds|
    ensures k == -1 <==> forall j :: 0 <= j < |ds| ==> !Matches(ds[j], nd)
    ensures k >= 0 ==> Matches(ds[k], nd) && forall j :: 0 <= j < k ==> !Matches(ds[j], nd)
    decreases |ds|
  {
    if ds == [] then -1
    else if Matches(ds[0], nd) then 0
    else
      var k := MatchIndex(ds[1..], nd);
      if k == -1 then -1 else k + 1
  }

  /** The deadline after it is marked done with the entered hours. */
  function MarkDone(e: Deadline, nd: Deadline, perDay: real, total: real): (r: Deadline)
    ensures r.isCompleted && r.actualHrsPerDay == TruncReal(perDay) && r.actualTotalHrs == TruncReal(total)
    ensures r.link == e.link && r.title == e.title && r.deadlineType == e.deadlineType
    ensures r == UpdateIfNecessary(e, nd).(actualHrsPerDay := r.actualHrsPerDay,
                                          actualTotalHrs := r.actualTotalHrs, isCompleted := true)
  {
    UpdateIfNecessary(e, nd).(actualHrsPerDay := TruncReal(perDay), actualTotalHrs := TruncReal(total),
                              isCompleted := true)
  }

  /**
    The new state `updateDeadline` produces from `c`: unchanged without a list
    or without a matching deadline; otherwise the first match is refreshed,
    given the truncated hours and marked completed, and the list re-sorted.
  */
  ghost predicate DeadlineUpdated(c: Course, nd: Deadline, perDay: real, total: real, c': Course) {
    if c.deadlines.None? || MatchIndex(c.deadlines.value, nd) == -1 then c' == c
    else
      var ds := c.deadlines.value;
      var k := MatchIndex(ds, nd);
      && c' == c.(deadlines := c'.deadlines)
      && c'.deadlines.Some?
      && DueOrdered(c'.deadlines.value, ds[k := MarkDone(ds[k], nd, perDay, total)])
  }

  /** `updateDeadline(_:actualHrsPerDay:actualTotalHrs:)`. */
  method UpdateDeadline(c: Course, nd: Deadline, perDay: real, total: real) returns (c': Course)
    ensures DeadlineUpdated(c, nd, perDay, total, c')
  {
    if c.deadlines.None? {
      return c;
    }
    var ds := c.deadlines.value;
    var i := 0;
    while i < |ds| && !Matches(ds[i], nd)
      invariant 0 <= i <= |ds|
      invariant forall j :: 0 <= j < i ==> !Matches(ds[j], nd)
    {
      i := i + 1;
    }
    if i == |ds| {
      return c;
    }
    assert MatchIndex(ds, nd) == i;
    ds := ds[i := MarkDone(ds[i], nd, perDay, total)];
    c' := c.(deadlines := Some(SortByDue(ds)));
  }

  /**
    After a successful update the list has the same length and holds the
    matched deadline marked done; everything else in the course is unchanged.
  */
  lemma UpdateDeadlineMarksOne(c: Course, nd: Deadline, perDay: real, total: real, c': Course)
    requires DeadlineUpdated(c, nd, perDay, total, c')
    requires c.deadlines.Some? && MatchIndex(c.deadlines.value, nd) >= 0
    ensures c'.deadlines.Some? && |c'.deadlines.value| == |c.deadlines.value|
    ensures var ds := c.deadlines.value; var k := MatchIndex(ds, nd);
      MarkDone(ds[k], nd, perDay, total) in c'.deadlines.value
  {
    var ds := c.deadlines.value;
    var k := MatchIndex(ds, nd);
    var marked := ds[k := MarkDone(ds[k], nd, perDay, total)];
    SortedLength(c'.deadlines.value, marked);
    assert marked[k] in multiset(marked);
  }
}
