/**
  The notification screen: which deadlines it lists and schedules reminders
  for, when each reminder fires, how the days left are shown, and the
  mark-as-done Save handler.
*/
module Notifications {
  import opened Wrappers
  import opened Text
  import opened Dates
  import opened Deadlines
  import opened Courses
  import opened Reconcile
  import opened Selection
  import opened AppModel

  // ---------------------------------------------------------------------------
  // scheduleNotification(for:daysLeft:)
  // ---------------------------------------------------------------------------

  /** The hour of day the reminder fires: early when the deadline is close. */
  function ReminderHour(daysLeft: int): (h: int)
    ensures h == 8 <==> daysLeft <= 2
    ensures h == 12 <==> 3 <= daysLeft <= 4
    ensures h == 17 <==> daysLeft > 4
  {
    if daysLeft <= 2 then 8
    else if daysLeft <= 4 then 12
    else 17
  }

  /** The closer the deadline, the earlier in the day the reminder comes. */
  lemma ReminderHourMonotone(a: int, b: int)
    requires a <= b
    ensures ReminderHour(a) <= ReminderHour(b)
  {
  }

  /** A calendar trigger matching one hour of every day (`repeats: true`). */
  datatype Trigger = DailyAt(hour: int)

  datatype Request = Request(identifier: string, title: string, body: string, trigger: Trigger)

  const REMINDER_TITLE := "Upcoming Deadline"

  /** The request `scheduleNotification` hands to the notification centre. */
  function RequestFor(d: Deadline, daysLeft: int): (r: Request)
    ensures r.identifier == Id(d) && r.title == REMINDER_TITLE
    ensures r.body == "Your deadline for " + d.title + " is approaching."
    ensures r.trigger == DailyAt(ReminderHour(daysLeft))
  {
    Request(Id(d), REMINDER_TITLE, "Your deadline for " + d.title + " is approaching.", DailyAt(ReminderHour(daysLeft)))
  }

  /**
    The body names the deadline's title; two deadlines with the same id
    replace each other's reminder whatever their other fields.
  */
  lemma RequestMentionsTitle(d: Deadline, daysLeft: int)
    ensures Contains(RequestFor(d, daysLeft).body, d.title)
  {
    var pre := "Your deadline for ";
    var body := RequestFor(d, daysLeft).body;
    assert body[|pre|..|pre| + |d.title|] == d.title;
    OccursAtContains(body, d.title, |pre|);
  }

  // ---------------------------------------------------------------------------
  // The row display
  // ---------------------------------------------------------------------------

  datatype Band = Red | Orange | Yellow | Green

  function Urgency(b: Band): nat {
    match b
    case Red => 3
    case Orange => 2
    case Yellow => 1
    case Green => 0
  }

  /** The row colour by days left. */
  function BandColor(daysLeft: int): (b: Band)
    ensures b == Red <==> daysLeft <= 1
    ensures b == Orange <==> 2 <= daysLeft <= 4
    ensures b == Yellow <==> 5 <= daysLeft <= 7
    ensures b == Green <==> daysLeft > 7
  {
    if daysLeft <= 1 then Red
    else if daysLeft <= 4 then Orange
    else if daysLeft <= 7 then Yellow
    else Green
  }

  /** Fewer days left never shows a calmer colour. */
  lemma BandMonotone(a: int, b: int)
    requires a <= b
    ensures Urgency(BandColor(a)) >= Urgency(BandColor(b))
  {
  }

  /** The big number: the days left without their sign. */
  function DisplayNumber(daysLeft: int): (n: nat)
    ensures n == daysLeft || n == -daysLeft
  {
    if daysLeft < 0 then -daysLeft else daysLeft
  }

  /** The caption under the number. */
  function DayLabel(daysLeft: int): (s: string)
    ensures s in {"day past due", "days past due"} <==> daysLeft < 0
    ensures s in {"day past due", "day left"} <==> DisplayNumber(daysLeft) == 1
    ensures s == "days left" <==> daysLeft >= 0 && daysLeft != 1
  {
    if daysLeft == -1 then "day past due"
    else if daysLeft == 1 then "day left"
    else if daysLeft < -1 then "days past due"
    else "days left"
  }

  /** The days left the row shows: 0 when the due date does not parse. */
  lemma ShownDaysOfUnparsable(d: Deadline, now: int)
    requires d.dueDate == InvalidDate
    ensures BandColor(DaysToDue(d, now)) == Red && DayLabel(DaysToDue(d, now)) == "days left"
  {
  }

  // ---------------------------------------------------------------------------
  // onAppear
  // ---------------------------------------------------------------------------

  /** The actionable pairs of every course, course by course. */
  function AllActionable(courses: seq<Course>, now: int): seq<Entry>
    requires forall c :: c in courses ==> CostsDefined(c)
    decreases |courses|
  {
    if courses == [] then []
    else AllActionable(courses[..|courses| - 1], now) + ActionableOf(courses[|courses| - 1], now)
  }

  /**
    A pair is listed exactly when it is an actionable deadline of one of the
    courses: every reminder is for work not yet done and due soon enough.
  */
  lemma {:induction false} AllActionableExactly(courses: seq<Course>, now: int, e: Entry)
    requires forall c :: c in courses ==> CostsDefined(c)
    ensures e in AllActionable(courses, now) <==>
      e.course in courses && e in ActionableOf(e.course, now)
    decreases |courses|
  {
    if courses != [] {
      var init := courses[..|courses| - 1];
      assert forall c :: c in init ==> c in courses;
      var last := courses[|courses| - 1];
      AllActionableExactly(init, now, e);
      ActionableOfExactly(last, now, e);
      assert courses == init + [last];
    }
  }

  /** Every listed pair is a pending deadline with a parsable due date. */
  lemma ListedArePending(courses: seq<Course>, now: int, e: Entry)
    requires forall c :: c in courses ==> CostsDefined(c)
    requires e in AllActionable(courses, now)
    ensures !e.deadline.isCompleted && e.deadline.dueDate.At? && e.deadline in DeadlinesOf(e.course)
  {
    AllActionableExactly(courses, now, e);
    ActionableOfExactly(e.course, now, e);
  }

  /**
    `onAppear`: the actionable pairs of all courses, in days-then-title order,
    and one daily reminder per pair, in that order.
  */
  method OnAppear(courses: seq<Course>, now: int) returns (shown: seq<Entry>, requests: seq<Request>)
    requires forall c :: c in courses ==> CostsDefined(c)
    ensures multiset(shown) == multiset(AllActionable(courses, now))
    ensures forall i, j :: 0 <= i < j < |shown| ==>
      Days(shown[i], now) <= Days(shown[j], now)
      && (Days(shown[i], now) == Days(shown[j], now) ==> LexLe(shown[i].deadline.title, shown[j].deadline.title))
    ensures |requests| == |shown|
    ensures forall i :: 0 <= i < |shown| ==> requests[i] == RequestFor(shown[i].deadline, Days(shown[i], now))
  {
    var filtered := GatherActionable(courses, now);
    shown := SortByDaysThenTitle(filtered, now);
    requests := Schedule(shown, now);
  }

  /** The loop over the courses, appending each course's `filterDeadlines`. */
  method GatherActionable(courses: seq<Course>, now: int) returns (filtered: seq<Entry>)
    requires forall c :: c in courses ==> CostsDefined(c)
    ensures multiset(filtered) == multiset(AllActionable(courses, now))
  {
    filtered := [];
    for i := 0 to |courses|
      invariant forall c :: c in courses[..i] ==> c in courses
      invariant multiset(filtered) == multiset(AllActionable(courses[..i], now))
    {
      assert courses[..i + 1][..i] == courses[..i];
      assert forall c :: c in courses[..i + 1] ==> c in courses;
      var courseFiltered := FilterDeadlines(courses[i], now);
      filtered := filtered + courseFiltered;
    }
    assert courses[..|courses|] == courses;
  }

  /** The scheduling loop: one request per shown pair, in order. */
  method Schedule(shown: seq<Entry>, now: int) returns (requests: seq<Request>)
    ensures |requests| == |shown|
    ensures forall i :: 0 <= i < |shown| ==> requests[i] == RequestFor(shown[i].deadline, Days(shown[i], now))
  {
    requests := [];
    for i := 0 to |shown|
      invariant |requests| == i
      invariant forall k :: 0 <= k < i ==> requests[k] == RequestFor(shown[k].deadline, Days(shown[k], now))
    {
      requests := requests + [RequestFor(shown[i].deadline, DaysToDue(shown[i].deadline, now))];
    }
  }

  // ---------------------------------------------------------------------------
  // The Save handler
  // ---------------------------------------------------------------------------

  /** `removeAll { $0.deadline.id == id }`. */
  function Without(shown: seq<Entry>, id: string): (r: seq<Entry>)
    ensures |r| <= |shown|
    ensures forall e :: e in r <==> e in shown && Id(e.deadline) != id
    decreases |shown|
  {
    if shown == [] then []
    else
      var rest := Without(shown[1..], id);
      assert forall e :: e in shown <==> e == shown[0] || e in shown[1..];
      if Id(shown[0].deadline) == id then rest else [shown[0]] + rest
  }

  /**
    The Save button: the selected pair's course is looked up by its
    composite key; when found, its deadline is marked done with the entered
    hours (0 when the text is not a number), the course list is updated in
    place, and the pair (by deadline id) leaves the shown list, which is
    re-sorted. Without a selection or a matching course nothing changes.
  */
  method SaveCompletion(md: ModelData, selected: Option<Entry>, perDay: Option<real>, total: Option<real>,
                        shown: seq<Entry>, now: int)
    returns (shown': seq<Entry>)
    requires md.Valid()
    modifies md
    ensures md.Valid() && md.courseNames == old(md.courseNames)
    ensures selected.None? || IndexOfCourse(old(md.courses), selected.value.course) == -1 ==>
      md.courses == old(md.courses) && shown' == shown
    ensures selected.Some? && IndexOfCourse(old(md.courses), selected.value.course) >= 0 ==>
      var k := IndexOfCourse(old(md.courses), selected.value.course);
      && |md.courses| == |old(md.courses)|
      && md.courses == old(md.courses)[k := md.courses[k]]
      && DeadlineUpdated(old(md.courses)[k], selected.value.deadline,
                         perDay.GetOr(0.0), total.GetOr(0.0), md.courses[k])
      && shown' == SortByDaysThenTitle(Without(shown, Id(selected.value.deadline)), now)
  {
    shown' := shown;
    if selected.Some? {
      var entry := selected.value;
      var index := IndexOfCourse(md.courses, entry.course);
      if 0 <= index < |md.courses| {
        var course := md.courses[index];
        course := UpdateDeadline(course, entry.deadline, perDay.GetOr(0.0), total.GetOr(0.0));
        md.courses := md.courses[index := course];
        shown' := Without(shown', Id(entry.deadline));
        shown' := SortByDaysThenTitle(shown', now);
      }
    }
  }

  /**
    After a Save the shown list no longer holds the completed deadline and
    holds nothing it did not hold before.
  */
  lemma SaveRemovesEntry(shown: seq<Entry>, id: string, now: int, e: Entry)
    ensures e in SortByDaysThenTitle(Without(shown, id), now) <==> e in shown && Id(e.deadline) != id
  {
    var r := SortByDaysThenTitle(Without(shown, id), now);
    assert e in r <==> e in multiset(r);
  }
}
