/**
  `CourseDeadline`: one gradable item of a course, its identity, its urgency
  and the field-update rule applied when a report is parsed again.
*/
module Deadlines {
  import opened Dates
  import opened Sorting

  /**
    Grades are the `Double` values parsed from the report, compared only for
    equality; hours are Swift `Int`s.
  */
  datatype Deadline = Deadline(
    link: string,
    dueDate: DueDate,
    maxGrade: real,
    title: string,
    roundedGrade: real,
    deadlineType: string,
    expectedTotalHrs: int,
    expectedHrsPerDay: int,
    actualTotalHrs: int,
    actualHrsPerDay: int,
    isCompleted: bool)

  /** `id`: title and link joined by an underscore (the notification identifier). */
  function Id(d: Deadline): (r: string)
    ensures |r| == |d.title| + 1 + |d.link|
    ensures r[..|d.title|] == d.title && r[|d.title|] == '_' && r[|d.title| + 1..] == d.link
  {
    d.title + "_" + d.link
  }

  /**
    The identifier does not determine the (title, link) pair: an underscore in
    either field lets two different deadlines share one identifier, so their
    reminders replace each other.
  */
  lemma IdCollides(d: Deadline, a: string, b: string, c: string)
    ensures Id(d.(title := a + "_" + b, link := c)) == Id(d.(title := a, link := b + "_" + c))
  {
    assert a + "_" + b + "_" + c == a + "_" + (b + "_" + c);
  }

  /** The dictionary key `link + title` used when merging a re-parsed report. */
  function Key(d: Deadline): string {
    d.link + d.title
  }

  /**
    The merge key is a plain concatenation, so moving characters between the
    end of the link and the start of the title keeps the key.
  */
  lemma KeyCollides(d: Deadline, a: string, b: string, c: string)
    ensures Key(d.(link := a + b, title := c)) == Key(d.(link := a, title := b + c))
  {
    assert a + b + c == a + (b + c);
  }

  /** `daysToDue`: whole days from `now` to the due date, 0 when the date does not parse. */
  function DaysToDue(d: Deadline, now: int): (r: int)
    ensures d.dueDate == InvalidDate ==> r == 0
    ensures d.dueDate.At? ==> r == DaysBetween(now, d.dueDate.instant)
  {
    match d.dueDate
    case At(t) => DaysBetween(now, t)
    case InvalidDate => 0
  }

  // ---------------------------------------------------------------------------
  // Due-date order used by Course.setDeadlines / addDeadline / updateDeadline
  // ---------------------------------------------------------------------------

  /** `dueDateAsDate ?? Date.distantPast`. */
  function SortInstant(d: Deadline): int {
    match d.dueDate
    case At(t) => t
    case InvalidDate => DISTANT_PAST
  }

  predicate DueLe(a: Deadline, b: Deadline) {
    SortInstant(a) <= SortInstant(b)
  }

  lemma DueLeIsTotalPreorder()
    ensures TotalPreorder(DueLe)
  {
  }

  /**
    In a list sorted by due date an unparsable date comes before every due
    date later than `Date.distantPast`: a parsed date that precedes an
    unparsable one can only be `distantPast` or earlier.
  */
  lemma UnparsableSortFirst(s: seq<Deadline>, i: nat, j: nat)
    requires SortedBy(s, DueLe)
    requires i < j < |s| && s[j].dueDate == InvalidDate && s[i].dueDate.At?
    ensures s[i].dueDate.instant <= DISTANT_PAST
  {
    assert DueLe(s[i], s[j]);
  }

  // ---------------------------------------------------------------------------
  // CourseDeadline.updateIfNecessary(with:)
  // ---------------------------------------------------------------------------

  /**
    Refreshes the parse-derived fields of `e` from the newly parsed `n` that
    has the same link and title. Only when both due dates parse does anything
    change: if the due date or either grade differs, due date, grades and
    expected hours are adopted; otherwise only the expected hours are.
    (`updateIfNecessary(with:)` has a second branch for "only the grades
    changed" whose condition is implied by the first; it can never run.)
  */
  function UpdateIfNecessary(e: Deadline, n: Deadline): (r: Deadline)
    ensures r.link == e.link && r.title == e.title && r.deadlineType == e.deadlineType
    ensures r.actualTotalHrs == e.actualTotalHrs && r.actualHrsPerDay == e.actualHrsPerDay
    ensures r.isCompleted == e.isCompleted
    ensures e.link != n.link || e.title != n.title ==> r == e
    ensures e.dueDate == InvalidDate || n.dueDate == InvalidDate ==> r == e
  {
    if e.link != n.link || e.title != n.title then e
    else if e.dueDate.At? && n.dueDate.At? then
      if n.dueDate.instant != e.dueDate.instant
         || e.roundedGrade != n.roundedGrade || e.maxGrade != n.maxGrade then
        e.(dueDate := n.dueDate, roundedGrade := n.roundedGrade, maxGrade := n.maxGrade,
           expectedTotalHrs := n.expectedTotalHrs, expectedHrsPerDay := n.expectedHrsPerDay)
      else if e.roundedGrade != n.roundedGrade || e.maxGrade != n.maxGrade then
        e.(roundedGrade := n.roundedGrade, maxGrade := n.maxGrade,
           expectedTotalHrs := n.expectedTotalHrs, expectedHrsPerDay := n.expectedHrsPerDay)
      else
        e.(expectedTotalHrs := n.expectedTotalHrs, expectedHrsPerDay := n.expectedHrsPerDay)
    else e
  }

  /** `updateIfNecessary(with:)` as the `mutating` method writes it, field by field. */
  method ApplyUpdate(e: Deadline, n: Deadline) returns (r: Deadline)
    ensures r == UpdateIfNecessary(e, n)
  {
    r := e;
    if r.link != n.link || r.title != n.title {
      return;
    }
    if r.dueDate.At? && n.dueDate.At? {
      if n.dueDate.instant != r.dueDate.instant || r.roundedGrade != n.roundedGrade || r.maxGrade != n.maxGrade {
        r := r.(dueDate := n.dueDate);
        r := r.(roundedGrade := n.roundedGrade);
        r := r.(maxGrade := n.maxGrade);
        r := r.(expectedTotalHrs := n.expectedTotalHrs);
        r := r.(expectedHrsPerDay := n.expectedHrsPerDay);
      } else if r.roundedGrade != n.roundedGrade || r.maxGrade != n.maxGrade {
        r := r.(roundedGrade := n.roundedGrade);
        r := r.(maxGrade := n.maxGrade);
        r := r.(expectedTotalHrs := n.expectedTotalHrs);
        r := r.(expectedHrsPerDay := n.expectedHrsPerDay);
      } else {
        r := r.(expectedTotalHrs := n.expectedTotalHrs);
        r := r.(expectedHrsPerDay := n.expectedHrsPerDay);
      }
    }
  }

  predicate SameItem(e: Deadline, n: Deadline) {
    e.link == n.link && e.title == n.title
  }

  /** A changed due date or grade is adopted together with the expected hours. */
  lemma UpdateAdoptsChanges(e: Deadline, n: Deadline)
    requires SameItem(e, n) && e.dueDate.At? && n.dueDate.At?
    requires e.dueDate != n.dueDate || e.roundedGrade != n.roundedGrade || e.maxGrade != n.maxGrade
    ensures UpdateIfNecessary(e, n)
         == e.(dueDate := n.dueDate, roundedGrade := n.roundedGrade, maxGrade := n.maxGrade,
               expectedTotalHrs := n.expectedTotalHrs, expectedHrsPerDay := n.expectedHrsPerDay)
  {
  }

  /** With no change detected, only the expected hours are refreshed. */
  lemma UpdateRefreshesHours(e: Deadline, n: Deadline)
    requires SameItem(e, n) && e.dueDate.At? && n.dueDate.At?
    requires e.dueDate == n.dueDate && e.roundedGrade == n.roundedGrade && e.maxGrade == n.maxGrade
    ensures UpdateIfNecessary(e, n)
         == e.(expectedTotalHrs := n.expectedTotalHrs, expectedHrsPerDay := n.expectedHrsPerDay)
  {
  }

  /**
    After an update, the fields the rule may touch agree with `n` whenever the
    rule applied (same item, both dates parse).
  */
  lemma UpdateAgreesWithNew(e: Deadline, n: Deadline)
    requires SameItem(e, n) && e.dueDate.At? && n.dueDate.At?
    ensures var r := UpdateIfNecessary(e, n);
      r.dueDate == n.dueDate && r.roundedGrade == n.roundedGrade && r.maxGrade == n.maxGrade
      && r.expectedTotalHrs == n.expectedTotalHrs && r.expectedHrsPerDay == n.expectedHrsPerDay
  {
  }

  /** Applying the rule twice with the same parsed record is the same as once. */
  lemma UpdateIdempotent(e: Deadline, n: Deadline)
    ensures UpdateIfNecessary(UpdateIfNecessary(e, n), n) == UpdateIfNecessary(e, n)
  {
  }

  /** A record updated with itself is unchanged. */
  lemma UpdateWithItself(n: Deadline)
    ensures UpdateIfNecessary(n, n) == n
  {
  }

  // ---------------------------------------------------------------------------
  // Actionability (the filter of ModelData.filterDeadlines)
  // ---------------------------------------------------------------------------

  /** `(total + perDay - 1) / perDay`, evaluated with Swift's truncating division. */
  function Threshold(total: int, perDay: int): int
    requires perDay != 0
  {
    TruncDiv(total + perDay - 1, perDay)
  }

  /**
    For a positive pace and a non-negative total the threshold is the number
    of days the work needs, ceil(total / perDay).
  */
  lemma ThresholdIsCeiling(total: int, perDay: int)
    requires perDay > 0 && total >= 0
    ensures (Threshold(total, perDay) - 1) * perDay < total <= Threshold(total, perDay) * perDay
  {
    var q := Threshold(total, perDay);
    var m := total + perDay - 1;
    assert q == m / perDay;
    assert m == q * perDay + m % perDay && 0 <= m % perDay < perDay;
    assert (q - 1) * perDay == q * perDay - perDay;
  }

  /** The division in the filter is defined: Swift traps on a zero pace. */
  predicate CanCost(d: Deadline) {
    !d.isCompleted && d.dueDate.At? ==> d.expectedHrsPerDay != 0
  }

  /**
    The filter of `filterDeadlines`: not completed, due date parses, and the
    days left do not exceed the days the work needs.
  */
  predicate IsActionable(d: Deadline, now: int)
    requires CanCost(d)
    ensures IsActionable(d, now) <==>
      !d.isCompleted && d.dueDate.At? && DaysToDue(d, now) <= Threshold(d.expectedTotalHrs, d.expectedHrsPerDay)
  {
    && !d.isCompleted
    && d.dueDate.At?
    && DaysBetween(now, d.dueDate.instant) <= Threshold(d.expectedTotalHrs, d.expectedHrsPerDay)
  }

  /**
    A homework-costed deadline (3 hours at 1 per day) is actionable when due
    in 3 days and not when due in 4.
  */
  lemma HomeworkThreshold(d: Deadline, now: int)
    requires !d.isCompleted && d.expectedTotalHrs == 3 && d.expectedHrsPerDay == 1
    ensures IsActionable(d.(dueDate := At(now + 3 * SECONDS_PER_DAY)), now)
    ensures !IsActionable(d.(dueDate := At(now + 4 * SECONDS_PER_DAY)), now)
  {
    DaysBetweenExact(now, now + 3 * SECONDS_PER_DAY, 3);
    DaysBetweenExact(now, now + 4 * SECONDS_PER_DAY, 4);
  }
}
