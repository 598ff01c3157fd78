/**
  Due dates and the day arithmetic done on them.

  A due date is stored in the canonical `MM/dd/yyyy HH:mm:ss` form or as the
  literal "Invalid Date"; `dueDateAsDate` turns the canonical form back into an
  instant. The model stores the instant itself (`At`, whole seconds since
  1970-01-01 00:00:00) or `InvalidDate`, so formatting then re-parsing is the
  identity by construction. Calendar, time-zone and daylight-saving rules are
  not modelled: a day is 86400 seconds.
*/
module Dates {
  import opened Wrappers

  const SECONDS_PER_DAY: int := 86400

  /** `Date.distantPast` (0001-01-01 00:00:00 UTC), in seconds since 1970. */
  const DISTANT_PAST: int := -62135596800

  datatype DueDate = At(instant: int) | InvalidDate

  /**
    One `DateFormatter` input pattern, abstracted as the partial parse it
    performs: `Some(instant)` when the text matches the pattern.
  */
  type DateFormat = string -> Option<int>

  /** The first pattern, in the given order, that accepts `raw`, or `InvalidDate`. */
  function FirstParse(raw: string, formats: seq<DateFormat>): DueDate
    decreases |formats|
  {
    if formats == [] then InvalidDate
    else match formats[0](raw)
      case Some(t) => At(t)
      case None => FirstParse(raw, formats[1..])
  }

  /** The first pattern that accepts the text decides the instant; later ones are not consulted. */
  lemma {:induction false} FirstSuccessWins(raw: string, formats: seq<DateFormat>, k: nat)
    requires k < |formats| && formats[k](raw).Some?
    requires forall j :: 0 <= j < k ==> formats[j](raw).None?
    ensures FirstParse(raw, formats) == At(formats[k](raw).value)
    decreases k
  {
    if k > 0 {
      FirstSuccessWins(raw, formats[1..], k - 1);
    }
  }

  /** The result is "Invalid Date" exactly when no pattern accepts the text. */
  lemma {:induction false} InvalidIffNoFormatParses(raw: string, formats: seq<DateFormat>)
    ensures FirstParse(raw, formats) == InvalidDate <==>
            forall k :: 0 <= k < |formats| ==> formats[k](raw).None?
    decreases |formats|
  {
    if formats != [] {
      InvalidIffNoFormatParses(raw, formats[1..]);
      if formats[0](raw).None? {
        assert forall k :: 1 <= k < |formats| ==> formats[k] == formats[1..][k - 1];
      }
    }
  }

  /**
    The due-date normalisation of the report parser: try each pattern in order
    and stop at the first that parses.
  */
  method NormalizeDueDate(raw: string, formats: seq<DateFormat>) returns (d: DueDate)
    ensures d == FirstParse(raw, formats)
  {
    var parsed: Option<int> := None;
    var i := 0;
    while i < |formats| && parsed.None?
      invariant 0 <= i <= |formats|
      invariant parsed.None? ==> FirstParse(raw, formats) == FirstParse(raw, formats[i..])
      invariant parsed.Some? ==> FirstParse(raw, formats) == At(parsed.value)
    {
      assert formats[i..][1..] == formats[i + 1..];
      parsed := formats[i](raw);
      i := i + 1;
    }
    d := if parsed.Some? then At(parsed.value) else InvalidDate;
  }

  /** Swift's `Int` division, which truncates toward zero. */
  function TruncDiv(a: int, b: int): (q: int)
    requires b != 0
    ensures a >= 0 && b > 0 ==> q == a / b
  {
    var q := Abs(a) / Abs(b);
    if (a < 0) != (b < 0) then -q else q
  }

  function Abs(x: int): int {
    if x < 0 then -x else x
  }

  /**
    `Calendar.dateComponents([.day], from: from, to: to).day`: the number of
    whole days between the two instants, truncated toward zero, so negative
    when `to` is in the past.
  */
  function DaysBetween(from: int, to: int): (d: int)
    ensures d >= 0 <==> to > from - SECONDS_PER_DAY
    ensures to >= from ==> d * SECONDS_PER_DAY <= to - from < (d + 1) * SECONDS_PER_DAY
    ensures to < from ==> -d * SECONDS_PER_DAY <= from - to < (-d + 1) * SECONDS_PER_DAY
  {
    if to >= from then (to - from) / SECONDS_PER_DAY
    else -((from - to) / SECONDS_PER_DAY)
  }

  /** A later due instant is never fewer days away. */
  lemma DaysBetweenMonotone(from: int, t1: int, t2: int)
    requires t1 <= t2
    ensures DaysBetween(from, t1) <= DaysBetween(from, t2)
  {
    if t2 < from {
      DivMonotone(from - t2, from - t1);
    } else if t1 >= from {
      DivMonotone(t1 - from, t2 - from);
    }
  }

  lemma DivMonotone(a: nat, b: nat)
    requires a <= b
    ensures a / SECONDS_PER_DAY <= b / SECONDS_PER_DAY
  {
  }

  /** An instant `k` whole days ahead (and less than `k + 1`) is `k` days away. */
  lemma DaysBetweenExact(from: int, to: int, k: nat)
    requires k * SECONDS_PER_DAY <= to - from < (k + 1) * SECONDS_PER_DAY
    ensures DaysBetween(from, to) == k
  {
  }

  /** An instant `k` whole days back (and less than `k + 1`) is `-k` days away. */
  lemma DaysBetweenPastExact(from: int, to: int, k: nat)
    requires k * SECONDS_PER_DAY <= from - to < (k + 1) * SECONDS_PER_DAY
    ensures DaysBetween(from, to) == -(k as int)
  {
  }
}
