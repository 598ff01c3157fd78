/**
  Reconciling a freshly parsed course with the stored ones: the composite-key
  course lookup, the keyed merge of deadline lists (`updateDeadlines`) and the
  period-keyed upsert of the saved course list.
*/
module Reconcile {
  import opened Wrappers
  import opened Deadlines
  import opened Courses

  // ---------------------------------------------------------------------------
  // Course lookup
  // ---------------------------------------------------------------------------

  /** Equal term, title, period and instructor: the composite course key. */
  predicate SameCourse(a: Course, b: Course) {
    a.term == b.term && a.title == b.title && a.period == b.period && a.instructor == b.instructor
  }

  /** `indexOfCourse(in:newCourse:)`: the first index with the same composite key, or -1. */
  function IndexOfCourse(courses: seq<Course>, c: Course): (k: int)
    ensures -1 <= k < |courses|
    ensures k >= 0 ==> SameCourse(courses[k], c) && forall j :: 0 <= j < k ==> !SameCourse(courses[j], c)
    decreases |courses|
  {
    if courses == [] then -1
    else if SameCourse(courses[0], c) then 0
    else
      var k := IndexOfCourse(courses[1..], c);
      if k == -1 then -1 else k + 1
  }

  /** `isCourseInArray`: some stored course has the same composite key. */
  predicate IsCourseInArray(courses: seq<Course>, c: Course)
    ensures IsCourseInArray(courses, c) <==> exists j :: 0 <= j < |courses| && SameCourse(courses[j], c)
  {
    exists x :: x in courses && SameCourse(x, c)
  }

  /** The sentinel -1 is returned exactly when `isCourseInArray` is false. */
  lemma {:induction false} IndexOfCourseFound(courses: seq<Course>, c: Course)
    ensures IndexOfCourse(courses, c) == -1 <==> !IsCourseInArray(courses, c)
    decreases |courses|
  {
    if courses != [] && !SameCourse(courses[0], c) {
      IndexOfCourseFound(courses[1..], c);
      if IsCourseInArray(courses, c) {
        var j :| 0 <= j < |courses| && SameCourse(courses[j], c);
        assert SameCourse(courses[1..][j - 1], c);
      }
    }
  }

  // ---------------------------------------------------------------------------
  // The keyed merge of deadline lists
  // ---------------------------------------------------------------------------

  /** No two deadlines share the merge key `link + title`. */
  predicate KeysDistinct(s: seq<Deadline>) {
    forall i, j :: 0 <= i < j < |s| ==> Key(s[i]) != Key(s[j])
  }

  /** `Dictionary(uniqueKeysWithValues: s.map { ($0.link + $0.title, $0) })`. */
  function KeyMap(s: seq<Deadline>): (m: map<string, Deadline>)
    requires KeysDistinct(s)
    ensures forall k :: k in m ==> Key(m[k]) == k
  {
    map i | 0 <= i < |s| :: Key(s[i]) := s[i]
  }

  /** Every value of the map is stored under its own key. */
  ghost predicate KeyConsistent(m: map<string, Deadline>) {
    forall k :: k in m ==> Key(m[k]) == k
  }

  /** One iteration of the merge loop: update the entry with the same key, or insert. */
  function MergeOne(m: map<string, Deadline>, n: Deadline): map<string, Deadline> {
    var key := Key(n);
    if key in m then m[key := UpdateIfNecessary(m[key], n)] else m[key := n]
  }

  /** The merge loop over `incoming`, in order. */
  function MergeInto(m: map<string, Deadline>, incoming: seq<Deadline>): map<string, Deadline>
    decreases |incoming|
  {
    if incoming == [] then m
    else MergeOne(MergeInto(m, incoming[..|incoming| - 1]), incoming[|incoming| - 1])
  }

  /** The keys of a list of deadlines. */
  function Keys(s: seq<Deadline>): set<string> {
    set i | 0 <= i < |s| :: Key(s[i])
  }

  /** The merged keys are the current keys together with the incoming ones. */
  lemma {:induction false} MergeKeys(m: map<string, Deadline>, incoming: seq<Deadline>)
    ensures MergeInto(m, incoming).Keys == m.Keys + Keys(incoming)
    decreases |incoming|
  {
    if incoming != [] {
      var init := incoming[..|incoming| - 1];
      MergeKeys(m, init);
      assert Keys(incoming) == Keys(init) + {Key(incoming[|incoming| - 1])} by {
        assert forall i :: 0 <= i < |init| ==> init[i] == incoming[i];
      }
    }
  }

  /** The merge stores every value under its own key. */
  lemma {:induction false} MergeKeyConsistent(m: map<string, Deadline>, incoming: seq<Deadline>)
    requires KeyConsistent(m)
    ensures KeyConsistent(MergeInto(m, incoming))
    decreases |incoming|
  {
    if incoming != [] {
      MergeKeyConsistent(m, incoming[..|incoming| - 1]);
    }
  }

  /** Entries whose key no incoming deadline carries are left as they were. */
  lemma {:induction false} MergeKeepsUntouched(m: map<string, Deadline>, incoming: seq<Deadline>, k: string)
    requires k in m && k !in Keys(incoming)
    ensures k in MergeInto(m, incoming) && MergeInto(m, incoming)[k] == m[k]
    decreases |incoming|
  {
    if incoming != [] {
      var init := incoming[..|incoming| - 1];
      assert Keys(init) <= Keys(incoming) by {
        assert forall i :: 0 <= i < |init| ==> init[i] == incoming[i];
      }
      MergeKeepsUntouched(m, init, k);
    }
  }

  /** The position in `incoming` of the only deadline with key `k`. */
  ghost predicate OnlyAt(incoming: seq<Deadline>, k: string, i: int) {
    0 <= i < |incoming| && Key(incoming[i]) == k && forall j :: 0 <= j < |incoming| && j != i ==> Key(incoming[j]) != k
  }

  /**
    A current entry that exactly one incoming deadline matches becomes
    `updateIfNecessary` of the two.
  */
  lemma {:induction false} MergeUpdatesMatched(m: map<string, Deadline>, incoming: seq<Deadline>, k: string, i: int)
    requires k in m && OnlyAt(incoming, k, i)
    ensures k in MergeInto(m, incoming) && MergeInto(m, incoming)[k] == UpdateIfNecessary(m[k], incoming[i])
    decreases |incoming|
  {
    var init := incoming[..|incoming| - 1];
    if i == |incoming| - 1 {
      assert k !in Keys(init);
      MergeKeepsUntouched(m, init, k);
    } else {
      assert OnlyAt(init, k, i);
      MergeUpdatesMatched(m, init, k, i);
    }
  }

  /** A key incoming to the list that exactly one incoming deadline carries is inserted as given. */
  lemma {:induction false} MergeInsertsNew(m: map<string, Deadline>, incoming: seq<Deadline>, k: string, i: int)
    requires k !in m && OnlyAt(incoming, k, i)
    ensures k in MergeInto(m, incoming) && MergeInto(m, incoming)[k] == incoming[i]
    decreases |incoming|
  {
    var init := incoming[..|incoming| - 1];
    if i == |incoming| - 1 {
      MergeKeys(m, init);
      assert k !in Keys(init);
    } else {
      assert OnlyAt(init, k, i);
      MergeInsertsNew(m, init, k, i);
    }
  }

  /**
    The merge never undoes progress: for every current key, the identity,
    category, actual hours and completion flag of the entry survive.
  */
  lemma {:induction false} MergeKeepsProgress(m: map<string, Deadline>, incoming: seq<Deadline>, k: string)
    requires k in m
    ensures k in MergeInto(m, incoming)
    ensures var e, r := m[k], MergeInto(m, incoming)[k];
      r.link == e.link && r.title == e.title && r.deadlineType == e.deadlineType
      && r.actualTotalHrs == e.actualTotalHrs && r.actualHrsPerDay == e.actualHrsPerDay
      && r.isCompleted == e.isCompleted
    decreases |incoming|
  {
    if incoming != [] {
      MergeKeepsProgress(m, incoming[..|incoming| - 1], k);
    }
  }

  /**
    Merging the same deadlines a second time changes nothing (re-parsing an
    unchanged report is harmless), provided their keys are distinct.
  */
  lemma {:induction false} MergeIdempotent(m: map<string, Deadline>, incoming: seq<Deadline>)
    requires KeysDistinct(incoming)
    ensures MergeInto(MergeInto(m, incoming), incoming) == MergeInto(m, incoming)
  {
    var once := MergeInto(m, incoming);
    var twice := MergeInto(once, incoming);
    MergeKeys(m, incoming);
    MergeKeys(once, incoming);
    forall k | k in twice
      ensures twice[k] == once[k]
    {
      if k in Keys(incoming) {
        var i :| 0 <= i < |incoming| && Key(incoming[i]) == k;
        assert OnlyAt(incoming, k, i);
        MergeUpdatesMatched(once, incoming, k, i);
        if k in m {
          MergeUpdatesMatched(m, incoming, k, i);
          UpdateIdempotent(m[k], incoming[i]);
        } else {
          MergeInsertsNew(m, incoming, k, i);
          UpdateWithItself(incoming[i]);
        }
      } else {
        MergeKeepsUntouched(once, incoming, k);
      }
    }
  }

  /** Merging a list with distinct keys into the empty dictionary gives its key map. */
  lemma {:induction false} MergeFromEmpty(s: seq<Deadline>)
    requires KeysDistinct(s)
    ensures MergeInto(map[], s) == KeyMap(s)
    decreases |s|
  {
    if s != [] {
      var init, last := s[..|s| - 1], s[|s| - 1];
      assert KeysDistinct(init);
      MergeFromEmpty(init);
      KeyMapKeys(init);
      assert Key(last) !in Keys(init);
      assert s == init + [last];
      KeyMapSnoc(init, last);
    }
  }

  /**
    Two lists with distinct keys and the same key map hold the same
    deadlines, each once: they differ at most in order.
  */
  lemma KeyMapDeterminesMultiset(a: seq<Deadline>, b: seq<Deadline>)
    requires KeysDistinct(a) && KeysDistinct(b) && KeyMap(a) == KeyMap(b)
    ensures multiset(a) == multiset(b)
  {
    forall x ensures multiset(a)[x] == multiset(b)[x] {
      DistinctKeysOnce(a, x);
      DistinctKeysOnce(b, x);
      InKeyMap(a, b, x);
      InKeyMap(b, a, x);
    }
  }

  /** A deadline of `a` is a deadline of any list with the same key map. */
  lemma InKeyMap(a: seq<Deadline>, b: seq<Deadline>, x: Deadline)
    requires KeysDistinct(a) && KeysDistinct(b) && KeyMap(a) == KeyMap(b)
    ensures x in a ==> x in b
  {
    if x in a {
      var i :| 0 <= i < |a| && a[i] == x;
      KeyMapAt(a, i);
      var j :| 0 <= j < |b| && Key(b[j]) == Key(x);
      KeyMapAt(b, j);
    }
  }

  /** Appending a deadline with a fresh key adds one entry to the key map. */
  lemma {:induction false} KeyMapSnoc(r: seq<Deadline>, v: Deadline)
    requires KeysDistinct(r) && Key(v) !in Keys(r)
    ensures KeysDistinct(r + [v])
    ensures KeyMap(r + [v]) == KeyMap(r)[Key(v) := v]
  {
    var s := r + [v];
    assert forall i :: 0 <= i < |r| ==> s[i] == r[i];
    assert KeysDistinct(s) by {
      forall i, j | 0 <= i < j < |s| ensures Key(s[i]) != Key(s[j]) {
        if j == |r| {
          assert Key(s[i]) in Keys(r);
        }
      }
    }
    var m := KeyMap(r)[Key(v) := v];
    forall k | k in KeyMap(s) ensures k in m && KeyMap(s)[k] == m[k] {
      var i :| 0 <= i < |s| && Key(s[i]) == k;
      KeyMapAt(s, i);
      if i < |r| {
        KeyMapAt(r, i);
        assert k in Keys(r);
      }
    }
    forall k | k in m ensures k in KeyMap(s) {
      if k == Key(v) {
        KeyMapAt(s, |r|);
      } else {
        var i :| 0 <= i < |r| && Key(r[i]) == k;
        KeyMapAt(s, i);
      }
    }
  }

  /**
    `updateDeadlines(current:incoming:)`: the current list as a dictionary keyed by
    `link + title`, each incoming deadline merged in turn, and the dictionary's
    values as the result (in no particular order). The dictionary
    construction traps on a repeated key, hence the precondition.
  */
  method UpdateDeadlines(current: seq<Deadline>, incoming: seq<Deadline>) returns (r: seq<Deadline>)
    requires KeysDistinct(current)
    ensures KeysDistinct(r)
    ensures KeyMap(r) == MergeInto(KeyMap(current), incoming)
  {
    var dict := KeyMap(current);
    var i := 0;
    while i < |incoming|
      invariant 0 <= i <= |incoming|
      invariant dict == MergeInto(KeyMap(current), incoming[..i])
    {
      assert incoming[..i + 1][..i] == incoming[..i];
      dict := MergeOne(dict, incoming[i]);
      i := i + 1;
    }
    assert incoming[..i] == incoming;
    MergeKeyConsistent(KeyMap(current), incoming);
    r := Values(dict);
  }

  /** `Array(dict.values)`, for a dictionary that stores each value under its own key. */
  method Values(dict: map<string, Deadline>) returns (r: seq<Deadline>)
    requires KeyConsistent(dict)
    ensures KeysDistinct(r) && KeyMap(r) == dict
  {
    r := [];
    var rest := dict;
    while rest != map[]
      invariant KeysDistinct(r) && rest.Keys <= dict.Keys
      invariant Keys(r) !! rest.Keys
      invariant KeyMap(r) + rest == dict
      decreases |rest.Keys|
    {
      var k :| k in rest.Keys;
      ValuesStep(dict, r, rest, k);
      r := r + [rest[k]];
      rest := rest - {k};
    }
    assert rest == map[];
    UnionEmpty(KeyMap(r));
  }

  /** Nothing is left to add once the remainder is empty. */
  lemma UnionEmpty(m: map<string, Deadline>)
    ensures m + map[] == m
  {
  }

  /** One iteration of `Values`: the entry under `k` moves from `rest` to the end of `r`. */
  lemma {:induction false} ValuesStep(dict: map<string, Deadline>, r: seq<Deadline>,
                                      rest: map<string, Deadline>, k: string)
    requires KeyConsistent(dict) && k in rest
    requires KeysDistinct(r) && rest.Keys <= dict.Keys
    requires Keys(r) !! rest.Keys
    requires KeyMap(r) + rest == dict
    ensures KeysDistinct(r + [rest[k]]) && (rest - {k}).Keys <= dict.Keys
    ensures Keys(r + [rest[k]]) !! (rest - {k}).Keys
    ensures KeyMap(r + [rest[k]]) + (rest - {k}) == dict
    ensures |(rest - {k}).Keys| < |rest.Keys|
  {
    var v := rest[k];
    KeyMapKeys(r);
    KeyMapSnoc(r, v);
    TakeOne(KeyMap(r), rest, k);
    KeyMapKeys(r + [v]);
  }

  /** Moving one entry from the remainder to the collected part keeps their union. */
  lemma TakeOne(done: map<string, Deadline>, rest: map<string, Deadline>, k: string)
    requires k in rest && done.Keys !! rest.Keys
    ensures done[k := rest[k]] + (rest - {k}) == done + rest
    ensures done[k := rest[k]].Keys !! (rest - {k}).Keys
  {
  }

  lemma {:induction false} KeyMapKeys(r: seq<Deadline>)
    requires KeysDistinct(r)
    ensures KeyMap(r).Keys == Keys(r)
  {
  }

  // ---------------------------------------------------------------------------
  // Lists that are permutations of each other
  // ---------------------------------------------------------------------------

  /** With distinct keys no deadline occurs twice. */
  lemma {:induction false} DistinctKeysOnce(s: seq<Deadline>, x: Deadline)
    requires KeysDistinct(s)
    ensures multiset(s)[x] <= 1
    decreases |s|
  {
    if s != [] {
      var init := s[..|s| - 1];
      assert s == init + [s[|s| - 1]];
      assert KeysDistinct(init);
      DistinctKeysOnce(init, x);
      assert x == s[|s| - 1] ==> x !in init;
    }
  }

  /** An element at two different positions occurs at least twice. */
  lemma TwiceCounted(s: seq<Deadline>, i: int, j: int)
    requires 0 <= i < j < |s| && s[i] == s[j]
    ensures multiset(s)[s[i]] >= 2
  {
    assert s == s[..j] + [s[j]] + s[j + 1..];
    assert s[i] in s[..j];
  }

  /**
    Re-ordering a list with distinct keys (as `setDeadlines` does after the
    merge) keeps the keys distinct and the key map the same.
  */
  lemma {:induction false} PermutationKeepsKeyMap(r: seq<Deadline>, s: seq<Deadline>)
    requires KeysDistinct(s) && multiset(r) == multiset(s)
    ensures KeysDistinct(r) && KeyMap(r) == KeyMap(s)
  {
    PermutationKeepsKeysDistinct(r, s);
    forall k | k in KeyMap(r) ensures k in KeyMap(s) && KeyMap(r)[k] == KeyMap(s)[k] {
      var i :| 0 <= i < |r| && Key(r[i]) == k;
      KeyMapAt(r, i);
      assert r[i] in multiset(s);
      var a :| 0 <= a < |s| && s[a] == r[i];
      KeyMapAt(s, a);
    }
    forall k | k in KeyMap(s) ensures k in KeyMap(r) {
      var a :| 0 <= a < |s| && Key(s[a]) == k;
      assert s[a] in multiset(r);
      var i :| 0 <= i < |r| && r[i] == s[a];
      KeyMapAt(r, i);
    }
  }

  /** Each element of a list with distinct keys is stored under its own key. */
  lemma KeyMapAt(s: seq<Deadline>, i: int)
    requires KeysDistinct(s) && 0 <= i < |s|
    ensures Key(s[i]) in KeyMap(s) && KeyMap(s)[Key(s[i])] == s[i]
  {
  }

  /** The first half of `PermutationKeepsKeyMap`: the keys stay distinct. */
  lemma {:induction false} PermutationKeepsKeysDistinct(r: seq<Deadline>, s: seq<Deadline>)
    requires KeysDistinct(s) && multiset(r) == multiset(s)
    ensures KeysDistinct(r)
  {
    forall i, j | 0 <= i < j < |r| ensures Key(r[i]) != Key(r[j]) {
      if Key(r[i]) == Key(r[j]) {
        assert r[i] in multiset(s) && r[j] in multiset(s);
        var a :| 0 <= a < |s| && s[a] == r[i];
        var b :| 0 <= b < |s| && s[b] == r[j];
        if a < b {
        } else if b < a {
        } else {
          TwiceCounted(r, i, j);
          DistinctKeysOnce(s, r[i]);
        }
      }
    }
  }

  // ---------------------------------------------------------------------------
  // The period-keyed upsert of the saved course list
  // ---------------------------------------------------------------------------

  /** The first stored course with the given period, or -1. */
  function PeriodIndex(stored: seq<Course>, period: string): (k: int)
    ensures -1 <= k < |stored|
    ensures k == -1 <==> forall j :: 0 <= j < |stored| ==> stored[j].period != period
    ensures k >= 0 ==> stored[k].period == period && forall j :: 0 <= j < k ==> stored[j].period != period
    decreases |stored|
  {
    if stored == [] then -1
    else if stored[0].period == period then 0
    else
      var k := PeriodIndex(stored[1..], period);
      if k == -1 then -1 else k + 1
  }

  /**
    The saved list after writing `c`: the first stored course with the same
    period takes all of `c`'s fields but keeps its own id; without one, `c` is
    appended.
  */
  function Upsert(stored: seq<Course>, c: Course): (w: seq<Course>)
    ensures PeriodIndex(stored, c.period) == -1 ==>
      |w| == |stored| + 1 && w[..|stored|] == stored && w[|stored|] == c
    ensures PeriodIndex(stored, c.period) != -1 ==>
      var k := PeriodIndex(stored, c.period);
      |w| == |stored| && w[k] == c.(id := stored[k].id)
      && forall j :: 0 <= j < |w| && j != k ==> w[j] == stored[j]
  {
    var k := PeriodIndex(stored, c.period);
    if k == -1 then stored + [c]
    else stored[k := c.(id := stored[k].id)]
  }

  /** `appendCoursesToDocumentDirectory`, on the decoded list. */
  method AppendCourse(stored: seq<Course>, c: Course) returns (written: seq<Course>)
    ensures written == Upsert(stored, c)
  {
    var i := 0;
    while i < |stored| && stored[i].period != c.period
      invariant 0 <= i <= |stored|
      invariant forall j :: 0 <= j < i ==> stored[j].period != c.period
    {
      i := i + 1;
    }
    if i < |stored| {
      assert PeriodIndex(stored, c.period) == i;
      var entry := stored[i];
      entry := entry.(period := c.period, title := c.title, term := c.term, instructor := c.instructor);
      entry := entry.(deadlines := c.deadlines, timeTaken := c.timeTaken);
      written := stored[i := entry];
    } else {
      written := stored + [c];
    }
  }

  /** Every id of the list survives the upsert. */
  lemma UpsertKeepsIds(stored: seq<Course>, c: Course)
    ensures forall j :: 0 <= j < |stored| ==> Upsert(stored, c)[j].id == stored[j].id
  {
  }

  /** Writing the same course twice is the same as writing it once. */
  lemma UpsertIdempotent(stored: seq<Course>, c: Course)
    ensures Upsert(Upsert(stored, c), c) == Upsert(stored, c)
  {
    var w := Upsert(stored, c);
    var k := PeriodIndex(stored, c.period);
    if k == -1 {
      assert forall j :: 0 <= j < |stored| ==> w[j] == stored[j];
      assert w[|stored|].period == c.period;
      assert PeriodIndex(w, c.period) == |stored|;
    } else {
      assert forall j :: 0 <= j < k ==> w[j] == stored[j];
      assert w[k].period == c.period;
      assert PeriodIndex(w, c.period) == k;
    }
  }

  /**
    Writing a second version of a course (same period, same id) over the
    first gives the list the second write alone would give.
  */
  lemma UpsertOverwrites(stored: seq<Course>, c1: Course, c2: Course)
    requires c1.period == c2.period && c1.id == c2.id
    ensures Upsert(Upsert(stored, c1), c2) == Upsert(stored, c2)
  {
    var w := Upsert(stored, c1);
    var k := PeriodIndex(stored, c1.period);
    if k == -1 {
      assert forall j :: 0 <= j < |stored| ==> w[j] == stored[j];
      assert PeriodIndex(w, c2.period) == |stored|;
    } else {
      assert forall j :: 0 <= j < k ==> w[j] == stored[j];
      assert PeriodIndex(w, c2.period) == k;
    }
  }

  /** Periods that are distinct in the stored list stay distinct. */
  ghost predicate PeriodsDistinct(s: seq<Course>) {
    forall i, j :: 0 <= i < j < |s| ==> s[i].period != s[j].period
  }

  lemma UpsertKeepsPeriodsDistinct(stored: seq<Course>, c: Course)
    requires PeriodsDistinct(stored)
    ensures PeriodsDistinct(Upsert(stored, c))
  {
  }
}
