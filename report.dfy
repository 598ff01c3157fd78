/**
  Extraction of a course and its deadlines from a grade-report page
  (`parseHTMLAndSaveToDocumentDirectory`, the part before reconciliation).

  The page is given already reduced to what the parser reads from it: the
  text of its `<title>` element and its table rows, in document order, each
  with its class set and the texts of the spans the parser selects. Number
  parsing (`Double(_:)`) and the date patterns are parameters.
*/
module Report {
  import opened Wrappers
  import opened Text
  import opened Dates
  import opened Workload
  import opened Classifier
  import opened Deadlines

  /** A `span.title` element: its text and the text of its first `<a>`, if any. */
  datatype TitleSpan = TitleSpan(text: string, firstAnchor: Option<string>)

  /** One `<tr>` of the report. */
  datatype Row = Row(
    classes: set<string>,
    titleSpan: Option<TitleSpan>,
    dueText: Option<string>,      // span.due-date
    roundedText: Option<string>,  // span.rounded-grade span.awarded-grade
    maxText: Option<string>)      // span.max-grade

  datatype Page = Page(titleText: Option<string>, rows: seq<Row>)

  /**
    The parsers the extraction depends on: the due-date patterns, tried in
    order ("M/dd/yy h:mma", "MM/dd/yy h:mma", "MM/dd/yy", "M/dd/yy"), and
    `Double(_:)`.
  */
  datatype Parsers = Parsers(dateFormats: seq<DateFormat>, number: string -> Option<real>)

  /** The four header fields of a course. */
  datatype Header = Header(term: string, title: string, period: string, instructor: string)

  const EMPTY_HEADER: Header := Header("", "", "", "")

  // ---------------------------------------------------------------------------
  // Course header
  // ---------------------------------------------------------------------------

  /**
    The header read from the `<title>` text "T: I P Term ...": the part before
    the first ": " is the title, and the first three single-space pieces of the
    part after it are the instructor, the period and the term. A page without a
    title, without ": ", or with fewer than three pieces keeps the empty header.
  */
  function ParseHeader(titleText: Option<string>): (h: Header)
    ensures titleText.None? ==> h == EMPTY_HEADER
    ensures titleText.Some? && |Components(titleText.value, ": ")| < 2 ==> h == EMPTY_HEADER
    ensures (titleText.Some? && |Components(titleText.value, ": ")| >= 2
             && |Components(Components(titleText.value, ": ")[1], " ")| < 3) ==> h == EMPTY_HEADER
  {
    match titleText
    case None => EMPTY_HEADER
    case Some(full) =>
      var parts := Components(full, ": ");
      if |parts| >= 2 then
        var info := Components(parts[1], " ");
        if |info| >= 3 then
          Header(Components(info[2], " |")[0], parts[0], info[1], info[0])
        else EMPTY_HEADER
      else EMPTY_HEADER
  }

  /**
    A title of the form "T: I P Term" optionally followed by a space and more
    text yields exactly those four fields.
  */
  lemma ParseHeaderWellFormed(t: string, i: string, p: string, term: string, tail: string)
    requires ':' !in t && ':' !in i && ':' !in p && ':' !in term && ':' !in tail
    requires ' ' !in i && ' ' !in p && ' ' !in term
    requires tail == [] || tail[0] == ' '
    ensures ParseHeader(Some(t + ": " + i + " " + p + " " + term + tail)) == Header(term, t, p, i)
  {
    var rest := i + " " + p + " " + term + tail;
    assert t + ": " + i + " " + p + " " + term + tail == t + ": " + rest;
    TitleParts(t, rest);
    var info := InfoPieces(i, p, term, tail);
    ComponentsNoSeparator(term, " |");
  }

  /** The text before the first ": " and the text after it, when the latter has no colon. */
  lemma TitleParts(t: string, rest: string)
    requires ':' !in t && ':' !in rest
    ensures Components(t + ": " + rest, ": ") == [t, rest]
  {
    ComponentsAtSeparator(t, rest, ": ");
    ComponentsNoSeparator(rest, ": ");
  }

  /** The first three single-space pieces of "I P Term tail". */
  lemma InfoPieces(i: string, p: string, term: string, tail: string) returns (info: seq<string>)
    requires ' ' !in i && ' ' !in p && ' ' !in term
    requires tail == [] || tail[0] == ' '
    ensures info == Components(i + " " + p + " " + term + tail, " ")
    ensures |info| >= 3 && info[0] == i && info[1] == p && info[2] == term
  {
    assert i + " " + p + " " + term + tail == i + " " + (p + " " + (term + tail));
    ComponentsAtSeparator(i, p + " " + (term + tail), " ");
    ComponentsAtSeparator(p, term + tail, " ");
    var c := TermPiece(term, tail);
    info := Components(i + " " + p + " " + term + tail, " ");
    assert info == [i, p] + c;
  }

  lemma TermPiece(term: string, tail: string) returns (c: seq<string>)
    requires ' ' !in term
    requires tail == [] || tail[0] == ' '
    ensures c == Components(term + tail, " ") && c[0] == term
  {
    c := Components(term + tail, " ");
    if tail == [] {
      assert term + tail == term;
      ComponentsNoSeparator(term, " ");
    } else {
      assert term + tail == term + " " + tail[1..];
      ComponentsAtSeparator(term, tail[1..], " ");
    }
  }

  // ---------------------------------------------------------------------------
  // One item row
  // ---------------------------------------------------------------------------

  /** `tr.report-row.category-row.has-children`: a category that starts a section. */
  predicate IsCategoryHead(r: Row) {
    "report-row" in r.classes && "category-row" in r.classes && "has-children" in r.classes
  }

  predicate IsCategoryRow(r: Row) {
    "category-row" in r.classes
  }

  /** The item-row test, with the three disjuncts `parseHTMLAndSaveToDocumentDirectory` writes. */
  predicate IsItemRow(r: Row) {
    || ("item-row" in r.classes && "is-grade-column" in r.classes)
    || "item-row" in r.classes
    || ("item-row" in r.classes && "last-row-of-tier" in r.classes)
  }

  /** The item-row test amounts to carrying the `item-row` class. */
  lemma IsItemRowIsItemClass(r: Row)
    ensures IsItemRow(r) <==> "item-row" in r.classes
  {
  }

  /** An item row the parser turns into a deadline. */
  predicate IsParsedItem(r: Row) {
    IsItemRow(r) && r.titleSpan.Some?
  }

  /**
    A grade: the span text (or "" when absent) with every `strip` removed and
    surrounding blanks trimmed, read as a number, 0 when that fails.
  */
  function GradeValue(text: Option<string>, strip: string, number: string -> Option<real>): (g: real)
    requires |strip| > 0
    ensures number(Trim(RemoveAll(text.GetOr(""), strip))).None? ==> g == 0.0
    ensures number(Trim(RemoveAll(text.GetOr(""), strip))).Some? ==>
            g == number(Trim(RemoveAll(text.GetOr(""), strip))).value
    ensures text.None? && number("").None? ==> g == 0.0
  {
    number(Trim(RemoveAll(text.GetOr(""), strip))).GetOr(0.0)
  }

  /** The due-date text: the span text, or "", with every "Due " removed. */
  function DueText(r: Row): string {
    RemoveAll(r.dueText.GetOr(""), "Due ")
  }

  /** The classification phrase: the last space-separated word of the link text. */
  function Phrase(link: string): string {
    LastToken(link)
  }

  /**
    The deadline built from an item row: the title is the title-span text
    without its last word, the link is the first anchor's text, the category
    comes from the last word of the link, and the expected hours from the
    default workload profile (homework hours when the category is not one of
    the five).
  */
  function RowDeadline(r: Row, p: Parsers): (d: Deadline)
    requires r.titleSpan.Some?
    ensures d.title == DropLastToken(r.titleSpan.value.text)
    ensures d.link == r.titleSpan.value.firstAnchor.GetOr("")
    ensures d.dueDate == FirstParse(DueText(r), p.dateFormats)
    ensures d.roundedGrade == GradeValue(r.roundedText, "%", p.number)
    ensures d.maxGrade == GradeValue(r.maxText, "/", p.number)
    ensures d.deadlineType == Classify(Phrase(d.link))
    ensures (d.expectedTotalHrs, d.expectedHrsPerDay) == ExpectedHours(d.deadlineType, DefaultTimeTaken())
    ensures d.actualTotalHrs == 0 && d.actualHrsPerDay == 0 && !d.isCompleted
  {
    var ts := r.titleSpan.value;
    var link := ts.firstAnchor.GetOr("");
    var category := Classify(Phrase(link));
    var hours := ExpectedHours(category, DefaultTimeTaken());
    Deadline(
      link := link,
      dueDate := FirstParse(DueText(r), p.dateFormats),
      maxGrade := GradeValue(r.maxText, "/", p.number),
      title := DropLastToken(ts.text),
      roundedGrade := GradeValue(r.roundedText, "%", p.number),
      deadlineType := category,
      expectedTotalHrs := hours.0,
      expectedHrsPerDay := hours.1,
      actualTotalHrs := 0,
      actualHrsPerDay := 0,
      isCompleted := false)
  }

  /** The body of the row loop: the same deadline, with the date patterns tried one by one. */
  method ExtractRow(r: Row, p: Parsers) returns (d: Deadline)
    requires r.titleSpan.Some?
    ensures d == RowDeadline(r, p)
  {
    var ts := r.titleSpan.value;
    var title := DropLastToken(ts.text);
    var link := ts.firstAnchor.GetOr("");
    var due := DueText(r);
    var rounded := GradeValue(r.roundedText, "%", p.number);
    var maxGrade := GradeValue(r.maxText, "/", p.number);
    var category := Classify(Phrase(link));
    var dueDate := NormalizeDueDate(due, p.dateFormats);
    var hours := ExpectedHours(category, DefaultTimeTaken());
    d := Deadline(link, dueDate, maxGrade, title, rounded, category, 0, 0, 0, 0, false);
    d := d.(expectedTotalHrs := hours.0, expectedHrsPerDay := hours.1);
  }

  /** One step of the sibling loop: a parsed item row yields its deadline, any other row nothing. */
  method ExtractItem(r: Row, p: Parsers) returns (item: seq<Deadline>)
    ensures item == Item(p)(r)
  {
    if IsParsedItem(r) {
      var d := ExtractRow(r, p);
      item := [d];
    } else {
      item := [];
    }
  }

  /**
    The row strings for a title span "w1 ... wn score" whose link is
    "l1 ... lm": the title is "w1 ... wn" and the category is read from lm.
  */
  lemma RowStrings(r: Row, p: Parsers, ws: seq<string>, score: string, ls: seq<string>, lw: string)
    requires forall k :: 0 <= k < |ws| ==> IsWord(ws[k])
    requires forall k :: 0 <= k < |ls| ==> IsWord(ls[k])
    requires IsWord(score) && IsWord(lw)
    requires r.titleSpan == Some(TitleSpan(Join(ws + [score], " "), Some(Join(ls + [lw], " "))))
    ensures RowDeadline(r, p).title == Join(ws, " ")
    ensures RowDeadline(r, p).deadlineType == Classify(lw)
  {
    LastTokenOfJoinedWords(ws, score);
    LastTokenOfJoinedWords(ls, lw);
  }

  /** A missing anchor gives an empty link, hence no category and homework hours. */
  lemma RowWithoutAnchor(r: Row, p: Parsers)
    requires r.titleSpan.Some? && r.titleSpan.value.firstAnchor.None?
    ensures RowDeadline(r, p).link == ""
    ensures RowDeadline(r, p).deadlineType == ""
    ensures (RowDeadline(r, p).expectedTotalHrs, RowDeadline(r, p).expectedHrsPerDay) == (3, 1)
  {
    var d := RowDeadline(r, p);
    TokensOfJoinedWords([]);
    assert Phrase(d.link) == "";
    ClassifyEmpty();
    assert d.deadlineType == "";
    ExpectedHoursOfEmpty(DefaultTimeTaken());
  }

  /** "Due " is removed wherever it occurs, not only as a prefix. */
  lemma DueRemovedInside(r: Row, a: string, b: string)
    requires 'D' !in a && r.dueText == Some(a + "Due " + b)
    ensures DueText(r) == a + RemoveAll(b, "Due ")
  {
    RemoveAllInside(a, b, "Due ");
  }

  // ---------------------------------------------------------------------------
  // The walk over the rows
  // ---------------------------------------------------------------------------

  /**
    The walk is stated for any per-row extraction `item` (zero or one result
    per row); the parser's is `Item(p)`.
  */
  function Item(p: Parsers): Row -> seq<Deadline> {
    r => if IsParsedItem(r) then [RowDeadline(r, p)] else []
  }

  /** The results of the rows from index `j` up to the next category row. */
  function Section<T>(rows: seq<Row>, j: nat, item: Row -> seq<T>): seq<T>
    decreases |rows| - j
  {
    if j >= |rows| || IsCategoryRow(rows[j]) then []
    else item(rows[j]) + Section(rows, j + 1, item)
  }

  /** One row of a section: the results so far, then that row's, then the rest. */
  lemma SectionStep<T>(done: seq<T>, rows: seq<Row>, j: nat, item: Row -> seq<T>)
    requires j < |rows| && !IsCategoryRow(rows[j])
    ensures done + Section(rows, j, item) == (done + item(rows[j])) + Section(rows, j + 1, item)
  {
  }

  /** For each category head from index `i` on, in order, the results of its section. */
  function SectionsFrom<T>(rows: seq<Row>, i: nat, item: Row -> seq<T>): seq<T>
    decreases |rows| - i
  {
    if i >= |rows| then []
    else (if IsCategoryHead(rows[i]) then Section(rows, i + 1, item) else []) + SectionsFrom(rows, i + 1, item)
  }

  function PageDeadlines(page: Page, p: Parsers): seq<Deadline> {
    SectionsFrom(page.rows, 0, Item(p))
  }

  /**
    A single left-to-right pass with one flag, "inside a section": a category
    row opens a section if it is a head and closes it otherwise; any other row
    contributes its result when a section is open.
  */
  function Pass<T>(rows: seq<Row>, j: nat, open: bool, item: Row -> seq<T>): seq<T>
    decreases |rows| - j
  {
    if j >= |rows| then []
    else if IsCategoryRow(rows[j]) then Pass(rows, j + 1, IsCategoryHead(rows[j]), item)
    else (if open then item(rows[j]) else []) + Pass(rows, j + 1, open, item)
  }

  /** From row `j` on, the nested walk and the single pass give the same results. */
  ghost predicate PassAgrees<T>(rows: seq<Row>, j: nat, open: bool, item: Row -> seq<T>) {
    (if open then Section(rows, j, item) else []) + SectionsFrom(rows, j, item) == Pass(rows, j, open, item)
  }

  /** A category row closes the current section and opens one if it is a head. */
  lemma {:induction false} PassAgreesAtCategory<T>(rows: seq<Row>, j: nat, open: bool, item: Row -> seq<T>)
    requires j < |rows| && IsCategoryRow(rows[j])
    requires PassAgrees(rows, j + 1, IsCategoryHead(rows[j]), item)
    ensures PassAgrees(rows, j, open, item)
  {
  }

  /** Any other row contributes its result exactly when a section is open. */
  lemma {:induction false} PassAgreesAtItem<T>(rows: seq<Row>, j: nat, open: bool, item: Row -> seq<T>)
    requires j < |rows| && !IsCategoryRow(rows[j])
    requires PassAgrees(rows, j + 1, open, item)
    ensures PassAgrees(rows, j, open, item)
  {
    var x, s, f := item(rows[j]), Section(rows, j + 1, item), SectionsFrom(rows, j + 1, item);
    assert SectionsFrom(rows, j, item) == f;
    if open {
      assert Section(rows, j, item) == x + s;
      assert Pass(rows, j, open, item) == x + Pass(rows, j + 1, open, item);
      assert (x + s) + f == x + (s + f);
    } else {
      assert Pass(rows, j, open, item) == Pass(rows, j + 1, open, item);
    }
  }

  lemma {:induction false} SectionsArePass<T>(rows: seq<Row>, j: nat, open: bool, item: Row -> seq<T>)
    ensures PassAgrees(rows, j, open, item)
    decreases |rows| - j
  {
    if j < |rows| {
      if IsCategoryRow(rows[j]) {
        SectionsArePass(rows, j + 1, IsCategoryHead(rows[j]), item);
        PassAgreesAtCategory(rows, j, open, item);
      } else {
        SectionsArePass(rows, j + 1, open, item);
        PassAgreesAtItem(rows, j, open, item);
      }
    }
  }

  /**
    The nested walk (each head, then its siblings up to the next category row)
    visits every row at most once, in document order: it equals the single
    pass that starts outside any section.
  */
  lemma PageDeadlinesArePass(page: Page, p: Parsers)
    ensures PageDeadlines(page, p) == Pass(page.rows, 0, false, Item(p))
  {
    SectionsArePass(page.rows, 0, false, Item(p));
  }

  /** Every result of the pass comes from a row at or after `j` that is not a category row. */
  lemma {:induction false} PassFromRows<T>(rows: seq<Row>, j: nat, open: bool, item: Row -> seq<T>, x: T)
    requires x in Pass(rows, j, open, item)
    ensures exists k :: j <= k < |rows| && !IsCategoryRow(rows[k]) && x in item(rows[k])
    decreases |rows| - j
  {
    if j < |rows| {
      if IsCategoryRow(rows[j]) {
        PassFromRows(rows, j + 1, IsCategoryHead(rows[j]), item, x);
      } else if open && x in item(rows[j]) {
      } else {
        PassFromRows(rows, j + 1, open, item, x);
      }
    }
  }

  /** With at most one result per row, no more results than rows. */
  lemma {:induction false} PassLength<T>(rows: seq<Row>, j: nat, open: bool, item: Row -> seq<T>)
    requires j <= |rows| && forall r :: |item(r)| <= 1
    ensures |Pass(rows, j, open, item)| <= |rows| - j
    decreases |rows| - j
  {
    if j < |rows| {
      if IsCategoryRow(rows[j]) {
        PassLength(rows, j + 1, IsCategoryHead(rows[j]), item);
      } else {
        PassLength(rows, j + 1, open, item);
      }
    }
  }

  /**
    Every extracted deadline is built from one of the page's item rows that is
    not itself a category row, and there are no more deadlines than rows.
  */
  lemma PageDeadlinesFromItemRows(page: Page, p: Parsers, d: Deadline)
    requires d in PageDeadlines(page, p)
    ensures exists k :: 0 <= k < |page.rows| && IsParsedItem(page.rows[k]) && !IsCategoryRow(page.rows[k])
                        && d == RowDeadline(page.rows[k], p)
    ensures |PageDeadlines(page, p)| <= |page.rows|
  {
    PageDeadlinesArePass(page, p);
    PassFromRows(page.rows, 0, false, Item(p), d);
    PassLength(page.rows, 0, false, Item(p));
  }

  /**
    The extraction loop: the header from the title text, then for every
    category head the item rows that follow it, up to the next category row.
    Rows are extracted whatever the header: an unusable header still yields a
    course with empty fields.
  */
  method ParsePage(page: Page, p: Parsers) returns (header: Header, deadlines: seq<Deadline>)
    ensures header == ParseHeader(page.titleText)
    ensures deadlines == PageDeadlines(page, p)
  {
    header := ParseHeader(page.titleText);
    var rows := page.rows;
    deadlines := [];
    var i := 0;
    while i < |rows|
      invariant 0 <= i <= |rows|
      invariant deadlines + SectionsFrom(rows, i, Item(p)) == SectionsFrom(rows, 0, Item(p))
    {
      if IsCategoryHead(rows[i]) {
        var section := CollectSection(rows, i + 1, p);
        deadlines := deadlines + section;
      }
      i := i + 1;
    }
  }

  /** The sibling loop: the item rows from `start` up to the next category row. */
  method CollectSection(rows: seq<Row>, start: nat, p: Parsers) returns (section: seq<Deadline>)
    ensures section == Section(rows, start, Item(p))
  {
    ghost var f := Item(p);
    section := [];
    var j := start;
    while j < |rows| && !IsCategoryRow(rows[j])
      invariant start <= j
      invariant section + Section(rows, j, f) == Section(rows, start, f)
      decreases |rows| - j
    {
      var item := ExtractItem(rows[j], p);
      SectionStep(section, rows, j, f);
      section := section + item;
      j := j + 1;
    }
  }

  // ---------------------------------------------------------------------------
  // A worked row
  // ---------------------------------------------------------------------------

  /** A link whose last word is "Test", in any case, is classified as a test. */
  lemma TestWordIsTest(w: string)
    requires Lower(w) == "test"
    ensures Classify(w) == "test"
  {
    TestKeywordIsTest();
  }

  /** A row whose link ends in the word "test", in any letter case, becomes a "test" deadline. */
  lemma TestRowCategory(r: Row, p: Parsers, ls: seq<string>, w: string)
    requires forall k :: 0 <= k < |ls| ==> IsWord(ls[k])
    requires IsWord(w) && Lower(w) == "test"
    requires r.titleSpan.Some? && r.titleSpan.value.firstAnchor == Some(Join(ls + [w], " "))
    ensures RowDeadline(r, p).deadlineType == "test"
  {
    var link := RowDeadline(r, p).link;
    assert Phrase(link) == w by {
      LastTokenOfJoinedWords(ls, w);
    }
    assert Classify(w) == "test" by {
      TestWordIsTest(w);
    }
  }

  /** ... and expects 10 hours of work at 3 per day. */
  lemma TestRowHours(r: Row, p: Parsers, ls: seq<string>, w: string)
    requires forall k :: 0 <= k < |ls| ==> IsWord(ls[k])
    requires IsWord(w) && Lower(w) == "test"
    requires r.titleSpan.Some? && r.titleSpan.value.firstAnchor == Some(Join(ls + [w], " "))
    ensures RowDeadline(r, p).expectedTotalHrs == 10 && RowDeadline(r, p).expectedHrsPerDay == 3
  {
    TestRowCategory(r, p, ls, w);
    DefaultTestHours();
  }
}
