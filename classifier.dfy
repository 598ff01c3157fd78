/**
  The deadline classifier `assignDeadlineType`: the category of the first
  keyword of an ordered table that occurs in the lower-cased input.
*/
module Classifier {
  import opened Text
  import opened Workload

  /** An ordered (keyword, category) table. */
  type KeywordTable = seq<(string, string)>

  /** `CourseCategories.keywordMap`, in its declared order. */
  const KEYWORD_MAP: KeywordTable := [
    ("homework", "homework"),
    ("assignment", "homework"),
    ("assignments", "homework"),
    ("assessments", "quiz"),
    ("assessment", "quiz"),
    ("final", "test"),
    ("test", "test"),
    ("tests", "test"),
    ("quiz", "quiz"),
    ("lab", "lab"),
    ("checks", "classwork"),
    ("audits", "classwork"),
    ("assign", "homework"),
    ("project", "test")
  ]

  /** The loop over the table: the category of the first keyword found in `l`, or "". */
  function Scan(l: string, table: KeywordTable): (r: string)
    ensures r == "" || exists e :: e in table && Contains(l, e.0) && r == e.1
    decreases |table|
  {
    if table == [] then ""
    else if Contains(l, table[0].0) then table[0].1
    else Scan(l, table[1..])
  }

  /**
    `assignDeadlineType(inputString:keywordMap:)`: "" or the category of a
    keyword of the table that occurs in the lower-cased input.
  */
  function AssignDeadlineType(input: string, table: KeywordTable): (r: string)
    ensures r == "" || exists e :: e in table && Contains(Lower(input), e.0) && r == e.1
  {
    Scan(Lower(input), table)
  }

  /** The classifier as the report parser calls it, with the built-in table. */
  function Classify(phrase: string): string {
    AssignDeadlineType(phrase, KEYWORD_MAP)
  }

  /** The keyword at `k` is the first one found. */
  predicate FirstHit(l: string, table: KeywordTable, k: int) {
    && 0 <= k < |table|
    && Contains(l, table[k].0)
    && forall j :: 0 <= j < k ==> !Contains(l, table[j].0)
  }

  /** The first keyword, in table order, that occurs decides the category. */
  lemma {:induction false} ScanFirstHit(l: string, table: KeywordTable, k: int)
    requires FirstHit(l, table, k)
    ensures Scan(l, table) == table[k].1
    decreases k
  {
    if k > 0 {
      assert !Contains(l, table[0].0);
      ScanFirstHit(l, table[1..], k - 1);
    }
  }

  /**
    Either some keyword occurs, and the first one (index `k`) gives the result,
    or none does and the result is "".
  */
  lemma {:induction false} ScanCharacterised(l: string, table: KeywordTable) returns (k: int)
    ensures -1 <= k < |table|
    ensures k == -1 ==> Scan(l, table) == "" && forall j :: 0 <= j < |table| ==> !Contains(l, table[j].0)
    ensures k >= 0 ==> FirstHit(l, table, k) && Scan(l, table) == table[k].1
    decreases |table|
  {
    if table == [] {
      k := -1;
    } else if Contains(l, table[0].0) {
      k := 0;
    } else {
      var k' := ScanCharacterised(l, table[1..]);
      k := if k' == -1 then -1 else k' + 1;
      assert forall j :: 1 <= j < |table| ==> table[j] == table[1..][j - 1];
    }
  }

  /** Names of the five categories, as the classifier returns them. */
  predicate IsCategoryName(s: string) {
    s in {"homework", "quiz", "test", "classwork", "lab"}
  }

  /** Every category of the built-in table is one of the five names. */
  lemma KeywordCategoriesNamed()
    ensures forall j :: 0 <= j < |KEYWORD_MAP| ==> IsCategoryName(KEYWORD_MAP[j].1)
  {
  }

  /** With the built-in table the result is "" or one of the five category names. */
  lemma AssignResultIsCategory(input: string)
    ensures var r := AssignDeadlineType(input, KEYWORD_MAP);
      r == "" || IsCategoryName(r)
  {
    var k := ScanCharacterised(Lower(input), KEYWORD_MAP);
    KeywordCategoriesNamed();
  }

  /** With the built-in table the result is "" exactly when no keyword occurs. */
  lemma AssignEmptyIffNoKeyword(input: string)
    ensures AssignDeadlineType(input, KEYWORD_MAP) == "" <==>
            forall j :: 0 <= j < |KEYWORD_MAP| ==> !Contains(Lower(input), KEYWORD_MAP[j].0)
  {
    var k := ScanCharacterised(Lower(input), KEYWORD_MAP);
    KeywordCategoriesNamed();
  }

  /** A non-empty classification is a category the workload profile recognises. */
  lemma AssignResultRecognised(input: string)
    ensures var r := AssignDeadlineType(input, KEYWORD_MAP);
      r == "" || DeadlineTypeFrom(r).Some?
  {
    AssignResultIsCategory(input);
    var r := AssignDeadlineType(input, KEYWORD_MAP);
    if r == "" { }
    else if r == "homework" { DeadlineTypeFromName(Homework); }
    else if r == "quiz" { DeadlineTypeFromName(Quiz); }
    else if r == "test" { DeadlineTypeFromName(Test); }
    else if r == "classwork" { DeadlineTypeFromName(Classwork); }
    else { DeadlineTypeFromName(Lab); }
  }

  /**
    Table order decides overlapping hits: any input that mentions
    "assignment" and has no letter h is homework, even when it also
    mentions "final" or "test", because "assignment" comes before them.
  */
  lemma AssignmentBeforeFinal(input: string)
    requires 'h' !in Lower(input) && Contains(Lower(input), "assignment")
    ensures AssignDeadlineType(input, KEYWORD_MAP) == "homework"
  {
    var l := Lower(input);
    assert KEYWORD_MAP[0].0 == "homework" && KEYWORD_MAP[1].0 == "assignment";
    NotContainsFirstCharAbsent(l, KEYWORD_MAP[0].0);
    ScanFirstHit(l, KEYWORD_MAP, 1);
  }

  /**
    The word "test" gets the category "test": the six keywords before it in
    the table are all longer, so none of them occurs in it.
  */
  lemma TestKeywordIsTest()
    ensures Scan("test", KEYWORD_MAP) == "test"
  {
    var l := "test";
    forall j | 0 <= j < 6 ensures !Contains(l, KEYWORD_MAP[j].0) {
      NotContainsLonger(l, KEYWORD_MAP[j].0);
    }
    assert OccursAt(l, KEYWORD_MAP[6].0, 0);
    OccursAtContains(l, KEYWORD_MAP[6].0, 0);
    ScanFirstHit(l, KEYWORD_MAP, 6);
  }

  /** With no keyword that is empty, the empty phrase matches nothing. */
  lemma {:induction false} ScanOfEmpty(table: KeywordTable)
    requires forall j :: 0 <= j < |table| ==> table[j].0 != []
    ensures Scan("", table) == ""
    decreases |table|
  {
    if table != [] {
      assert !Contains("", table[0].0);
      ScanOfEmpty(table[1..]);
    }
  }

  /** An empty phrase (a link without words) gets no category. */
  lemma ClassifyEmpty()
    ensures Classify("") == ""
  {
    assert Lower("") == "";
    ScanOfEmpty(KEYWORD_MAP);
  }

  /** Classification ignores letter case. */
  lemma AssignIgnoresCase(input: string, table: KeywordTable)
    ensures AssignDeadlineType(Lower(input), table) == AssignDeadlineType(input, table)
  {
    LowerIdempotent(input);
  }
}
