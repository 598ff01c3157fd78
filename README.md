# QuickAlert deadline pipeline in Dafny

QuickAlert is an iOS app that reads the grade report of a school course (an
HTML page with one row per gradable item). It keeps each course's deadlines
in a saved course list and reminds the student of work that is due soon.

This project models the app's deadline pipeline and proves properties of it.
The pipeline has four stages.

1. **Parse the report.**
   - The course header comes from the page title.
   - Each item row gives a deadline: its title, link, due date (tried against several date patterns), grades and a category.
   - The category comes from an ordered keyword table.
   - Expected hours come from the per-category workload profile.
2. **Reconcile with the stored courses.**
   - The parsed course is looked up by its composite key (term, title, period, instructor).
   - On a match, its deadlines are merged with the stored ones under the key `link + title`.
   - Without a match, the course is appended.
   - The saved file is then upserted by period.
3. **Maintain each course.** The course operations `setDeadlines`, `addDeadline`, `updateDeadline` and `updateIfNecessary` keep the list in due-date order, and mark work done.
4. **Select and remind.**
   - `filterDeadlines` keeps the work that is not done and is due within the days it needs.
   - `sortCourseDeadlinesByDueDays` orders it.
   - The notification screen schedules one daily reminder per entry, at an hour that depends on the days left.
   - It also shows a colour, a number and a caption for each entry.
   - Its Save button marks an entry done.

Modules, one per concern:

| module | file | models |
|---|---|---|
| `Text` | text.dfy | ASCII lower-casing, substring search, `components(separatedBy:)`, splitting into words, `replacingOccurrences`, trimming, string order |
| `Sorting` | sorting.dfy | `sorted(by:)` as a sorted permutation |
| `Dates` | dates.dfy | date patterns, the day count between two instants |
| `Workload` | workload.dfy | `CourseAssignmentTimeTaken`, `DeadlineType(from:)`, `getHours` |
| `Classifier` | classifier.dfy | `keywordMap`, `assignDeadlineType` |
| `Deadlines` | deadlines.dfy | `CourseDeadline`: `id`, `daysToDue`, `updateIfNecessary`, the actionability test |
| `Courses` | courses.dfy | `Course`: `setDeadlines`, `addDeadline`, `updateDeadline` |
| `Report` | report.dfy | header and row extraction, the sibling walk over the report rows |
| `Reconcile` | reconcile.dfy | `indexOfCourse`, `isCourseInArray`, `updateDeadlines`, the period upsert |
| `Selection` | selection.dfy | `filterDeadlines`, `filterCompletedDeadlines`, `sortCourseDeadlinesByDueDays`, `findDistinctDeadlineTypes` |
| `AppModel` | model_data.dfy | the `ModelData` class: `init`, `getCourse`, `updateCourseNames`, the parse-and-reconcile step |
| `Notifications` | notifications.dfy | reminder hour and request, colour band, number and caption, `onAppear`, the Save handler |

Conventions used throughout:

- Due dates are instants in seconds, or `InvalidDate`.
  - The app stores them as strings in one fixed canonical format, so the string and the instant determine each other.
  - A day count is the number of whole 86400-second days between two instants, truncated toward zero, as `Calendar.dateComponents([.day], …)` reports it.
  - The current time is a parameter `now`.
- Grades are `real` values, compared only for equality. They are read by an abstract number parser.
- Each report date pattern is an abstract parser `string -> Option<int>`.
- A course's `UUID` is a natural number supplied by the caller.
- Swift does not guarantee that its sorts are stable. So every sort is specified as "a permutation in the requested order", and ties may come out in any order.
- A Swift `Int` is an unbounded `int`.
- String comparison (`<` on `String`) is code-point order (`LexLe`).

Where the code and its comments or natural reading differ, the model follows the code:

- Unparsable due dates sort **first**, because a nil date is compared as `Date.distantPast`.
- Re-parsing a known course **resets** its workload profile to the defaults (QuickAlert/Model/ModelData.swift:441).
- In the same branch, the in-memory course list is not updated, because the assignment at line 447 is commented out.
- The file upsert also overwrites the stored profile, although the comment at QuickAlert/Model/ModelData.swift:189 says it is left intact.
- A page without a usable title still yields a course, with an all-empty header, and its rows are still parsed.
- `"Due "` is removed everywhere in the due-date text, not only as a prefix.
- `updateIfNecessary` changes nothing, not even the expected hours, when either due date is unparsable.
- The "only the grades changed" branch of `updateIfNecessary` (QuickAlert/Course.swift:247) can never run, because its condition implies the first branch's.
- `filterCompletedDeadlines` returns the deadlines that are **not** completed.
- The file upsert matches on the period alone.

## Model

| member | source | states |
|---|---|---|
| Classifier.ScanCharacterised | QuickAlert/Model/ModelData.swift:229-238 | the classifier returns the category of the first keyword, in table order, that occurs in the lower-cased input, or "" exactly when none occurs |
| Classifier.AssignDeadlineType | QuickAlert/Model/ModelData.swift:229-238 | the result is "" or the category of a keyword of the table that occurs in the lower-cased input |
| Classifier.ScanFirstHit | QuickAlert/Model/ModelData.swift:231-235 | the first keyword hit in table order decides the result, whatever later keywords also occur |
| Classifier.AssignResultIsCategory | QuickAlert/Model/ModelData.swift:40-69 | with the built-in table the result is "" or one of homework, quiz, test, classwork, lab |
| Classifier.AssignEmptyIffNoKeyword | QuickAlert/Model/ModelData.swift:229-238 | the result is "" if and only if no keyword of the table occurs in the lower-cased input |
| Classifier.AssignResultRecognised | QuickAlert/Course.swift:319-342 | every non-empty classification is accepted by `DeadlineType(from:)` |
| Classifier.AssignmentBeforeFinal | QuickAlert/Model/ModelData.swift:55-60 | an input that mentions "assignment" and has no letter h (so cannot mention "homework") is homework even if it also mentions "final" or "test", because "assignment" precedes them in the table |
| Classifier.TestKeywordIsTest | QuickAlert/Model/ModelData.swift:55-61 | the word "test" is classified as "test": none of the six keywords before it in the table occurs in it |
| Classifier.ClassifyEmpty | QuickAlert/Model/ModelData.swift:229-238 | an empty phrase has no category |
| Classifier.AssignIgnoresCase | QuickAlert/Model/ModelData.swift:230 | classification does not depend on letter case |
| Workload.DefaultTimeTaken | QuickAlert/Course.swift:283-294 | the default profile gives 3/1, 5/1, 10/3, 4/1 and 5/2 hours for homework, quiz, test, classwork and lab |
| Workload.SetTimeTaken | QuickAlert/Course.swift:296-307 | after `setTimeTaken` every category reports exactly the hours passed for it |
| Workload.GetHours | QuickAlert/Course.swift:345-358 | each category reads its own pair of (total, per-day) hours from the profile |
| Workload.ProfileDeterminedByHours | QuickAlert/Course.swift:345-358 | two profiles that report the same hours for all five categories are equal |
| Workload.DeadlineTypeFromExactly | QuickAlert/Course.swift:319-342 | `DeadlineType(from:)` yields a category exactly when the lower-cased string is its name |
| Workload.DeadlineTypeFrom | QuickAlert/Course.swift:319-342 | a recognised category is one whose name equals the lower-cased string |
| Workload.DeadlineTypeFromName | QuickAlert/Course.swift:319-342 | each category's name is recognised as that category |
| Workload.ExpectedHoursOfName | QuickAlert/Model/ModelData.swift:350-357 | a recognised category's expected hours are the profile's `getHours` for it |
| Workload.ExpectedHours | QuickAlert/Model/ModelData.swift:350-357 | a string that names no category is costed with the homework constants (3, 1) |
| Workload.UnclassifiedCostsAsHomework | QuickAlert/Model/ModelData.swift:350-357 | an unrecognised category falls back to the homework hours (3, 1) |
| Workload.DefaultTestHours | QuickAlert/Course.swift:283-294 | a test is costed at 10 hours, 3 per day |
| Dates.NormalizeDueDate | QuickAlert/Model/ModelData.swift:321-337 | the pattern loop yields the result of the first pattern that parses, or the invalid date |
| Dates.FirstSuccessWins | QuickAlert/Model/ModelData.swift:323-330 | when pattern k is the first that parses, its instant is the due date |
| Dates.InvalidIffNoFormatParses | QuickAlert/Model/ModelData.swift:332-337 | the due date is "Invalid Date" exactly when no pattern parses |
| Dates.DaysBetween | QuickAlert/Course.swift:219-232 | the day count is non-negative exactly when the target is less than a day in the past; it counts the whole days elapsed, truncated toward zero in both directions |
| Dates.DaysBetweenExact | QuickAlert/Course.swift:219-232 | a target between k and k + 1 whole days ahead is k days away |
| Dates.DaysBetweenPastExact | QuickAlert/Course.swift:219-232 | a target between k and k + 1 whole days back is -k days away |
| Dates.DaysBetweenMonotone | QuickAlert/Course.swift:219-232 | a later due date never has fewer days left |
| Deadlines.DaysToDue | QuickAlert/Course.swift:219-232 | `daysToDue` is 0 for an unparsable date and the whole-day count otherwise |
| Deadlines.Id | QuickAlert/Course.swift:146 | the identifier is the title, an underscore, then the link |
| Deadlines.IdCollides | QuickAlert/Course.swift:146 | `title_link` identifiers collide for different (title, link) pairs when an underscore moves between the two fields |
| Deadlines.KeyCollides | QuickAlert/Model/ModelData.swift:519 | the merge key `link + title` collides when characters move between link and title |
| Deadlines.UnparsableSortFirst | QuickAlert/Course.swift:48-50 | in due-date order an unparsable date precedes every date after `distantPast` |
| Deadlines.UpdateIfNecessary | QuickAlert/Course.swift:234-265 | link, title, category, actual hours and completion are never changed; a different item or an unparsable date leaves the deadline unchanged |
| Deadlines.ApplyUpdate | QuickAlert/Course.swift:234-265 | the field-by-field mutation computes `UpdateIfNecessary` |
| Deadlines.UpdateAdoptsChanges | QuickAlert/Course.swift:239-245 | a changed due date or grade is adopted together with both expected-hours fields |
| Deadlines.UpdateRefreshesHours | QuickAlert/Course.swift:254-259 | with nothing changed only the expected hours are copied |
| Deadlines.UpdateAgreesWithNew | QuickAlert/Course.swift:237-260 | when the rule applies, due date, grades and expected hours equal the new record's |
| Deadlines.UpdateIdempotent | QuickAlert/Course.swift:234-265 | applying the rule twice with the same record equals applying it once |
| Deadlines.UpdateWithItself | QuickAlert/Course.swift:234-265 | a record updated with itself is unchanged |
| Deadlines.ThresholdIsCeiling | QuickAlert/Model/ModelData.swift:557 | for a positive pace the day threshold is the ceiling of total hours over hours per day |
| Deadlines.IsActionable | QuickAlert/Model/ModelData.swift:553-562 | a deadline is actionable exactly when it is not completed, its date parses and its days to due do not exceed the days its work needs |
| Deadlines.HomeworkThreshold | QuickAlert/Model/ModelData.swift:555-564 | a homework (3 h at 1 h/day) due in 3 days is actionable and one due in 4 days is not |
| Courses.SortByDue | QuickAlert/Course.swift:48-50 | the result is a permutation of the input in due-date order, with unparsable dates as `distantPast` |
| Courses.SetDeadlines | QuickAlert/Course.swift:48-50 | the list becomes the given deadlines in due-date order; nothing else in the course changes |
| Courses.AddDeadline | QuickAlert/Course.swift:38-45 | no list becomes the one-element list; otherwise the deadline is appended and the list re-sorted; nothing else changes |
| Courses.AddDeadlineAdds | QuickAlert/Course.swift:38-45 | the added deadline is in the list, which grew by one |
| Courses.TruncReal | QuickAlert/Course.swift:63-64 | `Int(Double)` truncates toward zero |
| Courses.MatchIndex | QuickAlert/Course.swift:58 | the first index with the same title and link, or -1 exactly when there is none |
| Courses.MarkDone | QuickAlert/Course.swift:60-65 | the matched deadline is first refreshed by `updateIfNecessary(with:)`, then completed with the truncated actual hours; apart from those three fields it is the refreshed deadline, and it keeps its identity and category |
| Courses.UpdateDeadline | QuickAlert/Course.swift:52-76 | no list or no match leaves the course unchanged; otherwise the first match is refreshed, marked done and the list re-sorted |
| Courses.UpdateDeadlineMarksOne | QuickAlert/Course.swift:52-76 | after a successful update the list keeps its length and holds the marked deadline |
| Report.ParseHeader | QuickAlert/Model/ModelData.swift:254-277 | a missing title, one without a ": " part, or one whose part after ": " has fewer than three space-separated pieces gives the all-empty header |
| Report.ParseHeaderWellFormed | QuickAlert/Model/ModelData.swift:260-270 | the title "T: I P Term …" yields title T, instructor I, period P and term Term |
| Report.IsItemRowIsItemClass | QuickAlert/Model/ModelData.swift:288-291 | the three-way row condition is the same as having the item-row class |
| Report.RowDeadline | QuickAlert/Model/ModelData.swift:300-357 | title without its last word, first anchor's text as link, first-pattern due date, rounded grade from the awarded-grade span without "%", maximum grade from the max-grade span without "/", category of the link's last word, profile hours, not completed |
| Report.ExtractRow | QuickAlert/Model/ModelData.swift:292-359 | the row loop's body builds `RowDeadline` |
| Report.ExtractItem | QuickAlert/Model/ModelData.swift:288-361 | a parsed item row yields its deadline and any other row nothing |
| Report.RowStrings | QuickAlert/Model/ModelData.swift:300-308 | for words `ws` plus a score word the title is `ws` joined; the category comes from the link's last word |
| Report.RowWithoutAnchor | QuickAlert/Model/ModelData.swift:301-357 | a title with no anchor gives link "", category "" and homework hours (3, 1) |
| Report.DueRemovedInside | QuickAlert/Model/ModelData.swift:302 | "Due " is removed in the middle of the text too |
| Report.GradeValue | QuickAlert/Model/ModelData.swift:304-305 | the grade is the number read from the span text (or "") with the marker removed and blanks trimmed, and 0 when that text is not a number |
| Report.SectionsArePass | QuickAlert/Model/ModelData.swift:279-366 | collecting item rows per category section is the same as one pass over the rows |
| Report.PageDeadlinesFromItemRows | QuickAlert/Model/ModelData.swift:279-366 | every parsed deadline comes from an item row with a title span, and there are no more deadlines than rows |
| Report.ParsePage | QuickAlert/Model/ModelData.swift:245-367 | the parser returns the header of the title and the deadlines of the section walk |
| Report.CollectSection | QuickAlert/Model/ModelData.swift:285-365 | the sibling loop collects the deadlines of one section up to the next category row |
| Report.TestRowHours | QuickAlert/Model/ModelData.swift:307-357 | a link ending in the word "Test" is costed as a test (10 h, 3 h/day) |
| Reconcile.IndexOfCourse | QuickAlert/Model/ModelData.swift:491-501 | the first index with equal term, title, period and instructor |
| Reconcile.IsCourseInArray | QuickAlert/Model/ModelData.swift:482-489 | `contains` over the list holds exactly when some position holds a course with the same term, title, period and instructor |
| Reconcile.IndexOfCourseFound | QuickAlert/Model/ModelData.swift:482-501 | `indexOfCourse` is -1 exactly when `isCourseInArray` is false |
| Reconcile.KeyMap | QuickAlert/Model/ModelData.swift:519 | the dictionary stores each deadline under its own `link + title` key |
| Reconcile.UpdateDeadlines | QuickAlert/Model/ModelData.swift:518-534 | the result has distinct keys and is, as a dictionary, the current list with each new deadline merged in turn |
| Reconcile.MergeKeys | QuickAlert/Model/ModelData.swift:521-531 | the merged keys are the union of current and new keys |
| Reconcile.MergeKeepsUntouched | QuickAlert/Model/ModelData.swift:521-531 | entries no new deadline matches are unchanged |
| Reconcile.MergeUpdatesMatched | QuickAlert/Model/ModelData.swift:523-527 | a current entry matched by exactly one new deadline becomes `updateIfNecessary` of the two |
| Reconcile.MergeInsertsNew | QuickAlert/Model/ModelData.swift:528-530 | a new key carried by exactly one new deadline is inserted as given |
| Reconcile.MergeKeepsProgress | QuickAlert/Model/ModelData.swift:518-534 | the merge never changes a kept entry's category, actual hours or completion |
| Reconcile.MergeIdempotent | QuickAlert/Model/ModelData.swift:518-534 | merging the same distinct-keyed deadlines twice equals merging them once |
| Reconcile.MergeFromEmpty | QuickAlert/Model/ModelData.swift:518-534 | merging distinct-keyed deadlines into an empty dictionary gives their key map |
| Reconcile.KeyMapDeterminesMultiset | QuickAlert/Model/ModelData.swift:518-534 | two distinct-keyed lists with the same key map hold the same deadlines, differing at most in order |
| Reconcile.Values | QuickAlert/Model/ModelData.swift:533 | `Array(dict.values)` lists every entry once and rebuilds the same dictionary |
| Reconcile.PermutationKeepsKeyMap | QuickAlert/Model/ModelData.swift:440-443 | re-sorting the merged list keeps its keys distinct and its dictionary the same |
| Reconcile.PeriodIndex | QuickAlert/Model/ModelData.swift:187 | the first stored course with the period, or -1 exactly when there is none |
| Reconcile.AppendCourse | QuickAlert/Model/ModelData.swift:175-204 | the stored list after writing a course is the period upsert |
| Reconcile.Upsert | QuickAlert/Model/ModelData.swift:187-200 | a same-period course is replaced in place, keeping its id and the length, with the others untouched; otherwise the course is appended |
| Reconcile.UpsertKeepsIds | QuickAlert/Model/ModelData.swift:187-196 | every stored id survives the upsert |
| Reconcile.UpsertIdempotent | QuickAlert/Model/ModelData.swift:169-212 | writing the same course twice equals writing it once |
| Reconcile.UpsertOverwrites | QuickAlert/Model/ModelData.swift:169-212 | writing a second version of a course, with the same period and id, over the first gives what writing the second alone gives |
| Reconcile.UpsertKeepsPeriodsDistinct | QuickAlert/Model/ModelData.swift:187-200 | a list with distinct periods keeps them distinct |
| Selection.CollectExactly | QuickAlert/Model/ModelData.swift:555-565 | a pair is collected exactly when it pairs the course with one of its deadlines that passes the test |
| Selection.ActionableOfExactly | QuickAlert/Model/ModelData.swift:555-565 | the filter keeps exactly the deadlines not completed, with a parsable date, due within the ceiling of total over per-day hours |
| Selection.FilterDeadlines | QuickAlert/Model/ModelData.swift:537-571 | the result is the actionable pairs, sorted by days to due |
| Selection.FilterCompletedDeadlines | QuickAlert/Model/ModelData.swift:574-599 | the result is the pairs of the not-completed deadlines, sorted by days to due |
| Selection.ActionableArePending | QuickAlert/Model/ModelData.swift:555-589 | every actionable pair is also returned by `filterCompletedDeadlines` |
| Selection.SortByDaysThenTitle | QuickAlert/Model/ModelData.swift:602-609 | a permutation of the input ordered by days to due, ties by title |
| Selection.FindDistinctDeadlineTypes | QuickAlert/Model/ModelData.swift:112-125 | every category used by some deadline of some course, each exactly once |
| AppModel.SortByPeriod | QuickAlert/Model/ModelData.swift:697 | a permutation of the courses in period order |
| AppModel.ModelData.constructor | QuickAlert/Model/ModelData.swift:78-81 | seven name slots; the loaded courses in period order with their titles in the first slots |
| AppModel.ModelData.GetCourse | QuickAlert/Model/ModelData.swift:685-691 | the course at the index, or none exactly when the index is out of range |
| AppModel.ModelData.UpdateCourseNames | QuickAlert/Model/ModelData.swift:695-705 | the courses become period-ordered and the first seven titles fill the slots; other slots keep their names |
| AppModel.ModelData.ParseHTMLAndSave | QuickAlert/Model/ModelData.swift:245-468 | a known course gets the merge of its deadlines in due-date order and the default profile, and the list is unchanged; an unknown one is appended; the file gets the period upsert |
| AppModel.IndexIgnoresId | QuickAlert/Model/ModelData.swift:491-501 | the course lookup does not depend on the parsed course's identifier |
| AppModel.ReparseKeepsProgress | QuickAlert/Model/ModelData.swift:422-447 | re-parsing a known course keeps every stored deadline's category, actual hours and completion |
| AppModel.ReconcileShape | QuickAlert/Model/ModelData.swift:422-456 | a known course keeps its id and the list; an unknown one grows the list by one with the fresh id |
| AppModel.ReconcileTwice | QuickAlert/Model/ModelData.swift:422-456 | reconciling the same distinct-keyed report twice leaves the course list as one run does; the second course equals the first up to the order of its deadlines (same key map, same multiset), and the saved list ends as one write of it gives |
| Notifications.ReminderHour | QuickAlert/Notifications/NotificationView.swift:59-67 | 8 exactly when at most 2 days are left, 12 for 3-4, 17 otherwise |
| Notifications.ReminderHourMonotone | QuickAlert/Notifications/NotificationView.swift:59-67 | fewer days left never gives a later reminder hour |
| Notifications.RequestFor | QuickAlert/Notifications/NotificationView.swift:53-72 | the request is keyed by the deadline id, titled "Upcoming Deadline", has the body "Your deadline for <title> is approaching." and fires daily at the tier hour |
| Notifications.RequestMentionsTitle | QuickAlert/Notifications/NotificationView.swift:55 | the body contains the deadline's title |
| Notifications.BandColor | QuickAlert/Notifications/NotificationView.swift:233-244 | red at most 1 day, orange 2-4, yellow 5-7, green otherwise |
| Notifications.BandMonotone | QuickAlert/Notifications/NotificationView.swift:233-244 | fewer days left never shows a calmer colour |
| Notifications.DisplayNumber | QuickAlert/Notifications/NotificationView.swift:248 | the number shown is the days left without sign |
| Notifications.DayLabel | QuickAlert/Notifications/NotificationView.swift:250 | the caption says past due exactly for negative days, singular exactly when the number shown is 1, and "days left" exactly for 0 and more than 1 |
| Notifications.ShownDaysOfUnparsable | QuickAlert/Notifications/NotificationView.swift:223-231 | an unparsable date shows as 0 "days left" in red |
| Notifications.AllActionableExactly | QuickAlert/Notifications/NotificationView.swift:299-302 | a pair is listed exactly when it is an actionable deadline of one of the courses |
| Notifications.ListedArePending | QuickAlert/Notifications/NotificationView.swift:299-312 | every listed entry is not completed and has a parsable due date |
| Notifications.OnAppear | QuickAlert/Notifications/NotificationView.swift:288-315 | the list is the actionable pairs of all courses in days-then-title order, with one reminder per entry in that order |
| Notifications.GatherActionable | QuickAlert/Notifications/NotificationView.swift:299-302 | the course loop collects every course's actionable pairs |
| Notifications.Schedule | QuickAlert/Notifications/NotificationView.swift:306-310 | one request per listed entry, for its days left |
| Notifications.Without | QuickAlert/Notifications/NotificationView.swift:177 | the entries kept are exactly those whose deadline id differs |
| Notifications.SaveCompletion | QuickAlert/Notifications/NotificationView.swift:164-184 | with a selection and a matching course, that course alone is updated by `updateDeadline` and the entry leaves the re-sorted list; otherwise nothing changes |
| Notifications.SaveRemovesEntry | QuickAlert/Notifications/NotificationView.swift:177-178 | after Save the list holds exactly the earlier entries with a different deadline id |

## Left out

- File and JSON I/O: `loadCoursesFromDocumentDirectory`, `writeCoursesToJSON`, `saveCourseDeadlinesToDocumentDirectory`, `createEmptyCourseInDocumentDirectory`, `saveCourseToFile`, `readHTMLFile`, `processAllHTMLFiles*` and the Codable initialisers.
  - The saved course list enters as a parameter: `stored` of `ParseHTMLAndSave`, or the `loaded` argument of the `ModelData` constructor.
  - A missing file behaves as an empty stored list.
  - The write after Save is not modelled.
- Logging (`FileLogger`), the notification centre calls and the permission request. A scheduled reminder is returned as a `Request` value.
- The SwiftSoup DOM.
  - A page is its title text plus its table rows, in document order, each with its class set and the texts of the spans the parser selects.
  - The category row's own text, which the parser computes and never uses, is not modelled.
- `DateFormatter` and `Calendar`.
  - Date patterns are abstract parsers.
  - The day count is whole 86400-second days, so daylight-saving and time-zone effects are not modelled.
  - The `?? Int.max` and `?? 0` fallbacks for a missing day component are not modelled, since the component is always present.
- `Double(String)` is an abstract parser. NaN and the trap of `Int(Double)` on non-finite values are not modelled.
- Unicode: lower-casing is ASCII only, and trimming removes spaces and tabs only, not every Unicode whitespace.
- Swift `Int` overflow: the threshold arithmetic is unbounded.
- The order among equal elements after each sort, and the order of `Array(dict.values)` and `Array(set)`: Swift specifies neither.
- `sortDeadlines` (QuickAlert/Model/ModelData.swift:506-513) is never called, so it is not modelled.
- `Course.==`, which compares ids only, and `hash(into:)`, which combines the id, term, title, period and instructor. Both are used by the UI only.
- SwiftUI views other than the notification screen's rules, and the web view.
- Reconcile.UpdateDeadlines: requires the current deadlines to have distinct keys, because `Dictionary(uniqueKeysWithValues:)` traps on a repeated key.
  - A first parse can store a course whose report repeats a `link + title`, and a later re-parse of it would trap.
  - `AppModel.ModelData.ParseHTMLAndSave` carries the same requirement as `CanMerge`.
- Selection.FilterDeadlines: requires a non-zero hours-per-day for every pending deadline with a parsable date, because `filterDeadlines` divides by it and Swift traps on zero.
  - `Notifications.OnAppear` inherits this.
