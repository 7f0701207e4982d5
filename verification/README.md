# Homework portal core, modelled in Dafny

The portal is a Next.js application: students submit homework, teachers review and grade it.
Most of it is rendering and single ORM calls. This model covers the parts that compute
something:

- **Subject statistics** (`GET /api/analytics/subjects`). For each subject it gives the
  homework count, the count of each of PENDING, SUBMITTED, APPROVED and REJECTED, and the mean
  grade.
- **User performance** (`GET /api/analytics/users`). For each user it gives counts by status,
  the mean grade, and a homework total and subject count that depend on the role. It also
  gives a success rate.
- **The homework route** (`/api/homework`). GET turns query parameters into a filter record,
  with a comma-separated `status` list split and trimmed. POST validates a new homework and
  builds the record to store.
- **The two dashboard lists.** These are the teacher's reviewed works and the student's
  submitted works. Each page pre-filters the response by status, searches case-insensitively,
  and sorts by a chosen column in either direction. `handleSort` and `clearFilters` drive the
  sort controls.

Modules, one per file:

| file | module | models |
|---|---|---|
| `wrappers.dfy` | `Wrappers` | `Option` (JSON null/missing) and `Response` (status code plus body or error) |
| `text.dfy` | `Text` | the JavaScript string operations used: `split`, `trim`, `toLowerCase`, `includes`, `parseInt`, truthiness |
| `aggregates.dfy` | `Aggregates` | counting by status and the grade average shared by both analytics routes |
| `subject_analytics.dfy` | `SubjectAnalytics` | the subject statistics route |
| `user_analytics.dfy` | `UserAnalytics` | the user performance route |
| `homework_route.dfy` | `HomeworkRoute` | GET filter construction and its meaning; POST validation |
| `listing.dfy` | `Listing` | the comparator, `Array.prototype.sort`, `filter`, and the sort-control transitions |
| `reviewed_works.dfy` | `ReviewedWorks` | the reviewed-works page: request, response filter, search, sort, page state |
| `submitted_works.dfy` | `SubmittedWorks` | the submitted-works page: the same, for a student |

Modelling choices:

- **External work.** The session check and the database query become inputs of the handlers.
  The session is a boolean. The query result is an `Option`, where `None` means the query
  threw.
- **`parseFloat`.** It is a parameter `parse: string -> Option<real>`. `None` stands for NaN,
  which `|| 0` turns into 0.
- **`parseInt`** is modelled concretely: leading white space, one sign, a `0x` prefix, then the
  longest digit run, or NaN.
- **Dates** are integer milliseconds.
- **Sorting.** The pages sort a copy of their list, so the filter/sort pipeline is a pure
  function. The page state (`homeworks`, `searchTerm`, `sortField`, `sortOrder`) is a class
  with one method per state change.
- **What the sort means.** `Sort` is proved to be the only stable sort by the comparator
  (`Listing.SortUnique`). So the result does not depend on which algorithm the JavaScript
  engine uses.

Three behaviours of the code are worth stating outright, because a reader might expect
otherwise:

- **Unparsable grades stay in the denominator.** Every present grade counts in the
  denominator, and `parseFloat(g) || 0` makes an unparsable grade contribute 0. So grades that
  are present but unparsable give an average of 0, not null (`Aggregates.AverageOfUnparsable`). Next to parsable grades,
  an unparsable one still enlarges the denominator (`Aggregates.AddUnparsable`): "90" and
  "abc" average to 45.
- **Every role other than STUDENT, ADMIN included, gets the taught-subject figures.** Those are
  the homework count summed over taught subjects, and the number of taught subjects.
- **The success rate divides by the number of submitted homework, whatever the role.** For a
  teacher, the reported `totalHomeworks` is instead the taught-subject sum.

One asymmetry of the homework route is modelled as written. A `status` parameter with a comma
is trimmed piece by piece. A `status` without a comma is used untrimmed.

## Model

| member | source | states |
|---|---|---|
| Aggregates.StatusCount | app/api/analytics/subjects/route.ts:44-47 | the count of rows with exactly a status is that status's multiplicity among the rows' statuses, and never more than the number of rows |
| Aggregates.FourCountsBound | app/api/analytics/subjects/route.ts:43-47 | the PENDING, SUBMITTED, APPROVED and REJECTED counts add up to at most the homework total, and to exactly the total iff no row has another status |
| Aggregates.GradeValue | app/api/analytics/subjects/route.ts:52 | the parsed value when the grade parses; 0 exactly when it is NaN or parses to 0, the two falsy values the fallback to 0 replaces |
| Aggregates.Graded | app/api/analytics/subjects/route.ts:50 | each row whose grade is present is kept as often as it occurs and no other row is kept; none are kept iff no grade is present; it is `Listing.Filter`, so `Listing.FilterAppend` gives the order |
| Aggregates.AverageGrade | app/api/analytics/subjects/route.ts:50-53 | the average is null exactly when no row has a grade |
| Aggregates.GradeTotalWithin | app/api/analytics/subjects/route.ts:52 | a sum of n contributions each in [lo, hi] lies in [n*lo, n*hi] |
| Aggregates.AverageWithin | app/api/analytics/subjects/route.ts:51-53 | if every contributed grade value lies in [lo, hi], so does the average |
| Aggregates.GradeTotalUnparsable | app/api/analytics/subjects/route.ts:52 | the `reduce` over grades none of which parses sums to 0 |
| Aggregates.GradeTotalSnoc | app/api/analytics/subjects/route.ts:52 | the `reduce` over one more graded row adds that row's value to the sum |
| Aggregates.AddUnparsable | app/api/analytics/subjects/route.ts:50-52 | adding a row whose grade is present but unparsable, next to any other rows, adds it to the graded rows (the denominator grows by one) and leaves the sum unchanged |
| Aggregates.MixedGradesExample | app/api/analytics/subjects/route.ts:50-53 | grades "90" and "abc" average to 45, not 90 |
| Aggregates.AverageOfUnparsable | app/api/analytics/subjects/route.ts:50-53 | when some grade is present and none parses, the average is 0, not null: unparsable grades stay in the denominator |
| SubjectAnalytics.StatsOf | app/api/analytics/subjects/route.ts:41-69 | ids, names, description and teacher copied; total is the number of homework; each status count is that status's multiplicity; the four counts sum to at most the total, with equality iff no other status; average null iff no grade |
| SubjectAnalytics.AverageGradeWithin | app/api/analytics/subjects/route.ts:49-53 | a subject whose grade values lie in [lo, hi] has its average in [lo, hi] |
| SubjectAnalytics.Get | app/api/analytics/subjects/route.ts:6-95 | 401 "Unauthorized" exactly when there is no session; 500 when the query fails; otherwise 200 with one summary per subject, in order |
| SubjectAnalytics.ThreeHomeworkExample | app/api/analytics/subjects/route.ts:41-69 | APPROVED "90", REJECTED "40" and PENDING without a grade give total 3, one of each of those statuses, and average 65 |
| UserAnalytics.SubjectIdsCount | app/api/analytics/users/route.ts:72-73 | the distinct subject count is at most the submission count; it is 0 iff there are no submissions; it equals the submission count iff every submission is to a different subject |
| UserAnalytics.HomeworksInSubjects | app/api/analytics/users/route.ts:77 | the `reduce` total is at least each taught subject's homework count, and 0 exactly when no taught subject has homework |
| UserAnalytics.HomeworksInSubjectsAppend | app/api/analytics/users/route.ts:77 | the left fold over taught subjects is additive over concatenation |
| UserAnalytics.HomeworksInSubjectsFront | app/api/analytics/users/route.ts:77 | the fold counts the first subject's homework plus the rest's |
| UserAnalytics.SuccessRate | app/api/analytics/users/route.ts:92 | 0 with no submissions; otherwise rate times submissions equals approved times 100; within [0, 100] when approved ≤ submitted; 100 when all are approved |
| UserAnalytics.StatsOf | app/api/analytics/users/route.ts:57-95 | ids copied; four status counts by multiplicity; STUDENT: total = submissions and subjects = distinct subject ids (≤ total); other roles: taught-subject homework sum and taught-subject count; average null iff no grade; rate from the submission count, in [0, 100], 0 with no submissions |
| UserAnalytics.Get | app/api/analytics/users/route.ts:6-141 | 401 "Unauthorized" exactly when there is no session; 500 when the query fails; otherwise 200 with one summary per user, in order |
| UserAnalytics.NewStudentExample | app/api/analytics/users/route.ts:57-95 | a student with no submissions has total 0, no average, 0 subjects and rate 0 |
| UserAnalytics.TwoSubjectTeacherExample | app/api/analytics/users/route.ts:76-90 | a teacher of subjects with 3 and 5 homework has total 8 and 2 subjects |
| Text.Split | app/api/homework/route.ts:27 | no piece contains the separator; there is more than one piece exactly when the separator occurs |
| Text.JoinSplit | app/api/homework/route.ts:27 | joining the pieces with the separator gives the original string back |
| Text.SplitSingle | app/api/homework/route.ts:27-28 | one piece exactly when there is no separator, and that piece is the whole string |
| Text.Trim | app/api/homework/route.ts:27 | the result is the input from its first non-white-space character on, with only white space removed at the front and at the back, and it neither starts nor ends with white space |
| Text.TrimIdempotent | app/api/homework/route.ts:27 | trimming twice is trimming once |
| Text.ParseInt | app/api/homework/route.ts:74 | NaN for a string with no decimal digit, and NaN when the first character is not white space, a sign or a digit |
| Text.ParseIntDecimal | app/api/homework/route.ts:74 | `parseInt` reads back the decimal rendering of every natural number |
| Text.Lower | app/dashboard/reviewed-works/page.tsx:86-87 | same length; each letter A–Z becomes its lower-case letter (code + 32) and every other character is kept; no upper-case ASCII letter remains |
| Text.LowerIdempotent | app/dashboard/reviewed-works/page.tsx:86-87 | lower-casing twice is lower-casing once |
| Text.Contains | app/dashboard/reviewed-works/page.tsx:86-87 | `includes` holds only when the needle fits in the haystack, and always for the empty needle |
| Text.ContainsIffOccurs | app/dashboard/reviewed-works/page.tsx:86-87 | `includes` holds exactly when the needle occurs at some position |
| HomeworkRoute.TrimAllMember | app/api/homework/route.ts:27 | a text is in the trimmed list exactly when some piece trims to it |
| HomeworkRoute.StatusList | app/api/homework/route.ts:27 | at least one piece, and several exactly when the parameter holds a comma |
| HomeworkRoute.StatusFilterOf | app/api/homework/route.ts:26-34 | a membership filter (over at least two statuses) exactly when the parameter holds a comma; otherwise equality with the parameter as given |
| HomeworkRoute.StatusFilterMeaning | app/api/homework/route.ts:26-34 | the status filter passes a status exactly when, with commas, some piece trims to it, or, without, it is the parameter |
| HomeworkRoute.WhereMeaning | app/api/homework/route.ts:14-39 | a filter with each key set from its non-empty parameter passes exactly the homework every given parameter asks for |
| HomeworkRoute.FindArgsOf | app/api/homework/route.ts:14-74 | each filter key is set exactly when its parameter is non-empty; `take` is `parseInt(limit)` exactly when a limit is given; the filter passes exactly what the parameters ask for |
| HomeworkRoute.TwoStatusesAsked | app/api/homework/route.ts:26-31 | two comma-joined statuses with no commas or outer white space ask for exactly those two |
| HomeworkRoute.TwoStatusRequest | app/api/homework/route.ts:20-34 | a teacher id plus two such statuses selects exactly that teacher's homework in one of the two |
| HomeworkRoute.Post | app/api/homework/route.ts:84-119 | unreadable body gives 500; 400 "Missing required fields" exactly when title, content, student or subject is missing or empty; a store failure gives 500; otherwise 201 with status SUBMITTED, fields copied, and a due date exactly when a non-empty one was given |
| Listing.StrLess | app/dashboard/reviewed-works/page.tsx:125-126 | no string is less than itself, and a proper prefix is less than the longer string |
| Listing.StrLessMeaning | app/dashboard/reviewed-works/page.tsx:125-126 | `a` is less than `b` exactly when at the first position where they differ `a` has ended or has the smaller character |
| Listing.StrLessTotal | app/dashboard/reviewed-works/page.tsx:125-126 | of two different strings exactly one is less |
| Listing.StrLessTransitive | app/dashboard/reviewed-works/page.tsx:125-126 | string `<` is transitive |
| Listing.Less | app/dashboard/reviewed-works/page.tsx:125-126 | `<` never relates a key to itself |
| Listing.LessTotal | app/dashboard/reviewed-works/page.tsx:125-126 | `<` on keys is irreflexive, total on different keys and asymmetric |
| Listing.Compare | app/dashboard/reviewed-works/page.tsx:125-127 | the comparator returns -1, 0 or 1 |
| Listing.CompareProperties | app/dashboard/reviewed-works/page.tsx:125-127 | 0 exactly on equal keys; antisymmetric; reversing the direction negates every result |
| Listing.CompareDirection | app/dashboard/reviewed-works/page.tsx:125-127 | ascending, "no later" means not greater; descending, not less |
| Listing.CompareTransitive | app/dashboard/reviewed-works/page.tsx:125-127 | "no later" is transitive, so the comparator is consistent |
| Listing.FilterCount | app/dashboard/reviewed-works/page.tsx:85 | `filter` keeps exactly the elements satisfying the test, each with its full multiplicity |
| Listing.FilterAppend | app/dashboard/reviewed-works/page.tsx:85 | filtering a concatenation filters each part and concatenates the results, so kept elements stay in their original order |
| Listing.FilterAll | app/dashboard/reviewed-works/page.tsx:85 | a test that keeps everything returns the list itself |
| Listing.Sort | app/dashboard/reviewed-works/page.tsx:92 | the sorted copy is a permutation of the list |
| Listing.SortSorted | app/dashboard/reviewed-works/page.tsx:92-128 | every element sorts no later than the next |
| Listing.SortStable | app/dashboard/reviewed-works/page.tsx:92 | elements with equal keys keep their relative order |
| Listing.SortOfSorted | app/dashboard/reviewed-works/page.tsx:92 | a list already in order is left unchanged |
| Listing.SortTwice | app/dashboard/reviewed-works/page.tsx:92 | sorting twice is sorting once |
| Listing.SortUnique | app/dashboard/reviewed-works/page.tsx:92 | any ordered list that keeps each key's elements in their original order equals `Sort`'s result |
| Listing.Click | app/dashboard/reviewed-works/page.tsx:133-142 | a click selects its field and keeps the term; on the current field it flips the order, on another field the order becomes descending |
| Listing.ClickTwice | app/dashboard/reviewed-works/page.tsx:133-142 | two clicks on the current field restore the controls; two on another field select it ascending |
| Listing.Cleared | app/dashboard/reviewed-works/page.tsx:170-174 | empty term, the given default field, descending |
| ReviewedWorks.ReviewedWorksRequest | app/dashboard/reviewed-works/page.tsx:59 | the page's request selects exactly the APPROVED and REJECTED homework of the teacher's subjects |
| ReviewedWorks.Reviewed | app/dashboard/reviewed-works/page.tsx:62-67 | keeps a homework exactly when it is APPROVED or REJECTED or has a non-empty grade or feedback, with full multiplicity |
| ReviewedWorks.Search | app/dashboard/reviewed-works/page.tsx:84-89 | an empty term keeps the list; otherwise a homework stays, as often as it occurs, exactly when its lower-cased subject or student name includes the lower-cased term |
| ReviewedWorks.SearchAppend | app/dashboard/reviewed-works/page.tsx:84-89 | the search keeps the response's order: searching a concatenation concatenates the searches |
| ReviewedWorks.EmptyTermKeepsAll | app/dashboard/reviewed-works/page.tsx:84-89 | the search test keeps everything for the empty term, so the empty-term branch changes nothing |
| ReviewedWorks.SearchIgnoresCase | app/dashboard/reviewed-works/page.tsx:86-87 | searching for a lower-cased term gives the same list as searching for the term |
| ReviewedWorks.KeyOf | app/dashboard/reviewed-works/page.tsx:96-123 | a time key exactly for the two date columns, otherwise a text key already in lower case |
| ReviewedWorks.KeyOfProperties | app/dashboard/reviewed-works/page.tsx:96-123 | the keys of one column are all times (dates) or all texts (others); in every text column, values equal up to case sort level |
| ReviewedWorks.FilteredAndSorted | app/dashboard/reviewed-works/page.tsx:80-131 | the shown list is a permutation of the search result |
| ReviewedWorks.FilteredAndSortedOrdered | app/dashboard/reviewed-works/page.tsx:92-128 | adjacent shown keys are non-decreasing ascending and non-increasing descending |
| ReviewedWorks.FilteredAndSortedStable | app/dashboard/reviewed-works/page.tsx:92 | homework with equal keys appear in search-result order |
| ReviewedWorks.Page.constructor | app/dashboard/reviewed-works/page.tsx:34-39 | empty list, empty term, `updatedAt`, descending |
| ReviewedWorks.Page.Receive | app/dashboard/reviewed-works/page.tsx:60-67 | the list becomes the reviewed part of the response; the controls are unchanged |
| ReviewedWorks.Page.SetSearchTerm | app/dashboard/reviewed-works/page.tsx:214 | only the term changes |
| ReviewedWorks.Page.SetSortField | app/dashboard/reviewed-works/page.tsx:220 | only the field changes |
| ReviewedWorks.Page.SetSortOrder | app/dashboard/reviewed-works/page.tsx:233 | only the order changes |
| ReviewedWorks.Page.HandleSort | app/dashboard/reviewed-works/page.tsx:133-142 | the controls become `Click` of the old controls; the list is unchanged and the shown list keeps its elements |
| ReviewedWorks.Page.ClearFilters | app/dashboard/reviewed-works/page.tsx:170-174 | the controls become empty term, `updatedAt`, descending, whatever they were, so a second call changes nothing; the list is unchanged |
| SubmittedWorks.SubmittedWorksRequest | app/dashboard/submitted-works/page.tsx:57 | the page's request selects exactly the student's homework |
| SubmittedWorks.Submitted | app/dashboard/submitted-works/page.tsx:61 | keeps exactly the homework whose status is not PENDING, with full multiplicity |
| SubmittedWorks.Search | app/dashboard/submitted-works/page.tsx:78-82 | an empty term keeps the list; otherwise a homework stays, as often as it occurs, exactly when its lower-cased subject name includes the lower-cased term |
| SubmittedWorks.SearchAppend | app/dashboard/submitted-works/page.tsx:78-82 | the search keeps the response's order: searching a concatenation concatenates the searches |
| SubmittedWorks.EmptyTermKeepsAll | app/dashboard/submitted-works/page.tsx:78-82 | the search test keeps everything for the empty term |
| SubmittedWorks.SearchIgnoresCase | app/dashboard/submitted-works/page.tsx:80 | searching for a lower-cased term gives the same list as searching for the term |
| SubmittedWorks.KeyOf | app/dashboard/submitted-works/page.tsx:89-108 | a time key exactly for `createdAt`, otherwise a text key already in lower case |
| SubmittedWorks.KeyOfProperties | app/dashboard/submitted-works/page.tsx:89-108 | the keys of one column are all times (`createdAt`) or all texts; in every text column, values equal up to case sort level |
| SubmittedWorks.FilteredAndSorted | app/dashboard/submitted-works/page.tsx:74-116 | the shown list is a permutation of the search result |
| SubmittedWorks.FilteredAndSortedOrdered | app/dashboard/submitted-works/page.tsx:85-113 | adjacent shown keys are non-decreasing ascending and non-increasing descending |
| SubmittedWorks.FilteredAndSortedStable | app/dashboard/submitted-works/page.tsx:85 | homework with equal keys appear in search-result order |
| SubmittedWorks.Page.constructor | app/dashboard/submitted-works/page.tsx:32-37 | empty list, empty term, `createdAt`, descending |
| SubmittedWorks.Page.Receive | app/dashboard/submitted-works/page.tsx:58-61 | the list becomes the non-pending part of the response; the controls are unchanged |
| SubmittedWorks.Page.SetSearchTerm | app/dashboard/submitted-works/page.tsx:199 | only the term changes |
| SubmittedWorks.Page.SetSortField | app/dashboard/submitted-works/page.tsx:205 | only the field changes |
| SubmittedWorks.Page.SetSortOrder | app/dashboard/submitted-works/page.tsx:217 | only the order changes |
| SubmittedWorks.Page.HandleSort | app/dashboard/submitted-works/page.tsx:118-127 | the controls become `Click` of the old controls; the list is unchanged and the shown list keeps its elements |
| SubmittedWorks.Page.ClearFilters | app/dashboard/submitted-works/page.tsx:155-159 | the controls become empty term, `createdAt`, descending, whatever they were; the list is unchanged |

## Left out

- The database queries, `getServerSession`, `useSession`, `fetch` and the React state wiring
  are external I/O. The session is a boolean input. Query results and responses are inputs.
  A failing query or unreadable body is an `Option` that is `None`.
- Executing `findMany` is the database's work: the `include` relations, the `createdAt`
  ordering and the application of `take`. The model gives the filter arguments and proves
  what the filter selects (`HomeworkRoute.Matches` against `HomeworkRoute.Asked`).
  - GET's own 500 path ("Failed to fetch homework", when the query throws) is not modelled.
  - Nor is the ORM rejecting a NaN `take`.
- Status strings are not checked against the ORM's enum. An unknown status sent to the route,
  untrimmed or empty, makes the ORM throw; the model just filters with it.
- Floating point is not modelled. Grades, averages and rates are reals.
  - `parseFloat` is an abstract parameter, so Infinity and the rounding of float division are
    not modelled.
  - The sum is taken in one fixed order; float addition is not associative.
- `new Date(...)` is not modelled. Times are integers, so an invalid date, whose NaN makes
  every comparison false, is not covered. POST's `dueDate` is kept as the text given.
- Text.Lower: lower-cases ASCII letters only, not the full Unicode case mapping of
  `toLowerCase`.
- Listing.StrLess: compares characters (Unicode scalar values), whereas JavaScript compares
  UTF-16 code units. The two differ only beyond the Basic Multilingual Plane.
- Listing.Less: orders a time before a text. A page never compares the two, because a
  column's keys are all of one kind (`KeyOfProperties`); JavaScript would instead convert the
  text to a number.
- Loading and error flags are not modelled, and neither are the non-`ok` response and network
  error paths. Those paths only set a message and leave the list as it was.
- Rendering is not modelled: the tables, `getSortIcon` and `getStatusColor`.
- The commented-out raw SQL in the two analytics routes is dead code.
- The POST body's fields are taken to be strings or absent. The route itself reads an untyped
  JSON body, which has three paths the model does not cover:
  - A falsy non-string field, such as `0` or `false`, also gives 400.
  - A truthy non-string field passes the check, the store then throws, and the route returns 500.
  - A JSON `null` body throws when it is destructured, which gives 500.
- POST's response includes the created record's `student` and `subject` relations. The model
  returns the record's own fields only.
