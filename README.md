# IqraaExam grading core in Dafny

This project models the grading backend of IqraaExam. In an oral exam, each
student is assigned to a grading team and to a rubric, called a "question
group". The team's graders mark items q1..q9 within the rubric's maxima. A
supervisor adds the Q10 bonus mark. The reports then average the two graders,
total the marks and decide pass or fail.

The model follows the backend's routers:

- `common.dfy` holds the shared values: optional values, errors and their HTTP
  status, the nine item marks and their sum, and the rubric's marks structure
  with Python's `dict.get`.
- `models.dfy` holds the stored records and the `Store` class. `Store` is the
  database: one field per table, updated in place by the endpoint methods. Its
  invariant `Valid` says that ids stay below the next free id, that teams and
  sessions stay in id order, that a completed assignment has its Q10, and that
  stored grades have non-negative marks whose total is their sum.
- `grades.dfy` covers starting a grading, submitting marks (create or update)
  and correcting a stored grade.
- `assignments.dfy` covers the assignment lifecycle: creation, Q10 entry, team
  and rubric changes, deletion, the unfinished-exam flag, and the Q10 sync from
  the student roster.
- `question_groups.dfy` covers rubric creation, update and listing, and how a
  rubric bounds a validated grade.
- `teams.dfy` covers grader creation and update, and the teams and graders
  shown for the active exam session.
- `exam_sessions.dfy` covers listing, the active-session lookup, partial
  updates and activation.
- `students.dfy` covers the CSV roster import, from the parsed rows on. The
  import uses the header lookup as written, so a header that still carries a
  byte order mark is not recognised (see "## Findings"). The corrected lookup
  is defined and proved beside it.
- `scoring.dfy` holds the arithmetic the reports share: the per-item average,
  the subtotal, the final total, the statuses and the pass mark of 80.
- `reports.dfy` covers the student results, the two CSV exports, the overall
  summary and the per-grader statistics.
- `sorting.dfy` is the `ORDER BY` of the listings: a sort by a total preorder.

Endpoints that change the database are methods on a `Store`. Their `ensures`
give the new table contents in terms of the old ones, through record-level
functions such as `Grades.Submitted`, `Assignments.WithQ10` and
`ExamSessions.Activated`. The properties are proved about those functions as
lemmas. The report endpoints are methods over the rows their queries load:
each assignment comes with its student, team and rubric (absent when deleted)
and its grades. Their loops are proved against specification functions such
as `Reports.SlotGrade`, `Reports.DetailedRowOf` and `Reports.IsStatOf`.

Some behaviour is modelled as written, even where it looks unintended:

- A new assignment is marked completed as soon as the student has a Q10,
  before any grader has marked it (`Assignments.CreatedCompleteWithoutGraders`).
- A grader update skips the position checks of grader creation
  (`Teams.UpdateCanDuplicatePosition`).
- Graders at positions 2 and 3 share the second report slot, so the last one
  listed wins (`Reports.LastGraderWinsSecondSlot`).
- The summary export shows a final total of 0 as an empty cell
  (`Reports.ZeroFinalShownOnlyInDetail`).
- The two exports can disagree on whether an assignment is completed
  (`Scoring.StatusesCanDisagree`).

## Model

| member | source | states |
|---|---|---|
| Common.Status | backend/app/routers/grades.py:63-75 | A missing record is reported as 404, a grader from another team as 403, and an unhandled crash as 500, each exactly; every error is one of 400, 403, 404 or 500 |
| Common.MarkSumAppend | backend/app/routers/grades.py:110-113 | One more item adds its mark to the total, or 0 when the mark is unset |
| Common.MarkSumBounds | backend/app/routers/grades.py:110-113 | Non-negative marks have a non-negative total that is at least each single mark |
| Common.Get | backend/app/routers/grades.py:91 | `marks_structure.get(key, default)` gives the default when the key is absent and the key's value otherwise |
| Models.Store.constructor | backend/app/models.py:7-138 | A new database holds exactly the given teams and sessions, no other rows, and satisfies the store invariant |
| Grades.ItemError | backend/app/routers/grades.py:85-95 | An item passes exactly when its mark is absent or lies in [0, maximum]; a failing mark is reported as negative, or as above the maximum (0 for a key the rubric lacks) |
| Grades.FirstErrorFrom | backend/app/routers/grades.py:82-95 | From a given item on, there is no error exactly when every later item passes; otherwise the error is that of the first failing item at or after it |
| Grades.FirstError | backend/app/routers/grades.py:82-95 | A submission is refused exactly when some item fails, and then with the error of the first failing item in item order |
| Grades.ValidateMarks | backend/app/routers/grades.py:82-95 | The loop reports exactly the first failing item's error, and no error exactly when every item passes |
| Grades.MergeKeepsOmitted | backend/app/routers/grades.py:103-107 | Updating a stored grade overwrites each provided mark and keeps each omitted one |
| Grades.MergeIdempotent | backend/app/routers/grades.py:103-107 | Submitting the same marks twice changes nothing the second time; a first submission stores exactly the provided marks |
| Grades.OverwriteProvided | backend/app/routers/grades.py:105-107 | The attribute-by-attribute overwrite loop yields the merged marks |
| Grades.MergeNonNegative | backend/app/routers/grades.py:82-107 | Merging validated marks into non-negative stored marks keeps them non-negative |
| Grades.StartRecord | backend/app/routers/grades.py:29-50 | After a start, the record has a start time; an existing start time is kept, a missing one is set to now, and a new record has no marks and starts now |
| Grades.StartIdempotent | backend/app/routers/grades.py:35-40 | Starting twice keeps the first start time: the second call changes nothing |
| Grades.StartGrading | backend/app/routers/grades.py:26-52 | Only the (assignment, grader) record changes, to its started form; the returned time is its stored start time; the store invariant holds |
| Grades.SubmissionTarget | backend/app/routers/grades.py:59-78 | Errors come in the endpoint's order: missing assignment 404, missing grader 404, grader of another team 403, missing rubric 500; it succeeds exactly when none applies |
| Grades.Submitted | backend/app/routers/grades.py:103-135 | The stored grade holds the merged marks and their sum as total, finishes now, and keeps its start time (a new one starts now) |
| Grades.AfterSubmission | backend/app/routers/grades.py:137-145 | A position-1 grader sets the first graded flag and any other position the second; only the flags change; the assignment is completed exactly when it was already or both flags and a Q10 are set; consistency is kept |
| Grades.SubmissionFlagsIdempotent | backend/app/routers/grades.py:137-145 | A second submission from the same position leaves the assignment's flags as they were after the first |
| Grades.StoreSubmission | backend/app/routers/grades.py:98-135 | The grade row under the key becomes the submitted record: the merged marks, their total and the finish time, a new row also starting now; the store invariant holds |
| Grades.SubmitGrade | backend/app/routers/grades.py:55-149 | A lookup error is returned unchanged; otherwise it succeeds exactly when every mark passes validation and reports the first failing item's error if not; on success the grade and the assignment take their submitted forms; a failure changes nothing; Q10s are never lost and the store invariant holds |
| Grades.UpdateGrade | backend/app/routers/grades.py:152-193 | A missing grade is 404, a missing assignment 500 and a missing rubric 500; otherwise a failing mark gets the first failing item's 400 error (negative, or above the maximum), and it succeeds exactly when no item fails, then stores the merged marks and their sum, leaving the times and flags alone; a failure changes nothing |
| Assignments.WithQ10 | backend/app/routers/assignments.py:244-254 | Storing a Q10 sets it, marks the assignment completed exactly when it already was or both graders have marked, and changes nothing else |
| Assignments.NewAssignment | backend/app/routers/assignments.py:175-180 | A new assignment copies the student's Q10, is completed exactly when that Q10 is set, and has no graded or unfinished flag |
| Assignments.CreatedCompleteWithoutGraders | backend/app/routers/assignments.py:177-180 | A student with a Q10 yields an assignment that is completed although neither grader has marked it |
| Assignments.CreateAssignment | backend/app/routers/assignments.py:146-192 | A missing student, team or rubric gives 404 in that order; it succeeds exactly when all three exist and the student has no assignment in that session; the new assignment gets a fresh id; a failure changes nothing |
| Assignments.UpdateQ10 | backend/app/routers/assignments.py:230-270 | A missing assignment is 404; a Q10 outside [0, 10] is rejected and changes nothing; an absent Q10 changes nothing; a valid one is stored as WithQ10 states |
| Assignments.Reassigned | backend/app/routers/assignments.py:292-296 | A team change sets the team, clears both graded flags and the completion flag, and keeps the Q10 |
| Assignments.WithoutGradesOf | backend/app/routers/assignments.py:298 | The grade table keeps exactly the grades of other assignments, unchanged |
| Assignments.UpdateAssignment | backend/app/routers/assignments.py:273-314 | It succeeds exactly when the assignment and every given team and rubric exist; a team change reassigns and deletes that assignment's grades, and a rubric change only swaps the reference; a failure changes nothing |
| Assignments.DeleteAssignment | backend/app/routers/assignments.py:317-332 | A missing assignment is 404 and changes nothing; otherwise the assignment and all its grades are removed and nothing else changes |
| Assignments.MarkExamIncomplete | backend/app/routers/assignments.py:335-357 | Only the unfinished-exam flag changes, to set; a missing assignment is 404 |
| Assignments.MarkExamComplete | backend/app/routers/assignments.py:360-382 | Only the unfinished-exam flag changes, to cleared; a missing assignment is 404 |
| Assignments.Synced | backend/app/routers/assignments.py:394-405 | An assignment without a Q10, whose student has a Q10 in [0, 10], takes it as WithQ10 states; any other assignment is unchanged; consistency is kept |
| Assignments.SyncedNotEligible | backend/app/routers/assignments.py:394-405 | A second sync finds nothing left to copy and changes nothing |
| Assignments.EligibleInAdd | backend/app/routers/assignments.py:397-405 | Looking at one more assignment adds one to the eligible set exactly when it is eligible |
| Assignments.SyncAll | backend/app/routers/assignments.py:396-405 | The loop syncs every assignment and counts exactly the eligible ones |
| Assignments.SyncQ10 | backend/app/routers/assignments.py:385-413 | Every assignment becomes its synced form, the count is the number of eligible assignments, no Q10 is lost, and the store invariant holds |
| ExamSessions.FirstActive | backend/app/routers/exam_sessions.py:33-37 | The active-session lookup finds nothing exactly when no session is active; otherwise it finds the first active session in id order |
| ExamSessions.IndexOf | backend/app/routers/exam_sessions.py:73-75 | The lookup by id finds nothing exactly when no session has that id; otherwise it finds a position holding that id |
| ExamSessions.Selected | backend/app/routers/exam_sessions.py:17-19 | The listing holds exactly the sessions, or only the active ones when asked |
| ExamSessions.ListSessions | backend/app/routers/exam_sessions.py:11-20 | The listing is ordered latest date first and is a permutation of the selected sessions |
| ExamSessions.Activated | backend/app/routers/exam_sessions.py:69-77 | After activation, each session is active exactly when it has the chosen id; nothing else changes |
| ExamSessions.ActivationSelectsOne | backend/app/routers/exam_sessions.py:66-80 | After activating an existing session, it is the only active one and the active-session lookup finds it; activating again changes nothing; id order is kept |
| ExamSessions.DeactivateAll | backend/app/routers/exam_sessions.py:70 | The first step switches every session off and changes nothing else |
| ExamSessions.SwitchOnChosen | backend/app/routers/exam_sessions.py:70-77 | Switching all off and then the chosen one on gives the activated table |
| ExamSessions.ActivateSession | backend/app/routers/exam_sessions.py:66-80 | An unknown id is 404 and changes nothing; otherwise the table becomes the activated one and the chosen session is returned active |
| ExamSessions.IndexOfIds | backend/app/routers/exam_sessions.py:70-73 | Switching sessions off does not change where an id is found |
| ExamSessions.Patched | backend/app/routers/exam_sessions.py:56-59 | Each supplied field is overwritten and each absent one kept; the id and active flag never change |
| ExamSessions.PatchedIdempotent | backend/app/routers/exam_sessions.py:56-59 | An empty update changes nothing, and applying an update twice is applying it once |
| ExamSessions.UpdateExamSession | backend/app/routers/exam_sessions.py:49-63 | An unknown id is 404 and changes nothing; otherwise only that session changes, to its patched form |
| QuestionGroups.FirstMissingItem | backend/app/routers/question_groups.py:21-27 | It finds nothing exactly when all of q1..q9 are keys; otherwise it finds the first missing item |
| QuestionGroups.CreateQuestionGroup | backend/app/routers/question_groups.py:17-41 | It succeeds exactly when all nine items are present and no stored rubric has the code (the unique `code` column), storing the rubric under a fresh id with its total recomputed as the sum of the maxima, whatever total the client sent; a missing item is reported as the first missing one, a taken code as a server error at commit; a failure changes nothing; unique codes stay unique |
| QuestionGroups.UpdateQuestionGroup | backend/app/routers/question_groups.py:53-70 | An unknown id is 404; a code that another rubric holds is a server error at commit; otherwise every field is replaced and the total recomputed, with no check of the item keys; a failure changes nothing; unique codes stay unique |
| QuestionGroups.MissingItemCapsAtZero | backend/app/routers/question_groups.py:53-70 | Once an update has dropped an item's key, any positive mark for that item is rejected as above a maximum of 0 |
| QuestionGroups.LexLeTotal | backend/app/routers/question_groups.py:14 | Any two codes are ordered one way or the other |
| QuestionGroups.LexLeTransitive | backend/app/routers/question_groups.py:14 | The code order is transitive |
| QuestionGroups.CodeLePreorder | backend/app/routers/question_groups.py:14 | Ordering rubrics by code is a total preorder |
| QuestionGroups.ListQuestionGroups | backend/app/routers/question_groups.py:11-14 | The listing is sorted by code and holds every stored rubric exactly once |
| QuestionGroups.ItemKeys | backend/app/routers/question_groups.py:21 | The required keys are q1..q9, in order and distinct |
| QuestionGroups.GetAppend | backend/app/routers/grades.py:91 | Looking up a key in a structure with one more entry finds the earlier value if there is one, otherwise the new entry's value when its key matches |
| QuestionGroups.MaximaSumAppend | backend/app/routers/question_groups.py:30 | An entry with a fresh key adds its value to the maxima of the item keys exactly when it is one of them |
| QuestionGroups.MaximaSumBound | backend/app/routers/question_groups.py:30 | The maxima of distinct items add up to at most the rubric's total |
| QuestionGroups.MaximaSumEmpty | backend/app/routers/question_groups.py:30 | An empty structure gives every item a maximum of 0 |
| QuestionGroups.AcceptedPrefixWithinMaxima | backend/app/routers/grades.py:82-95 | Validated marks of the first n items sum to at most those items' maxima |
| QuestionGroups.AcceptedTotalWithinRubric | backend/app/routers/grades.py:82-113 | The total of validated marks never exceeds the rubric's total |
| Sorting.Insert | backend/app/routers/exam_sessions.py:20 | Inserting into a sorted sequence keeps it sorted and adds exactly the element |
| Sorting.SortBy | backend/app/routers/exam_sessions.py:20 | The result is sorted and a permutation of the input |
| Teams.TeacherCheck | backend/app/routers/teams.py:123-141 | A new grader passes exactly when the team exists, the position is 1, 2 or 3, and no grader of that team holds it; failures come in that order |
| Teams.CreationKeepsPositionsUnique | backend/app/routers/teams.py:120-147 | A grader that passes the checks keeps positions unique within each team and holds a valid position |
| Teams.CreateTeacher | backend/app/routers/teams.py:120-147 | It fails with the error of the creation checks and changes nothing, or stores the teacher under a fresh id; unique positions stay unique |
| Teams.UpdateTeacher | backend/app/routers/teams.py:159-171 | An unknown id is 404; otherwise the teacher is overwritten as given, unchecked |
| Teams.UpdateCanDuplicatePosition | backend/app/routers/teams.py:159-171 | An update can give two graders of one team the same position, which creation would refuse |
| Teams.RoomCount | backend/app/routers/teams.py:28 | An unset or zero room count means four rooms; otherwise the stored count |
| Teams.GradersPerRoom | backend/app/routers/teams.py:97 | An unset or zero count means two graders per room; otherwise the stored count |
| Teams.FirstTeams | backend/app/routers/teams.py:30 | `LIMIT n` gives the first n teams in id order, or all of them for a negative or larger n |
| Teams.TeamsForActiveSession | backend/app/routers/teams.py:21-34 | With no active session all teams are shown; otherwise the first room-count teams of the first active session |
| Teams.TeachersForActiveSession | backend/app/routers/teams.py:90-110 | With no active session all graders are shown; otherwise exactly those in a shown team whose position is at most the graders per room |
| Teams.ShownGradersInShownTeams | backend/app/routers/teams.py:90-110 | Every grader shown for the active session belongs to a team shown for it |
| Students.LeadingSpaces | backend/app/routers/students.py:138 | Counts exactly the whitespace at the front |
| Students.TrailingSpaces | backend/app/routers/students.py:138 | Counts exactly the whitespace at the back |
| Students.Trim | backend/app/routers/students.py:138 | `strip()` leaves no whitespace at either end, is empty exactly for all-whitespace text, and otherwise is the slice between the leading and the trailing whitespace |
| Students.TrimIdempotent | backend/app/routers/students.py:138-156 | Stripping twice is stripping once |
| Students.ColumnFieldAsWritten | backend/app/routers/students.py:137-139 | A header names a field exactly when its stripped form is in the column map, and then names that field |
| Students.ByteOrderMarkHidesFirstColumn | backend/app/routers/students.py:101-109 | As written, a UTF-8 file with a byte order mark hides its first header ("name" is not recognised) |
| Students.ByteOrderMarkIgnored | backend/app/routers/students.py:101-109 | With the mark ignored, the same header names the name column |
| Students.ByteOrderMarkRowRefused | backend/app/routers/students.py:101-161 | As written, a row whose only cell is a name under the marked header has no name and is refused with an empty-name error, whatever the cell holds |
| Students.NameCellAdmittedWithoutMark | backend/app/routers/students.py:101-163 | The corrected lookup names the marked header as the name column, and the same cell under the header without the mark gives the stripped name and an admitted student |
| Students.ColumnField | backend/app/routers/students.py:101-139 | The corrected lookup drops a leading byte order mark and otherwise agrees with the lookup as written |
| Students.ApplyField | backend/app/routers/students.py:137-156 | Through the lookup as written: an unknown header or an empty cell changes nothing; a non-empty name, phone or regular teacher cell sets that field to the stripped text; a birth year cell sets the parsed integer and a Q10 cell the parsed number within [0, 10], and otherwise changes nothing; nothing else changes; a well-formed row stays well-formed |
| Students.RowData | backend/app/routers/students.py:136-156 | Every mapped row is well-formed: texts are stripped and not empty, and a Q10 lies in [0, 10] |
| Students.UnknownColumnIgnored | backend/app/routers/students.py:137-139 | A cell under a missing header, or one the lookup as written does not know, leaves the row's data unchanged |
| Students.MapRow | backend/app/routers/students.py:136-156 | The per-cell loop yields the row's data |
| Students.ToStudent | backend/app/routers/students.py:163 | The stored student carries exactly the row's fields |
| Students.Outcome | backend/app/routers/students.py:158-173 | A row is admitted exactly when it has a name and its insert does not fail; a refusal carries the row's number and is an empty-name error exactly when the name is missing |
| Students.EveryRowAccounted | backend/app/routers/students.py:134-174 | Each row is either created or reported, never both or neither |
| Students.ImportedWellFormed | backend/app/routers/students.py:149-163 | Every imported student has a non-empty name and a Q10 only within [0, 10] |
| Students.RejectedInFileOrder | backend/app/routers/students.py:134-174 | Errors are reported at most once per row, in file order, with line numbers from 2 to the row count plus 1 |
| Students.EmptyNameErrors | backend/app/routers/students.py:158-161 | A row is reported for an empty name exactly when mapping it finds no name |
| Students.ImportStep | backend/app/routers/students.py:134-174 | One more row adds its student to the created ones or its error to the report |
| Students.EnrolledAppend | backend/app/routers/students.py:163-166 | Inserting one more student adds it under the next id |
| Students.EnrolledContents | backend/app/routers/students.py:163-166 | Inserting keeps every existing student and adds exactly the new ones, under consecutive fresh ids |
| Students.EnrolledBelow | backend/app/routers/students.py:163-166 | Every id stays below the next free id |
| Students.ImportRows | backend/app/routers/students.py:134-174 | The loop reports exactly the rejected rows, creates the admitted students in order under consecutive ids, and stores them |
| Students.ImportStudents | backend/app/routers/students.py:85-180 | The import reports the rejected rows, creates the admitted students under consecutive fresh ids and adds them to the table; the store invariant holds |
| Scoring.MarkOf | backend/app/routers/reports.py:109-110 | A slot without a grade has no mark |
| Scoring.Average | backend/app/routers/reports.py:115-123 | The average is absent exactly when both marks are |
| Scoring.AverageProperties | backend/app/routers/reports.py:115-123 | Two marks give their mean, which lies between them; a single mark is kept as it is; the average is symmetric; equal marks average to themselves |
| Scoring.ItemAverages | backend/app/routers/reports.py:107-123 | Each item's average is the average of the two slots' marks |
| Scoring.SingleGraderAverages | backend/app/routers/reports.py:115-121 | With a single grader the averages are that grader's marks |
| Scoring.MeanOfSums | backend/app/routers/reports.py:115-126 | When both graders marked the same items, the sum of the averages is the mean of their totals |
| Scoring.SubtotalOfGraders | backend/app/routers/reports.py:126 | A single grader's subtotal is that grader's total; two graders with the same items give the mean of their totals |
| Scoring.SubtotalNonNegative | backend/app/routers/reports.py:107-126 | Non-negative marks give non-negative averages and subtotal |
| Scoring.FinalTotal | backend/app/routers/reports.py:128-131 | The final total exists exactly when the subtotal is positive and Q10 is set, and is their sum |
| Scoring.FinalExceedsQ10 | backend/app/routers/reports.py:128-131 | A final total exceeds its Q10, so with a non-negative Q10 it is positive |
| Scoring.Present | backend/app/routers/reports.py:320-330 | The summary keeps at most one value per item |
| Scoring.SumAppend | backend/app/routers/reports.py:332 | One more value adds itself to the sum |
| Scoring.SumOfPresent | backend/app/routers/reports.py:320-332 | Summing the present averages equals summing all of them with absent as 0 |
| Scoring.SubtotalCopiesAgree | backend/app/routers/reports.py:126 | The subtotal agrees in all three reports: the results and the detailed export sum every average with absent as 0, the summary sums the present ones |
| Scoring.DetailedStatus | backend/app/routers/reports.py:200-205 | Unfinished exactly for an unfinished exam; otherwise completed exactly when the completion flag is set, pending when not |
| Scoring.SummaryDecision | backend/app/routers/reports.py:340-348 | An unfinished exam fails; otherwise a final total of at least 80 passes, a lower one fails, and without a final total the status is pending with no verdict |
| Scoring.VerdictMonotone | backend/app/routers/reports.py:345 | A higher final total never turns a pass into a fail |
| Scoring.CompletedInBothExports | backend/app/routers/reports.py:200-205 | A consistent completed assignment with a positive subtotal is completed in the summary export too |
| Scoring.StatusesCanDisagree | backend/app/routers/reports.py:340-348 | The converse fails: the summary can call completed an assignment the detailed export calls pending |
| Reports.Query | backend/app/routers/reports.py:74-79 | Keeps only the rows that pass the set (non-zero) filters, never more rows than loaded |
| Reports.QueryMembers | backend/app/routers/reports.py:74-79 | A row is returned exactly when it was loaded and passes every set filter |
| Reports.IntactRows | backend/app/routers/reports.py:86-87 | Keeps only the rows whose student, team and rubric exist |
| Reports.IntactRowsMembers | backend/app/routers/reports.py:86-87 | A row is kept exactly when it was loaded and its student, team and rubric all exist |
| Reports.WithStudent | backend/app/routers/reports.py:303-304 | Keeps only the rows whose student exists |
| Reports.WithStudentMembers | backend/app/routers/reports.py:303-304 | A row is kept exactly when it was loaded and its student exists |
| Reports.WithStudentStep | backend/app/routers/reports.py:302-304 | One more row is kept exactly when its student exists |
| Reports.SlotGrade | backend/app/routers/reports.py:94-100 | A slot is empty exactly when no listed grade belongs there; otherwise it holds the last one listed that does |
| Reports.PickSlots | backend/app/routers/reports.py:94-100 | The slot loop fills both slots as SlotGrade states |
| Reports.LastGraderWinsSecondSlot | backend/app/routers/reports.py:94-100 | With graders at positions 2 and 3 the later one hides the other; a grade whose grader is gone is ignored |
| Reports.SlotMarks | backend/app/routers/reports.py:109-113 | A slot's marks are its grade's marks, all absent for an empty slot |
| Reports.AverageMarks | backend/app/routers/reports.py:107-123 | The averaging loop yields the item averages |
| Reports.PresentAverages | backend/app/routers/reports.py:320-330 | The summary's averaging loop yields the present item averages |
| Reports.ResultFigures | backend/app/routers/reports.py:107-145 | A result shows each slot's marks and their averages, the subtotal only when positive, and the final total only when defined as subtotal plus Q10 |
| Reports.ResultRow | backend/app/routers/reports.py:89-147 | The loop body builds the row's result |
| Reports.StudentResults | backend/app/routers/reports.py:59-149 | One result per queried row whose student, team and rubric exist, in query order |
| Reports.IntegerOrBlank | backend/app/routers/reports.py:210 | `value or ''` is empty exactly for an unset value or 0 |
| Reports.TextOrBlank | backend/app/routers/reports.py:211 | `value or ''` is empty exactly for an unset or empty text |
| Reports.MarkCell | backend/app/routers/reports.py:220 | A mark cell is empty exactly when the mark is absent, so 0 is shown |
| Reports.PositiveCell | backend/app/routers/reports.py:247 | A subtotal cell is empty exactly when the subtotal is not positive |
| Reports.SummaryFinalCell | backend/app/routers/reports.py:356 | The summary's final cell is empty exactly when the total is absent or 0 |
| Reports.LabelsDistinct | backend/app/routers/reports.py:340-348 | The three status texts and the three verdict texts are told apart |
| Reports.HeaderRow | backend/app/routers/reports.py:183 | A header becomes one text cell per column name |
| Reports.HeaderLayout | backend/app/routers/reports.py:176-182 | The detailed header has 36 columns and the summary header 8; the three blocks of nine item columns are numbered 1 to 9 |
| Reports.StudentCells | backend/app/routers/reports.py:208-213 | The student part of a row has five cells |
| Reports.MarkCells | backend/app/routers/reports.py:218-225 | One mark cell per mark, in item order |
| Reports.DetailedRowOf | backend/app/routers/reports.py:208-257 | A detailed row has as many cells as the header |
| Reports.DetailedRowColumns | backend/app/routers/reports.py:199-257 | Each column holds what its header names: status, each slot's item marks, their averages, the positive subtotal, Q10 and the final total |
| Reports.SummaryRowOf | backend/app/routers/reports.py:350-359 | A summary row has as many cells as the header and starts with the student cells |
| Reports.AppendMarkCells | backend/app/routers/reports.py:218-225 | The mark loop appends one cell per mark |
| Reports.DetailedRow | backend/app/routers/reports.py:185-257 | The loop body builds the detailed row |
| Reports.SummaryRow | backend/app/routers/reports.py:302-359 | The loop body builds the summary row |
| Reports.FinalCellsAgree | backend/app/routers/reports.py:253-257 | With Q10 unset or non-negative, both exports show the same final total |
| Reports.ZeroFinalShownOnlyInDetail | backend/app/routers/reports.py:356 | A final total of 0 (subtotal 5, Q10 -5) shows as 0 in the detailed export and as empty in the summary |
| Reports.ExportDetailed | backend/app/routers/reports.py:152-272 | It fails with 500 exactly when a queried row lacks its student, team or rubric; otherwise it gives the header, then one row per queried assignment in order |
| Reports.KeptRows | backend/app/routers/reports.py:302-304 | It fails exactly when a row with a student lacks its team or rubric; otherwise it keeps the rows with a student, all intact |
| Reports.SummaryRows | backend/app/routers/reports.py:299-360 | The header, then one summary row per kept assignment |
| Reports.ExportSummary | backend/app/routers/reports.py:275-371 | Rows without a student are skipped; it fails with 500 exactly when a kept row lacks its team or rubric; otherwise the header, then one row per kept assignment in order |
| Reports.Count | backend/app/routers/reports.py:388-391 | A count never exceeds the number of assignments |
| Reports.CountDisjoint | backend/app/routers/reports.py:388-391 | Two conditions no assignment meets together count at most the assignments |
| Reports.InSession | backend/app/routers/reports.py:382-383 | With a session filter set, only that session's assignments are counted |
| Reports.InSessionMembers | backend/app/routers/reports.py:382-383 | An assignment is counted exactly when it is in the table and, with a session filter set, in that session |
| Reports.InSessionWithin | backend/app/routers/reports.py:382-385 | The filtered assignments are among the assignments |
| Reports.OfTeam | backend/app/routers/reports.py:397 | A team's assignments all belong to it |
| Reports.OfTeamMembers | backend/app/routers/reports.py:397 | An assignment is counted for a team exactly when it is in the table and belongs to that team |
| Reports.Summary | backend/app/routers/reports.py:374-413 | Each count counts its condition over the session's assignments, and pending is total minus completed; the team breakdown follows the teams; no team count exceeds the total; with consistent assignments, completed plus awaiting Q10 is at most the total |
| Reports.Minutes | backend/app/routers/reports.py:41-42 | A duration exists exactly when both ends were recorded |
| Reports.GradingTimes | backend/app/routers/reports.py:39-44 | Only realistic times, strictly between 0 and 120 minutes, are kept |
| Reports.GradingTimesMembers | backend/app/routers/reports.py:39-44 | A time is averaged exactly when it is realistic and some grade took that long |
| Reports.GradedCount | backend/app/routers/reports.py:52 | The graded count never exceeds the grades |
| Reports.RealisticSum | backend/app/routers/reports.py:43-46 | Realistic times sum to between 0 and 120 times their number |
| Reports.MeanOfRealisticTimes | backend/app/routers/reports.py:46 | The mean exists exactly when there is a time, and is itself realistic |
| Reports.GradingStats | backend/app/routers/reports.py:36-52 | The loop counts the graded grades and averages the realistic times, which stay realistic |
| Reports.GradesOf | backend/app/routers/reports.py:29-36 | A grader's grades, filtered by session when one is given, are never more than the grade rows |
| Reports.GradesOfMembers | backend/app/routers/reports.py:29-36 | A grade is counted exactly when some grade row holds it whose grader is the given one and, with a session filter set, whose assignment exists and is in that session |
| Reports.FindTeam | backend/app/routers/reports.py:51 | Finds the teacher's team exactly when it exists |
| Reports.StatAverageRealistic | backend/app/routers/reports.py:40-52 | A statistics line counts at most the teacher's grades and reports a realistic average |
| Reports.StatOf | backend/app/routers/reports.py:27-54 | A grader whose team is gone crashes the line; otherwise it is the teacher's statistics line |
| Reports.TeacherStatistics | backend/app/routers/reports.py:18-56 | It fails with 500 exactly when some grader's team is gone; otherwise it gives one statistics line per grader, in order |

## Left out

- Backups are not part of this model: `create_backup` and the backup listing are file I/O. UpdateQ10 takes whether the backup fails as a parameter, and the contract shows the result does not depend on it.
- The CSV file itself is left out: reading the upload, the encoding fallbacks, the `.csv` name check, the `DictReader` parsing, and writing the CSV text. The import starts from rows of (header, value) cells and the exports end at rows of cells.
- `int()` and `float()` are parameters of the import, since their parsing rules are Python's. What an insert that raises does is a parameter too: the set of row numbers whose commit fails.
- Rounding (`round(x, 1)`, `round(x, 2)`) is left out. Marks and totals are exact reals, and the reports show unrounded values.
- The clock is a natural-number parameter (`now`), and minutes are its differences. Durations are not converted from `timedelta`.
- SQL, the ORM, transactions and concurrency are left out. Each endpoint is one atomic step. An error raised before the commit leaves the store as it was.
- UpdateGrade: the source sets each mark right after validating it, before checking the next one. The model validates all marks first. The two agree because a failure raises before the commit, which discards the earlier sets.
- Row order of unordered queries is the order of the loaded rows (or of the map's keys). Grades are keyed by (assignment, grader) instead of by their own id, since the endpoints keep at most one grade per pair.
- The report endpoints take the rows their queries load as input: each assignment with its student, team, rubric and grades, and the teacher table. The joins are not modelled.
- The plain CRUD endpoints are left out. These are the getters, the team and session creation, and the deletes other than `delete_assignment`, which only read or write one row with no rule beyond a 404.
- The frontend, the seed script and `is_second_term` are left out. Neither `created_at` nor `updated_at` are modelled.
- Reports.Summary: the team breakdown's counts are not proved to add up to the total. Assignments of a deleted team appear in no team.
- Reports.SummaryRows: the summary export formats a row while it filters. The model formats the rows after filtering. The result is the same because an error discards all output.
- A third grader's marks appear in the reports only through the second slot (Reports.LastGraderWinsSecondSlot). Nothing else about a third grader is modelled.

## Findings

| source | as written | input that shows it | evidently intended | confidence | as-written member | corrected member |
|---|---|---|---|---|---|---|
| backend/app/routers/students.py:101-109 | The decoding loop tries plain `utf-8` before `utf-8-sig`. A file with a byte order mark decodes under `utf-8`, keeping the mark as the first character of the first header. The header lookup at lines 137-139 only strips whitespace, so the first column is not recognised. | A file saved with a byte order mark whose first header is `name`: every row is reported with an empty name and no student is imported. | The byte order mark is ignored, so `name` names the name column. | not executed | Students.ColumnFieldAsWritten, Students.ByteOrderMarkHidesFirstColumn, Students.ByteOrderMarkRowRefused | Students.ColumnField, Students.ByteOrderMarkIgnored, Students.NameCellAdmittedWithoutMark |
