# Reporter: a verified model of the assessment reporter

The system reads four datasets (students, assessments, questions and student
responses). For one student it prints one of three reports:

- the **diagnostic** report: the latest completed attempt, with right answers
  counted per strand;
- the **progress** report: every completed attempt, grouped by assessment, with
  the change in raw score from the first attempt to the last;
- the **feedback** report: the latest completed attempt, with the right option
  and the chosen option for every wrong answer.

All of this lives in the class `App\Reporter` (`app/Reporter.php`). This
project models that class in Dafny and proves what its lookups, its sort, its
tallies and its grouping compute.

## Layout

| file | module | what it holds |
|---|---|---|
| `records.dfy` | `Records` | The record shapes of the four datasets. `Option`. The `Resolves` and `IsCorrect` predicates. |
| `collections.dfy` | `Collections` | First-match lookup by id (`FirstWithId`). `OrderedMap`, a PHP array with string keys in insertion order. `FirstEncounter`, the key order such an array gets. |
| `resolution.dfy` | `Resolution` | The date text normalisation (`str_replace("/", "-", …)`). The two filters of `getCompletedStudentResponses`. The `usort` by completion instant. `reset` and `end`. |
| `scoring.dfy` | `Scoring` | The per-strand tallies of `getStrandResults`. The feedback items of `buildFeedbackResults`. |
| `progress.dfy` | `Progress` | The grouping of `groupResponsesByAssessment`. The score delta of the progress report. |
| `reporter.dfy` | `App` | `class Reporter`: the four datasets as constants, the two memo fields as mutable fields, every method except `formatDate` (see Left out), each PHP loop as a loop, and the data side of the three reports. |
| `scenarios.dfy` | `Scenarios` | The unit tests of `tests/ReporterTest.php`, written as client methods whose postconditions state what each test asserts. Two worked examples: a progress report over two attempts and the feedback on one wrong answer. |

Conventions:

- Each function on a sequence that the PHP code builds with a `foreach` is
  specified in the model by a function over the prefix. The method that models
  the loop keeps "the state so far is the function of the prefix so far" as its
  loop invariant.
- Lemmas then prove what that function means:
  - the tallies count exactly the right answers and the answers of each strand;
  - the groups partition the input;
  - the sort returns a sorted permutation;
  - and so on.
- `strtotime` is a parameter of the model: a constant field `strtotime: string -> int` of the reporter. Nothing is assumed about it. The sort and the first and last lookups are proved for every such function.
- The two memo fields keep the PHP semantics:
  - `student: Option<Student>` is `None` while PHP's `$this->student` is unset or empty;
  - `completedResponses: seq<StudentResponse>` is `[]` while nothing is memoised.
  - Neither memo looks at the id it is asked for, exactly as in the PHP code. A second `getStudent` with another id returns the first student, and `Scenarios.StudentLookups` proves it. `app/ReportCommand.php` builds one reporter per run for one student, so the program never sees this.
- Where PHP returns an empty array or `false` for "nothing found", the model returns `None`.
- Where the report methods would then fail with a `TypeError`, because `reset`/`end` give `false` to a method declared `: array`, the model's report methods return `Failure(NoCompletedResponses)`.

Where the code differs from what its names suggest, the model follows the code:

- **Completed responses.** A response counts as completed when it has a `completed` key (`array_key_exists`, `app/Reporter.php:176-178`), whatever its value. An empty string is not excluded.
- **Memoisation.** `getCompletedStudentResponses` is not memoised per student id. A non-empty memo is returned for any id, and an empty result memoises nothing (`app/Reporter.php:164-166`).
- **Sort stability.** The sort is not promised to be stable. The comparator `strtotime(a) < strtotime(b) ? -1 : 1` never answers "equal". The model states only that the result is sorted and is a permutation of the input, and leaves the order of equal instants open.
- **Progress delta.** The delta of the progress report is correct as written. `$r` is the last element of the group that the inner loop has just walked, and `reset($resps)` is the group's first element. Both come from the same group. `Progress.DeltaIsLatestMinusEarliest` and `App.Reporter.ProgressSection` prove that the delta is the raw score of the assessment's latest attempt minus that of its earliest.

## Model

| member | source | states |
|---|---|---|
| App.Reporter.constructor | app/Reporter.php:19-24 | The reporter holds the four datasets as given and starts with both memos empty; the memo invariant `Valid` holds. |
| App.Reporter.GetStudent | app/Reporter.php:148-161 | A memoised student is returned whatever the id; otherwise the result is the first student with the id (None when there is none) and it becomes the memo. |
| App.Reporter.GetCompletedStudentResponses | app/Reporter.php:163-190 | A non-empty memo is returned unchanged whatever the id; otherwise the result is sorted by completion instant, is exactly (as a multiset) the student's responses that have a `completed` key, and is memoised. |
| App.Reporter.GetFirstCompletedResponse | app/Reporter.php:192-196 | The first memoised response, None when there is none; it is completed no later than any other memoised response. |
| App.Reporter.GetLastCompletedResponse | app/Reporter.php:198-202 | The last memoised response, None when there is none; it is completed no earlier than any other memoised response. |
| App.Reporter.GetStrandResults | app/Reporter.php:204-223 | The loop yields `StrandResults` of the answers: distinct strand keys, no strand with more right answers than answers, and totals adding up to the number of answers. |
| App.Reporter.GroupResponsesByAssessment | app/Reporter.php:225-239 | The loop yields `GroupsOf` the responses: well-formed, every group non-empty and of its own assessment only, and the groups concatenated are a permutation of the input. |
| App.Reporter.BuildFeedbackResults | app/Reporter.php:241-271 | The loop yields one feedback item per wrong answer in answer order (`FeedbackFor`); there are as many as answers minus right answers. |
| App.Reporter.MatchOptions | app/Reporter.php:252-262 | The scan over a question's options finds the last option with the key's id and the last with the chosen id, None where none matches. |
| App.Reporter.GetAssessment | app/Reporter.php:281-289 | The first assessment with the id, None where PHP returns an empty array. |
| App.Reporter.ProgressEntryOf | app/Reporter.php:69-108 | The section of one group: its assessment id, the first assessment with that id (None when there is none), one line per attempt and the group's score delta. No contract of its own; `ProgressEntryFor` and `SectionOf` state what it holds. |
| App.Reporter.ProgressOf | app/Reporter.php:65-110 | There is one progress section per assessment group of the responses. |
| App.Reporter.ProgressOver | app/Reporter.php:69-109 | There is one progress section per group id given. |
| App.Reporter.ProgressOverAt | app/Reporter.php:69-109 | Section i is the section of the i-th group. |
| App.Reporter.SectionOf | app/Reporter.php:84-106 | A section names its assessment and has one line per attempt, in group order, each with that attempt's date, raw score and question count; its delta is the last attempt's raw score minus the first's. |
| App.Reporter.ProgressSection | app/Reporter.php:65-110 | On sorted completed responses, section i is about the i-th assessment in order of first appearance; its lines are that assessment's attempts in completion order, and its delta is the latest attempt's raw score minus the earliest's. |
| App.Reporter.ProgressEntryFor | app/Reporter.php:69-108 | The body of the outer loop for one group: the assessment, one line per attempt, and the final `$r`'s raw score minus `reset`'s, equal to `ProgressEntryOf`. |
| App.Reporter.ProgressEntries | app/Reporter.php:67-109 | The two loops compute `ProgressOf` the responses: one section per group, in group order. |
| App.Reporter.ProgressReport | app/Reporter.php:65-110 | The progress report's data is `ProgressOf` the memoised (or freshly resolved) completed responses, and the memo is resolved as `Resolved` describes. |
| App.Reporter.DiagnosticReport | app/Reporter.php:26-63 | Failure exactly when the memo, once resolved, is empty (on a fresh reporter: exactly when the student has no completed response); otherwise the student, the assessment, the completion text, the raw score, the question count and the strand results of the memo's latest response, which is another student's if the memo already held a list. |
| App.Reporter.DiagnosticOf | app/Reporter.php:26-63 | The facts the diagnostic report prints about one completed response: the student, the assessment, the completion text, the raw score, the number of answers and the strand results. No contract of its own; `DiagnosticReport` states when it is the report's result. |
| App.Reporter.FeedbackReportData | app/Reporter.php:112-146 | Failure exactly when the memo, once resolved, is empty (on a fresh reporter: exactly when the student has no completed response); otherwise the facts and the feedback items of the memo's latest response, which is another student's if the memo already held a list. |
| App.Reporter.FeedbackReportOf | app/Reporter.php:112-146 | The facts the feedback report prints about one completed response, with its feedback items. No contract of its own; `FeedbackReportData` states when it is the report's result. |
| Collections.FirstWithId | app/Reporter.php:281-289 | None exactly when no record has the id; otherwise the record at the first index with the id. |
| Collections.FirstEncounter | app/Reporter.php:231-232 | The keys of an array filled in order: distinct, and holding exactly the values met. |
| Collections.FirstEncounterOrder | app/Reporter.php:231-232 | The keys are ordered by where each is first met in the input. |
| Collections.DistinctTail | app/Reporter.php:225-239 | Proof helper of `Progress.FlattenCount` (behind `GroupsPermuteInput`) and `Scoring.SumCountsSingle` (behind `SumCountsCovers`): a list of distinct keys without its head is still distinct and no longer holds the head. |
| Resolution.Normalize | app/Reporter.php:182-183 | Same length, no '/' left, every '/' becomes '-' and every other character stays. |
| Resolution.NormalizeIdempotent | app/Reporter.php:182-183 | Replacing twice is replacing once. |
| Resolution.SeparatorsAgree | app/Reporter.php:182-184 | Two dates that differ only in using '/' or '-' as separators normalize to the same text, so the comparator reads them as the same instant. |
| Resolution.NormalizeKeepsDashed | app/Reporter.php:182-183 | A text without '/' is unchanged. |
| Resolution.NormalizeAppend | app/Reporter.php:182-183 | The replacement works piece by piece over a concatenation. |
| Resolution.NormalizeDate | app/Reporter.php:182-184 | A date of the form day/month/rest is read as day-month-rest. |
| Resolution.CompletedAt | app/Reporter.php:182-184 | The instant the comparator reads: `strtotime` of the completion text with '/' replaced. No contract of its own; `SeparatorsAgree` and `NormalizeDate` state how it reads dates. |
| Resolution.OfStudent | app/Reporter.php:168-174 | The student's responses are drawn from the input. |
| Resolution.OfStudentCount | app/Reporter.php:168-174 | Each response of the student is kept as often as it occurs; no other response is kept. |
| Resolution.WithCompleted | app/Reporter.php:176-178 | Only responses with a `completed` key pass, drawn from the input. |
| Resolution.WithCompletedCount | app/Reporter.php:176-178 | Each response with a `completed` key is kept as often as it occurs; no other response is kept. |
| Resolution.CompletedOf | app/Reporter.php:168-178 | The student filter followed by the `completed` filter. No contract of its own; `CompletedOfExactly` and `CompletedOfEmpty` state what it keeps. |
| Resolution.CompletedOfExactly | app/Reporter.php:168-178 | The two filters together keep exactly the student's responses with a `completed` key, each as often as in the input. |
| Resolution.CompletedOfEmpty | app/Reporter.php:168-178 | The filtered list is empty exactly when no response of the student has a `completed` key. |
| Resolution.SortedBetween | app/Reporter.php:181-185 | In a sorted list every earlier response is completed no later than every later one. |
| Resolution.InsertByCompletion | app/Reporter.php:181-185 | Inserting a completed response into a sorted list gives a sorted list with exactly one more element, that response. |
| Resolution.SortByCompletion | app/Reporter.php:181-185 | The usort result is sorted by completion instant and is a permutation of its input. |
| Resolution.FirstOf | app/Reporter.php:195 | `reset`: the first element, None where PHP returns `false`. No contract of its own; `FirstIsEarliest` states what it returns on a sorted list. |
| Resolution.LastOf | app/Reporter.php:201 | `end`: the last element, None where PHP returns `false`. No contract of its own; `LastIsLatest` states what it returns on a sorted list. |
| Resolution.FirstIsEarliest | app/Reporter.php:192-196 | On a sorted list, `reset` gives a result exactly when the list is non-empty, and that result is the earliest completed. |
| Resolution.LastIsLatest | app/Reporter.php:198-202 | On a sorted list, `end` gives a result exactly when the list is non-empty, and that result is the latest completed. |
| Resolution.EarlierComesFirst | app/Reporter.php:181-185 | Two responses with different completion instants are sorted into the one order there is. |
| Scoring.AnsweredStrands | app/Reporter.php:206-207 | One strand per answer. |
| Scoring.CorrectStrands | app/Reporter.php:213-217 | No strand is counted right more often than it is answered. |
| Scoring.Tallied | app/Reporter.php:209-219 | One pass of the loop body: the strand is added with an empty tally when new, then its total, and its count when right, go up by one. No contract of its own; `TalliedKeeps` and `TallySnoc` state what it does. |
| Scoring.TalliedKeeps | app/Reporter.php:209-219 | A tally step keeps the keys distinct, keeps every earlier key in its place, adds no key but its strand, and leaves every other strand's tally unchanged. |
| Scoring.StrandResults | app/Reporter.php:204-223 | The strand results of a response: its answers tallied one after the other from no strands. No contract of its own; `StrandResultsCount` and `StrandResultsAddUp` state what it holds. |
| Scoring.StrandResultsSnoc | app/Reporter.php:206-220 | One more answer adds its strand when new, then raises that strand's total, and its count when the answer is right. |
| Scoring.StrandResultsCount | app/Reporter.php:204-223 | The strands are the answered strands in order of first appearance, and each strand's tally is its number of right answers and of answers. |
| Scoring.StrandKeys | app/Reporter.php:209-211 | The keys are the answered strands in order of first appearance. |
| Scoring.StrandTallies | app/Reporter.php:213-219 | Every tally counts its strand's right answers and answers. |
| Scoring.TalliedEntry | app/Reporter.php:209-219 | One loop step keeps every tally equal to its strand's counts. |
| Scoring.TallySnoc | app/Reporter.php:213-219 | One more answer changes only its own strand's tally: the total goes up by one, and the count too when the answer is right. |
| Scoring.StrandResultsAddUp | app/Reporter.php:204-223 | The result is well-formed, every tally has at least one answer and no more right answers than answers, and the totals add up to the number of answers. |
| Scoring.SumCountsCovers | app/Reporter.php:219 | Over distinct keys covering every strand, the per-strand answer counts add up to the number of answers. |
| Scoring.SumCountsEmpty | app/Reporter.php:219 | Proof helper of `SumCountsCovers`: over no answers every per-strand count is zero, so their sum is zero. |
| Scoring.LastMatching | app/Reporter.php:252-262 | None exactly when no option has the id; otherwise an option with the id after which no option has it (a later match overwrites the earlier). |
| Scoring.LastMatchingExtends | app/Reporter.php:252-262 | An option with another id keeps the match found so far. |
| Scoring.LastMatchingSnoc | app/Reporter.php:252-262 | One more option becomes the match when its id matches, and leaves the match as it was otherwise. |
| Scoring.WrongAnswers | app/Reporter.php:247-250 | An answer is kept exactly when it is one of the answers and it is wrong. |
| Records.IsCorrect | app/Reporter.php:213 | An answer is right when the question's key equals the response, the same test as line 247. A predicate without a contract; `RightAndWrongPartition` and `WrongAnswers` state how it splits the answers. |
| Scoring.FeedbackItem | app/Reporter.php:252-266 | A right option that a feedback item names is one of the question's options with the key's id, and a given option it names is one with the answered id. |
| Scoring.FeedbackFor | app/Reporter.php:243-268 | One feedback item per wrong answer, in answer order. No contract of its own; `FeedbackSnoc` and `FeedbackCount` state what it holds. |
| Scoring.RightAndWrongPartition | app/Reporter.php:243-250 | Every answer is either right or wrong: the two counts add up to the number of answers. |
| Scoring.FeedbackSnoc | app/Reporter.php:243-268 | One more answer adds one item when wrong and none when right. |
| Scoring.FeedbackCount | app/Reporter.php:241-271 | There is one feedback item per wrong answer. |
| Progress.AssessmentIds | app/Reporter.php:230-231 | The assessment id of each response, at its position. |
| Progress.InAssessment | app/Reporter.php:230-236 | A group holds only responses to its assessment, drawn from the input, and is non-empty exactly when the assessment occurs. |
| Progress.InAssessmentCount | app/Reporter.php:230-236 | A group holds each response to its assessment as often as it occurs, and no other response. |
| Progress.InAssessmentSnoc | app/Reporter.php:230-236 | One more response goes to the end of its own group only. |
| Progress.Grouped | app/Reporter.php:231-235 | One pass of the loop body: a new assessment opens a group holding the response, a known one gets the response appended. No contract of its own; `GroupedKeeps` and `GroupsOfSnoc` state what it does. |
| Progress.GroupedKeeps | app/Reporter.php:231-235 | A grouping step keeps the keys distinct, keeps every earlier key in its place, adds no key but the response's assessment, ends that group with the response and leaves every other group unchanged. |
| Progress.GroupsOf | app/Reporter.php:225-239 | The groups of a list: its responses grouped one after the other from no groups. No contract of its own; `GroupsOfCount` and `GroupsPermuteInput` state what it holds. |
| Progress.GroupsOfSnoc | app/Reporter.php:230-236 | One more response opens a group when its assessment is new, and is appended to its group otherwise. |
| Progress.GroupsOfCount | app/Reporter.php:225-239 | One group per assessment id, in order of first appearance, each holding exactly that assessment's responses in input order. |
| Progress.GroupKeys | app/Reporter.php:231-232 | The group keys are the assessment ids in order of first appearance. |
| Progress.GroupEntries | app/Reporter.php:231-235 | Each group holds its assessment's responses in input order. |
| Progress.GroupedEntry | app/Reporter.php:231-235 | One loop step keeps every group equal to its assessment's responses. |
| Progress.GroupsAreUniform | app/Reporter.php:225-239 | The grouping is well-formed, and every group is non-empty and of its own assessment only. |
| Progress.GroupsCompleted | app/Reporter.php:66-67 | Grouping completed responses gives non-empty groups of completed responses. |
| Progress.GroupsPermuteInput | app/Reporter.php:225-239 | The groups, concatenated in key order, are a permutation of the input: no response is lost or duplicated. |
| Progress.GroupKeepsOrder | app/Reporter.php:230-236 | The group of a list sorted by completion is sorted by completion. |
| Progress.ScoreDelta | app/Reporter.php:97-106 | The delta of a one-attempt group is 0. |
| Progress.AttemptOf | app/Reporter.php:84-95 | The line of one attempt: its completion text, raw score and number of answers. No contract of its own; `SectionOf` states that each section's lines are these. |
| Progress.Attempts | app/Reporter.php:84-95 | One line per attempt, in group order. No contract of its own; `SectionOf` states what each line holds. |
| Progress.DeltaIsLatestMinusEarliest | app/Reporter.php:97-106 | On sorted completed responses, the delta of an assessment's group is its latest attempt's raw score minus its earliest's, and those two bound every attempt's completion instant. |
| Scenarios.StudentLookups | tests/ReporterTest.php:7-19 | Id "1" finds the student named "test", id "2" finds none, and a reporter that has memoised a student returns it for any id. |
| Scenarios.CompletedResponses | tests/ReporterTest.php:21-38 | Without data the completed responses are empty; with the one completed response of "student1" they are that response. |
| Scenarios.FirstAndLast | tests/ReporterTest.php:40-68 | Of two completed responses given later first, the first completed is the earlier and the last completed is the later, both of "student1". |
| Scenarios.BothCompleted | tests/ReporterTest.php:43 | Both responses of the test pass the student filter and the `completed` filter. |
| Scenarios.FakeResponse | tests/ReporterTest.php:70-101 | The test's response of "student1" to "assessment1", completed at the given date, with its sixteen answers and raw score 6. No contract of its own; `BothCompleted` states that it passes both filters. |
| Scenarios.ProgressExample | app/Reporter.php:65-110 | Two attempts at assessment A scoring 5 and later 8, given in completion order, give one progress section with both attempts in that order and a delta of 3. |
| Scenarios.OneSection | app/Reporter.php:67-109 | Two completed responses to one assessment form one group and so one progress section. |
| Scenarios.FeedbackExample | app/Reporter.php:241-271 | With the right option option3, answering option3 gives no feedback, and answering option1 gives one item naming option3 as right and option1 as given. |
| Scenarios.SingleAnswerFeedback | app/Reporter.php:243-268 | A single answer gives no feedback when right and its one feedback item when wrong. |
| Scenarios.ChoicesMatch | app/Reporter.php:252-262 | Over the example's four options, the scan finds option3 for the key and option1 for the answer. |

## Left out

- Output: the `SymfonyStyle` printing, `sprintf`, `ucwords` and the wording of the reports are left out. The report methods return the facts each report prints.
- `formatDate` (`app/Reporter.php:273-279`) and PHP's `DateTime`: the model keeps the completion text as it is.
- `strtotime` is a parameter that the model does not interpret. A date it cannot parse (PHP's `false`) is not modelled, nor is the crash of `formatDate` on such a date.
- Loose comparison: ids, option ids and answers are strings compared exactly. PHP's `==` also equates numeric strings such as "1" and "01", and an integer id with its decimal text. The test's integer student id 1 is written as "1".
- PHP arrays with numeric-string keys are not modelled: PHP turns a strand or assessment id such as "12" into an integer key. The model's keys are strings in insertion order.
- A question id missing from the question index (an undefined-index warning and `null` in PHP) is not modelled. Every method that looks questions up requires `Resolves`. The two report methods require it of every response in the dataset (`ResponsesResolve`), not only of the response they read.
- Collaborators: `app/ReportCommand.php` and `index.php` are not part of this model. They load the JSON files, check the student and choose the report.
- The `$studentId` parameter of `getStrandResults` and `buildFeedbackResults` is unused in the original. The model keeps it as an unused parameter.
- Resolution.SortByCompletion: the order of responses with equal completion instants is left open. The comparator never answers "equal", so the order PHP produces for ties depends on its sort algorithm, which is not modelled.
- App.Reporter.GetFirstCompletedResponse, App.Reporter.GetLastCompletedResponse: the `TypeError` PHP raises on an empty list is not modelled. `reset`/`end` return `false` there, and these methods are declared `: array`. The model returns `None`, and the reports return `Failure(NoCompletedResponses)`.
- App.Reporter.DiagnosticReport, App.Reporter.FeedbackReportData: the lookup of the missing student that `ReportCommand` performs first is left out. The report methods take the student record as given, as the PHP methods do.
