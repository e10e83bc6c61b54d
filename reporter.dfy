/** The reporter object: the four datasets, the two memo fields, the lookups
    and the data each of the three reports prints. */
module App {
  import opened Records
  import opened Collections
  import opened Resolution
  import opened Scoring
  import opened Progress

  /** Why a report has nothing to show. The original program fails with a
      type error at this point, because reset/end return false. */
  datatype ReportError = NoCompletedResponses

  datatype Result<T> = Success(value: T) | Failure(error: ReportError)

  /** The facts the diagnostic report prints. */
  datatype Diagnostic = Diagnostic(
    student: Student,
    assessment: Option<Assessment>,
    completed: string,
    rawScore: int,
    questionCount: nat,
    strands: OrderedMap<Tally>)

  /** The facts the feedback report prints. */
  datatype FeedbackReport = FeedbackReport(
    student: Student,
    assessment: Option<Assessment>,
    completed: string,
    rawScore: int,
    questionCount: nat,
    items: seq<Feedback>)

  class Reporter {
    const students: seq<Student>
    const studentResponses: seq<StudentResponse>
    const questions: QuestionIndex
    const assessments: seq<Assessment>
    /** strtotime: the date parser, left uninterpreted. */
    const strtotime: string -> int

    /** Memo of GetStudent. None stands for PHP's unset or empty array. */
    var student: Option<Student>
    /** Memo of GetCompletedStudentResponses. [] means nothing is memoised. */
    var completedResponses: seq<StudentResponse>

    /** The memoised list is sorted by completion and drawn from the data. */
    ghost predicate Valid()
      reads this
    {
      && SortedByCompletion(strtotime, completedResponses)
      && forall r :: r in completedResponses ==> r in studentResponses
    }

    /** Every answer of every response names a known question. */
    predicate ResponsesResolve()
    {
      forall r :: r in studentResponses ==> Resolves(questions, r.responses)
    }

    /** What a call that resolves the completed responses of `studentId` does
        to the memo: a non-empty memo stays as it is, whatever the id; an empty
        one is replaced by the student's completed responses, sorted. */
    twostate predicate Resolved(studentId: string)
      reads this
    {
      && (old(completedResponses) != [] ==> completedResponses == old(completedResponses))
      && (old(completedResponses) == [] ==>
            multiset(completedResponses) == multiset(CompletedOf(studentResponses, studentId)))
    }

    constructor (students: seq<Student>, studentResponses: seq<StudentResponse>,
                 questions: QuestionIndex, assessments: seq<Assessment>, strtotime: string -> int)
      ensures this.students == students && this.studentResponses == studentResponses
      ensures this.questions == questions && this.assessments == assessments
      ensures this.strtotime == strtotime
      ensures student == None && completedResponses == []
      ensures Valid()
    {
      this.students := students;
      this.studentResponses := studentResponses;
      this.questions := questions;
      this.assessments := assessments;
      this.strtotime := strtotime;
      student := None;
      completedResponses := [];
    }

    /** getStudent: once a student is memoised it is returned whatever the id;
        otherwise the first student with the id, memoised when found. */
    method GetStudent(id: string) returns (s: Option<Student>)
      modifies this`student
      ensures old(student).Some? ==> s == old(student)
      ensures old(student).None? ==> s == FirstWithId(students, StudentId, id)
      ensures student == s
    {
      if student.Some? {
        return student;
      }
      for i := 0 to |students|
        invariant FirstWithId(students[i..], StudentId, id) == FirstWithId(students, StudentId, id)
      {
        if id == students[i].id {
          student := Some(students[i]);
          return student;
        }
        assert students[i..][1..] == students[i + 1..];
      }
      return None;
    }

    /** getCompletedStudentResponses: a non-empty memo is returned unchanged,
        whatever the id. Otherwise the student's responses that have a
        `completed` key, sorted by completion instant, are memoised (an empty
        result memoises nothing) and returned. */
    method GetCompletedStudentResponses(studentId: string) returns (rs: seq<StudentResponse>)
      requires Valid()
      modifies this`completedResponses
      ensures Valid() && rs == completedResponses
      ensures old(completedResponses) != [] ==> rs == old(completedResponses)
      ensures old(completedResponses) == [] ==>
        && SortedByCompletion(strtotime, rs)
        && multiset(rs) == multiset(CompletedOf(studentResponses, studentId))
    {
      if completedResponses != [] {
        return completedResponses;
      }
      var resps: seq<StudentResponse> := [];
      for i := 0 to |studentResponses|
        invariant resps == OfStudent(studentResponses[..i], studentId)
      {
        assert studentResponses[..i + 1][..i] == studentResponses[..i];
        if studentId == studentResponses[i].studentId {
          resps := resps + [studentResponses[i]];
        }
      }
      assert studentResponses[..|studentResponses|] == studentResponses;
      resps := WithCompleted(resps);
      resps := SortByCompletion(strtotime, resps);
      forall r | r in resps
        ensures r in studentResponses
      {
        assert r in multiset(CompletedOf(studentResponses, studentId));
      }
      completedResponses := resps;
      rs := resps;
    }

    /** getFirstCompletedResponse: the first memoised response, which is the
        earliest completed; None where PHP's reset returns false. */
    method GetFirstCompletedResponse(studentId: string) returns (r: Option<StudentResponse>)
      requires Valid()
      modifies this`completedResponses
      ensures Valid() && Resolved(studentId)
      ensures r == FirstOf(completedResponses)
      ensures r.Some? ==>
        && r.value in completedResponses
        && forall x :: x in completedResponses ==> CompletedAt(strtotime, r.value) <= CompletedAt(strtotime, x)
    {
      var resps := GetCompletedStudentResponses(studentId);
      FirstIsEarliest(strtotime, resps);
      r := FirstOf(resps);
    }

    /** getLastCompletedResponse: the last memoised response, which is the
        latest completed; None where PHP's end returns false. */
    method GetLastCompletedResponse(studentId: string) returns (r: Option<StudentResponse>)
      requires Valid()
      modifies this`completedResponses
      ensures Valid() && Resolved(studentId)
      ensures r == LastOf(completedResponses)
      ensures r.Some? ==>
        && r.value in completedResponses
        && forall x :: x in completedResponses ==> CompletedAt(strtotime, x) <= CompletedAt(strtotime, r.value)
    {
      var resps := GetCompletedStudentResponses(studentId);
      LastIsLatest(strtotime, resps);
      r := LastOf(resps);
    }

    /** getStrandResults: one tally per strand, strands in first-encounter
        order; `count` goes up exactly for right answers and `total` for every
        answer, so the totals add up to the number of answers. */
    method GetStrandResults(studentId: string, response: StudentResponse) returns (strands: OrderedMap<Tally>)
      requires Resolves(questions, response.responses)
      ensures strands == StrandResults(questions, response.responses)
      ensures strands.WellFormed()
      ensures forall s :: s in strands.entries ==> strands.entries[s].count <= strands.entries[s].total
      ensures SumTotals(strands.keys, strands.entries) == |response.responses|
    {
      var answers := response.responses;
      var keys: seq<string> := [];
      var entries: map<string, Tally> := map[];
      for i := 0 to |answers|
        invariant Resolves(questions, answers[..i])
        invariant OrderedMap(keys, entries) == StrandResults(questions, answers[..i])
      {
        var a := answers[i];
        assert answers[..i + 1] == answers[..i] + [a];
        ghost var before := OrderedMap(keys, entries);
        var q := questions[a.questionId];
        if q.strand !in entries {
          keys := keys + [q.strand];
          entries := entries[q.strand := Tally(0, 0)];
        }
        var t := entries[q.strand];
        var correct := q.config.key == a.response;
        if correct {
          t := t.(count := t.count + 1);
        }
        t := t.(total := t.total + 1);
        entries := entries[q.strand := t];
        assert OrderedMap(keys, entries) == Tallied(before, q.strand, correct);
        StrandResultsSnoc(questions, answers[..i], a);
      }
      assert answers[..|answers|] == answers;
      strands := OrderedMap(keys, entries);
      StrandResultsAddUp(questions, answers);
    }

    /** groupResponsesByAssessment: one non-empty group per assessment id, in
        first-appearance order, each holding that assessment's responses in
        input order; together the groups are a permutation of the input. */
    method GroupResponsesByAssessment(resps: seq<StudentResponse>) returns (groups: OrderedMap<seq<StudentResponse>>)
      ensures groups == GroupsOf(resps)
      ensures groups.WellFormed()
      ensures forall k :: k in groups.entries ==>
        && groups.entries[k] != []
        && forall r :: r in groups.entries[k] ==> r.assessmentId == k
      ensures multiset(Flatten(groups.keys, groups.entries)) == multiset(resps)
    {
      var keys: seq<string> := [];
      var entries: map<string, seq<StudentResponse>> := map[];
      for i := 0 to |resps|
        invariant OrderedMap(keys, entries) == GroupsOf(resps[..i])
      {
        var r := resps[i];
        assert resps[..i + 1] == resps[..i] + [r];
        GroupsOfSnoc(resps[..i], r);
        if r.assessmentId !in entries {
          keys := keys + [r.assessmentId];
          entries := entries[r.assessmentId := [r]];
        } else {
          entries := entries[r.assessmentId := entries[r.assessmentId] + [r]];
        }
      }
      assert resps[..|resps|] == resps;
      groups := OrderedMap(keys, entries);
      GroupsAreUniform(resps);
      GroupsPermuteInput(resps);
    }

    /** buildFeedbackResults: one item per wrong answer, in answer order; right
        answers give none. */
    method BuildFeedbackResults(studentId: string, response: StudentResponse) returns (items: seq<Feedback>)
      requires Resolves(questions, response.responses)
      ensures items == FeedbackFor(questions, response.responses)
      ensures |items| == |response.responses| - |CorrectStrands(questions, response.responses)|
    {
      var answers := response.responses;
      items := [];
      for i := 0 to |answers|
        invariant Resolves(questions, answers[..i])
        invariant items == FeedbackFor(questions, answers[..i])
      {
        var a := answers[i];
        assert answers[..i + 1] == answers[..i] + [a];
        FeedbackSnoc(questions, answers[..i], a);
        var q := questions[a.questionId];
        var correct := q.config.key == a.response;
        if correct {
          continue;
        }
        var right, given := MatchOptions(q.config.options, q.config.key, a.response);
        items := items + [Feedback(q.stem, q.config.hint, right, given)];
      }
      assert answers[..|answers|] == answers;
      FeedbackCount(questions, answers);
    }

    /** The scan over a question's options inside buildFeedbackResults: the
        option of the right answer and of the given one, a later option with
        the same id overwriting an earlier one. */
    static method MatchOptions(options: seq<Choice>, key: string, response: string) returns (right: Option<Choice>, given: Option<Choice>)
      ensures right == LastMatching(options, key)
      ensures given == LastMatching(options, response)
    {
      right, given := None, None;
      for j := 0 to |options|
        invariant right == LastMatching(options[..j], key)
        invariant given == LastMatching(options[..j], response)
      {
        LastMatchingSnoc(options, j, key);
        LastMatchingSnoc(options, j, response);
        if options[j].id == key {
          right := Some(options[j]);
        }
        if options[j].id == response {
          given := Some(options[j]);
        }
      }
      assert options[..|options|] == options;
    }

    /** getAssesment: the first assessment with the id, None where the original
        returns an empty array. */
    method GetAssessment(id: string) returns (a: Option<Assessment>)
      ensures a == FirstWithId(assessments, AssessmentId, id)
    {
      for i := 0 to |assessments|
        invariant FirstWithId(assessments[i..], AssessmentId, id) == FirstWithId(assessments, AssessmentId, id)
      {
        if id == assessments[i].id {
          return Some(assessments[i]);
        }
        assert assessments[i..][1..] == assessments[i + 1..];
      }
      return None;
    }

    /** The section of the progress report for one group of attempts. */
    function ProgressEntryOf(group: seq<StudentResponse>, assessmentId: string): ProgressEntry
      requires group != [] && AllCompleted(group)
    {
      ProgressEntry(assessmentId, FirstWithId(assessments, AssessmentId, assessmentId), Attempts(group), ScoreDelta(group))
    }

    /** The sections of the given groups, in the given order. */
    function ProgressOver(groups: OrderedMap<seq<StudentResponse>>, ids: seq<string>): (ps: seq<ProgressEntry>)
      requires CompletedGroups(groups, ids)
      ensures |ps| == |ids|
    {
      if ids == [] then []
      else
        var k := ids[|ids| - 1];
        ProgressOver(groups, ids[..|ids| - 1]) + [ProgressEntryOf(groups.entries[k], k)]
    }

    /** The progress report's data: one section per group of the responses,
        in the order of the groups. */
    function ProgressOf(resps: seq<StudentResponse>): (ps: seq<ProgressEntry>)
      requires AllCompleted(resps)
      ensures |ps| == |GroupsOf(resps).keys|
    {
      GroupsCompleted(resps);
      ProgressOver(GroupsOf(resps), GroupsOf(resps).keys)
    }

    lemma {:induction false} ProgressOverAt(groups: OrderedMap<seq<StudentResponse>>, ids: seq<string>, i: nat)
      requires CompletedGroups(groups, ids)
      requires i < |ids|
      ensures ProgressOver(groups, ids)[i] == ProgressEntryOf(groups.entries[ids[i]], ids[i])
    {
      var p := ids[..|ids| - 1];
      if i < |p| {
        ProgressOverAt(groups, p, i);
        assert p[i] == ids[i];
      }
    }

    /** Section i of the progress report is about the i-th assessment in order
        of first appearance. It has one line per attempt at that assessment, in
        completion order. Its delta is the raw score of the latest attempt
        minus that of the earliest. */
    lemma ProgressSection(resps: seq<StudentResponse>, i: nat)
      requires SortedByCompletion(strtotime, resps)
      requires i < |ProgressOf(resps)|
      ensures i < |FirstEncounter(AssessmentIds(resps))|
      ensures
        var k := FirstEncounter(AssessmentIds(resps))[i];
        var e, g := ProgressOf(resps)[i], InAssessment(resps, k);
        && g != [] && SortedByCompletion(strtotime, g)
        && e.assessmentId == k
        && e.assessment == FirstWithId(assessments, AssessmentId, k)
        && |e.attempts| == |g|
        && (forall j :: 0 <= j < |g| ==> e.attempts[j] == AttemptOf(g[j]))
        && e.delta == g[|g| - 1].rawScore - g[0].rawScore
        && forall x :: x in resps && x.assessmentId == k ==>
             CompletedAt(strtotime, g[0]) <= CompletedAt(strtotime, x) <= CompletedAt(strtotime, g[|g| - 1])
    {
      var groups := GroupsOf(resps);
      GroupsCompleted(resps);
      GroupsOfCount(resps);
      var k := groups.keys[i];
      ProgressOverAt(groups, groups.keys, i);
      var g := InAssessment(resps, k);
      DeltaIsLatestMinusEarliest(strtotime, resps, k);
      GroupKeepsOrder(strtotime, resps, k);
      assert ProgressOf(resps)[i] == ProgressEntryOf(g, k);
      SectionOf(g, k);
    }

    /** A section has the group's assessment, one line per attempt and the
        last attempt's raw score minus the first's. */
    lemma SectionOf(g: seq<StudentResponse>, k: string)
      requires g != [] && AllCompleted(g)
      ensures
        var e := ProgressEntryOf(g, k);
        && e.assessmentId == k
        && e.assessment == FirstWithId(assessments, AssessmentId, k)
        && |e.attempts| == |g|
        && (forall j :: 0 <= j < |g| ==> e.attempts[j] == AttemptOf(g[j]))
        && e.delta == g[|g| - 1].rawScore - g[0].rawScore
    {
    }

    /** The body of progressReport's outer loop for one group, without the
        printing: the assessment, one line per attempt, and the raw score of
        the inner loop's final `$r` minus that of the group's first response. */
    method ProgressEntryFor(group: seq<StudentResponse>, assessmentId: string) returns (e: ProgressEntry)
      requires group != [] && AllCompleted(group)
      ensures e == ProgressEntryOf(group, assessmentId)
    {
      var assessment := GetAssessment(assessmentId);
      var attempts: seq<Attempt> := [];
      var r := group[0];
      for j := 0 to |group|
        invariant attempts == Attempts(group[..j])
        invariant j > 0 ==> r == group[j - 1]
      {
        r := group[j];
        attempts := attempts + [AttemptOf(r)];
      }
      assert group[..|group|] == group;
      var fr := FirstOf(group).value;
      e := ProgressEntry(assessmentId, assessment, attempts, r.rawScore - fr.rawScore);
    }

    /** The loops of progressReport without the printing: one entry per
        group, groups in the order their assessments first appear. */
    method ProgressEntries(resps: seq<StudentResponse>) returns (entries: seq<ProgressEntry>)
      requires AllCompleted(resps)
      ensures entries == ProgressOf(resps)
    {
      var groups := GroupResponsesByAssessment(resps);
      GroupsCompleted(resps);
      entries := [];
      for i := 0 to |groups.keys|
        invariant entries == ProgressOver(groups, groups.keys[..i])
      {
        var id := groups.keys[i];
        assert groups.keys[..i + 1][..i] == groups.keys[..i];
        var group := groups.entries[id];
        var e := ProgressEntryFor(group, id);
        entries := entries + [e];
      }
      assert groups.keys[..|groups.keys|] == groups.keys;
    }

    /** progressReport's data for the student, from the memoised or freshly
        resolved completed responses. */
    method ProgressReport(student: Student) returns (entries: seq<ProgressEntry>)
      requires Valid()
      modifies this`completedResponses
      ensures Valid() && Resolved(student.id)
      ensures entries == ProgressOf(completedResponses)
    {
      var resps := GetCompletedStudentResponses(student.id);
      entries := ProgressEntries(resps);
    }

    /** The facts of the diagnostic report on one response. */
    function DiagnosticOf(student: Student, r: StudentResponse): Diagnostic
      requires r.completed.Some? && Resolves(questions, r.responses)
    {
      Diagnostic(student, FirstWithId(assessments, AssessmentId, r.assessmentId), r.completed.value,
                 r.rawScore, |r.responses|, StrandResults(questions, r.responses))
    }

    /** diagnosticReport's data: about the latest completed response. */
    method DiagnosticReport(student: Student) returns (report: Result<Diagnostic>)
      requires Valid() && ResponsesResolve()
      modifies this`completedResponses
      ensures Valid() && Resolved(student.id)
      ensures report.Failure? <==> completedResponses == []
      ensures report.Success? ==>
        report.value == DiagnosticOf(student, completedResponses[|completedResponses| - 1])
    {
      var resp := GetLastCompletedResponse(student.id);
      if resp.None? {
        return Failure(NoCompletedResponses);
      }
      var r := resp.value;
      assert r == completedResponses[|completedResponses| - 1] && r in studentResponses;
      var assessment := GetAssessment(r.assessmentId);
      var strands := GetStrandResults(student.id, r);
      report := Success(Diagnostic(student, assessment, r.completed.value, r.rawScore, |r.responses|, strands));
    }

    /** The facts of the feedback report on one response. */
    function FeedbackReportOf(student: Student, r: StudentResponse): FeedbackReport
      requires r.completed.Some? && Resolves(questions, r.responses)
    {
      FeedbackReport(student, FirstWithId(assessments, AssessmentId, r.assessmentId), r.completed.value,
                     r.rawScore, |r.responses|, FeedbackFor(questions, r.responses))
    }

    /** feedbackReport's data: about the latest completed response. */
    method FeedbackReportData(student: Student) returns (report: Result<FeedbackReport>)
      requires Valid() && ResponsesResolve()
      modifies this`completedResponses
      ensures Valid() && Resolved(student.id)
      ensures report.Failure? <==> completedResponses == []
      ensures report.Success? ==>
        report.value == FeedbackReportOf(student, completedResponses[|completedResponses| - 1])
    {
      var resp := GetLastCompletedResponse(student.id);
      if resp.None? {
        return Failure(NoCompletedResponses);
      }
      var r := resp.value;
      assert r == completedResponses[|completedResponses| - 1] && r in studentResponses;
      var assessment := GetAssessment(r.assessmentId);
      var items := BuildFeedbackResults(student.id, r);
      report := Success(FeedbackReport(student, assessment, r.completed.value, r.rawScore, |r.responses|, items));
    }
  }
}
