/** The reporter's unit tests, and two worked examples of the progress and
    feedback reports, as client code: each scenario builds a fresh reporter
    and states in its postcondition what it expects. */
module Scenarios {
  import opened Records
  import opened Resolution
  import opened Scoring
  import opened Progress
  import opened App

  const TestStudent := Student("1", "test", "testing")
  const Student1 := Student("student1", "test", "testing")

  /** The response every test uses, completed at `date`. */
  function FakeResponse(date: string): StudentResponse
  {
    StudentResponse("studentReponse1", "assessment1", "student1",
      "14/12/2019 10:31:00", "16/12/2019 10:00:00", Some(date),
      [Answer("numeracy1", "option3"), Answer("numeracy2", "option4"), Answer("numeracy3", "option2"),
       Answer("numeracy4", "option1"), Answer("numeracy5", "option1"), Answer("numeracy6", "option1"),
       Answer("numeracy7", "option4"), Answer("numeracy8", "option4"), Answer("numeracy9", "option1"),
       Answer("numeracy10", "option1"), Answer("numeracy11", "option1"), Answer("numeracy12", "option1"),
       Answer("numeracy13", "option3"), Answer("numeracy14", "option2"), Answer("numeracy15", "option1"),
       Answer("numeracy16", "option1")],
      6)
  }

  /** A known id finds its student, an unknown one finds none, and once a
      student is memoised every later lookup returns it, whatever the id. */
  method StudentLookups(strtotime: string -> int) returns (found: Option<Student>, missing: Option<Student>, memoised: Option<Student>)
    ensures found.Some? && found.value.firstName == "test"
    ensures missing == None
    ensures memoised == found
  {
    var reporter := new Reporter([TestStudent], [], map[], [], strtotime);
    found := reporter.GetStudent("1");
    var other := new Reporter([TestStudent], [], map[], [], strtotime);
    missing := other.GetStudent("2");
    memoised := reporter.GetStudent("2");
  }

  /** Without responses there are no completed responses; with one completed
      response of the student, there is that one. */
  method CompletedResponses(strtotime: string -> int) returns (none: seq<StudentResponse>, some: seq<StudentResponse>)
    ensures none == []
    ensures some == [FakeResponse("16/12/2019 10:46:00")]
  {
    var empty := new Reporter([], [], map[], [], strtotime);
    none := empty.GetCompletedStudentResponses("2");
    var r := FakeResponse("16/12/2019 10:46:00");
    var one := new Reporter([Student1], [r], map[], [], strtotime);
    some := one.GetCompletedStudentResponses("student1");
    assert CompletedOf([r], "student1") == [r];
    assert multiset(some) == multiset{r};
    assert some[0] in multiset(some);
  }

  /** Of two responses completed on the same day and month, the later given
      first as in the test ("16/12/2021 10:46:00", then "16/12/2019 10:46:00"),
      the first completed is the earlier one and the last the later one, for
      any date parser that reads the '-' form of the earlier date as the
      earlier instant. */
  method FirstAndLast(strtotime: string -> int, day: string, month: string, earlierRest: string, laterRest: string)
    returns (first: Option<StudentResponse>, last: Option<StudentResponse>)
    requires '/' !in day && '/' !in month && '/' !in earlierRest && '/' !in laterRest
    requires strtotime(day + "-" + month + "-" + earlierRest) < strtotime(day + "-" + month + "-" + laterRest)
    ensures first.Some? && first.value.completed == Some(day + "/" + month + "/" + earlierRest)
    ensures first.value.studentId == "student1"
    ensures last.Some? && last.value.completed == Some(day + "/" + month + "/" + laterRest)
    ensures last.value.studentId == "student1"
  {
    var later := FakeResponse(day + "/" + month + "/" + laterRest);
    var earlier := FakeResponse(day + "/" + month + "/" + earlierRest);
    NormalizeDate(day, month, earlierRest);
    NormalizeDate(day, month, laterRest);
    BothCompleted(later, earlier, "student1");

    var reporter := new Reporter([Student1], [later, earlier], map[], [], strtotime);
    first := reporter.GetFirstCompletedResponse("student1");
    EarlierComesFirst(strtotime, reporter.completedResponses, earlier, later);

    var another := new Reporter([Student1], [later, earlier], map[], [], strtotime);
    last := another.GetLastCompletedResponse("student1");
    EarlierComesFirst(strtotime, another.completedResponses, earlier, later);
  }

  /** Two completed responses of the same student pass both filters. */
  lemma BothCompleted(a: StudentResponse, b: StudentResponse, studentId: string)
    requires a.studentId == studentId && b.studentId == studentId
    requires a.completed.Some? && b.completed.Some?
    ensures multiset(CompletedOf([a, b], studentId)) == multiset{a, b}
  {
    forall x
      ensures multiset(CompletedOf([a, b], studentId))[x] == multiset{a, b}[x]
    {
      CompletedOfExactly([a, b], studentId, x);
      assert multiset([a, b]) == multiset{a, b};
    }
  }

  /** A completed attempt of student "S" at assessment "A", with no answers. */
  function AttemptAtA(id: string, date: string, rawScore: int): StudentResponse
  {
    StudentResponse(id, "A", "S", "", "", Some(date), [], rawScore)
  }

  /** Two attempts at assessment "A", scoring 5 and later 8, give one section
      of the progress report: both attempts in completion order and a delta
      of 3. The dates stand for "16/12/2019 10:46:00" and "16/12/2021 10:46:00";
      any two dates that strtotime orders will do. */
  method ProgressExample(strtotime: string -> int, day: string, month: string, earlierRest: string, laterRest: string)
    returns (entries: seq<ProgressEntry>)
    requires '/' !in day && '/' !in month && '/' !in earlierRest && '/' !in laterRest
    requires strtotime(day + "-" + month + "-" + earlierRest) < strtotime(day + "-" + month + "-" + laterRest)
    ensures |entries| == 1 && entries[0].assessmentId == "A" && entries[0].assessment == None
    ensures entries[0].attempts ==
      [Attempt(day + "/" + month + "/" + earlierRest, 5, 0), Attempt(day + "/" + month + "/" + laterRest, 8, 0)]
    ensures entries[0].delta == 3
  {
    var first := AttemptAtA("r1", day + "/" + month + "/" + earlierRest, 5);
    var second := AttemptAtA("r2", day + "/" + month + "/" + laterRest, 8);
    NormalizeDate(day, month, earlierRest);
    NormalizeDate(day, month, laterRest);
    BothCompleted(first, second, "S");
    var student := Student("S", "", "");
    var reporter := new Reporter([student], [first, second], map[], [], strtotime);
    entries := reporter.ProgressReport(student);
    EarlierComesFirst(strtotime, reporter.completedResponses, first, second);
    OneSection(reporter, first, second);
    reporter.SectionOf([first, second], "A");
  }

  /** Two completed attempts at one assessment make one section holding both. */
  lemma OneSection(reporter: Reporter, a: StudentResponse, b: StudentResponse)
    requires a.assessmentId == b.assessmentId && a.completed.Some? && b.completed.Some?
    ensures reporter.ProgressOf([a, b]) == [reporter.ProgressEntryOf([a, b], a.assessmentId)]
  {
    var k, rs := a.assessmentId, [a, b];
    assert rs[..1] == [a] && [a][..0] == [];
    var one := GroupsOf([a]);
    assert one == Grouped(GroupsOf([]), a);
    assert one.keys == [k] && one.entries == map[k := [a]];
    var groups := GroupsOf(rs);
    assert groups == Grouped(one, b);
    assert [a] + [b] == rs;
    assert groups.entries == map[k := rs];
    assert groups.keys == [k] && groups.keys[..0] == [];
  }

  /** A question whose right answer is option3. */
  const Choices := [Choice("option1", "A", "1"), Choice("option2", "B", "2"),
                    Choice("option3", "C", "3"), Choice("option4", "D", "4")]
  const Sum := Question("numeracy1", "What is 1 + 2?", "Number and Algebra",
                        QuestionConfig("option3", Choices, "Count on from 1"))

  /** Answering option3 gives no feedback; answering option1 gives one item
      naming option3 as the right option and option1 as the given one. */
  method FeedbackExample() returns (right: seq<Feedback>, wrong: seq<Feedback>)
    ensures right == []
    ensures wrong == [Feedback(Sum.stem, Sum.config.hint, Some(Choices[2]), Some(Choices[0]))]
  {
    var reporter := new Reporter([], [], map["numeracy1" := Sum], [], (s: string) => 0);
    var answered := StudentResponse("r1", "A", "S", "", "", Some(""), [Answer("numeracy1", "option3")], 1);
    var missed := answered.(responses := [Answer("numeracy1", "option1")]);
    right := reporter.BuildFeedbackResults("S", answered);
    wrong := reporter.BuildFeedbackResults("S", missed);
    SingleAnswerFeedback(map["numeracy1" := Sum], Answer("numeracy1", "option3"));
    SingleAnswerFeedback(map["numeracy1" := Sum], Answer("numeracy1", "option1"));
    ChoicesMatch();
  }

  /** The feedback on a single answer: nothing when right, its item when wrong. */
  lemma SingleAnswerFeedback(questions: QuestionIndex, a: Answer)
    requires a.questionId in questions
    ensures IsCorrect(questions[a.questionId], a) ==> FeedbackFor(questions, [a]) == []
    ensures !IsCorrect(questions[a.questionId], a) ==>
      FeedbackFor(questions, [a]) == [FeedbackItem(questions[a.questionId], a)]
  {
    var none: seq<Answer> := [];
    FeedbackSnoc(questions, none, a);
    assert none + [a] == [a];
    assert FeedbackFor(questions, none) == [];
  }

  lemma ChoicesMatch()
    ensures LastMatching(Choices, "option3") == Some(Choices[2])
    ensures LastMatching(Choices, "option1") == Some(Choices[0])
  {
    var c := Choices;
    assert c[..4] == c;
    LastMatchingSnoc(c, 3, "option3");
    LastMatchingSnoc(c, 2, "option3");
    LastMatchingSnoc(c, 3, "option1");
    LastMatchingSnoc(c, 2, "option1");
    LastMatchingSnoc(c, 1, "option1");
    LastMatchingSnoc(c, 0, "option1");
  }
}
