/** The record shapes of the four datasets the reporter reads.

    The datasets are untyped decoded JSON in the original program; here each
    record has the fields the reporter uses. Ids and option ids are strings
    compared exactly. */
module Records {

  datatype Option<+T> = None | Some(value: T)

  datatype Student = Student(id: string, firstName: string, lastName: string)

  datatype Assessment = Assessment(id: string, name: string)

  /** One selectable answer of a question: its option id, display label (`label` in the data; a keyword in Dafny) and value. */
  datatype Choice = Choice(id: string, labelText: string, value: string)

  /** `key` is the option id of the right answer. */
  datatype QuestionConfig = QuestionConfig(key: string, options: seq<Choice>, hint: string)

  datatype Question = Question(id: string, stem: string, strand: string, config: QuestionConfig)

  /** One entry of a response's `responses` list: the question and the option id chosen. */
  datatype Answer = Answer(questionId: string, response: string)

  /** A student's attempt at an assessment. `completed` is None when the record
      has no `completed` key, that is, when the attempt is unfinished. */
  datatype StudentResponse = StudentResponse(
    id: string,
    assessmentId: string,
    studentId: string,
    assignedAt: string,
    startedAt: string,
    completed: Option<string>,
    responses: seq<Answer>,
    rawScore: int)

  /** The questions dataset, indexed by question id as the loader builds it. */
  type QuestionIndex = map<string, Question>

  function StudentId(s: Student): string { s.id }

  function AssessmentId(a: Assessment): string { a.id }

  /** Every answer names a question of the index. */
  predicate Resolves(questions: QuestionIndex, answers: seq<Answer>)
  {
    forall a :: a in answers ==> a.questionId in questions
  }

  /** The right answer was chosen. */
  predicate IsCorrect(q: Question, a: Answer)
  {
    q.config.key == a.response
  }
}
