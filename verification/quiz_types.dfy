/** The quiz entities exchanged with the quiz backend. */
module QuizTypes {
  import opened Wrappers

  datatype QuizStatus = Idle | Waiting | Active | Completed | Error

  /** A recorded answer: the chosen option's index and when it was recorded. */
  datatype SubmittedAnswer = SubmittedAnswer(answer: int, answeredOn: int)

  /** `marks` is a JavaScript number, so it may be fractional. */
  datatype Question = Question(
    id: int,
    marks: real,
    options: seq<string>,
    submitted: Option<SubmittedAnswer>)

  /** The login, start and end instants of a quiz, in seconds. */
  datatype QuizWindow = QuizWindow(loginTime: int, startTime: int, endTime: int)

  /** The option a question records as answered, if any. */
  function SubmittedChoice(q: Question): (c: Option<int>)
    ensures c.Some? <==> q.submitted.Some?
    ensures c.Some? ==> c.value == q.submitted.value.answer
  {
    match q.submitted
    case None => None
    case Some(a) => Some(a.answer)
  }

  /**
   * The word after a question's marks: the plural exactly when the marks exceed 1, so 0
   * and 1 take the singular and 1.5 the plural. Each page passes its own spelling.
   */
  function MarksNoun(marks: real, singular: string, plural: string): (w: string)
    ensures w == singular || w == plural
    ensures marks > 1.0 ==> w == plural
    ensures marks <= 1.0 ==> w == singular
  {
    if marks > 1.0 then plural else singular
  }

  /** No two questions share an id. */
  ghost predicate UniqueIds(qs: seq<Question>)
  {
    forall i, j :: 0 <= i < j < |qs| ==> qs[i].id != qs[j].id
  }
}
