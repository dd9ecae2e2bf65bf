/**
 * The results page of one evaluated quiz: how each option of each question is highlighted,
 * the duration shown in whole minutes, the marks label and the explanation panel.
 */
module CompletedQuizDetails {
  import opened Wrappers
  import Text
  import AuthContext
  import QuizTypes

  /** The server's verdict for one question: the index of the correct option. */
  datatype QuizResult = QuizResult(correctAnswer: int, marksObtained: real)

  /** One question as the results page receives it; `submitted` is the chosen option's index. */
  datatype ResultQuestion = ResultQuestion(
    id: int,
    marks: real,
    options: seq<string>,
    explanation: string,
    submitted: Option<int>)

  datatype OptionStyle = Success | Failure | SoftSuccess | Neutral

  /**
   * The highlight of the option at `index`: chosen and correct, chosen and wrong, the
   * correct option left unchosen, or plain. A question without a recorded answer, or
   * without a verdict in `results`, cannot be classified: reading the missing record throws.
   */
  function Classify(q: ResultQuestion, results: map<int, QuizResult>, index: int): (s: Option<OptionStyle>)
    ensures s.None? <==> q.submitted.None? || q.id !in results
    ensures s.Some? ==>
      var selected := q.submitted.value == index;
      var correct := results[q.id].correctAnswer == index;
      && (s.value == Success <==> selected && correct)
      && (s.value == Failure <==> selected && !correct)
      && (s.value == SoftSuccess <==> !selected && correct)
      && (s.value == Neutral <==> !selected && !correct)
  {
    match q.submitted
    case None => None
    case Some(answer) =>
      if q.id !in results then None
      else
        var selected := answer == index;
        var correct := results[q.id].correctAnswer == index;
        Some(if selected then (if correct then Success else Failure)
             else if correct then SoftSuccess else Neutral)
  }

  /**
   * The highlights of a question's whole option list. The per-option callback is the one that
   * reads the missing record, so an empty option list renders (empty) even without an answer
   * or a verdict, and a non-empty one cannot be classified without both.
   */
  function OptionStyles(q: ResultQuestion, results: map<int, QuizResult>): (r: Option<seq<OptionStyle>>)
    ensures r.None? <==> |q.options| > 0 && (q.submitted.None? || q.id !in results)
    ensures |q.options| == 0 ==> r == Some([])
    ensures r.Some? ==>
      && |r.value| == |q.options|
      && forall i :: 0 <= i < |r.value| ==> Classify(q, results, i) == Some(r.value[i])
  {
    if |q.options| == 0 then Some([])
    else if q.submitted.None? || q.id !in results then None
    else Some(seq(|q.options|, i requires 0 <= i => Classify(q, results, i).value))
  }

  /** A green highlight picks out the correct option, a chosen one (green or red) the answer. */
  predicate IsGreen(s: OptionStyle)
  {
    s == Success || s == SoftSuccess
  }

  predicate IsChosen(s: OptionStyle)
  {
    s == Success || s == Failure
  }

  /**
   * Over the option list, green marks exactly the correct option and a chosen style exactly
   * the submitted one; a full-success highlight appears iff the answer was right.
   */
  lemma StylesMarkAnswerAndKey(q: ResultQuestion, results: map<int, QuizResult>)
    requires q.submitted.Some? && q.id in results
    ensures var styles := OptionStyles(q, results).value;
      && (forall i :: 0 <= i < |styles| ==> (IsGreen(styles[i]) <==> i == results[q.id].correctAnswer))
      && (forall i :: 0 <= i < |styles| ==> (IsChosen(styles[i]) <==> i == q.submitted.value))
      && ((exists i :: 0 <= i < |styles| && styles[i] == Success) <==>
          q.submitted.value == results[q.id].correctAnswer && 0 <= q.submitted.value < |q.options|)
  {
    var styles := OptionStyles(q, results).value;
    if q.submitted.value == results[q.id].correctAnswer && 0 <= q.submitted.value < |q.options| {
      assert styles[q.submitted.value] == Success;
    }
  }

  /** `Math.round` of the elapsed seconds over 60: halves round up. */
  function DurationMinutes(elapsed: int): (m: int)
    ensures 60 * m - 30 <= elapsed < 60 * m + 30
  {
    (elapsed + 30) / 60
  }

  /** The rounding is the unique whole number of minutes within half a minute of the duration. */
  lemma DurationMinutesNearest(elapsed: int, m: int)
    requires 60 * m - 30 <= elapsed < 60 * m + 30
    ensures DurationMinutes(elapsed) == m
  {
    var d := DurationMinutes(elapsed);
    assert 60 * (d - m) < 60 && 60 * (m - d) < 60;
  }

  /** The duration text, from the login and end instants in seconds. */
  function DurationText(loginTime: int, endTime: int): (text: string)
    ensures text == Text.IntToString(DurationMinutes(endTime - loginTime)) + " minutes"
    ensures Text.ParseInt(text[..|text| - 8]) == Some(DurationMinutes(endTime - loginTime))
  {
    var n := DurationMinutes(endTime - loginTime);
    Text.ParseIntRoundTrip(n);
    var text := Text.IntToString(n) + " minutes";
    assert text[..|text| - 8] == Text.IntToString(n);
    text
  }

  /** The explanation panel appears only for a non-empty explanation. */
  function ShowsExplanation(q: ResultQuestion): (b: bool)
    ensures b <==> |q.explanation| > 0
  {
    q.explanation != ""
  }

  /** What the page shows: a spinner until the fetch settles, then the data or an error. */
  datatype Screen = Loading | Failed(message: string) | Loaded(questions: seq<ResultQuestion>, results: map<int, QuizResult>)

  datatype FetchResult = Fetched(questions: seq<ResultQuestion>, results: map<int, QuizResult>) | FetchFailed

  /** Opening the page: signed-out users go home; the fetch needs a PIN, a username and a quiz code. */
  function Open(auth: AuthContext.AuthState, quizCode: string): (r: (Screen, bool, Option<string>))
    ensures r.0 == Loading
    ensures r.2 == Some("/") <==> !AuthContext.HasSession(auth)
    ensures r.1 <==>
      AuthContext.HasSession(auth) && auth.user.value.pin != "" && auth.user.value.username != "" && quizCode != ""
  {
    if !AuthContext.HasSession(auth) then (Loading, false, Some("/"))
    else
      var u := auth.user.value;
      (Loading, u.pin != "" && u.username != "" && quizCode != "", None)
  }

  /** The fetch settles: its data, or the one fixed error message. */
  function Settle(result: FetchResult): (s: Screen)
    ensures s != Loading
    ensures s.Failed? <==> result.FetchFailed?
    ensures s.Failed? ==> s.message == "Failed to load quiz details"
  {
    match result
    case Fetched(qs, results) => Loaded(qs, results)
    case FetchFailed => Failed("Failed to load quiz details")
  }

  /** A signed-in user with complete credentials leaves the spinner once the fetch settles. */
  lemma OpenThenSettle(auth: AuthContext.AuthState, quizCode: string, result: FetchResult)
    requires Open(auth, quizCode).1
    ensures Open(auth, quizCode).2.None? && Settle(result) != Loading
  {
  }

  const BackTarget: string := "/completed-quizzes"

  /** The heading of question `index` (counting from zero) reads "Q<index + 1>.". */
  function QuestionHeading(index: nat): (text: string)
    ensures text == "Q" + Text.IntToString(index + 1) + "."
    ensures Text.ParseInt(text[1..|text| - 1]) == Some(index + 1)
  {
    Text.ParseIntRoundTrip(index + 1);
    var text := "Q" + Text.IntToString(index + 1) + ".";
    assert text[1..|text| - 1] == Text.IntToString(index + 1);
    text
  }

  /** The marks label of a result: "mark" up to one mark, "marks" above. */
  function MarksWord(q: ResultQuestion): (w: string)
    ensures w == "marks" <==> q.marks > 1.0
    ensures w == "mark" <==> q.marks <= 1.0
  {
    QuizTypes.MarksNoun(q.marks, "mark", "marks")
  }
}
