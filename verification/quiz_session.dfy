/**
 * The quiz page as a state machine. Every timer tick, server reply and button press is a
 * step from one session record to the next, together with the request (if any) that the
 * step sends. Times are integer seconds; the server's replies are inputs.
 */
module QuizSession {
  import opened Wrappers
  import opened QuizTypes
  import Text
  import AuthContext

  /** A minutes/seconds display value. */
  datatype Countdown = Countdown(minutes: int, seconds: int)

  datatype ModalKind = ErrorModal | InfoModal | CountdownModal | SuccessModal

  /** A modal's message: literal text, or the login and start times formatted as clock times. */
  datatype Message = Literal(text: string) | Schedule(loginTime: int, startTime: int)

  datatype Modal = Modal(show: bool, kind: ModalKind, title: string, message: Message, countdown: Option<Countdown>)

  /**
   * What the one-second intervals read. Each interval is installed by an effect and calls the
   * handlers of the render that installed it, so it sees that render's quiz code and, for the
   * quiz-duration timer, that render's `submitting` flag, not the current ones.
   */
  datatype Timers = Timers(
    redirectCode: string,
    countdownCode: string,
    durationCode: string,
    durationSubmitting: bool)

  datatype Session = Session(
    quizCode: string,
    status: QuizStatus,
    windowInfo: Option<QuizWindow>,
    details: Option<QuizWindow>,
    questions: seq<Question>,
    index: int,
    answers: map<int, int>,
    countdown: Option<Countdown>,
    timeLeft: Option<Countdown>,
    submitting: bool,
    submitSuccess: bool,
    modal: Modal,
    timers: Timers)

  /** The request a step sends to the quiz backend, with the quiz code in its body. */
  datatype Request =
    | NoRequest
    | DetailsRequest(quizCode: string)
    | StatusRequest(quizCode: string)
    | QuestionsRequest(quizCode: string)
    | AnswerRequest(quizCode: string, questionId: int, answer: int)
    | SubmitRequest(quizCode: string)

  /** Reply to the quiz-details request; `nested` is `response.data`, `top` is `data`. */
  datatype DetailsReply =
    | DetailsReplied(code: int, msg: Option<string>, nested: Option<QuizWindow>, top: Option<QuizWindow>)
    | DetailsThrown

  /** What `response.data` of the question-set request holds. */
  datatype Payload = NoPayload | WindowPayload(window: QuizWindow) | QuestionList(items: seq<Question>)

  /** Reply to the question-set request (used both by the status check and by the poll). */
  datatype QuestionsReply = QuestionsReplied(code: int, msg: Option<string>, payload: Payload) | QuestionsThrown

  datatype AnswerReply = AnswerReplied(msg: Option<string>) | AnswerThrown

  /** Reply to the final submit: a 2xx status, a rejection with its body's message, or an exception. */
  datatype SubmitReply = SubmitOk | SubmitRejected(msg: Option<string>) | SubmitThrown

  const ExpiredMessage: string := "Login window has expired."
  const LoginNotStartedText: string := "Login Window is not started yet"
  const LoginNotStartedMessage: string := "Login Window is not started yet."
  const TestNotStartedMessage: string := "Test is not started yet."
  const TestOverMessage: string := "Test is already over."
  const AnswerRecordedMessage: string := "Answer successfully recorded"

  const ClosedModal: Modal := Modal(false, ErrorModal, "", Literal(""), None)

  /**
   * A fresh page: idle, with no questions and no answers, so the two agree from the start.
   * Every effect has just run, so every timer reads the current quiz code.
   */
  function Initial(quizCode: string): (s: Session)
    ensures s.quizCode == quizCode && s.status == Idle && !s.submitting && !s.modal.show
    ensures Agree(s.answers, s.questions)
    ensures CapturedLive(s) && !s.timers.durationSubmitting
  {
    Session(quizCode, Idle, None, None, [], 0, map[], None, None, false, false, ClosedModal,
            Timers(quizCode, quizCode, quizCode, false))
  }

  /** Every timer reads the quiz code currently typed. */
  predicate CapturedLive(s: Session)
  {
    s.timers.redirectCode == s.quizCode && s.timers.countdownCode == s.quizCode && s.timers.durationCode == s.quizCode
  }

  function Shown(kind: ModalKind, title: string, message: Message): Modal
  {
    Modal(true, kind, title, message, None)
  }

  function ErrorShown(text: string): Modal
  {
    Shown(ErrorModal, "Error", Literal(text))
  }

  /** The session after an error that ends the flow: error status and an error modal. */
  function Failed(s: Session, text: string): Session
  {
    s.(status := Error, modal := ErrorShown(text))
  }

  /** Every request needs the user's PIN and username and a quiz code. */
  predicate HasCredentials(user: Option<AuthContext.User>, quizCode: string)
  {
    user.Some? && user.value.pin != "" && user.value.username != "" && quizCode != ""
  }

  /** `data.msg && data.msg.includes(needle)`. */
  predicate MsgIncludes(msg: Option<string>, needle: string)
  {
    msg.Some? && Text.Contains(msg.value, needle)
  }

  // ---------------------------------------------------------------------------
  // Countdown
  // ---------------------------------------------------------------------------

  /** JavaScript's `%`: the remainder takes the sign of the dividend. */
  function JsRemainder(a: int, b: int): (r: int)
    requires b > 0
    ensures -b < r < b
    ensures a >= 0 ==> r == a % b
    ensures a < 0 ==> r <= 0
  {
    if a >= 0 then a % b else -((-a) % b)
  }

  /** Unlike Dafny's `%`, JavaScript's remainder is odd in the dividend. */
  lemma JsRemainderOdd(a: int, b: int)
    requires b > 0
    ensures JsRemainder(-a, b) == -JsRemainder(a, b)
  {
  }

  /** `{minutes: Math.floor(diff / 60), seconds: diff % 60}`. */
  function Split(diff: int): (c: Countdown)
    ensures diff >= 0 ==> c.minutes >= 0 && c.minutes * 60 + c.seconds == diff && 0 <= c.seconds < 60
  {
    Countdown(diff / 60, JsRemainder(diff, 60))
  }

  /** `c` shows the time from `now` to `target`. */
  ghost predicate ShowsTimeTo(c: Countdown, now: int, target: int)
  {
    c.minutes * 60 + c.seconds == target - now && 0 <= c.seconds < 60
  }

  /** A non-negative difference has exactly one minutes/seconds reading, and Split finds it. */
  lemma SplitUnique(diff: int, m: int, sec: int)
    requires diff >= 0 && m * 60 + sec == diff && 0 <= sec < 60
    ensures Split(diff) == Countdown(m, sec)
  {
    var c := Split(diff);
    assert (c.minutes - m) * 60 == sec - c.seconds;
  }

  // ---------------------------------------------------------------------------
  // Starting requests (each handler's guard)
  // ---------------------------------------------------------------------------

  /** `fetchQuizDetails` of a render whose quiz code was `code`: without credentials an error modal and no request. */
  function StartDetails(s: Session, user: Option<AuthContext.User>, code: string): (r: (Session, Request))
    ensures r.1 == DetailsRequest(code) <==> HasCredentials(user, code)
    ensures r.1 == DetailsRequest(code) ==> r.0 == s
    ensures r.1 != DetailsRequest(code) ==> r.1 == NoRequest && r.0 == s.(modal := ErrorShown("Missing required information"))
  {
    if HasCredentials(user, code) then (s, DetailsRequest(code))
    else (s.(modal := ErrorShown("Missing required information")), NoRequest)
  }

  /** `checkQuizStatus`, `fetchQuestions` and `handleAnswerSubmit` return silently without credentials. */
  function Guarded(user: Option<AuthContext.User>, quizCode: string, request: Request): (r: Request)
    ensures r != NoRequest ==> r == request && HasCredentials(user, quizCode)
    ensures HasCredentials(user, quizCode) ==> r == request
  {
    if HasCredentials(user, quizCode) then request else NoRequest
  }

  /**
   * `handleSubmitQuiz` of a render whose `submitting` flag and quiz code were `submitting`
   * and `code`: it returns early when that flag is set or a credential is missing.
   */
  function SubmitFrom(s: Session, user: Option<AuthContext.User>, submitting: bool, code: string): (r: (Session, Request))
    ensures r.1 != NoRequest <==> !submitting && HasCredentials(user, code)
    ensures r.1 != NoRequest ==> r == (s.(submitting := true), SubmitRequest(code))
    ensures r.1 == NoRequest ==> r.0 == s
  {
    if submitting || !HasCredentials(user, code) then (s, NoRequest)
    else (s.(submitting := true), SubmitRequest(code))
  }

  /** The Submit button calls the current render's handler: at most one submission at a time. */
  function StartSubmit(s: Session, user: Option<AuthContext.User>): (r: (Session, Request))
    ensures r.1 != NoRequest <==> !s.submitting && HasCredentials(user, s.quizCode)
    ensures r.1 != NoRequest ==> r == (s.(submitting := true), SubmitRequest(s.quizCode))
    ensures r.1 == NoRequest ==> r.0 == s
  {
    SubmitFrom(s, user, s.submitting, s.quizCode)
  }

  // ---------------------------------------------------------------------------
  // Timer ticks
  // ---------------------------------------------------------------------------

  /**
   * The countdown interval's check while waiting: count down to the login time, then to the
   * start time, then fetch the questions. The fetches use the quiz code of the render that
   * installed the interval.
   */
  function WaitingTick(s: Session, user: Option<AuthContext.User>, now: int): (r: (Session, Request))
    requires s.status == Waiting && s.windowInfo.Some?
    ensures var w := s.windowInfo.value;
      && r.0.questions == s.questions && r.0.answers == s.answers && r.0.status == s.status
      && r.0.timers == s.timers && r.0.quizCode == s.quizCode
      && (r.0.countdown.None? <==> now >= w.loginTime && now >= w.startTime)
      && (now < w.loginTime ==> ShowsTimeTo(r.0.countdown.value, now, w.loginTime))
      && (w.loginTime <= now < w.startTime ==> ShowsTimeTo(r.0.countdown.value, now, w.startTime))
      && (r.1.QuestionsRequest? <==> now >= w.loginTime && now >= w.startTime && HasCredentials(user, s.timers.countdownCode))
      && (r.1.QuestionsRequest? ==> r.1 == QuestionsRequest(s.timers.countdownCode))
      && (r.1 == NoRequest || r.1.QuestionsRequest? || r.1.DetailsRequest?)
  {
    var w := s.windowInfo.value;
    var code := s.timers.countdownCode;
    if now < w.loginTime then BeforeLogin(s, now, w)
    else if now < w.startTime then BeforeStart(s, user, now, w)
    else (s.(countdown := None), Guarded(user, code, QuestionsRequest(code)))
  }

  /** Before the login time: count down to it (in the countdown modal too, while it is shown). */
  function BeforeLogin(s: Session, now: int, w: QuizWindow): (r: (Session, Request))
    requires now < w.loginTime
    ensures r.0 == s.(countdown := r.0.countdown, modal := r.0.modal)
    ensures r.0.countdown.Some? && ShowsTimeTo(r.0.countdown.value, now, w.loginTime)
    ensures r.1 == NoRequest
  {
    var c := Split(w.loginTime - now);
    var modal := if s.modal.kind == CountdownModal && s.modal.show then s.modal.(countdown := Some(c)) else s.modal;
    (s.(countdown := Some(c), modal := modal), NoRequest)
  }

  /**
   * Between the login and start times: count down to the start; a countdown modal is hidden
   * and the details are fetched again, with the interval's quiz code.
   */
  function BeforeStart(s: Session, user: Option<AuthContext.User>, now: int, w: QuizWindow): (r: (Session, Request))
    requires w.loginTime <= now < w.startTime
    ensures r.0 == s.(countdown := r.0.countdown, modal := r.0.modal)
    ensures r.0.countdown.Some? && ShowsTimeTo(r.0.countdown.value, now, w.startTime)
    ensures r.1 == NoRequest || r.1 == DetailsRequest(s.timers.countdownCode)
  {
    var next := s.(countdown := Some(Split(w.startTime - now)));
    if s.modal.kind == CountdownModal then StartDetails(next.(modal := s.modal.(show := false)), user, s.timers.countdownCode)
    else (next, NoRequest)
  }

  /**
   * The auto-redirect interval's check while waiting: from the start time on it fetches the
   * questions every second, with the quiz code of the render that installed it.
   */
  function RedirectTick(s: Session, user: Option<AuthContext.User>, now: int): (r: Request)
    ensures r != NoRequest <==>
      s.status == Waiting && s.windowInfo.Some? && now >= s.windowInfo.value.startTime
      && HasCredentials(user, s.timers.redirectCode)
    ensures r != NoRequest ==> r == QuestionsRequest(s.timers.redirectCode)
  {
    if s.status == Waiting && s.windowInfo.Some? && now >= s.windowInfo.value.startTime
    then Guarded(user, s.timers.redirectCode, QuestionsRequest(s.timers.redirectCode))
    else NoRequest
  }

  /**
   * The tick touches the modal only while a countdown modal is up: before the login time it
   * refreshes that modal's countdown, between the login and start times it hides it and
   * asks for the details again.
   */
  lemma WaitingTickModal(s: Session, user: Option<AuthContext.User>, now: int)
    requires s.status == Waiting && s.windowInfo.Some?
    ensures WaitingTick(s, user, now).1.DetailsRequest? ==>
      s.windowInfo.value.loginTime <= now < s.windowInfo.value.startTime && s.modal.kind == CountdownModal
    ensures s.modal.kind != CountdownModal ==> WaitingTick(s, user, now).0.modal == s.modal
    ensures now < s.windowInfo.value.loginTime ==>
      var r := WaitingTick(s, user, now).0;
      r.modal == s.modal || r.modal == s.modal.(countdown := r.countdown)
  {
  }

  /**
   * The quiz-duration interval's check while active: show the time left, and once it is over
   * call the `handleSubmitQuiz` of the render that installed the interval. That render's
   * `submitting` flag, not the current one, decides, so a submission in flight does not stop
   * the next tick from sending another.
   */
  function ActiveTick(s: Session, user: Option<AuthContext.User>, now: int): (r: (Session, Request))
    requires s.status == Active && s.details.Some?
    ensures var end := s.details.value.endTime;
      && (r.0.timeLeft.Some? <==> now < end)
      && (now < end ==> ShowsTimeTo(r.0.timeLeft.value, now, end) && r.1 == NoRequest)
      && (r.1 != NoRequest <==> now >= end && !s.timers.durationSubmitting && HasCredentials(user, s.timers.durationCode))
      && (r.1 != NoRequest ==> r.1 == SubmitRequest(s.timers.durationCode))
      && r.0 == s.(timeLeft := r.0.timeLeft, submitting := r.0.submitting)
      && (r.0.submitting <==> s.submitting || r.1 != NoRequest)
  {
    var end := s.details.value.endTime;
    if now < end then (s.(timeLeft := Some(Split(end - now))), NoRequest)
    else SubmitFrom(s.(timeLeft := None), user, s.timers.durationSubmitting, s.timers.durationCode)
  }

  /**
   * The evidently intended duration check: the same, but reading the current `submitting`
   * flag and quiz code, so it never sends while a submission is in flight.
   */
  function IntendedActiveTick(s: Session, user: Option<AuthContext.User>, now: int): (r: (Session, Request))
    requires s.status == Active && s.details.Some?
    ensures var end := s.details.value.endTime;
      && (r.0.timeLeft.Some? <==> now < end)
      && (r.1 != NoRequest <==> now >= end && !s.submitting && HasCredentials(user, s.quizCode))
      && (r.1 != NoRequest ==> r.1 == SubmitRequest(s.quizCode) && r.0.submitting)
      && r.0 == s.(timeLeft := r.0.timeLeft, submitting := r.0.submitting)
  {
    var end := s.details.value.endTime;
    if now < end then (s.(timeLeft := Some(Split(end - now))), NoRequest)
    else StartSubmit(s.(timeLeft := None), user)
  }

  /** One second passes. Outside the waiting and active phases nothing happens. */
  function Tick(s: Session, user: Option<AuthContext.User>, now: int): (r: (Session, Request))
    ensures !(s.status == Waiting && s.windowInfo.Some?) && !(s.status == Active && s.details.Some?) ==> r == (s, NoRequest)
  {
    if s.status == Waiting && s.windowInfo.Some? then WaitingTick(s, user, now)
    else if s.status == Active && s.details.Some? then ActiveTick(s, user, now)
    else (s, NoRequest)
  }

  /** The 30-second refresh while active; its effect re-runs on every quiz-code change, so it reads the current code. */
  function PollTimer(s: Session, user: Option<AuthContext.User>): (r: Request)
    ensures r != NoRequest <==> s.status == Active && HasCredentials(user, s.quizCode)
    ensures r != NoRequest ==> r == QuestionsRequest(s.quizCode)
  {
    if s.status == Active && s.quizCode != "" then Guarded(user, s.quizCode, QuestionsRequest(s.quizCode)) else NoRequest
  }

  // ---------------------------------------------------------------------------
  // Replies
  // ---------------------------------------------------------------------------

  /** A details reply that is neither refused (403/406) nor reports an expired window. */
  predicate PassesEarlyChecks(reply: DetailsReply)
  {
    reply.DetailsReplied? && reply.code !in {403, 406} && !MsgIncludes(reply.msg, ExpiredMessage)
  }

  /**
   * The quiz-details reply. In order: 403/406, the expired message, the not-started message,
   * then the details themselves (waiting before the login time, else the status check). The
   * handler continues in the closure that sent the request, so the status check carries
   * `sentCode`, the quiz code the details request was sent with.
   */
  function HandleDetails(s: Session, user: Option<AuthContext.User>, sentCode: string, reply: DetailsReply, now: int): (r: (Session, Request))
    ensures r.0.questions == s.questions && r.0.answers == s.answers && r.0.index == s.index
    ensures r.0.quizCode == s.quizCode
    ensures r.0.status in {s.status, Error, Waiting}
    ensures r.0.modal == s.modal || r.0.modal.kind != CountdownModal
    ensures reply.DetailsThrown? ==> r.0.status == Error && r.1 == NoRequest
    ensures reply.DetailsReplied? && reply.code in {403, 406} ==> r.0.status == Error && r.1 == NoRequest
    ensures reply.DetailsReplied? && MsgIncludes(reply.msg, ExpiredMessage) ==> r.0.status == Error && r.1 == NoRequest
    ensures PassesEarlyChecks(reply) && MsgIncludes(reply.msg, LoginNotStartedText) ==>
        && r.1 == NoRequest && r.0.details == s.details
        && (reply.nested.Some? ==> r.0.status == Waiting && r.0.windowInfo == reply.nested)
        && (reply.nested.None? ==> r.0.status == Error)
    ensures PassesEarlyChecks(reply) && !MsgIncludes(reply.msg, LoginNotStartedText) ==>
        var found := if reply.top.Some? then reply.top else reply.nested;
        && (found.None? ==> r == (s, NoRequest))
        && (found.Some? ==> r.0.details == found)
        && (found.Some? && now < found.value.loginTime ==> r.0.status == Waiting && r.0.windowInfo == found && r.1 == NoRequest)
        && (found.Some? && now >= found.value.loginTime ==> r.0.status == s.status && r.1 == Guarded(user, sentCode, StatusRequest(sentCode)))
    ensures r.1 != NoRequest ==> r.1 == StatusRequest(sentCode) && r.0.details.Some? && now >= r.0.details.value.loginTime
  {
    match reply
    case DetailsThrown => (Failed(s, "Failed to fetch quiz details"), NoRequest)
    case DetailsReplied(code, msg, nested, top) =>
      if code == 403 || code == 406 then
        (Failed(s, Text.MsgOr(msg, "Invalid Quiz ID")), NoRequest)
      else if MsgIncludes(msg, ExpiredMessage) then
        (Failed(s, Text.MsgOr(msg, "Login window has expired")), NoRequest)
      else if MsgIncludes(msg, LoginNotStartedText) then
        match nested
        case None => (Failed(s, "Failed to fetch quiz details"), NoRequest)
        case Some(w) =>
          var accepted := Shown(SuccessModal, "Quiz Code Accepted", Literal("You will be automatically redirected when the quiz starts."));
          (s.(windowInfo := Some(w), status := Waiting, modal := accepted), NoRequest)
      else
        var found := if top.Some? then top else nested;
        match found
        case None => (s, NoRequest)
        case Some(q) =>
          if now < q.loginTime then
            var info := Shown(InfoModal, "Quiz Status", Schedule(q.loginTime, q.startTime));
            (s.(details := Some(q), windowInfo := Some(q), status := Waiting, modal := info), NoRequest)
          else
            (s.(details := Some(q)), Guarded(user, sentCode, StatusRequest(sentCode)))
  }

  predicate IsNotStarted(msg: Option<string>)
  {
    msg == Some(TestNotStartedMessage) || msg == Some(LoginNotStartedMessage)
  }

  /** The "already over" reply. */
  predicate IsOver(reply: QuestionsReply)
  {
    reply.QuestionsReplied? && reply.code == 400 && reply.msg == Some(TestOverMessage)
  }

  /** The status check's reply, classified in order; every outcome sets a status. */
  function HandleStatus(s: Session, reply: QuestionsReply): (r: Session)
    ensures r.status == Completed <==> IsOver(reply)
    ensures r.status == Waiting <==>
      reply.QuestionsReplied? && !IsOver(reply) && IsNotStarted(reply.msg) && reply.payload.WindowPayload?
    ensures r.status == Active <==>
      && reply.QuestionsReplied? && !IsOver(reply) && !IsNotStarted(reply.msg) && reply.msg != Some(ExpiredMessage)
      && reply.payload.QuestionList? && |reply.payload.items| > 0
    ensures r.status in {Completed, Waiting, Active, Error}
    ensures r.status == Active ==> r.questions == reply.payload.items
    ensures r.status == Waiting ==> r.windowInfo == Some(reply.payload.window)
    ensures r.answers == s.answers
    ensures r.status != Active ==> r.questions == s.questions
    ensures r.modal == s.modal || r.modal.kind != CountdownModal
  {
    match reply
    case QuestionsThrown => Failed(s, "Failed to check quiz status")
    case QuestionsReplied(code, msg, payload) =>
      if code == 400 && msg == Some(TestOverMessage) then
        s.(status := Completed, modal := ErrorShown("This quiz has already ended"))
      else if IsNotStarted(msg) then
        match payload
        case WindowPayload(w) =>
          s.(windowInfo := Some(w), status := Waiting, modal := Shown(InfoModal, "Quiz Status", Schedule(w.loginTime, w.startTime)))
        case _ => Failed(s, "Failed to check quiz status")
      else if msg == Some(ExpiredMessage) then
        Failed(s, "Login window has expired")
      else if payload.QuestionList? && |payload.items| > 0 then
        s.(questions := payload.items, status := Active)
      else
        Failed(s, Text.MsgOr(msg, "Failed to check quiz status"))
  }

  /** The answers recorded in a question list, later questions overriding earlier ones with the same id. */
  function AnswersOf(qs: seq<Question>): (m: map<int, int>)
    ensures m.Keys == set q | q in qs && q.submitted.Some? :: q.id
    decreases |qs|
  {
    if |qs| == 0 then map[]
    else
      var init := qs[..|qs| - 1];
      var last := qs[|qs| - 1];
      assert forall q :: q in qs <==> q in init || q == last;
      var m := AnswersOf(init);
      if last.submitted.Some? then m[last.id := last.submitted.value.answer] else m
  }

  /** The poll's reply: a question list replaces questions and answers wholesale and activates the quiz. */
  function HandlePoll(s: Session, reply: QuestionsReply): (r: Session)
    ensures reply.QuestionsReplied? && reply.payload.QuestionList? ==>
      && r.questions == reply.payload.items
      && r.answers.Keys == (set q | q in reply.payload.items && q.submitted.Some? :: q.id)
      && r.status == Active && r.windowInfo.None?
    ensures reply.QuestionsReplied? && reply.payload.NoPayload? ==>
      r == s.(modal := ErrorShown(Text.MsgOr(reply.msg, "Failed to fetch questions")))
    ensures reply.QuestionsThrown? || reply.payload.WindowPayload? ==> r.status == Error && r.answers == s.answers
    ensures r.modal == s.modal || r.modal.kind != CountdownModal
  {
    match reply
    case QuestionsThrown => Failed(s, "Failed to fetch questions")
    case QuestionsReplied(_, msg, payload) =>
      match payload
      case QuestionList(items) =>
        s.(questions := items, answers := AnswersOf(items), status := Active, windowInfo := None)
      case NoPayload =>
        s.(modal := ErrorShown(Text.MsgOr(msg, "Failed to fetch questions")))
      case WindowPayload(_) =>
        Failed(s.(questions := []), "Failed to fetch questions")
  }

  /** Marks every question with the given id as answered with `answer` at time `now`. */
  function RecordAnswer(qs: seq<Question>, id: int, answer: int, now: int): (r: seq<Question>)
    ensures |r| == |qs|
    ensures forall i :: 0 <= i < |qs| && qs[i].id != id ==> r[i] == qs[i]
    ensures forall i :: 0 <= i < |qs| && qs[i].id == id ==>
      r[i].id == id && r[i].marks == qs[i].marks && r[i].options == qs[i].options
      && r[i].submitted == Some(SubmittedAnswer(answer, now))
  {
    seq(|qs|, i requires 0 <= i < |qs| =>
      if qs[i].id == id then qs[i].(submitted := Some(SubmittedAnswer(answer, now))) else qs[i])
  }

  /** The answer-submit reply: only the exact success message records the answer. */
  function HandleAnswer(s: Session, id: int, answer: int, reply: AnswerReply, now: int): (r: Session)
    ensures reply == AnswerReplied(Some(AnswerRecordedMessage)) ==>
      r == s.(answers := s.answers[id := answer], questions := RecordAnswer(s.questions, id, answer, now))
    ensures reply != AnswerReplied(Some(AnswerRecordedMessage)) ==>
      r.answers == s.answers && r.questions == s.questions && r.status == s.status && r.modal.show && r.modal.kind == ErrorModal
  {
    match reply
    case AnswerThrown => s.(modal := ErrorShown("Failed to submit answer"))
    case AnswerReplied(msg) =>
      if msg == Some(AnswerRecordedMessage) then
        s.(answers := s.answers[id := answer], questions := RecordAnswer(s.questions, id, answer, now))
      else
        s.(modal := ErrorShown(Text.MsgOr(msg, "Failed to submit answer")))
  }

  /** The final submit's reply; `submitting` is released whatever happened. */
  function FinishSubmit(s: Session, reply: SubmitReply): (r: Session)
    ensures !r.submitting
    ensures r.status == (if reply.SubmitOk? then Completed else s.status)
    ensures r.submitSuccess <==> reply.SubmitOk? || s.submitSuccess
    ensures !reply.SubmitOk? ==> r.modal.show && r.modal.kind == ErrorModal
    ensures r.questions == s.questions && r.answers == s.answers
  {
    match reply
    case SubmitOk => s.(status := Completed, submitSuccess := true, submitting := false)
    case SubmitRejected(msg) => s.(modal := ErrorShown(Text.MsgOr(msg, "Failed to submit quiz")), submitting := false)
    case SubmitThrown => s.(modal := ErrorShown("Failed to submit quiz"), submitting := false)
  }

  // ---------------------------------------------------------------------------
  // Navigation
  // ---------------------------------------------------------------------------

  /** `Math.max(0, i - 1)`. */
  function PreviousIndex(i: int): (j: int)
    ensures 0 <= j && (i >= 0 ==> j <= i) && (i > 0 ==> j == i - 1)
  {
    if i - 1 > 0 then i - 1 else 0
  }

  /** `Math.min(len - 1, i + 1)`. */
  function NextIndex(i: int, len: int): (j: int)
    ensures j < len && j <= i + 1 && (i + 1 < len ==> j == i + 1)
  {
    if len - 1 < i + 1 then len - 1 else i + 1
  }

  /** An index inside the question list stays inside it, and Next undoes Previous. */
  lemma NavigationStaysInRange(i: int, len: int)
    requires 0 <= i < len
    ensures 0 <= PreviousIndex(i) < len && 0 <= NextIndex(i, len) < len
    ensures i > 0 ==> NextIndex(PreviousIndex(i), len) == i
    ensures i + 1 < len ==> PreviousIndex(NextIndex(i, len)) == i
  {
  }

  /** The page shows a question (rather than the code form) exactly when this holds. */
  predicate ShowsQuestion(s: Session)
  {
    s.status == Active && 0 <= s.index < |s.questions|
  }

  // ---------------------------------------------------------------------------
  // The whole page as one step function
  // ---------------------------------------------------------------------------

  datatype Event =
    | Opened(hasToken: bool)
    | CodeEdited(code: string)
    | CodeSubmitted
    | Clock(now: int)
    | RedirectCheck(now: int)
    | PollDue
    | DetailsArrived(sentCode: string, detailsReply: DetailsReply, now: int)
    | StatusArrived(statusReply: QuestionsReply)
    | QuestionsArrived(questionsReply: QuestionsReply)
    | OptionChosen(questionId: int, choice: int)
    | AnswerArrived(questionId: int, answer: int, answerReply: AnswerReply, now: int)
    | SubmitPressed
    | SubmitArrived(submitReply: SubmitReply)
    | Previous
    | Next
    | Jump(target: int)
    | ModalClosed

  /**
   * One event on the quiz page, before any effect re-runs. `Clock` is a tick of the countdown
   * and duration intervals, `RedirectCheck` one of the auto-redirect interval.
   */
  function Handle(s: Session, user: Option<AuthContext.User>, e: Event): (r: (Session, Request))
    ensures e.Previous? || e.Next? || e.Jump? || e.ModalClosed? || e.CodeEdited? ==> r.1 == NoRequest
  {
    match e
    case Opened(hasToken) => if hasToken && s.quizCode != "" then StartDetails(s, user, s.quizCode) else (s, NoRequest)
    case CodeEdited(code) => (s.(quizCode := code), NoRequest)
    case CodeSubmitted =>
      if s.quizCode == "" then (s.(modal := ErrorShown("Please enter a quiz code")), NoRequest)
      else StartDetails(s, user, s.quizCode)
    case Clock(now) => Tick(s, user, now)
    case RedirectCheck(now) => (s, RedirectTick(s, user, now))
    case PollDue => (s, PollTimer(s, user))
    case DetailsArrived(sentCode, reply, now) => HandleDetails(s, user, sentCode, reply, now)
    case StatusArrived(reply) => (HandleStatus(s, reply), NoRequest)
    case QuestionsArrived(reply) => (HandlePoll(s, reply), NoRequest)
    case OptionChosen(id, choice) => (s, Guarded(user, s.quizCode, AnswerRequest(s.quizCode, id, choice)))
    case AnswerArrived(id, answer, reply, now) => (HandleAnswer(s, id, answer, reply, now), NoRequest)
    case SubmitPressed => StartSubmit(s, user)
    case SubmitArrived(reply) => (FinishSubmit(s, reply), NoRequest)
    case Previous => (s.(index := PreviousIndex(s.index)), NoRequest)
    case Next => (s.(index := NextIndex(s.index, |s.questions|)), NoRequest)
    case Jump(target) => (s.(index := target), NoRequest)
    case ModalClosed => (s.(modal := s.modal.(show := false)), NoRequest)
  }

  /** The auto-redirect effect depends on the status and the window. */
  predicate RedirectDepsChanged(s: Session, t: Session)
  {
    s.status != t.status || s.windowInfo != t.windowInfo
  }

  /** The countdown effect depends on the status, the window and the modal's kind and visibility. */
  predicate CountdownDepsChanged(s: Session, t: Session)
  {
    RedirectDepsChanged(s, t) || s.modal.kind != t.modal.kind || s.modal.show != t.modal.show
  }

  /** The duration effect depends on the status and the details. */
  predicate DurationDepsChanged(s: Session, t: Session)
  {
    s.status != t.status || s.details != t.details
  }

  /**
   * The render after a step from `s` to `t`: React re-runs each effect whose dependencies
   * changed, and the interval it installs reads `t`'s values; every other interval keeps
   * reading what it read before.
   */
  function Rerun(s: Session, t: Session): (r: Session)
    ensures r == t.(timers := r.timers)
    ensures RedirectDepsChanged(s, t) ==> r.timers.redirectCode == t.quizCode
    ensures !RedirectDepsChanged(s, t) ==> r.timers.redirectCode == s.timers.redirectCode
    ensures CountdownDepsChanged(s, t) ==> r.timers.countdownCode == t.quizCode
    ensures !CountdownDepsChanged(s, t) ==> r.timers.countdownCode == s.timers.countdownCode
    ensures DurationDepsChanged(s, t) ==> r.timers.durationCode == t.quizCode && r.timers.durationSubmitting == t.submitting
    ensures !DurationDepsChanged(s, t) ==>
      r.timers.durationCode == s.timers.durationCode && r.timers.durationSubmitting == s.timers.durationSubmitting
  {
    var redirect := if RedirectDepsChanged(s, t) then t.quizCode else s.timers.redirectCode;
    var countdown := if CountdownDepsChanged(s, t) then t.quizCode else s.timers.countdownCode;
    var duration := DurationDepsChanged(s, t);
    t.(timers := Timers(
      redirect,
      countdown,
      if duration then t.quizCode else s.timers.durationCode,
      if duration then t.submitting else s.timers.durationSubmitting))
  }

  /** One event on the quiz page, followed by the render it causes. Moving between questions, closing the modal or typing sends nothing. */
  function Step(s: Session, user: Option<AuthContext.User>, e: Event): (r: (Session, Request))
    ensures e.Previous? || e.Next? || e.Jump? || e.ModalClosed? || e.CodeEdited? ==> r.1 == NoRequest
  {
    var (t, q) := Handle(s, user, e);
    (Rerun(s, t), q)
  }

  /**
   * The page with the evidently intended duration check, reading the current `submitting`
   * flag and quiz code; every other event is handled as on the page.
   */
  function IntendedStep(s: Session, user: Option<AuthContext.User>, e: Event): (r: (Session, Request))
    ensures !e.Clock? ==> r == Step(s, user, e)
  {
    match e
    case Clock(now) =>
      if s.status == Active && s.details.Some? then
        var (t, q) := IntendedActiveTick(s, user, now);
        (Rerun(s, t), q)
      else Step(s, user, e)
    case _ => Step(s, user, e)
  }

  // ---------------------------------------------------------------------------
  // Properties
  // ---------------------------------------------------------------------------

  /** When the details reply is both expired and not started, the expired reading wins. */
  lemma ExpiredWins(s: Session, user: Option<AuthContext.User>, sentCode: string, code: int, msg: string,
                    nested: Option<QuizWindow>, top: Option<QuizWindow>, now: int)
    requires code != 403 && code != 406
    requires Text.Contains(msg, ExpiredMessage) && Text.Contains(msg, LoginNotStartedText)
    ensures HandleDetails(s, user, sentCode, DetailsReplied(code, Some(msg), nested, top), now).0 == Failed(s, msg)
  {
  }

  /** The answers map agrees with what every question records as answered. */
  ghost predicate Agree(answers: map<int, int>, qs: seq<Question>)
  {
    forall i :: 0 <= i < |qs| ==> Get(answers, qs[i].id) == SubmittedChoice(qs[i])
  }

  /** With distinct ids, each recorded answer is the one in the map. */
  lemma {:induction false} AnswersOfAgree(qs: seq<Question>)
    requires UniqueIds(qs)
    ensures Agree(AnswersOf(qs), qs)
    decreases |qs|
  {
    if |qs| > 0 {
      var init := qs[..|qs| - 1];
      var last := qs[|qs| - 1];
      AnswersOfAgree(init);
      var m := AnswersOf(init);
      forall i | 0 <= i < |qs|
        ensures Get(AnswersOf(qs), qs[i].id) == SubmittedChoice(qs[i])
      {
        if i < |qs| - 1 {
          assert init[i] == qs[i];
          assert qs[i].id != last.id;
        }
      }
    }
  }

  /** A successful answer keeps the map and the questions in agreement. */
  lemma AnswerKeepsAgreement(answers: map<int, int>, qs: seq<Question>, id: int, answer: int, now: int)
    requires Agree(answers, qs)
    ensures Agree(answers[id := answer], RecordAnswer(qs, id, answer, now))
  {
    var r := RecordAnswer(qs, id, answer, now);
    forall i | 0 <= i < |r|
      ensures Get(answers[id := answer], r[i].id) == SubmittedChoice(r[i])
    {
      assert Get(answers, qs[i].id) == SubmittedChoice(qs[i]);
    }
  }

  /**
   * Every step except the status check keeps the answers map in agreement with the
   * questions, given that polled question lists have distinct ids. (The status check
   * replaces the questions without rebuilding the map.)
   */
  lemma StepKeepsAgreement(s: Session, user: Option<AuthContext.User>, e: Event)
    requires Agree(s.answers, s.questions)
    requires !e.StatusArrived?
    requires e.QuestionsArrived? && e.questionsReply.QuestionsReplied? && e.questionsReply.payload.QuestionList?
      ==> UniqueIds(e.questionsReply.payload.items)
    ensures Agree(Step(s, user, e).0.answers, Step(s, user, e).0.questions)
  {
    match e
    case QuestionsArrived(reply) =>
      if reply.QuestionsReplied? && reply.payload.QuestionList? {
        AnswersOfAgree(reply.payload.items);
      }
    case AnswerArrived(id, answer, reply, now) =>
      if reply == AnswerReplied(Some(AnswerRecordedMessage)) {
        AnswerKeepsAgreement(s.answers, s.questions, id, answer, now);
      }
    case _ =>
      StepKeepsData(s, user, e);
  }

  /** Only the three question-list replies and the answer reply change the questions or the answers. */
  lemma StepKeepsData(s: Session, user: Option<AuthContext.User>, e: Event)
    requires !e.StatusArrived? && !e.QuestionsArrived? && !e.AnswerArrived?
    ensures Step(s, user, e).0.answers == s.answers && Step(s, user, e).0.questions == s.questions
  {
    match e
    case Clock(now) =>
      if s.status == Active && s.details.Some? {
        assert Tick(s, user, now) == ActiveTick(s, user, now);
      }
    case _ =>
  }

  /** Only typing changes the quiz code. */
  lemma StepKeepsCode(s: Session, user: Option<AuthContext.User>, e: Event)
    requires !e.CodeEdited?
    ensures Step(s, user, e).0.quizCode == s.quizCode
  {
    match e
    case Clock(now) => TickKeepsCode(s, user, now);
    case StatusArrived(reply) => StatusKeepsCode(s, reply);
    case QuestionsArrived(reply) => PollKeepsCode(s, reply);
    case AnswerArrived(id, answer, reply, now) => AnswerKeepsCode(s, id, answer, reply, now);
    case _ =>
  }

  lemma TickKeepsCode(s: Session, user: Option<AuthContext.User>, now: int)
    ensures Tick(s, user, now).0.quizCode == s.quizCode
  {
    if s.status == Active && s.details.Some? {
      assert Tick(s, user, now) == ActiveTick(s, user, now);
    }
  }

  lemma StatusKeepsCode(s: Session, reply: QuestionsReply)
    ensures HandleStatus(s, reply).quizCode == s.quizCode
  {
  }

  lemma PollKeepsCode(s: Session, reply: QuestionsReply)
    ensures HandlePoll(s, reply).quizCode == s.quizCode
  {
  }

  lemma AnswerKeepsCode(s: Session, id: int, answer: int, reply: AnswerReply, now: int)
    ensures HandleAnswer(s, id, answer, reply, now).quizCode == s.quizCode
  {
  }

  /** Recording the same answer twice at the same time is the same as recording it once. */
  lemma AnswerIdempotent(s: Session, id: int, answer: int, now: int)
    ensures var ok := AnswerReplied(Some(AnswerRecordedMessage));
      HandleAnswer(HandleAnswer(s, id, answer, ok, now), id, answer, ok, now) == HandleAnswer(s, id, answer, ok, now)
  {
    var qs := s.questions;
    var once := RecordAnswer(qs, id, answer, now);
    var twice := RecordAnswer(once, id, answer, now);
    assert twice == once by {
      forall i | 0 <= i < |qs|
        ensures twice[i] == once[i]
      {
      }
    }
  }

  /** No step ever leaves a countdown modal: the one handler that sets one overwrites it at once. */
  lemma CountdownModalNeverSet(s: Session, user: Option<AuthContext.User>, e: Event)
    requires s.modal.kind != CountdownModal
    ensures Step(s, user, e).0.modal.kind != CountdownModal
  {
    match e
    case Clock(now) => TickKeepsModal(s, user, now);
    case DetailsArrived(sentCode, reply, now) =>
    case StatusArrived(reply) =>
    case QuestionsArrived(reply) =>
    case AnswerArrived(id, answer, reply, now) =>
    case SubmitArrived(reply) =>
    case _ =>
  }

  lemma TickKeepsModal(s: Session, user: Option<AuthContext.User>, now: int)
    requires s.modal.kind != CountdownModal
    ensures Tick(s, user, now).0.modal == s.modal
  {
    if s.status == Waiting && s.windowInfo.Some? {
      WaitingTickModal(s, user, now);
    }
  }

  /** Hence, from a reachable session, a waiting tick never asks for the details again. */
  lemma WaitingTickNeverRefetchesDetails(s: Session, user: Option<AuthContext.User>, now: int)
    requires s.modal.kind != CountdownModal
    ensures !Tick(s, user, now).1.DetailsRequest?
  {
    if s.status == Waiting && s.windowInfo.Some? {
      WaitingTickModal(s, user, now);
    }
  }

  /** Events of the active phase never send the session back to waiting or idle. */
  lemma ActivePhaseNeverWaits(s: Session, user: Option<AuthContext.User>, e: Event)
    requires s.status == Active
    requires !e.DetailsArrived? && !e.StatusArrived?
    ensures Step(s, user, e).0.status in {Active, Completed, Error}
  {
  }

  /** After completion the page sends nothing by itself. */
  lemma CompletedIsQuiet(s: Session, user: Option<AuthContext.User>, now: int)
    requires s.status == Completed
    ensures Step(s, user, Clock(now)) == (s, NoRequest)
    ensures Step(s, user, RedirectCheck(now)) == (s, NoRequest)
    ensures Step(s, user, PollDue) == (s, NoRequest)
  {
  }

  /**
   * The end of the quiz as written: the first tick at or after the end time sends the
   * submission, and so does the next one while the first is still in flight, because the
   * duration interval still reads the `submitting` flag of the render that installed it.
   */
  lemma AutoSubmitResends(s: Session, user: Option<AuthContext.User>, t1: int, t2: int)
    requires s.status == Active && s.details.Some? && !s.submitting && !s.timers.durationSubmitting
    requires HasCredentials(user, s.timers.durationCode)
    requires s.details.value.endTime <= t1 && s.details.value.endTime <= t2
    ensures var (s1, q1) := Step(s, user, Clock(t1));
      && q1 == SubmitRequest(s.timers.durationCode) && s1.submitting
      && Step(s1, user, Clock(t2)).1 == SubmitRequest(s.timers.durationCode)
  {
    var (t, q) := ActiveTick(s, user, t1);
    var s1 := Rerun(s, t);
    assert !DurationDepsChanged(s, t);
    assert s1.timers.durationSubmitting == s.timers.durationSubmitting;
  }

  /** With the intended duration check, no step sends a submission while one is in flight. */
  lemma IntendedSubmitsOnce(s: Session, user: Option<AuthContext.User>, e: Event)
    requires s.submitting
    ensures !IntendedStep(s, user, e).1.SubmitRequest?
  {
    match e
    case Clock(now) =>
      if s.status == Waiting && s.windowInfo.Some? {
        assert Handle(s, user, e) == WaitingTick(s, user, now);
      }
    case _ =>
  }

  /**
   * The end of the quiz with the intended check: the first tick at or after the end time
   * sends the submission; a tick while it is in flight sends nothing; a successful reply
   * completes the quiz, after which ticks do nothing.
   */
  lemma AutoSubmitOnceIntended(s: Session, user: Option<AuthContext.User>, t1: int, t2: int, t3: int)
    requires s.status == Active && s.details.Some? && !s.submitting
    requires HasCredentials(user, s.quizCode)
    requires s.details.value.endTime <= t1
    ensures var (s1, q1) := IntendedStep(s, user, Clock(t1));
      && q1 == SubmitRequest(s.quizCode) && s1.submitting
      && var (s2, q2) := IntendedStep(s1, user, Clock(t2));
      && q2 == NoRequest
      && var s3 := IntendedStep(s2, user, SubmitArrived(SubmitOk)).0;
      && s3.status == Completed && s3.submitSuccess
      && IntendedStep(s3, user, Clock(t3)) == (s3, NoRequest)
  {
    var s1 := IntendedStep(s, user, Clock(t1)).0;
    var s2 := IntendedStep(s1, user, Clock(t2)).0;
    var s3 := IntendedStep(s2, user, SubmitArrived(SubmitOk)).0;
    CompletedIsQuiet(s3, user, t3);
  }

  /**
   * The waiting intervals as written: after the quiz code is cleared, the countdown and the
   * auto-redirect ticks still fetch the questions with the code they captured.
   */
  lemma ClearedCodeStillFetches(s: Session, user: Option<AuthContext.User>, now: int)
    requires s.status == Waiting && s.windowInfo.Some? && s.modal.kind != CountdownModal
    requires now >= s.windowInfo.value.loginTime && now >= s.windowInfo.value.startTime
    requires HasCredentials(user, s.timers.countdownCode) && HasCredentials(user, s.timers.redirectCode)
    ensures var s1 := Step(s, user, CodeEdited("")).0;
      && s1.quizCode == ""
      && Step(s1, user, Clock(now)).1 == QuestionsRequest(s.timers.countdownCode)
      && Step(s1, user, RedirectCheck(now)).1 == QuestionsRequest(s.timers.redirectCode)
  {
    var s1 := Step(s, user, CodeEdited("")).0;
    assert s1.timers == s.timers;
    assert Handle(s1, user, Clock(now)) == WaitingTick(s1, user, now);
  }

  /** Until the quiz code is edited, every timer reads the current code. */
  lemma CapturedCodeStaysLive(s: Session, user: Option<AuthContext.User>, e: Event)
    requires CapturedLive(s) && !e.CodeEdited?
    ensures CapturedLive(Step(s, user, e).0)
  {
    StepKeepsCode(s, user, e);
  }

  /**
   * Waiting for the start: until both the login and the start times have passed the
   * countdown shows and nothing is sent; after both the questions are requested with the
   * countdown interval's quiz code; a question list then activates the quiz with its
   * recorded answers.
   */
  lemma WaitingThenActive(s: Session, user: Option<AuthContext.User>, now: int, items: seq<Question>)
    requires s.status == Waiting && s.windowInfo.Some? && s.modal.kind != CountdownModal
    requires HasCredentials(user, s.timers.countdownCode) && UniqueIds(items)
    ensures var w := s.windowInfo.value;
      var (s1, q1) := Step(s, user, Clock(now));
      && (now < w.startTime || now < w.loginTime ==> q1 == NoRequest && s1.countdown.Some?)
      && (now >= w.startTime && now >= w.loginTime ==> q1 == QuestionsRequest(s.timers.countdownCode))
      && var s2 := Step(s1, user, QuestionsArrived(QuestionsReplied(200, None, QuestionList(items)))).0;
      && s2.status == Active && s2.questions == items && Agree(s2.answers, s2.questions)
  {
    var w := s.windowInfo.value;
    WaitingTickModal(s, user, now);
    AnswersOfAgree(items);
  }
}
