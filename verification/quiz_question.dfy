/**
 * The question view shown while a quiz is active: the attempted and remaining counts, the
 * edge-disabled navigation buttons, which option shows as chosen, when Save is enabled,
 * and the styles of the navigation cells and badges.
 */
module QuizQuestionView {
  import opened Wrappers
  import opened QuizTypes
  import Lists
  import Text
  import QuizSession
  import AuthContext

  predicate IsAttempted(q: Question)
  {
    q.submitted.Some?
  }

  predicate IsUnattempted(q: Question)
  {
    q.submitted.None?
  }

  /** Questions with a recorded answer. */
  function Attempted(qs: seq<Question>): (n: nat)
    ensures n <= |qs|
    ensures n == 0 <==> forall i :: 0 <= i < |qs| ==> qs[i].submitted.None?
    ensures n == |qs| <==> forall i :: 0 <= i < |qs| ==> qs[i].submitted.Some?
  {
    Lists.Count(qs, IsAttempted)
  }

  /**
   * `totalQuestions - attemptedCount`. The page passes the list's length as the total, and
   * then the remaining count is the number of unanswered questions.
   */
  function Remaining(qs: seq<Question>, total: int): (n: int)
    ensures total == |qs| ==> 0 <= n <= |qs| && n == Lists.Count(qs, IsUnattempted)
  {
    Lists.CountDisjoint(qs, IsAttempted, IsUnattempted);
    total - Attempted(qs)
  }

  /** Previous is disabled on the first question. */
  function PreviousDisabled(index: int): (d: bool)
    ensures d <==> index == 0
  {
    index == 0
  }

  /** Next is disabled on the last question. */
  function NextDisabled(index: int, total: int): (d: bool)
    ensures d <==> index == total - 1
  {
    index == total - 1
  }

  /** Inside the list, a button is disabled exactly when pressing it would not move. */
  lemma DisabledIffStuck(index: int, total: int)
    requires 0 <= index < total
    ensures PreviousDisabled(index) <==> QuizSession.PreviousIndex(index) == index
    ensures NextDisabled(index, total) <==> QuizSession.NextIndex(index, total) == index
  {
  }

  /**
   * The option shown as chosen: the page's answer for the question if any, else the answer
   * the question records, else none (every option's value is non-empty text).
   */
  function DisplayedChoice(selected: Option<int>, q: Question): (c: Option<int>)
    ensures c.Some? <==> selected.Some? || q.submitted.Some?
    ensures selected.Some? ==> c == selected
    ensures selected.None? ==> c == SubmittedChoice(q)
  {
    if selected.Some? then selected else SubmittedChoice(q)
  }

  /** While the answers map agrees with the questions, every question shows its recorded answer. */
  lemma AgreementShowsRecordedAnswers(answers: map<int, int>, qs: seq<Question>)
    requires QuizSession.Agree(answers, qs)
    ensures forall i :: 0 <= i < |qs| ==> DisplayedChoice(Get(answers, qs[i].id), qs[i]) == SubmittedChoice(qs[i])
  {
  }

  /** Choosing an option submits the index its value encodes (values are the indices' decimal text). */
  function ChosenAnswer(value: string): (a: Option<int>)
    ensures value == "" ==> a.None?
  {
    if value == "" then None else Text.ParseInt(value)
  }

  lemma ChosenAnswerIsIndex(index: nat)
    ensures ChosenAnswer(Text.IntToString(index)) == Some(index)
  {
    Text.ParseIntRoundTrip(index);
  }

  function SaveDisabled(selected: Option<int>, q: Question): (d: bool)
    ensures d <==> selected.None? && q.submitted.None?
  {
    selected.None? && q.submitted.None?
  }

  /** What a click on Save submits: the page's answer, when there is one. */
  function SaveClick(selected: Option<int>, q: Question): (a: Option<int>)
    ensures a.Some? ==> !SaveDisabled(selected, q) && a == selected
    ensures selected.Some? ==> a == selected
  {
    selected
  }

  /** Save can be enabled and yet submit nothing: the question records an answer the page's map lacks. */
  lemma SaveEnabledButInert(selected: Option<int>, q: Question)
    ensures !SaveDisabled(selected, q) && SaveClick(selected, q).None? <==> selected.None? && q.submitted.Some?
  {
  }

  datatype Cell = CurrentCell | AnsweredCell | UnansweredCell

  /** The navigation cell's style: current first, then answered, then unanswered. */
  function CellStyle(index: int, current: int, q: Question): (c: Cell)
    ensures c == CurrentCell <==> index == current
    ensures c == AnsweredCell <==> index != current && q.submitted.Some?
    ensures c == UnansweredCell <==> index != current && q.submitted.None?
  {
    if index == current then CurrentCell
    else if q.submitted.Some? then AnsweredCell
    else UnansweredCell
  }

  datatype Badge = AnsweringBadge | AnsweredBadge | NotAnsweredBadge

  function BadgeFor(answering: bool, q: Question): (b: Badge)
    ensures b == AnsweringBadge <==> answering
    ensures b == AnsweredBadge <==> !answering && q.submitted.Some?
    ensures b == NotAnsweredBadge <==> !answering && q.submitted.None?
  {
    if answering then AnsweringBadge
    else if q.submitted.Some? then AnsweredBadge
    else NotAnsweredBadge
  }

  // ---------------------------------------------------------------------------
  // The "Answering..." flag
  // ---------------------------------------------------------------------------

  /** One step of the page as the view sees it: the event and the request the page sent for it. */
  datatype Beat = Beat(event: QuizSession.Event, sent: QuizSession.Request)

  /** A choice whose answer the page sent. */
  predicate IsSend(b: Beat)
  {
    b.event.OptionChosen? && b.sent.AnswerRequest?
  }

  /** The reply to some answer request. */
  predicate IsReply(b: Beat)
  {
    b.event.AnswerArrived?
  }

  /** A beat that ends or starts a call of the view's answer handler. */
  predicate Touches(b: Beat)
  {
    b.event.OptionChosen? || b.event.AnswerArrived?
  }

  /** What the view sees of a page step: a choice is sent exactly when the page's handler has its credentials. */
  function Observe(s: QuizSession.Session, user: Option<AuthContext.User>, e: QuizSession.Event): (b: Beat)
    ensures IsSend(b) <==> e.OptionChosen? && QuizSession.HasCredentials(user, s.quizCode)
    ensures IsReply(b) <==> e.AnswerArrived?
  {
    Beat(e, QuizSession.Step(s, user, e).1)
  }

  /**
   * The view's one `isSubmittingAnswer` flag after a run of beats. Choosing an option raises
   * it; the handler's call returns at once when the page sent nothing, and otherwise when an
   * answer reply arrives, and either way it lowers the flag, whichever call it was.
   */
  function Answering(bs: seq<Beat>): bool
    decreases |bs|
  {
    if |bs| == 0 then false
    else
      var b := bs[|bs| - 1];
      if IsSend(b) then true
      else if Touches(b) then false
      else Answering(bs[..|bs| - 1])
  }

  /** The answer requests still waiting for their reply. */
  function Outstanding(bs: seq<Beat>): nat
    decreases |bs|
  {
    if |bs| == 0 then 0
    else
      var n := Outstanding(bs[..|bs| - 1]);
      var b := bs[|bs| - 1];
      if IsSend(b) then n + 1
      else if IsReply(b) then (if n == 0 then 0 else n - 1)
      else n
  }

  /** Every reply answers an earlier request: no prefix has more replies than sends. */
  ghost predicate Matched(bs: seq<Beat>)
    decreases |bs|
  {
    |bs| == 0 || (Matched(bs[..|bs| - 1]) && Lists.Count(bs, IsReply) <= Lists.Count(bs, IsSend))
  }

  /** The last beat that touches the flag is a choice whose answer was sent. */
  ghost predicate LastTouchIsSend(bs: seq<Beat>)
  {
    exists i :: 0 <= i < |bs| && IsSend(bs[i]) && forall j :: i < j < |bs| ==> !Touches(bs[j])
  }

  /** As written, the flag is up exactly when the last choice or reply was a choice that sent its answer. */
  lemma {:induction false} AnsweringIffLastTouchSent(bs: seq<Beat>)
    ensures Answering(bs) <==> LastTouchIsSend(bs)
    decreases |bs|
  {
    if |bs| > 0 {
      var n := |bs| - 1;
      var init := bs[..n];
      var b := bs[n];
      if IsSend(b) {
        assert IsSend(bs[n]);
      } else if Touches(b) {
      } else {
        AnsweringIffLastTouchSent(init);
        if LastTouchIsSend(bs) {
          var i :| 0 <= i < |bs| && IsSend(bs[i]) && forall j :: i < j < |bs| ==> !Touches(bs[j]);
          assert i < n && init[i] == bs[i];
          assert forall j :: i < j < |init| ==> init[j] == bs[j];
          assert LastTouchIsSend(init);
        }
        if LastTouchIsSend(init) {
          var i :| 0 <= i < |init| && IsSend(init[i]) && forall j :: i < j < |init| ==> !Touches(init[j]);
          assert bs[i] == init[i];
          assert forall j :: i < j < |bs| ==> !Touches(bs[j]) by {
            forall j | i < j < |bs|
              ensures !Touches(bs[j])
            {
              if j < n {
                assert bs[j] == init[j];
              }
            }
          }
        }
      }
    }
  }

  /** While replies answer earlier requests, the outstanding count is sends minus replies. */
  lemma {:induction false} OutstandingCounts(bs: seq<Beat>)
    requires Matched(bs)
    ensures Outstanding(bs) == Lists.Count(bs, IsSend) - Lists.Count(bs, IsReply)
    decreases |bs|
  {
    if |bs| > 0 {
      var n := |bs| - 1;
      var init := bs[..n];
      var b := bs[n];
      assert bs == init + [b];
      OutstandingCounts(init);
      Lists.CountSnoc(init, b, IsSend);
      Lists.CountSnoc(init, b, IsReply);
    }
  }

  /** The flag is only ever up while some answer request is outstanding. */
  lemma {:induction false} AnsweringNeedsOutstanding(bs: seq<Beat>)
    ensures Answering(bs) ==> Outstanding(bs) > 0
    decreases |bs|
  {
    if |bs| > 0 {
      AnsweringNeedsOutstanding(bs[..|bs| - 1]);
    }
  }

  /**
   * As written, two overlapping answers lower the flag too early: after two sends and the
   * first reply the badge no longer reads "Answering..." although one answer is in flight.
   */
  lemma OverlapLowersEarly(a: Beat, b: Beat, c: Beat)
    requires IsSend(a) && IsSend(b) && IsReply(c)
    ensures Matched([a, b, c])
    ensures !Answering([a, b, c]) && Outstanding([a, b, c]) == 1
  {
    OverlapMatched(a, b, c);
    var bs := [a, b, c];
    assert bs[..2] == [a, b] && [a, b][..1] == [a] && [a][..0] == [];
    assert Outstanding([a]) == 1;
    assert Outstanding([a, b]) == 2;
  }

  lemma OverlapMatched(a: Beat, b: Beat, c: Beat)
    requires IsSend(a) && IsSend(b) && IsReply(c)
    ensures Matched([a, b, c])
  {
    var bs := [a, b, c];
    assert bs[..2] == [a, b] && [a, b][..1] == [a] && [a][..0] == [];
    Lists.CountSnoc([a], b, IsSend);
    Lists.CountSnoc([a], b, IsReply);
    Lists.CountSnoc([a, b], c, IsSend);
    Lists.CountSnoc([a, b], c, IsReply);
    assert [a] + [b] == [a, b] && [a, b] + [c] == bs;
    assert Matched([a]);
    assert Matched([a, b]);
  }

  /** The evidently intended flag: up while any answer request is outstanding. */
  function IntendedAnswering(bs: seq<Beat>): bool
  {
    Outstanding(bs) > 0
  }

  /**
   * The intended flag is up exactly while requests outnumber replies, and it is up whenever
   * the flag as written is.
   */
  lemma {:induction false} IntendedBadgeWhileOutstanding(bs: seq<Beat>)
    requires Matched(bs)
    ensures IntendedAnswering(bs) <==> Lists.Count(bs, IsSend) > Lists.Count(bs, IsReply)
    ensures Answering(bs) ==> IntendedAnswering(bs)
  {
    OutstandingCounts(bs);
    AnsweringNeedsOutstanding(bs);
  }

  /** The question's marks label: "Mark" up to one mark, "Marks" above. */
  function MarksWord(q: Question): (w: string)
    ensures w == "Marks" <==> q.marks > 1.0
    ensures w == "Mark" <==> q.marks <= 1.0
  {
    MarksNoun(q.marks, "Mark", "Marks")
  }
}
