/**
 * Scenarios for the server and the two views: each calls the handlers in sequence on
 * concrete inputs, with the clock given explicitly (milliseconds), and its ensures
 * state the outcome, one behaviour of the code as written.
 */
module Scenarios {
  import opened Wrappers
  import opened JsText
  import opened Tally
  import opened Protocol
  import opened Roster
  import opened Server
  import TeacherDashboard
  import StudentView

  const France := PollData("Capital of France?", ["Paris", "Lyon"], Some("Paris"), Some(["Paris"]), Some(15), None, None)

  /** A payload without `correctAnswers` or `maxTime`. */
  const Planets := PollData("Largest planet?", ["Jupiter", "Mars"], Some("Jupiter"), None, None, None, None)

  /** The France poll running since time 1000 with no votes, no close pending and an
      empty history; the roster lists exactly `ids`, in order, none answered. */
  ghost predicate FranceOpen(s: Session, ids: seq<ConnectionId>)
    reads s
  {
    && s.Valid() && |s.students| == |ids| && s.pollHistory == []
    && (forall i :: 0 <= i < |ids| ==> s.students[i].id == ids[i] && !s.students[i].hasAnswered)
    && s.currentPoll.Some? && s.currentPoll.value.isActive && s.currentPoll.value.question == France.question
    && s.currentPoll.value.answers == [] && s.graceDue == []
  }

  method OpenFrance() returns (s: Session)
    ensures fresh(s) && FranceOpen(s, [])
  {
    s := new Session();
    s.CreatePoll(France, 1000);
  }

  /** A student joins the running poll at time 2000. */
  method JoinFrance(s: Session, ids: seq<ConnectionId>, id: ConnectionId)
    requires FranceOpen(s, ids) && id !in ids
    modifies s
    ensures FranceOpen(s, ids + [id])
  {
    assert IndexOfId(s.students, id).None?;
    s.JoinStudent(id, None, 2000);
  }

  /** "s1" answers "Paris" at 3000 and "s2" answers "Lyon" at 4000. */
  method VoteFrance(s: Session)
    requires FranceOpen(s, ["s1", "s2"])
    modifies s
    ensures s.Valid() && s.pollHistory == []
    ensures s.currentPoll.Some? && s.currentPoll.value.answers == [Entry("Paris", 1), Entry("Lyon", 1)]
    ensures s.graceDue == [6000]
  {
    var first := s.SubmitAnswer("s1", "Paris", 3000);
    assert s.students[0].hasAnswered && !s.students[1].hasAnswered && |s.students| == 2;
    var second := s.SubmitAnswer("s2", "Lyon", 4000);
    CountAnsweredAll(s.students);
  }

  /** Two students join a 15-second poll and answer "Paris" and "Lyon": the results are
      one vote each, two in all, and the close two seconds after the last answer
      archives exactly that tally. */
  method CapitalOfFrance() returns (results: Results, closed: bool, history: seq<Poll>)
    ensures results.answers == [Entry("Paris", 1), Entry("Lyon", 1)] && results.totalResponses == 2
    ensures closed && |history| == 1
    ensures history[0].answers == results.answers && !history[0].isActive && history[0].closedAt == Some(6000)
  {
    var s := OpenFrance();
    JoinFrance(s, [], "s1");
    JoinFrance(s, ["s1"], "s2");
    VoteFrance(s);
    results := s.CalculateResults();
    assert [Entry("Paris", 1), Entry("Lyon", 1)][..1] == [Entry("Paris", 1)];
    var fired;
    fired, closed := s.GraceClose(6000);
    history := s.pollHistory;
  }

  /** create-poll while a poll is active: the first poll never reaches the history, the
      second (sent without a timer) runs for 15 seconds, and the first poll's countdown
      interval keeps running beside the new one. */
  method OverwriteDropsActivePoll() returns (history: seq<Poll>, current: Option<Poll>, intervals: nat)
    ensures history == []
    ensures current.Some? && current.value.question == Planets.question && current.value.maxTime == 15
    ensures current.value.correctAnswers == [Some("Jupiter")]
    ensures intervals == 2
  {
    var s := new Session();
    s.CreatePoll(France, 1000);
    s.CreatePoll(Planets, 2000);
    history := s.pollHistory;
    current := s.currentPoll;
    intervals := s.liveIntervals;
  }

  /** An answer that is not one of the options is accepted and tallied. */
  method UnlistedAnswerIsTallied() returns (accepted: bool, results: Results)
    ensures accepted && results.answers == [Entry("Berlin", 1)] && results.totalResponses == 1
  {
    var s := OpenFrance();
    JoinFrance(s, [], "s1");
    accepted := s.SubmitAnswer("s1", "Berlin", 3000);
    results := s.CalculateResults();
  }

  /** force-end-poll twice: the second call finds no active poll and changes nothing. */
  method CloseTwice() returns (first: bool, second: bool, history: seq<Poll>)
    ensures first && !second && |history| == 1 && history[0].question == France.question
  {
    var s := OpenFrance();
    first := s.ForceEndPoll(2000);
    second := s.ForceEndPoll(3000);
    history := s.pollHistory;
  }

  /** The only student answers at 3000, which schedules a close for 5000; the teacher
      ends that poll at 3500 and starts another at 4000; at 5000 the pending close ends
      the new poll, one second into its fifteen. */
  method StaleGraceCloseEndsNextPoll() returns (closed: bool, history: seq<Poll>)
    ensures closed && |history| == 2
    ensures history[0].question == France.question
    ensures history[1].question == Planets.question && history[1].maxTime == 15 && history[1].closedAt == Some(5000)
  {
    var s := OpenFrance();
    JoinFrance(s, [], "s1");
    VoteAlone(s);
    EndAndReplace(s);
    var fired;
    fired, closed := s.GraceClose(5000);
    history := s.pollHistory;
  }

  /** The only student, "s1", answers at 3000. */
  method VoteAlone(s: Session)
    requires FranceOpen(s, ["s1"])
    modifies s
    ensures s.Valid() && s.pollHistory == [] && s.graceDue == [5000]
    ensures s.currentPoll.Some? && s.currentPoll.value.isActive && s.currentPoll.value.question == France.question
  {
    var accepted := s.SubmitAnswer("s1", "Paris", 3000);
    CountAnsweredAll(s.students);
  }

  /** The teacher ends the poll at 3500 and creates the planets poll at 4000. */
  method EndAndReplace(s: Session)
    requires s.Valid() && s.pollHistory == [] && s.graceDue == [5000]
    requires s.currentPoll.Some? && s.currentPoll.value.isActive && s.currentPoll.value.question == France.question
    modifies s
    ensures s.Valid() && s.graceDue == [5000]
    ensures |s.pollHistory| == 1 && s.pollHistory[0].question == France.question
    ensures s.currentPoll.Some? && s.currentPoll.value.question == Planets.question && s.currentPoll.value.maxTime == 15
  {
    var ended := s.ForceEndPoll(3500);
    s.CreatePoll(Planets, 4000);
  }

  /** A student who joins again from the same connection gets a fresh, unanswered entry
      while the tally keeps the first vote, so a second vote is accepted: two votes from
      a roster of one. */
  method RejoinAllowsSecondVote() returns (second: bool, students: nat, results: Results)
    ensures second && students == 1
    ensures results.answers == [Entry("Paris", 2)] && results.totalResponses == 2
  {
    var s := OpenFrance();
    JoinFrance(s, [], "s1");
    VoteThenRejoin(s);
    second := s.SubmitAnswer("s1", "Paris", 4000);
    students := |s.students|;
    results := s.CalculateResults();
  }

  /** The only student, "s1", answers "Paris" at 3000 and joins again at 3500. */
  method VoteThenRejoin(s: Session)
    requires FranceOpen(s, ["s1"])
    modifies s
    ensures s.Valid() && |s.students| == 1 && s.students[0].id == "s1" && !s.students[0].hasAnswered
    ensures s.currentPoll.Some? && s.currentPoll.value.isActive && s.currentPoll.value.answers == [Entry("Paris", 1)]
  {
    var first := s.SubmitAnswer("s1", "Paris", 3000);
    s.JoinStudent("s1", None, 3500);
  }

  /** The dashboard archives a poll when it ends and again when the teacher moves on to
      the next one, since the ended poll is still its current poll: two history entries
      for one poll. */
  method DashboardArchivesTwice() returns (sent: Result<PollData, TeacherDashboard.Rejection>, history: seq<TeacherDashboard.CompletedPoll>)
    ensures sent.Ok? && |history| == 2 && history[0].poll == history[1].poll == sent.value
  {
    var d;
    d, sent := SentDashboard();
    d.OnPollEnded(16000);
    d.CreateNextPoll(17000);
    history := d.pollHistory;
  }

  /** A fresh dashboard that has sent the filled-in form. */
  method SentDashboard() returns (d: TeacherDashboard.Dashboard, sent: Result<PollData, TeacherDashboard.Rejection>)
    ensures fresh(d) && sent.Ok? && d.currentPoll == Some(sent.value) && d.pollHistory == []
  {
    d := FilledDashboard();
    FilledDraftIsSent();
    sent := d.HandleCreatePoll(1000);
  }

  /** The question "Q" with the options "A", marked correct, and "B". */
  const FilledDraft := TeacherDashboard.PollDraft("Q", [TeacherDashboard.OptionDraft("A", true), TeacherDashboard.OptionDraft("B", false)], 60)

  /** A fresh dashboard whose form the teacher has filled in. */
  method FilledDashboard() returns (d: TeacherDashboard.Dashboard)
    ensures fresh(d) && d.Valid() && d.newPoll == FilledDraft && d.currentPoll.None? && d.pollHistory == []
  {
    d := new TeacherDashboard.Dashboard();
    d.EditQuestion("Q");
    d.UpdateOptionText(0, "A");
    d.UpdateOptionText(1, "B");
    d.UpdateOptionCorrectness(0, true);
  }

  lemma FilledDraftIsSent()
    ensures TeacherDashboard.CreatePollPayload(FilledDraft, 1000).Ok?
  {
    var opts := FilledDraft.options;
    assert "Q"[0] == 'Q' && "A"[0] == 'A' && "B"[0] == 'B';
    assert !IsBlank("Q") && !IsBlank("A") && !IsBlank("B");
    assert opts[1..] == [opts[1]] && opts[1..][1..] == [];
    assert TeacherDashboard.NonBlank(opts) == opts;
    assert TeacherDashboard.MarkedCorrect(opts) == [opts[0]];
  }

  /** The France poll as a student view receives it. */
  const ShownPoll := Poll(0, France.question, France.options, France.correctAnswer, [Some("Paris")], 15, 1000, [], true, None)

  /** A view with a socket, showing the France poll with "Paris" selected. */
  method ReadyView() returns (v: StudentView.View)
    ensures fresh(v) && v.Valid() && v.hasSocket && v.sent == []
    ensures v.currentPoll.Some? && v.timeLeft > 0 && !v.hasAnswered && v.selectedAnswer == "Paris"
  {
    v := new StudentView.View(true);
    v.HandleNewPoll(ShownPoll, None);
    v.Select("Paris");
  }

  /** A student view sends its answer once; pressing submit again sends nothing. */
  method StudentSubmitsOnce() returns (first: bool, second: bool, sent: seq<Command>)
    ensures first && !second && sent == [SubmitAnswerCommand("Paris")]
  {
    var v := ReadyView();
    first := v.SubmitAnswer();
    second := v.SubmitAnswer();
    sent := v.sent;
  }

  /** The same running poll arriving again (the server re-sends it to a rejoining
      connection) re-opens the form: the view sends a second answer for that poll. */
  method ResentPollAllowsSecondAnswer() returns (first: bool, second: bool, sent: seq<Command>)
    ensures first && second && sent == [SubmitAnswerCommand("Paris"), SubmitAnswerCommand("Lyon")]
  {
    var v;
    v, first := AnsweredView();
    v.HandleNewPoll(ShownPoll, Some(10));
    v.Select("Lyon");
    second := v.SubmitAnswer();
    sent := v.sent;
  }

  /** A view with a socket that has answered "Paris" to the France poll. */
  method AnsweredView() returns (v: StudentView.View, submitted: bool)
    ensures fresh(v) && v.Valid() && v.hasSocket && submitted && v.sent == [SubmitAnswerCommand("Paris")]
  {
    v := ReadyView();
    submitted := v.SubmitAnswer();
  }
}
