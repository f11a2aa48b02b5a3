/**
 * The student's view (components/StudentView.js): the answer form with its one-shot
 * submit guard, the poll it shows as the server's events arrive, the history it keeps
 * of the polls it saw close, and the roster in the participants panel.
 *
 * The socket handlers are methods of `View`; every `socket.emit` is appended to `sent`,
 * and `Date.now()` is the `now` parameter.
 */
module StudentView {
  import opened Wrappers
  import opened Protocol
  import opened Roster

  /** An entry of the student's history: the poll, its final results and what this
      student had selected. */
  datatype AnsweredPoll = AnsweredPoll(poll: Poll, results: Results, completedAt: int, studentAnswer: string)

  /** How many answers `cs` submits. */
  function SubmitCount(cs: seq<Command>): (n: nat)
    ensures n <= |cs|
  {
    if cs == [] then 0
    else SubmitCount(cs[..|cs| - 1]) + (if cs[|cs| - 1].SubmitAnswerCommand? then 1 else 0)
  }

  /** Sending one more command adds one submit exactly when it is a submit. */
  lemma {:induction false} SubmitCountAppend(cs: seq<Command>, c: Command)
    ensures SubmitCount(cs + [c]) == SubmitCount(cs) + (if c.SubmitAnswerCommand? then 1 else 0)
  {
    assert (cs + [c])[..|cs + [c]| - 1] == cs;
  }

  /** The same, counted from a mark inside the sent commands. */
  lemma SubmitCountSinceMark(sent: seq<Command>, mark: nat, c: Command)
    requires mark <= |sent|
    ensures SubmitCount((sent + [c])[mark..]) == SubmitCount(sent[mark..]) + (if c.SubmitAnswerCommand? then 1 else 0)
  {
    assert (sent + [c])[mark..] == sent[mark..] + [c];
    SubmitCountAppend(sent[mark..], c);
  }

  class View {
    var currentPoll: Option<Poll>
    var hasAnswered: bool
    var selectedAnswer: string
    var timeLeft: int
    var showResults: bool
    var showHistory: bool
    var pollResults: Results
    /** Most recent first. */
    var pollHistory: seq<AnsweredPoll>
    var students: seq<Student>
    /** Everything sent with `socket.emit`, in order. */
    var sent: seq<Command>
    /** Whether the view was given a socket. */
    const hasSocket: bool
    /** Where in `sent` the current poll's commands begin. */
    ghost var pollMark: nat

    /** Since the last new poll the view has submitted once if it has answered, and
        not at all otherwise. */
    ghost predicate Valid()
      reads this`sent, this`pollMark, this`hasAnswered
    {
      pollMark <= |sent| && SubmitCount(sent[pollMark..]) == (if hasAnswered then 1 else 0)
    }

    constructor (hasSocket: bool)
      ensures Valid()
      ensures this.hasSocket == hasSocket
      ensures currentPoll.None? && !hasAnswered && selectedAnswer == "" && timeLeft == 0
      ensures !showResults && !showHistory && pollResults == NoResults
      ensures pollHistory == [] && students == [] && sent == []
    {
      this.hasSocket := hasSocket;
      currentPoll := None;
      hasAnswered := false;
      selectedAnswer := "";
      timeLeft := 0;
      showResults := false;
      showHistory := false;
      pollResults := NoResults;
      pollHistory := [];
      students := [];
      sent := [];
      pollMark := 0;
      new;
      assert sent[pollMark..] == [];
    }

    /** The radio buttons: a choice is taken only while time remains and nothing has
        been submitted. */
    method Select(answer: string)
      modifies this`selectedAnswer
      ensures selectedAnswer == if timeLeft > 0 && !hasAnswered then answer else old(selectedAnswer)
    {
      if timeLeft > 0 && !hasAnswered {
        selectedAnswer := answer;
      }
    }

    /** `submitAnswer`: sends the selection only when one is made, nothing has been
        submitted yet, a poll is shown, time remains and there is a socket; then the
        view counts as answered, so a second call sends nothing. */
    method SubmitAnswer() returns (submitted: bool)
      requires Valid()
      modifies this`sent, this`hasAnswered
      ensures Valid()
      ensures submitted <==> && old(selectedAnswer) != "" && !old(hasAnswered) && currentPoll.Some?
                             && timeLeft > 0 && hasSocket
      ensures submitted ==> sent == old(sent) + [SubmitAnswerCommand(selectedAnswer)] && hasAnswered
      ensures !submitted ==> sent == old(sent) && hasAnswered == old(hasAnswered)
    {
      submitted := selectedAnswer != "" && !hasAnswered && currentPoll.Some? && timeLeft > 0 && hasSocket;
      if submitted {
        SubmitCountSinceMark(sent, pollMark, SubmitAnswerCommand(selectedAnswer));
        sent := sent + [SubmitAnswerCommand(selectedAnswer)];
        hasAnswered := true;
      }
    }

    /** `new-poll`: shows the poll with a fresh form; the countdown starts from the
        remaining time a late joiner is sent, or else from the poll's `maxTime`. */
    method HandleNewPoll(poll: Poll, remainingTime: Option<int>)
      requires Valid()
      modifies this`currentPoll, this`hasAnswered, this`selectedAnswer, this`showResults
      modifies this`showHistory, this`timeLeft, this`pollMark
      ensures Valid()
      ensures currentPoll == Some(poll) && !hasAnswered && selectedAnswer == ""
      ensures !showResults && !showHistory
      ensures timeLeft == if remainingTime.Some? then remainingTime.value else poll.maxTime
      ensures pollMark == |sent|
    {
      currentPoll := Some(poll);
      hasAnswered := false;
      selectedAnswer := "";
      showResults := false;
      showHistory := false;
      timeLeft := remainingTime.GetOr(poll.maxTime);
      pollMark := |sent|;
      assert sent[pollMark..] == [];
    }

    /** `timer-update`. */
    method HandleTimerUpdate(remaining: int)
      modifies this`timeLeft
      ensures timeLeft == remaining
    {
      timeLeft := remaining;
    }

    /** `poll-results`: stored, and shown only to a student who has answered. */
    method HandlePollResults(results: Results)
      modifies this`pollResults, this`showResults
      ensures pollResults == results
      ensures showResults == (old(showResults) || hasAnswered)
    {
      pollResults := results;
      if hasAnswered {
        showResults := true;
      }
    }

    /** `poll-closed`: the final results are stored and shown; a poll on screen goes to
        the front of the history with the student's selection; then no poll is shown
        and the countdown reads zero. */
    method HandlePollClosed(results: Results, now: int)
      modifies this`pollResults, this`showResults, this`pollHistory, this`currentPoll, this`timeLeft
      ensures pollResults == results && showResults
      ensures old(currentPoll).None? ==> pollHistory == old(pollHistory)
      ensures old(currentPoll).Some? ==>
                pollHistory == [AnsweredPoll(old(currentPoll).value, results, now, selectedAnswer)] + old(pollHistory)
      ensures currentPoll.None? && timeLeft == 0
    {
      pollResults := results;
      showResults := true;
      if currentPoll.Some? {
        pollHistory := [AnsweredPoll(currentPoll.value, results, now, selectedAnswer)] + pollHistory;
      }
      currentPoll := None;
      timeLeft := 0;
    }

    /** `students-list`: replaces the roster; anything but an array empties it. */
    method HandleStudentsList(list: Option<seq<Student>>)
      modifies this`students
      ensures students == if list.Some? then list.value else []
    {
      students := list.GetOr([]);
    }

    /** `student-joined`: appended unless an entry with that id is already listed. */
    method HandleStudentJoined(st: Student)
      modifies this`students
      ensures students == AppendIfAbsent(old(students), st)
    {
      students := AppendIfAbsent(students, st);
    }

    /** `student-left`: every entry with that id goes, every other stays. */
    method HandleStudentLeft(studentId: ConnectionId)
      modifies this`students
      ensures students == WithoutId(old(students), studentId)
    {
      students := WithoutId(students, studentId);
    }
  }

  /** However the handlers interleave, a view that keeps `Valid()` has, since the last
      new-poll event, sent exactly one answer, at one position, if it has answered, and
      none otherwise. */
  lemma AtMostOneSubmitSinceNewPoll(sent: seq<Command>, pollMark: nat, hasAnswered: bool)
    requires pollMark <= |sent| && SubmitCount(sent[pollMark..]) == (if hasAnswered then 1 else 0)
    ensures hasAnswered ==>
              exists k :: && pollMark <= k < |sent| && sent[k].SubmitAnswerCommand?
                          && forall j :: pollMark <= j < |sent| && j != k ==> !sent[j].SubmitAnswerCommand?
    ensures !hasAnswered ==> forall c :: c in sent[pollMark..] ==> !c.SubmitAnswerCommand?
  {
    var cs := sent[pollMark..];
    if hasAnswered {
      var k := OnlySubmit(cs);
      assert sent[pollMark + k] == cs[k];
      forall j | pollMark <= j < |sent| && j != pollMark + k
        ensures !sent[j].SubmitAnswerCommand?
      {
        assert sent[j] == cs[j - pollMark];
      }
    } else {
      NoSubmitInZeroCount(cs);
    }
  }

  /** A command list with one submit holds it at exactly one position. */
  lemma {:induction false} OnlySubmit(cs: seq<Command>) returns (k: nat)
    requires SubmitCount(cs) == 1
    ensures k < |cs| && cs[k].SubmitAnswerCommand?
    ensures forall j :: 0 <= j < |cs| && j != k ==> !cs[j].SubmitAnswerCommand?
  {
    var init := cs[..|cs| - 1];
    if cs[|cs| - 1].SubmitAnswerCommand? {
      k := |cs| - 1;
      NoSubmitInZeroCount(init);
      forall j | 0 <= j < |cs| - 1
        ensures !cs[j].SubmitAnswerCommand?
      {
        assert cs[j] == init[j] && init[j] in init;
      }
    } else {
      k := OnlySubmit(init);
      assert forall j :: 0 <= j < |cs| - 1 ==> cs[j] == init[j];
    }
  }

  lemma {:induction false} NoSubmitInZeroCount(cs: seq<Command>)
    requires SubmitCount(cs) == 0
    ensures forall c :: c in cs ==> !c.SubmitAnswerCommand?
  {
    if cs != [] {
      NoSubmitInZeroCount(cs[..|cs| - 1]);
      assert forall c :: c in cs ==> c in cs[..|cs| - 1] || c == cs[|cs| - 1];
    }
  }
}
