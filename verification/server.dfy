/**
 * The session-coordination server (server/server.js): one shared state --
 * the current poll, the roster, the poll history, the chat log, the poll start
 * time and the pending timers -- changed in place by the socket handlers.
 *
 * The socket layer becomes plain method calls: each handler is a method of
 * `Session` taking the caller's connection id, and every `emit` is appended to
 * `outbox` together with its audience. `Date.now()` is the `now` parameter (ms),
 * `uuidv4()` is the counter `nextId`, and the three timer callbacks are the
 * methods `Expire`, `Tick` and `GraceClose`, which the environment calls.
 */
module Server {
  import opened Wrappers
  import opened JsText
  import opened Tally
  import opened Protocol
  import opened Roster
  import opened ServerRules

  /** A roster entry has an answer exactly when it is marked as having answered. */
  ghost predicate WellFormedEntry(st: Student) {
    st.hasAnswered <==> st.answer.Some?
  }

  /** The roster invariant: one entry per connection id, each well formed. */
  ghost predicate RosterInvariant(s: seq<Student>) {
    DistinctIds(s) && forall x :: x in s ==> WellFormedEntry(x)
  }

  class Session {
    var currentPoll: Option<Poll>
    var students: seq<Student>
    var pollHistory: seq<Poll>
    var chatMessages: seq<ChatMessage>
    var pollStartTime: Option<int>
    /** `pollTimer` is set: the auto-close timeout is pending, due at `timerDeadline`. */
    var timerPending: bool
    var timerDeadline: int
    /** Live `setInterval` countdowns; create-poll starts one and never stops an older one. */
    var liveIntervals: nat
    /** Due times of the pending 2-second closes, oldest first; they carry no poll id. */
    var graceDue: seq<int>
    /** The next fresh id, standing in for `uuidv4()`. */
    var nextId: nat
    var outbox: seq<Emission>

    ghost predicate Valid()
      reads this
    {
      RosterOk() && HistoryOk() && ChatOk() && PollOk()
    }

    /** Ids are distinct (the Map's keys) and every entry is well formed. */
    ghost predicate RosterOk()
      reads this`students
    {
      RosterInvariant(students)
    }

    /** Archived polls are closed snapshots with increasing fresh ids. */
    ghost predicate HistoryOk()
      reads this`pollHistory, this`nextId
    {
      && (forall i :: 0 <= i < |pollHistory| ==> ArchivedPoll(pollHistory[i]) && pollHistory[i].id < nextId)
      && (forall i, j :: 0 <= i < j < |pollHistory| ==> pollHistory[i].id < pollHistory[j].id)
    }

    /** Chat messages have increasing fresh ids. */
    ghost predicate ChatOk()
      reads this`chatMessages, this`nextId
    {
      && (forall i :: 0 <= i < |chatMessages| ==> chatMessages[i].id < nextId)
      && (forall i, j :: 0 <= i < j < |chatMessages| ==> chatMessages[i].id < chatMessages[j].id)
    }

    /** A current poll is active, newer than everything archived, has a start time, and
        has at least as many votes as there are roster entries marked answered. */
    ghost predicate PollOk()
      reads this`currentPoll, this`pollStartTime, this`timerPending, this`pollHistory, this`nextId, this`students
    {
      && (currentPoll.Some? <==> pollStartTime.Some?)
      && (timerPending ==> currentPoll.Some?)
      && (currentPoll.Some? ==>
            && LivePoll(currentPoll.value)
            && currentPoll.value.id < nextId
            && (forall i :: 0 <= i < |pollHistory| ==> pollHistory[i].id < currentPoll.value.id)
            && CountAnswered(students) <= Sum(currentPoll.value.answers))
    }

    /** The state after a close of `prev`: the slot and start time cleared, the timer
        cancelled, exactly one snapshot appended, and the close broadcasts sent. */
    ghost predicate ClosedFrom(prev: Poll, prevHistory: seq<Poll>, prevOutbox: seq<Emission>, now: int)
      reads this
    {
      && currentPoll.None? && pollStartTime.None? && !timerPending
      && pollHistory == prevHistory + [Archived(prev, now)]
      && outbox == prevOutbox + CloseEmissions(Archived(prev, now), pollHistory)
    }

    constructor ()
      ensures Valid()
      ensures currentPoll.None? && students == [] && pollHistory == [] && chatMessages == []
      ensures pollStartTime.None? && !timerPending && liveIntervals == 0 && graceDue == [] && outbox == []
    {
      currentPoll := None;
      students := [];
      pollHistory := [];
      chatMessages := [];
      pollStartTime := None;
      timerPending := false;
      timerDeadline := 0;
      liveIntervals := 0;
      graceDue := [];
      nextId := 0;
      outbox := [];
    }

    /** The current results (`calculateResults()`). */
    function CalculateResults(): (r: Results)
      reads this
      ensures r.totalResponses == Sum(r.answers)
      ensures currentPoll.None? ==> r == NoResults
      ensures currentPoll.Some? ==> r.answers == currentPoll.value.answers
    {
      ResultsOf(currentPoll)
    }

    /** join-teacher: the current poll, the roster, the history and, for a running poll,
        its results and remaining time. Nothing but the outbox changes. */
    method JoinTeacher(socketId: ConnectionId, now: int)
      requires Valid()
      modifies this`outbox
      ensures Valid()
      ensures outbox == old(outbox)
                        + [Emission(Connection(socketId), CurrentPoll(currentPoll))]
                        + RosterBroadcast(students)
                        + [Emission(Connection(socketId), PollHistory(pollHistory))]
                        + TeacherCatchUp(currentPoll, pollStartTime, socketId, now)
    {
      outbox := outbox + [Emission(Connection(socketId), CurrentPoll(currentPoll))];
      outbox := outbox + RosterBroadcast(students);
      outbox := outbox + [Emission(Connection(socketId), PollHistory(pollHistory))];
      outbox := outbox + TeacherCatchUp(currentPoll, pollStartTime, socketId, now);
    }

    /** join-student: registers (or re-registers) the connection with a fresh, unanswered
        entry, announces it, and catches the student up on a running poll. */
    method JoinStudent(socketId: ConnectionId, studentName: Option<string>, now: int)
      requires Valid()
      modifies this`students, this`outbox
      ensures Valid()
      ensures var st := Student(socketId, ValidName(studentName, now), false, None, now);
              && students == Upsert(old(students), st)
              && outbox == old(outbox) + JoinBroadcasts(st, students, currentPoll, pollStartTime, now)
    {
      var student := Student(socketId, ValidName(studentName, now), false, None, now);
      AddStudent(student);
      AnnounceJoin(student, now);
    }

    /** Sends `es`, in order; nothing else changes. */
    method Emit(es: seq<Emission>)
      requires Valid()
      modifies this`outbox
      ensures Valid()
      ensures outbox == old(outbox) + es
    {
      outbox := outbox + es;
    }

    /** `students.set(socket.id, ...)` with an unanswered entry. */
    method AddStudent(st: Student)
      requires Valid() && !st.hasAnswered && st.answer.None?
      modifies this`students
      ensures Valid()
      ensures students == Upsert(old(students), st)
    {
      JoinKeepsRoster(students, st);
      students := Upsert(students, st);
    }

    /** The broadcasts of join-student for the registered entry `st`. */
    method AnnounceJoin(st: Student, now: int)
      requires Valid()
      modifies this`outbox
      ensures Valid()
      ensures outbox == old(outbox) + JoinBroadcasts(st, students, currentPoll, pollStartTime, now)
    {
      Emit(RosterBroadcast(students));
      Emit([Emission(Everyone, StudentJoined(st)), Emission(Connection(st.id), StudentConnected(true, st.name))]);
      Emit(LateJoinerCatchUp(currentPoll, pollStartTime, st.id, now));
    }

    /** get-students-list: re-broadcasts the roster. */
    method GetStudentsList()
      requires Valid()
      modifies this`outbox
      ensures Valid()
      ensures outbox == old(outbox) + RosterBroadcast(students)
    {
      outbox := outbox + RosterBroadcast(students);
    }

    /** The reset loop of create-poll (`students.forEach`). */
    method ResetAnswers()
      modifies this`students
      ensures students == ResetAll(old(students))
    {
      var i := 0;
      while i < |students|
        invariant 0 <= i <= |students| == |old(students)|
        invariant forall j :: 0 <= j < i ==> students[j] == Cleared(old(students)[j])
        invariant forall j :: i <= j < |students| ==> students[j] == old(students)[j]
      {
        students := students[i := Cleared(students[i])];
        i := i + 1;
      }
    }

    /** create-poll: cancels the pending auto-close timer and replaces the current poll --
        an active one is dropped, not archived -- with a fresh active poll; resets every
        student's answer, announces the poll and roster, arms the auto-close timer and
        starts one more countdown interval. */
    method CreatePoll(data: PollData, now: int)
      requires Valid()
      modifies this`timerPending, this`timerDeadline, this`liveIntervals, this`currentPoll
      modifies this`pollStartTime, this`nextId, this`students, this`outbox
      ensures Valid()
      ensures currentPoll == Some(BuildPoll(data, old(nextId), now))
      ensures nextId == old(nextId) + 1
      ensures pollStartTime == Some(now)
      ensures students == ResetAll(old(students))
      ensures pollHistory == old(pollHistory)
      ensures timerPending && timerDeadline == now + TimeoutDelay(currentPoll.value.maxTime * 1000)
      ensures liveIntervals == old(liveIntervals) + 1
      ensures outbox == old(outbox) + ([Emission(Everyone, NewPoll(currentPoll.value, None))] + RosterBroadcast(students))
    {
      CancelTimer();
      var poll := BuildPoll(data, nextId, now);
      InstallPoll(poll, now);
      Emit([Emission(Everyone, NewPoll(poll, None))] + RosterBroadcast(students));
      ArmTimers(now + TimeoutDelay(poll.maxTime * 1000));
    }

    /** `clearTimeout(pollTimer)`. */
    method CancelTimer()
      requires Valid()
      modifies this`timerPending
      ensures Valid() && !timerPending
    {
      timerPending := false;
    }

    /** The replacement step of create-poll: the fresh poll takes the slot and its start
        time, the id counter moves past it, and every entry is reset. */
    method InstallPoll(poll: Poll, now: int)
      requires Valid() && !timerPending
      requires LivePoll(poll) && poll.answers == [] && poll.id == nextId
      modifies this`currentPoll, this`pollStartTime, this`nextId, this`students
      ensures Valid()
      ensures currentPoll == Some(poll) && pollStartTime == Some(now) && nextId == old(nextId) + 1
      ensures students == ResetAll(old(students))
    {
      nextId := nextId + 1;
      currentPoll := Some(poll);
      pollStartTime := Some(now);
      ResetKeepsRoster(students);
      ResetAnswers();
    }

    /** Arms the auto-close timeout for `deadline` and starts one more countdown interval. */
    method ArmTimers(deadline: int)
      requires Valid() && currentPoll.Some?
      modifies this`timerPending, this`timerDeadline, this`liveIntervals
      ensures Valid()
      ensures timerPending && timerDeadline == deadline && liveIntervals == old(liveIntervals) + 1
    {
      timerPending := true;
      timerDeadline := deadline;
      liveIntervals := liveIntervals + 1;
    }

    /** submit-answer: accepted only with a poll active, the sender registered and not yet
        answered; then the sender's entry records the answer, the answer's count -- whatever
        the text -- goes up by one, results and roster are broadcast, and a 2-second close is
        scheduled when every registered student has answered. Otherwise nothing changes. */
    method SubmitAnswer(socketId: ConnectionId, answer: string, now: int) returns (accepted: bool)
      requires Valid()
      modifies this`students, this`currentPoll, this`outbox, this`graceDue
      ensures Valid()
      ensures accepted <==> && old(currentPoll).Some? && old(currentPoll).value.isActive
                            && IndexOfId(old(students), socketId).Some?
                            && !old(students)[IndexOfId(old(students), socketId).value].hasAnswered
      ensures !accepted ==> && students == old(students) && currentPoll == old(currentPoll)
                            && outbox == old(outbox) && graceDue == old(graceDue)
      ensures accepted ==>
                && students == MarkAnswered(old(students), IndexOfId(old(students), socketId).value, answer)
                && currentPoll == Some(old(currentPoll).value.(answers := Bump(old(currentPoll).value.answers, answer)))
                && outbox == old(outbox) + [Emission(Everyone, PollResults(ResultsOf(currentPoll)))] + RosterBroadcast(students)
                && graceDue == old(graceDue) + (if AllAnswered(students) then [now + GraceDelayMs] else [])
    {
      accepted := false;
      if currentPoll.Some? && currentPoll.value.isActive {
        var idx := IndexOfId(students, socketId);
        if idx.Some? && !students[idx.value].hasAnswered {
          accepted := true;
          RecordAnswer(idx.value, answer, now);
        }
      }
    }

    /** The accepted branch of submit-answer, for the entry at index `i`. */
    method RecordAnswer(i: nat, answer: string, now: int)
      requires Valid()
      requires currentPoll.Some? && i < |students| && !students[i].hasAnswered
      modifies this`students, this`currentPoll, this`outbox, this`graceDue
      ensures Valid()
      ensures students == MarkAnswered(old(students), i, answer)
      ensures currentPoll == Some(old(currentPoll).value.(answers := Bump(old(currentPoll).value.answers, answer)))
      ensures outbox == old(outbox) + [Emission(Everyone, PollResults(ResultsOf(currentPoll)))] + RosterBroadcast(students)
      ensures graceDue == old(graceDue) + (if AllAnswered(students) then [now + GraceDelayMs] else [])
    {
      MarkVote(i, answer);
      Emit([Emission(Everyone, PollResults(ResultsOf(currentPoll)))]);
      Emit(RosterBroadcast(students));
      if AllAnswered(students) {
        graceDue := graceDue + [now + GraceDelayMs];
      }
    }

    /** Records the vote: the entry at `i` and the tally of the current poll. */
    method MarkVote(i: nat, answer: string)
      requires Valid()
      requires currentPoll.Some? && i < |students| && !students[i].hasAnswered
      modifies this`students, this`currentPoll
      ensures Valid()
      ensures students == MarkAnswered(old(students), i, answer)
      ensures currentPoll == Some(old(currentPoll).value.(answers := Bump(old(currentPoll).value.answers, answer)))
    {
      var poll := currentPoll.value;
      SubmitKeepsRoster(students, i, answer);
      BumpCounts(poll.answers, answer);
      BumpSum(poll.answers, answer);
      students := MarkAnswered(students, i, answer);
      currentPoll := Some(poll.(answers := Bump(poll.answers, answer)));
    }

    /** send-message: appends a fresh message to the chat log and broadcasts it. */
    method SendMessage(data: MessageData, now: int) returns (message: ChatMessage)
      requires Valid()
      modifies this`chatMessages, this`nextId, this`outbox
      ensures Valid()
      ensures message == ChatMessage(old(nextId), data.sender, data.senderType, data.message, now)
      ensures nextId == old(nextId) + 1
      ensures chatMessages == old(chatMessages) + [message]
      ensures outbox == old(outbox) + [Emission(Everyone, NewMessage(message))]
    {
      message := ChatMessage(nextId, data.sender, data.senderType, data.message, now);
      nextId := nextId + 1;
      chatMessages := chatMessages + [message];
      outbox := outbox + [Emission(Everyone, NewMessage(message))];
    }

    /** get-chat-history: the whole log, to the asking connection only. */
    method GetChatHistory(socketId: ConnectionId)
      requires Valid()
      modifies this`outbox
      ensures Valid()
      ensures outbox == old(outbox) + [Emission(Connection(socketId), ChatHistory(chatMessages))]
    {
      outbox := outbox + [Emission(Connection(socketId), ChatHistory(chatMessages))];
    }

    /** force-end-poll. */
    method ForceEndPoll(now: int) returns (closed: bool)
      requires Valid()
      modifies this`currentPoll, this`pollStartTime, this`timerPending, this`pollHistory, this`outbox
      ensures Valid()
      ensures closed <==> old(currentPoll).Some? && old(currentPoll).value.isActive
      ensures closed ==> ClosedFrom(old(currentPoll).value, old(pollHistory), old(outbox), now)
      ensures !closed ==> && currentPoll == old(currentPoll) && pollHistory == old(pollHistory)
                          && outbox == old(outbox) && timerPending == old(timerPending)
    {
      closed := ClosePoll(now);
    }

    /** kick-student: when the id is registered, tells that connection it was kicked,
        removes only that entry, and announces the departure; otherwise a no-op. The
        poll and its tally are untouched. */
    method KickStudent(studentId: ConnectionId) returns (removed: bool)
      requires Valid()
      modifies this`students, this`outbox
      ensures Valid()
      ensures removed <==> IndexOfId(old(students), studentId).Some?
      ensures students == WithoutId(old(students), studentId)
      ensures removed ==> |students| == |old(students)| - 1
      ensures !removed ==> students == old(students) && outbox == old(outbox)
      ensures removed ==> outbox == old(outbox) + [Emission(Connection(studentId), Kicked),
                                                   Emission(Everyone, StudentLeft(studentId))]
                                                + RosterBroadcast(students)
    {
      removed := IndexOfId(students, studentId).Some?;
      WithoutIdRemovesOne(students, studentId);
      if removed {
        RemoveStudent(studentId);
        Emit([Emission(Connection(studentId), Kicked), Emission(Everyone, StudentLeft(studentId))]);
        Emit(RosterBroadcast(students));
      }
    }

    /** disconnect: as kick, without the kicked notice. */
    method Disconnect(socketId: ConnectionId) returns (removed: bool)
      requires Valid()
      modifies this`students, this`outbox
      ensures Valid()
      ensures removed <==> IndexOfId(old(students), socketId).Some?
      ensures students == WithoutId(old(students), socketId)
      ensures removed ==> |students| == |old(students)| - 1
      ensures !removed ==> students == old(students) && outbox == old(outbox)
      ensures removed ==> outbox == old(outbox) + [Emission(Everyone, StudentLeft(socketId))] + RosterBroadcast(students)
    {
      removed := IndexOfId(students, socketId).Some?;
      WithoutIdRemovesOne(students, socketId);
      if removed {
        RemoveStudent(socketId);
        Emit([Emission(Everyone, StudentLeft(socketId))]);
        Emit(RosterBroadcast(students));
      }
    }

    /** `students.delete(id)`. */
    method RemoveStudent(id: ConnectionId)
      requires Valid()
      modifies this`students
      ensures Valid()
      ensures students == WithoutId(old(students), id)
    {
      RemoveKeepsRoster(students, id);
      students := WithoutId(students, id);
    }

    /** `closePoll()`: a no-op unless a poll is active, hence idempotent; otherwise the
        poll is marked inactive and stamped, the timer cancelled, exactly one snapshot
        appended to the history, the close broadcast, and the slot cleared. */
    method ClosePoll(now: int) returns (closed: bool)
      requires Valid()
      modifies this`currentPoll, this`pollStartTime, this`timerPending, this`pollHistory, this`outbox
      ensures Valid()
      ensures closed <==> old(currentPoll).Some? && old(currentPoll).value.isActive
      ensures closed ==> ClosedFrom(old(currentPoll).value, old(pollHistory), old(outbox), now)
      ensures !closed ==> && currentPoll == old(currentPoll) && pollHistory == old(pollHistory)
                          && outbox == old(outbox) && timerPending == old(timerPending)
                          && pollStartTime == old(pollStartTime)
    {
      closed := currentPoll.Some? && currentPoll.value.isActive;
      if closed {
        var archived := Archived(currentPoll.value, now);
        currentPoll := Some(archived);
        timerPending := false;
        var finalResults := ResultsOf(currentPoll);
        pollHistory := pollHistory + [archived];
        outbox := outbox + [Emission(Everyone, PollClosed(finalResults)), Emission(Everyone, PollEnded)];
        outbox := outbox + [Emission(TeacherRoom, PollHistory(pollHistory))];
        currentPoll := None;
        pollStartTime := None;
      }
    }

    /** The auto-close timeout (server/server.js:170-173): runs only while pending and due,
        and then closes the poll it was armed for. */
    method Expire(now: int) returns (fired: bool)
      requires Valid()
      modifies this`currentPoll, this`pollStartTime, this`timerPending, this`pollHistory, this`outbox
      ensures Valid()
      ensures fired <==> old(timerPending) && now >= old(timerDeadline)
      ensures fired ==> old(currentPoll).Some? && ClosedFrom(old(currentPoll).value, old(pollHistory), old(outbox), now)
      ensures !fired ==> && currentPoll == old(currentPoll) && pollHistory == old(pollHistory)
                         && outbox == old(outbox) && timerPending == old(timerPending)
                         && pollStartTime == old(pollStartTime)
    {
      fired := timerPending && now >= timerDeadline;
      if fired {
        var closed := ClosePoll(now);
      }
    }

    /** One run of a countdown interval (server/server.js:176-190): with no poll running it
        stops itself silently; otherwise it broadcasts the remaining seconds and stops once
        they reach zero. */
    method Tick(now: int) returns (remaining: Option<nat>)
      requires Valid()
      modifies this`liveIntervals, this`outbox
      ensures Valid()
      ensures remaining.Some? <==> old(liveIntervals) > 0 && currentPoll.Some? && currentPoll.value.isActive
      ensures remaining.Some? ==>
                && remaining.value == RemainingSeconds(currentPoll.value.maxTime, pollStartTime.value, now)
                && outbox == old(outbox) + [Emission(Everyone, TimerUpdate(remaining.value))]
      ensures remaining.None? ==> outbox == old(outbox)
      ensures liveIntervals == if old(liveIntervals) > 0 && (remaining.None? || remaining.value == 0)
                               then old(liveIntervals) - 1 else old(liveIntervals)
    {
      remaining := None;
      if liveIntervals > 0 {
        if currentPoll.None? || !currentPoll.value.isActive {
          liveIntervals := liveIntervals - 1;
        } else {
          var r := RemainingSeconds(currentPoll.value.maxTime, pollStartTime.value, now);
          outbox := outbox + [Emission(Everyone, TimerUpdate(r))];
          remaining := Some(r);
          if r <= 0 {
            liveIntervals := liveIntervals - 1;
          }
        }
      }
    }

    /** The oldest pending 2-second close (server/server.js:226), once due. It carries no poll
        id: it closes whatever poll is current when it runs, if any. */
    method GraceClose(now: int) returns (fired: bool, closed: bool)
      requires Valid()
      modifies this`graceDue, this`currentPoll, this`pollStartTime, this`timerPending, this`pollHistory, this`outbox
      ensures Valid()
      ensures fired <==> |old(graceDue)| > 0 && old(graceDue)[0] <= now
      ensures fired ==> graceDue == old(graceDue)[1..]
      ensures !fired ==> graceDue == old(graceDue)
      ensures closed <==> fired && old(currentPoll).Some?
      ensures closed ==> ClosedFrom(old(currentPoll).value, old(pollHistory), old(outbox), now)
      ensures !closed ==> && currentPoll == old(currentPoll) && pollHistory == old(pollHistory)
                          && outbox == old(outbox) && timerPending == old(timerPending)
                          && pollStartTime == old(pollStartTime)
    {
      fired := |graceDue| > 0 && graceDue[0] <= now;
      closed := false;
      if fired {
        graceDue := graceDue[1..];
        closed := ClosePoll(now);
      }
    }
  }

  /** A join keeps the roster invariant and never raises the answered count. */
  lemma JoinKeepsRoster(s: seq<Student>, st: Student)
    requires RosterInvariant(s) && !st.hasAnswered && st.answer.None?
    ensures RosterInvariant(Upsert(s, st))
    ensures CountAnswered(Upsert(s, st)) <= CountAnswered(s)
  {
    UpsertEntries(s, st);
    match IndexOfId(s, st.id)
    case Some(i) => ReplaceUnansweredCount(s, i, st);
    case None => assert Upsert(s, st)[..|s|] == s;
  }

  /** The reset keeps the roster invariant and leaves nobody answered. */
  lemma ResetKeepsRoster(s: seq<Student>)
    requires RosterInvariant(s)
    ensures RosterInvariant(ResetAll(s)) && CountAnswered(ResetAll(s)) == 0
  {
    ResetAllClears(s);
    forall x | x in ResetAll(s) ensures WellFormedEntry(x) {
      var k :| 0 <= k < |s| && ResetAll(s)[k] == x;
    }
  }

  /** A submit keeps the roster invariant and raises the answered count by one. */
  lemma SubmitKeepsRoster(s: seq<Student>, i: nat, answer: string)
    requires RosterInvariant(s) && i < |s| && !s[i].hasAnswered
    ensures RosterInvariant(MarkAnswered(s, i, answer))
    ensures CountAnswered(MarkAnswered(s, i, answer)) == CountAnswered(s) + 1
  {
    MarkAnsweredCount(s, i, answer);
    var r := MarkAnswered(s, i, answer);
    forall x | x in r ensures WellFormedEntry(x) {
      var k :| 0 <= k < |r| && r[k] == x;
      if k != i { assert x == s[k]; }
    }
    forall a, b | 0 <= a < b < |r| ensures r[a].id != r[b].id {
      assert r[a].id == s[a].id && r[b].id == s[b].id;
    }
  }

  /** A removal keeps the roster invariant and never raises the answered count. */
  lemma RemoveKeepsRoster(s: seq<Student>, id: ConnectionId)
    requires RosterInvariant(s)
    ensures RosterInvariant(WithoutId(s, id))
    ensures CountAnswered(WithoutId(s, id)) <= CountAnswered(s)
  {
    WithoutIdRemovesOne(s, id);
    WithoutIdCount(s, id);
  }
}
