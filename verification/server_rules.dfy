/**
 * The pure rules of the session-coordination server (server/server.js): names,
 * countdown arithmetic, timer delays, results, the poll object create-poll builds
 * and the broadcasts the handlers send.
 */
module ServerRules {
  import opened Wrappers
  import opened JsText
  import opened Tally
  import opened Protocol

  /** `pollData.maxTime || 15`. */
  const DefaultMaxTime := 15
  /** The all-answered close runs 2000 ms after the last answer. */
  const GraceDelayMs := 2000
  /** Node's largest timer delay; a delay outside [1, TimeoutMax] runs after 1 ms. */
  const TimeoutMax := 2147483647

  /** The delay Node's `setTimeout` actually uses for a requested delay of `ms`. */
  function TimeoutDelay(ms: int): (d: int)
    ensures 1 <= d <= TimeoutMax
    ensures 1 <= ms <= TimeoutMax ==> d == ms
    ensures !(1 <= ms <= TimeoutMax) ==> d == 1
  {
    if 1 <= ms <= TimeoutMax then ms else 1
  }

  /** The name a joining student gets: the trimmed name, or `Student_<now>` when the
      name is missing or blank. Either way it is non-empty and has no surrounding
      whitespace. */
  function ValidName(studentName: Option<string>, now: int): (r: string)
    ensures r != [] && !IsWhitespace(r[0]) && !IsWhitespace(r[|r| - 1])
    ensures studentName.Some? && !IsBlank(studentName.value) ==> r == Trim(studentName.value)
    ensures studentName.None? || IsBlank(studentName.value) ==> r == PlaceholderName(now)
  {
    if studentName.Some? && Trim(studentName.value) != [] then
      Trim(studentName.value)
    else
      PlaceholderName(now)
  }

  /** `Student_${Date.now()}`: starts with 'S' and ends with a digit. */
  function PlaceholderName(now: int): (r: string)
    ensures |r| > 8 && r[..8] == "Student_" && r[8..] == IntToString(now)
    ensures !IsWhitespace(r[0]) && !IsWhitespace(r[|r| - 1])
  {
    var digits := IntToString(now);
    var r := "Student_" + digits;
    assert r[|r| - 1] == digits[|digits| - 1];
    DigitIsNotWhitespace(r[|r| - 1]);
    r
  }

  /** `Math.floor((now - start) / 1000)`; with a positive divisor Dafny's `/` is the floor. */
  function ElapsedSeconds(start: int, now: int): int {
    (now - start) / 1000
  }

  /** `Math.max(0, maxTime - elapsed)`: zero exactly when the poll's time is used up,
      and (with the clock not running backwards) never above `maxTime`. */
  function RemainingSeconds(maxTime: int, start: int, now: int): (r: nat)
    ensures r == 0 <==> maxTime <= ElapsedSeconds(start, now)
    ensures r > 0 ==> r == maxTime - ElapsedSeconds(start, now)
    ensures start <= now ==> r <= if maxTime > 0 then maxTime else 0
  {
    var elapsed := ElapsedSeconds(start, now);
    if maxTime - elapsed > 0 then maxTime - elapsed else 0
  }

  /** The countdown never goes up as the clock advances. */
  lemma RemainingCountsDown(maxTime: int, start: int, t1: int, t2: int)
    requires t1 <= t2
    ensures RemainingSeconds(maxTime, start, t2) <= RemainingSeconds(maxTime, start, t1)
  {
    DivMonotone(t1 - start, t2 - start);
  }

  lemma DivMonotone(a: int, b: int)
    requires a <= b
    ensures a / 1000 <= b / 1000
  {
  }

  /** A participant joining `p` whole seconds into a poll of `maxTime` seconds sees
      `max(0, maxTime - p)` seconds left, and zero once `p >= maxTime`. */
  lemma RemainingAfterWholeSeconds(maxTime: int, start: int, p: int)
    ensures RemainingSeconds(maxTime, start, start + p * 1000) == if maxTime - p > 0 then maxTime - p else 0
  {
    assert (start + p * 1000 - start) / 1000 == p;
  }

  /** When the auto-close timer is not clamped, it fires no earlier than the moment the
      countdown reaches zero. */
  lemma ExpiryAgreesWithCountdown(maxTime: int, start: int, now: int)
    requires 1 <= maxTime * 1000 <= TimeoutMax
    requires now >= start + TimeoutDelay(maxTime * 1000)
    ensures RemainingSeconds(maxTime, start, now) == 0
  {
    RemainingAfterWholeSeconds(maxTime, start, maxTime);
    RemainingCountsDown(maxTime, start, start + maxTime * 1000, now);
  }

  /** JavaScript truthiness of `pollStartTime`: present and not 0. */
  predicate StartKnown(start: Option<int>) {
    start.Some? && start.value != 0
  }

  /** `calculateResults()`: the tally, its total and the poll; with no poll, an empty
      tally and zero. */
  function ResultsOf(poll: Option<Poll>): (r: Results)
    ensures r.totalResponses == Sum(r.answers)
    ensures poll.None? ==> r == NoResults
    ensures poll.Some? ==> r.answers == poll.value.answers && r.poll == poll
  {
    match poll
    case None => NoResults
    case Some(p) => Results(p.answers, Sum(p.answers), poll)
  }

  /** Adding one vote to a poll raises its reported total by exactly one. */
  lemma ResultsAfterVote(p: Poll, answer: string)
    ensures ResultsOf(Some(p.(answers := Bump(p.answers, answer)))).totalResponses
         == ResultsOf(Some(p)).totalResponses + 1
  {
    BumpSum(p.answers, answer);
  }

  /** The poll object create-poll builds from the payload: active, with an empty tally,
      `maxTime` defaulting to 15 when falsy and `correctAnswers` to `[correctAnswer]`. */
  function BuildPoll(data: PollData, id: nat, now: int): (p: Poll)
    ensures p.isActive && p.answers == [] && p.closedAt.None?
    ensures p.id == id && p.createdAt == now
    ensures p.question == data.question && p.options == data.options && p.correctAnswer == data.correctAnswer
    ensures data.maxTime.None? || data.maxTime.value == 0 ==> p.maxTime == DefaultMaxTime
    ensures data.maxTime.Some? && data.maxTime.value != 0 ==> p.maxTime == data.maxTime.value
    ensures data.correctAnswers.None? ==> p.correctAnswers == [data.correctAnswer]
    ensures data.correctAnswers.Some? ==>
              |p.correctAnswers| == |data.correctAnswers.value|
              && forall i :: 0 <= i < |p.correctAnswers| ==> p.correctAnswers[i] == Some(data.correctAnswers.value[i])
  {
    var correct := match data.correctAnswers
      case Some(list) => seq(|list|, i requires 0 <= i < |list| => Some(list[i]))
      case None => [data.correctAnswer];
    var maxTime := if data.maxTime.None? || data.maxTime.value == 0 then DefaultMaxTime else data.maxTime.value;
    Poll(id, data.question, data.options, data.correctAnswer, correct, maxTime, now, [], true, None)
  }

  /** The snapshot closePoll archives: the poll marked inactive and stamped. */
  function Archived(p: Poll, now: int): (a: Poll)
    ensures !a.isActive && a.closedAt == Some(now)
    ensures a.id == p.id && a.question == p.question && a.options == p.options && a.answers == p.answers
    ensures a.correctAnswer == p.correctAnswer && a.correctAnswers == p.correctAnswers
    ensures a.maxTime == p.maxTime && a.createdAt == p.createdAt
  {
    p.(isActive := false, closedAt := Some(now))
  }

  /** `broadcastStudentsList()`: the roster in join order, to everyone and to both rooms. */
  function RosterBroadcast(s: seq<Student>): (e: seq<Emission>)
    ensures |e| == 3
    ensures e[0].to == Everyone && e[1].to == TeacherRoom && e[2].to == StudentsRoom
    ensures forall i :: 0 <= i < 3 ==> e[i].event == StudentsList(s)
  {
    [Emission(Everyone, StudentsList(s)), Emission(TeacherRoom, StudentsList(s)), Emission(StudentsRoom, StudentsList(s))]
  }

  /** What a joining student is sent about a running poll: the poll with its remaining
      time, followed by the results as closed when that time is already zero. */
  function LateJoinerCatchUp(poll: Option<Poll>, start: Option<int>, socketId: ConnectionId, now: int): seq<Emission>
  {
    if poll.Some? && poll.value.isActive && StartKnown(start) then
      var remaining := RemainingSeconds(poll.value.maxTime, start.value, now);
      [Emission(Connection(socketId), NewPoll(poll.value, Some(remaining)))]
      + (if remaining <= 0 then [Emission(Connection(socketId), PollClosed(ResultsOf(poll)))] else [])
    else
      []
  }

  /** A late joiner `p` seconds into an active poll is told `max(0, maxTime - p)` seconds
      remain, and is sent the closed results as well exactly when `maxTime <= p`. */
  lemma LateJoinerResync(poll: Poll, start: int, socketId: ConnectionId, p: int)
    requires poll.isActive && start != 0
    ensures var e := LateJoinerCatchUp(Some(poll), Some(start), socketId, start + p * 1000);
            && 1 <= |e| <= 2
            && e[0] == Emission(Connection(socketId), NewPoll(poll, Some(if poll.maxTime - p > 0 then poll.maxTime - p else 0)))
            && (|e| == 2 <==> poll.maxTime <= p)
            && (|e| == 2 ==> e[1] == Emission(Connection(socketId), PollClosed(ResultsOf(Some(poll)))))
  {
    RemainingAfterWholeSeconds(poll.maxTime, start, p);
  }

  /** Everything join-student sends for the entry `st`: the roster, the announcement,
      the reply to the student, and the catch-up on a running poll. */
  function JoinBroadcasts(st: Student, roster: seq<Student>, poll: Option<Poll>, start: Option<int>, now: int): seq<Emission> {
    RosterBroadcast(roster)
    + [Emission(Everyone, StudentJoined(st)), Emission(Connection(st.id), StudentConnected(true, st.name))]
    + LateJoinerCatchUp(poll, start, st.id, now)
  }

  /** What a joining teacher is sent about a running poll: its results and, when the
      start time is known, the remaining time. */
  function TeacherCatchUp(poll: Option<Poll>, start: Option<int>, socketId: ConnectionId, now: int): seq<Emission>
  {
    if poll.Some? && poll.value.isActive then
      [Emission(Connection(socketId), PollResults(ResultsOf(poll)))]
      + (if StartKnown(start)
         then [Emission(Connection(socketId), TimerUpdate(RemainingSeconds(poll.value.maxTime, start.value, now)))]
         else [])
    else
      []
  }

  /** The broadcasts of a close: final results, the bare notice, and the history to the teacher room. */
  function CloseEmissions(archived: Poll, history: seq<Poll>): seq<Emission> {
    [Emission(Everyone, PollClosed(ResultsOf(Some(archived)))),
     Emission(Everyone, PollEnded),
     Emission(TeacherRoom, PollHistory(history))]
  }

  /** The late-joiner catch-up is sent only about an active poll with a known start, only
      to the joining connection, and leads with the poll and its remaining time. */
  lemma LateJoinerCatchUpShape(poll: Option<Poll>, start: Option<int>, socketId: ConnectionId, now: int)
    ensures var e := LateJoinerCatchUp(poll, start, socketId, now);
            && (e != [] <==> poll.Some? && poll.value.isActive && StartKnown(start))
            && |e| <= 2 && (forall i :: 0 <= i < |e| ==> e[i].to == Connection(socketId))
            && (e != [] ==> e[0].event == NewPoll(poll.value, Some(RemainingSeconds(poll.value.maxTime, start.value, now))))
  {
  }

  /** join-student sends the roster three ways, the announcement, the acknowledgement, and
      a catch-up exactly when a poll with a known start is running. */
  lemma JoinBroadcastsShape(st: Student, roster: seq<Student>, poll: Option<Poll>, start: Option<int>, now: int)
    ensures var e := JoinBroadcasts(st, roster, poll, start, now);
            && 5 <= |e| <= 7 && e[..3] == RosterBroadcast(roster)
            && e[3] == Emission(Everyone, StudentJoined(st))
            && e[4] == Emission(Connection(st.id), StudentConnected(true, st.name))
            && (|e| > 5 <==> poll.Some? && poll.value.isActive && StartKnown(start))
  {
    var e := JoinBroadcasts(st, roster, poll, start, now);
    LateJoinerCatchUpShape(poll, start, st.id, now);
    assert e[..3] == RosterBroadcast(roster);
  }

  /** A joining teacher hears about an active poll only: its results, then the remaining
      time exactly when the start is known, all to the teacher's connection. */
  lemma TeacherCatchUpShape(poll: Option<Poll>, start: Option<int>, socketId: ConnectionId, now: int)
    ensures var e := TeacherCatchUp(poll, start, socketId, now);
            && (e != [] <==> poll.Some? && poll.value.isActive)
            && (|e| == 2 <==> poll.Some? && poll.value.isActive && StartKnown(start))
            && |e| <= 2 && (forall i :: 0 <= i < |e| ==> e[i].to == Connection(socketId))
            && (e != [] ==> e[0].event.PollResults? && e[0].event.results.answers == poll.value.answers)
  {
  }

  /** A close broadcasts the archived tally with its total, the bare notice, and the
      history to the teacher room. */
  lemma CloseEmissionsShape(archived: Poll, history: seq<Poll>)
    ensures var e := CloseEmissions(archived, history);
            && |e| == 3 && e[0].to == Everyone && e[1] == Emission(Everyone, PollEnded)
            && e[0].event.PollClosed? && e[0].event.results.answers == archived.answers
            && e[0].event.results.totalResponses == Sum(archived.answers)
            && e[2] == Emission(TeacherRoom, PollHistory(history))
  {
  }

  ghost predicate LivePoll(p: Poll) {
    p.isActive && p.closedAt.None? && DistinctKeys(p.answers)
  }

  ghost predicate ArchivedPoll(p: Poll) {
    !p.isActive && p.closedAt.Some? && DistinctKeys(p.answers)
  }

}
