# Live polling: the session-coordination core in Dafny

This project models the core of a live classroom polling system. A teacher broadcasts a question with a
time limit, connected students answer once each, and everyone sees the tally as it
changes. The model covers three parts of that system.

- **The server** (`server/server.js`) is one shared state:
  - the current poll and the roster of students keyed by connection id;
  - the archive of closed polls and the chat log;
  - the poll start time and the pending timers.

  Socket handlers change that state in place. The model is the class `Server.Session`, with one method per
  handler: join-teacher, join-student, get-students-list, create-poll, submit-answer, send-message,
  get-chat-history, force-end-poll, kick-student, disconnect, and the shared `closePoll`.
  - The three timer callbacks are the methods `Expire`, `Tick` and `GraceClose`. The environment calls them
    with the current time:
    - `Expire` is the auto-close `setTimeout`.
    - `Tick` is one run of a countdown `setInterval`.
    - `GraceClose` is the 2-second close scheduled once everyone has answered.
  - Every `emit` is appended to `outbox` with its audience: everyone, a room, or one connection.
  - `Date.now()` is an integer parameter in milliseconds, and `uuidv4()` is a counter.
  - The pure rules of the server live in `ServerRules`: names, remaining time, timer delays, results, the
    poll object and the broadcasts.
- **The teacher's dashboard** (`components/TeacherDashboard.js`):
  - The form's validation and its payload are pure functions of the draft.
  - The option editors are pure functions, and they keep the form at two rows or more.
  - The roster it keeps and the history of completed polls it builds belong to the class
    `TeacherDashboard.Dashboard`, whose handlers write their state slots in sequence.
- **The student's view** (`components/StudentView.js`) is the class `StudentView.View`:
  - the one-shot submit guard;
  - the new-poll, results and closed-poll transitions;
  - the roster handlers.

  A ghost mark records where the commands since the last new-poll event begin. The class invariant
  `Valid` then states that a view has sent at most one answer since the last new-poll event. It is not
  one answer per poll: the same poll arriving again starts a fresh count.

Shared pieces:
- `JsText`: JavaScript's `trim`, integer `toString` and `padStart`.
- `TimeDisplay`: the `mm:ss` display that both views define.
- `Tally`: the `answers` object, an insertion-ordered list of distinct keys.
- `Roster`: Map and array operations on the student list.
- `Protocol`: the records on the wire.

Each member of `Scenarios` calls the handlers in sequence on concrete inputs, and its ensures state the
outcome: one behaviour of the code as written.

## Behaviours of the code that are easy to miss

The model follows the code as written, including these behaviours:

- **Overwriting an active poll.** create-poll replaces an active poll without closing or archiving it
  (`server/server.js:141`). The dropped poll's countdown interval keeps running beside the new poll's
  interval (`Scenarios.OverwriteDropsActivePoll`).
- **No validation on the server.** The server does not validate the payload. `maxTime` falls back to 15
  when it is falsy, and `correctAnswers` falls back to `[correctAnswer]`. Only the dashboard validates,
  and it does not check that option texts are distinct.
- **Any answer is tallied.** submit-answer counts any answer text, including one that is not an option
  (`server/server.js:204-207`, `Scenarios.UnlistedAnswerIsTallied`). This holds for every text that is
  not the name of a property all JavaScript objects inherit. For a text such as `toString` the code stores
  `NaN` instead, and the model does not capture that (see "Left out").
- **The grace close has no poll id.** It closes whichever poll is current when it runs
  (`server/server.js:226`). If the teacher ends a poll and starts another within two seconds, the new poll
  is closed early (`Scenarios.StaleGraceCloseEndsNextPoll`).
- **A rejoin allows a second vote.** join-student overwrites the entry with `hasAnswered = false`, and the
  tally keeps the first vote. The invariant the server keeps is therefore "answered entries ≤ votes", not
  equality (`Server.Session.PollOk`, `Scenarios.RejoinAllowsSecondVote`).
- **A re-sent poll re-opens the student's form.** On every (re)connect the student page emits join-student
  again (`pages/student.js:49-53`). The server re-sends the running poll to that connection
  (`server/server.js:105-116`). The view's `new-poll` handler clears `hasAnswered` whatever poll arrives
  (`components/StudentView.js:76-86`), so the student can answer the same poll a second time
  (`Scenarios.ResentPollAllowsSecondAnswer`).
- **History entries.** The server's entries are plain poll snapshots, with no participant count. The
  dashboard records `students.length` in its own history.
- **The dashboard archives a poll twice.** On `poll-ended` the dashboard archives its current poll but does
  not clear the slot, so `createNextPoll` archives the same poll again (`Scenarios.DashboardArchivesTwice`).

## Model

| member | source | states |
|---|---|---|
| JsText.Trim | server/server.js:81 | the trimmed name is a piece of the input that neither starts nor ends with whitespace, and it is empty exactly when the input is blank |
| JsText.BetweenBlanks | server/server.js:81 | cutting only whitespace from the front and then from the back leaves a piece of the input between a blank prefix and a blank suffix |
| JsText.TrimIdempotent | server/server.js:81 | trimming twice gives the same string as trimming once |
| JsText.NatToDigitsRoundTrip | components/TeacherDashboard.js:203 | reading back the decimal digits `toString` writes gives the number |
| JsText.IntToString | components/TeacherDashboard.js:203 | a non-negative integer's string is its decimal digits; a negative one's is `-` followed by the digits of its absolute value; the last character is always a digit, and no number is written with a leading zero |
| JsText.PadStart | components/TeacherDashboard.js:203 | the result is at least as long as the width, ends with the input, and everything before the input is the pad character |
| ServerRules.ValidName | server/server.js:81 | the name a student gets is never empty and has no surrounding whitespace: the trimmed name when it is not blank, `Student_<now>` otherwise |
| ServerRules.PlaceholderName | server/server.js:81 | the placeholder is `Student_` followed by the digits of the clock |
| ServerRules.TimeoutDelay | server/server.js:170-173 | the auto-close delay is the requested one when it lies in [1, 2^31-1] and 1 ms otherwise |
| ServerRules.RemainingSeconds | server/server.js:106-107 | the remaining time is never negative, is zero exactly when the elapsed whole seconds reach `maxTime`, and is never above `maxTime` while the clock does not run backwards |
| ServerRules.RemainingCountsDown | server/server.js:182-183 | the remaining time never rises as the clock advances |
| ServerRules.RemainingAfterWholeSeconds | server/server.js:106-107 | `p` whole seconds in, `max(0, maxTime - p)` seconds remain |
| ServerRules.ExpiryAgreesWithCountdown | server/server.js:170-183 | when the delay is not clamped, the auto-close fires no earlier than the countdown reaches zero |
| ServerRules.LateJoinerResync | server/server.js:105-121 | a late joiner is sent the poll with `max(0, maxTime - p)` seconds left, and the closed results as well exactly when `maxTime <= p` |
| ServerRules.ResultsOf | server/server.js:27-35 | `totalResponses` is the sum of the tally; with no poll the results are an empty tally and 0 |
| ServerRules.ResultsAfterVote | server/server.js:204-211 | one more vote raises the reported total by exactly one |
| ServerRules.BuildPoll | server/server.js:141-151 | the new poll is active with an empty tally, keeps the question and options, takes `maxTime` or 15 when that is falsy, and takes `correctAnswers` or `[correctAnswer]` |
| ServerRules.Archived | server/server.js:291-292 | the snapshot is the poll marked inactive and stamped with the close time; every other field (id, question, options, correct answers, timer, creation time, tally) is unchanged |
| ServerRules.RosterBroadcast | server/server.js:39-47 | the roster goes, in join order, to everyone, the teacher room and the students room |
| ServerRules.StartKnown | server/server.js:67 | `pollStartTime` is truthy: present and not 0 |
| ServerRules.LateJoinerCatchUp | server/server.js:105-121 | what a joining student is sent about a running poll (its contract is `ServerRules.LateJoinerCatchUpShape`) |
| ServerRules.LateJoinerCatchUpShape | server/server.js:105-121 | the catch-up is sent exactly when a poll is active and its start is known, only to the joining connection, at most two events, the first the poll with its remaining time |
| ServerRules.JoinBroadcasts | server/server.js:98-121 | everything join-student sends (its contract is `ServerRules.JoinBroadcastsShape`) |
| ServerRules.JoinBroadcastsShape | server/server.js:98-121 | the roster three ways, then the announcement to everyone, the acknowledgement with the name to the student, and a catch-up exactly when a poll with a known start is running |
| ServerRules.TeacherCatchUp | server/server.js:62-72 | what a joining teacher is sent about a running poll (its contract is `ServerRules.TeacherCatchUpShape`) |
| ServerRules.TeacherCatchUpShape | server/server.js:62-72 | sent exactly when a poll is active, only to the teacher's connection: the results with the poll's tally, then the remaining time exactly when the start is known |
| ServerRules.CloseEmissions | server/server.js:303-305 | the broadcasts of a close (its contract is `ServerRules.CloseEmissionsShape`) |
| ServerRules.CloseEmissionsShape | server/server.js:303-305 | three events: the archived tally with its total to everyone, the bare `poll-ended`, and the history to the teacher room |
| Tally.Find | server/server.js:204 | the position found holds the key, and no position holds it when none is found |
| Tally.Sum | server/server.js:30 | the reduce over the counts (its properties are `Tally.BumpSum` and `Tally.CountAtMostSum`) |
| Tally.Bump | server/server.js:204-207 | one vote for a key (its properties are `Tally.BumpKeepsOrder` and `Tally.BumpCounts`) |
| Tally.BumpKeepsOrder | server/server.js:204-207 | every key keeps its place, and a new key is appended with one vote |
| Tally.BumpCounts | server/server.js:204-207 | a vote raises that answer's count by one, starting from 0 when absent; it leaves every other count unchanged, keeps keys distinct and adds no key but the answer |
| Tally.BumpSum | server/server.js:204-207 | a vote raises the sum of the tally by exactly one |
| Tally.CountAtMostSum | server/server.js:30 | no answer has more votes than the total |
| Roster.IndexOfId | server/server.js:197-198 | the position found is the first entry with that id, and no entry has it when none is found |
| Roster.Upsert | server/server.js:91 | `students.set` replaces the entry with that id in place or appends a new one, and keeps ids distinct |
| Roster.UpsertEntries | server/server.js:91 | after `set` the id maps only to the new entry, every other entry is still there, and nothing else was added |
| Roster.WithoutId | components/StudentView.js:142-145 | the filter keeps exactly the entries whose id differs, each as many times as it occurs, in their order |
| Roster.WithoutIdRemovesOne | server/server.js:260-263 | on distinct ids, a delete removes just the entry at the id's position, keeps the order, and removes nothing when the id is absent |
| Roster.AppendIfAbsent | components/StudentView.js:131-140 | a joined student is appended exactly when its id is not listed yet |
| Roster.AppendIfAbsentKeepsIdsDistinct | components/TeacherDashboard.js:42-49 | the merge keeps ids unique, and the id is listed afterwards |
| Roster.CountAnsweredAll | server/server.js:219-224 | the answered count equals the roster size exactly when every entry has answered |
| Roster.CountAnswered | server/server.js:220 | the answered count is at most the roster size |
| Roster.ResetAll | server/server.js:157-160 | the reset loop on the whole roster keeps its length (what it clears is `Roster.ResetAllClears`) |
| Roster.ResetAllClears | server/server.js:157-160 | after the reset nobody has answered and no entry holds an answer; ids, names, join times and order are unchanged |
| Roster.MarkAnsweredCount | server/server.js:200-202 | marking an entry that had not answered raises the answered count by exactly one |
| Roster.MarkAnswered | server/server.js:200-202 | the entry at the index becomes answered with the answer, every other entry is unchanged, and the length is kept |
| Roster.ReplaceUnansweredCount | server/server.js:91 | re-registering an entry as unanswered never raises the answered count |
| Roster.WithoutIdCount | server/server.js:263 | removing entries never raises the answered count |
| Server.JoinKeepsRoster | server/server.js:83-91 | a join keeps the ids distinct and the entries well formed |
| Server.ResetKeepsRoster | server/server.js:157-160 | the reset keeps the roster invariant and leaves no one answered |
| Server.SubmitKeepsRoster | server/server.js:200-209 | a submit keeps the roster invariant and raises the answered count by one |
| Server.RemoveKeepsRoster | server/server.js:263 | a delete keeps the roster invariant and never raises the answered count |
| Server.Session.constructor | server/server.js:20-25 | the server starts with no poll, an empty roster, history and chat, and no timer |
| Server.Session.CalculateResults | server/server.js:27-35 | the results of the current poll, whose total is the sum of its tally |
| Server.Session.JoinTeacher | server/server.js:53-75 | the teacher is sent the current poll, the roster and the history, and for a running poll its results and remaining time; no other state changes |
| Server.Session.JoinStudent | server/server.js:78-123 | the connection gets a fresh unanswered entry under its id, overwriting any earlier one, followed by the roster, the announcement, the acknowledgement and the late-joiner catch-up |
| Server.Session.GetStudentsList | server/server.js:126-129 | re-broadcasts the roster and changes nothing else |
| Server.Session.ResetAnswers | server/server.js:157-160 | the loop leaves every entry cleared and in place |
| Server.Session.CancelTimer | server/server.js:136-139 | the auto-close timer is no longer pending |
| Server.Session.InstallPoll | server/server.js:141-160 | the fresh poll takes the slot with the start time, the id counter moves past it, and every entry is reset |
| Server.Session.ArmTimers | server/server.js:169-190 | the auto-close timer is pending for the given deadline and one more interval runs |
| Server.Session.CreatePoll | server/server.js:132-191 | the current poll becomes the built poll, and an active one is dropped without archiving; the history is unchanged; every entry is reset; the poll and roster are broadcast; the auto-close timer is armed; one more interval runs |
| Server.Session.SubmitAnswer | server/server.js:194-230 | accepted exactly when a poll is active and the sender is registered and has not answered, and otherwise nothing changes; an accepted answer marks the sender, bumps that answer's count whatever its text, broadcasts results and roster, and schedules a grace close exactly when every entry of a non-empty roster has answered |
| Server.Session.RecordAnswer | server/server.js:200-227 | the accepted branch: the entry is marked, the vote bumped, results and roster broadcast, and a grace close queued exactly when everyone has answered |
| Server.Session.MarkVote | server/server.js:200-209 | the entry records the answer and the current poll's tally takes the vote |
| Server.Session.SendMessage | server/server.js:233-245 | a message with a fresh id is appended to the log and broadcast |
| Server.Session.GetChatHistory | server/server.js:247-249 | the whole log goes to the asking connection only |
| Server.Session.ForceEndPoll | server/server.js:252-255 | closes exactly when a poll is active, as `closePoll` does |
| Server.Session.KickStudent | server/server.js:258-271 | removes only the named entry, tells that connection and everyone, and is a no-op for an absent id; the tally is untouched |
| Server.Session.Disconnect | server/server.js:274-285 | as kick, without the kicked notice |
| Server.Session.RemoveStudent | server/server.js:263 | `students.delete`: the roster loses exactly the entries with that id |
| Server.Session.ClosePoll | server/server.js:287-312 | a no-op unless a poll is active; otherwise it appends exactly one snapshot, cancels the timer, broadcasts the close and clears the poll and its start time |
| Server.Session.Expire | server/server.js:170-173 | fires exactly when the timer is pending and due, and then closes the poll it was armed for; otherwise nothing changes, the start time included |
| Server.Session.Tick | server/server.js:176-190 | with a poll running, broadcasts the remaining seconds and stops at zero; otherwise it stops silently |
| Server.Session.GraceClose | server/server.js:224-227 | the oldest pending close, once due, is dropped from the queue and closes whatever poll is current; when it closes nothing, nothing else changes, the start time included |
| TimeDisplay.JsRemainder | components/StudentView.js:31 | JavaScript's `%`: the remainder takes the dividend's sign, is smaller than the divisor in magnitude, and differs from the dividend by a multiple of the divisor |
| TimeDisplay.FloorDiv | components/StudentView.js:30 | `Math.floor(a / b)`: the greatest `q` with `q * b <= a` |
| TimeDisplay.FormatTime | components/TeacherDashboard.js:200-204 | the `mm:ss` display (its properties are `TimeDisplay.FormatTimeShape`, `TimeDisplay.FormatTimeRoundTrip` and `TimeDisplay.NegativeSecondsMisread`) |
| TimeDisplay.FormatTimeShape | components/StudentView.js:29-33 | the display has five characters or more, with the ':' right after the padded minutes |
| TimeDisplay.FormatTimeRoundTrip | components/TeacherDashboard.js:200-204 | for `s >= 0` the display reads back as `mins * 60 + secs == s`, and it is five characters below 100 minutes |
| TimeDisplay.MinutesAndSeconds | components/TeacherDashboard.js:201-202 | for a non-negative count, whole minutes times 60 plus the remainder give the count back |
| TimeDisplay.JoinedRoundTrip | components/TeacherDashboard.js:203 | padded minutes and padded seconds below 60, joined by ':', read back as `mins * 60 + secs`, and take five characters below 100 minutes |
| TimeDisplay.NegativeSecondsMisread | components/StudentView.js:29-33 | for a negative count the decomposition no longer adds up: `-5` shows as `-1:-5` |
| TeacherDashboard.NonBlank | components/TeacherDashboard.js:94 | keeps exactly the rows whose text is not blank, each as many times as it occurs in the form |
| TeacherDashboard.MarkedCorrect | components/TeacherDashboard.js:95 | keeps exactly the rows marked correct, each as many times as it occurs |
| TeacherDashboard.NonBlankKeepsOrder | components/TeacherDashboard.js:94 | the kept rows are in the form's order |
| TeacherDashboard.MarkedCorrectKeepsOrder | components/TeacherDashboard.js:95 | the correct rows are in order |
| TeacherDashboard.Texts | components/TeacherDashboard.js:111 | the texts, index for index |
| TeacherDashboard.RowOfText | components/TeacherDashboard.js:111 | every text in the list is the text of one of its rows |
| TeacherDashboard.CreatePollPayload | components/TeacherDashboard.js:91-117 | rejects, in order, a blank question, fewer than two non-blank options, and no correct option, and sends every form that passes all three; a payload keeps the question and the timer and is stamped with the clock |
| TeacherDashboard.PayloadOptions | components/TeacherDashboard.js:109-111 | a sent payload has one option per non-blank row, two or more, none blank, in the form's order, and every non-blank row's text is among them |
| TeacherDashboard.PayloadCorrectAnswers | components/TeacherDashboard.js:112-113 | the correct answers are the texts of the non-blank rows marked correct, one per row, in the form's order and among the options: each such row's text is listed, each listed answer is the text of such a row, and `correctAnswer` is the first |
| TeacherDashboard.ServerAcceptsPayload | components/TeacherDashboard.js:109-119 | the server builds from a sent payload an active poll with the same options, every correct answer present, and the form's timer (15 when it is 0) |
| TeacherDashboard.WithOptionAdded | components/TeacherDashboard.js:154-159 | appends exactly one blank, unmarked row |
| TeacherDashboard.WithOptionRemoved | components/TeacherDashboard.js:161-171 | refused at two rows or fewer; otherwise removes only the given index, and nothing for an index outside the list |
| TeacherDashboard.WithOptionText | components/TeacherDashboard.js:173-180 | changes only that row's text; the length and the other rows are unchanged |
| TeacherDashboard.WithOptionCorrectness | components/TeacherDashboard.js:182-189 | changes only that row's mark; the length and the other rows are unchanged |
| TeacherDashboard.EditorsKeepTwoOptions | components/TeacherDashboard.js:154-189 | no editor takes the form below two rows |
| TeacherDashboard.Dashboard.constructor | components/TeacherDashboard.js:5-27 | the dashboard starts empty with the initial two-row form |
| TeacherDashboard.Dashboard.OnStudentsList | components/TeacherDashboard.js:38-40 | an array replaces the roster, and anything else empties it |
| TeacherDashboard.Dashboard.OnStudentJoined | components/TeacherDashboard.js:42-50 | the roster becomes the merge |
| TeacherDashboard.Dashboard.OnPollResults | components/TeacherDashboard.js:59-61 | the results are stored |
| TeacherDashboard.Dashboard.OnPollEnded | components/TeacherDashboard.js:67-78 | the countdown is zero, and a current poll is prepended to the history with its results and roster size, so the history grows by one, most recent first |
| TeacherDashboard.Dashboard.ArchiveCurrent | components/TeacherDashboard.js:137-145 | a current poll is prepended to the history with its results and the roster size; with none the history is unchanged |
| TeacherDashboard.Dashboard.HandleCreatePoll | components/TeacherDashboard.js:91-134 | the result is the payload; a rejected form sends and changes nothing; an accepted one is sent, becomes current, shows the results with its timer, and resets the form |
| TeacherDashboard.Dashboard.SendPoll | components/TeacherDashboard.js:119-133 | the payload is sent once and becomes current, the results pane shows with the payload's timer, and the form is reset |
| TeacherDashboard.Dashboard.CreateNextPoll | components/TeacherDashboard.js:136-152 | a current poll is prepended to the history, then the form opens with the slot and results cleared |
| TeacherDashboard.Dashboard.KickStudent | components/TeacherDashboard.js:191-194 | sends the kick and drops every entry with that id |
| TeacherDashboard.Dashboard.EditQuestion | components/TeacherDashboard.js:399 | only the question changes |
| TeacherDashboard.Dashboard.SelectTimer | components/TeacherDashboard.js:417 | only the timer changes |
| TeacherDashboard.Dashboard.AddOption | components/TeacherDashboard.js:154-159 | the form becomes the form with a row added |
| TeacherDashboard.Dashboard.RemoveOption | components/TeacherDashboard.js:161-171 | the form becomes the form with the row removed, and keeps two rows |
| TeacherDashboard.Dashboard.UpdateOptionText | components/TeacherDashboard.js:173-180 | the form becomes the form with the text changed |
| TeacherDashboard.Dashboard.UpdateOptionCorrectness | components/TeacherDashboard.js:182-189 | the form becomes the form with the mark changed |
| StudentView.SubmitCountAppend | components/StudentView.js:24 | one more command adds a submit exactly when it is one |
| StudentView.AtMostOneSubmitSinceNewPoll | components/StudentView.js:21-27 | since the last new-poll event, a view that keeps its invariant has sent exactly one answer, at a single position, when it has answered, and none when it has not |
| StudentView.OnlySubmit | components/StudentView.js:21-27 | a command list counting one submit holds it at exactly one position |
| StudentView.View.constructor | components/StudentView.js:5-18 | the view starts with no poll, no answer and nothing sent |
| StudentView.View.Select | components/StudentView.js:427-428 | a choice is taken only while time remains and nothing was submitted |
| StudentView.View.SubmitAnswer | components/StudentView.js:21-27 | sends exactly when an answer is selected, none was sent, a poll is shown, time remains and there is a socket; afterwards the view counts as answered, so the invariant of one submit since the last new-poll event is kept |
| StudentView.View.HandleNewPoll | components/StudentView.js:76-86 | shows the poll with answer, selection, results and history cleared; the countdown starts from the remaining time when present, `maxTime` otherwise |
| StudentView.View.HandleTimerUpdate | components/StudentView.js:88-90 | the countdown takes the sent value |
| StudentView.View.HandlePollResults | components/StudentView.js:92-98 | the results are stored, and shown only to a student who has answered |
| StudentView.View.HandlePollClosed | components/StudentView.js:100-118 | the results are stored and shown; a shown poll is prepended once to the history with the student's answer; no poll remains and the countdown is zero |
| StudentView.View.HandleStudentsList | components/StudentView.js:121-129 | an array replaces the roster, and anything else empties it |
| StudentView.View.HandleStudentJoined | components/StudentView.js:131-140 | the roster becomes the merge |
| StudentView.View.HandleStudentLeft | components/StudentView.js:142-145 | every entry with that id goes and every other stays |
| Scenarios.CapitalOfFrance | server/server.js:194-311 | two students answering "Paris" and "Lyon" give one vote each and two in all, and the close two seconds later archives that tally |
| Scenarios.OverwriteDropsActivePoll | server/server.js:136-190 | a second create-poll leaves the history empty, runs the new poll for 15 seconds, and leaves two intervals running |
| Scenarios.UnlistedAnswerIsTallied | server/server.js:204-207 | an answer that is not an option is accepted and counted |
| Scenarios.CloseTwice | server/server.js:287-312 | a second force-end finds no poll and archives nothing more |
| Scenarios.StaleGraceCloseEndsNextPoll | server/server.js:224-227 | a grace close scheduled for one poll ends the next poll one second into its fifteen |
| Scenarios.RejoinAllowsSecondVote | server/server.js:83-91 | a rejoin from the same connection lets a roster of one cast two votes |
| Scenarios.DashboardArchivesTwice | components/TeacherDashboard.js:67-145 | one sent poll appears twice in the dashboard's history |
| Scenarios.StudentSubmitsOnce | components/StudentView.js:21-27 | pressing submit twice sends one answer |
| Scenarios.ResentPollAllowsSecondAnswer | components/StudentView.js:76-86 | after an answer, the same poll arriving again lets the view send a second answer for it |

## Left out

- The socket.io, express, cors and HTTP plumbing. Broadcasts are records appended to `outbox`, with the
  audience named, and rooms are audiences rather than membership sets.
- Real timers and clocks. Time is an integer parameter, and the timer callbacks run when the caller invokes
  `Expire`, `Tick` or `GraceClose`.
- Which interval a tick belongs to. `Tick` stands for one run of any live interval, and `liveIntervals`
  counts the live intervals.
- `uuidv4`. A counter shared by polls and chat messages stands in for it: ids are fresh and increasing, not
  random.
- `new Date()` and ISO date strings are the integer clock. The dashboard's payload `id` and `createdAt` are
  both that clock value (`clientId`, `clientCreatedAt`).
- Tally.Bump: the `answers` object is an insertion-ordered list with distinct keys, and every vote counts
  as one. In the code, an answer text naming an inherited object property (`toString`, `constructor`,
  `valueOf`, `hasOwnProperty`, ...) finds a function there. That function is truthy, so the reset at
  `server/server.js:204-205` is skipped, `++` at `server/server.js:207` stores `NaN`, and `totalResponses`
  (`server/server.js:30`) becomes `NaN`. The model counts such a vote as 1.
- The other quirks of the `answers` object: the reordering of integer-like keys and the special key
  `__proto__` are not modelled.
- `Number.prototype.toString` for integers only. Exponent notation for huge values is not modelled. `NaN`
  and non-integer times are not modelled either; a `NaN` `maxTime` arrives as absent.
- The teacher dashboard's `timer-update` handler. It stores the `{ remaining }` object itself where a number
  is expected, which is not a value the model's integer countdown can hold.
- The dashboard's `poll-created` handler, because the server never sends that event.
- The `join-student` side effect `socket.join('students')` and the timestamp's type (`joinedAt` is the
  integer clock).
- All rendering: JSX, CSS, sidebar and tab toggles, `getPercentage` (floating point), `formatDate`, the
  remove-option `alert`, the chat UI, the kicked redirect, and `console.log`.
- The dashboard's `connect` handler and the student view's `connect`/`disconnect` flags. They only emit
  requests the server model already has and set a connection indicator.
- The React render cycle: each handler is applied to the state it reads, as a closure over the latest
  state would see it.
