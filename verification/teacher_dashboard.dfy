/**
 * The teacher's dashboard (components/TeacherDashboard.js): the create-poll form with
 * its option editors and validation, the roster it keeps from the server's events, and
 * the history of completed polls it builds on its own.
 *
 * The form updaters are pure functions of the previous draft; `handleCreatePoll`,
 * `createNextPoll` and the socket handlers write several state slots in sequence and
 * are methods of `Dashboard`. `Date.now()` is the `now` parameter, and every
 * `socket.emit` is appended to `sent`.
 */
module TeacherDashboard {
  import opened Wrappers
  import opened JsText
  import opened Protocol
  import opened Roster
  import opened ServerRules

  /** One option row of the form. */
  datatype OptionDraft = OptionDraft(text: string, isCorrect: bool)

  /** The form state `newPoll`; `maxTime` is the timer select's value in seconds. */
  datatype PollDraft = PollDraft(question: string, options: seq<OptionDraft>, maxTime: int)

  const BlankOption := OptionDraft("", false)

  /** The form as first shown and as reset after a poll is sent. */
  const InitialDraft := PollDraft("", [BlankOption, BlankOption], 60)

  /** Why the form sends nothing. */
  datatype Rejection = BlankQuestion | TooFewOptions | NoCorrectOption

  lemma {:induction false} SubsequenceMembers<T>(a: seq<T>, b: seq<T>)
    requires IsSubsequence(a, b)
    ensures forall x :: x in a ==> x in b
    decreases |b|
  {
    if a != [] && b != [] {
      if a[0] == b[0] && IsSubsequence(a[1..], b[1..]) {
        SubsequenceMembers(a[1..], b[1..]);
        assert forall x :: x in a ==> x == a[0] || x in a[1..];
      } else {
        SubsequenceMembers(a, b[1..]);
      }
    }
  }

  /** `options.filter(opt => opt.text.trim())`: the rows whose text is not blank. */
  function NonBlank(options: seq<OptionDraft>): (r: seq<OptionDraft>)
    ensures forall x :: x in r <==> x in options && !IsBlank(x.text)
    ensures forall x :: multiset(r)[x] == if IsBlank(x.text) then 0 else multiset(options)[x]
    ensures |r| <= |options|
  {
    if options == [] then []
    else
      assert options == [options[0]] + options[1..];
      if IsBlank(options[0].text) then NonBlank(options[1..])
      else [options[0]] + NonBlank(options[1..])
  }

  /** `validOptions.filter(opt => opt.isCorrect)`. */
  function MarkedCorrect(options: seq<OptionDraft>): (r: seq<OptionDraft>)
    ensures forall x :: x in r <==> x in options && x.isCorrect
    ensures forall x :: multiset(r)[x] == if x.isCorrect then multiset(options)[x] else 0
    ensures |r| <= |options|
  {
    if options == [] then []
    else
      assert options == [options[0]] + options[1..];
      if options[0].isCorrect then [options[0]] + MarkedCorrect(options[1..])
      else MarkedCorrect(options[1..])
  }

  /** `.map(opt => opt.text)`. */
  function Texts(options: seq<OptionDraft>): (r: seq<string>)
    ensures |r| == |options|
    ensures forall i :: 0 <= i < |r| ==> r[i] == options[i].text
  {
    if options == [] then [] else [options[0].text] + Texts(options[1..])
  }

  lemma {:induction false} NonBlankKeepsOrder(options: seq<OptionDraft>)
    ensures IsSubsequence(NonBlank(options), options)
    decreases |options|
  {
    if options != [] {
      NonBlankKeepsOrder(options[1..]);
      if !IsBlank(options[0].text) {
        assert NonBlank(options)[1..] == NonBlank(options[1..]);
      } else {
        SubsequenceOfTail(NonBlank(options[1..]), options);
      }
    }
  }

  lemma {:induction false} MarkedCorrectKeepsOrder(options: seq<OptionDraft>)
    ensures IsSubsequence(MarkedCorrect(options), options)
    decreases |options|
  {
    if options != [] {
      MarkedCorrectKeepsOrder(options[1..]);
      if options[0].isCorrect {
        assert MarkedCorrect(options)[1..] == MarkedCorrect(options[1..]);
      } else {
        SubsequenceOfTail(MarkedCorrect(options[1..]), options);
      }
    }
  }

  lemma SubsequenceOfTail<T>(a: seq<T>, b: seq<T>)
    requires b != [] && IsSubsequence(a, b[1..])
    ensures IsSubsequence(a, b)
  {
  }

  lemma {:induction false} TextsKeepOrder(a: seq<OptionDraft>, b: seq<OptionDraft>)
    requires IsSubsequence(a, b)
    ensures IsSubsequence(Texts(a), Texts(b))
    decreases |b|
  {
    if a != [] && b != [] {
      assert Texts(b)[1..] == Texts(b[1..]);
      if a[0] == b[0] && IsSubsequence(a[1..], b[1..]) {
        TextsKeepOrder(a[1..], b[1..]);
        assert Texts(a)[1..] == Texts(a[1..]);
      } else {
        TextsKeepOrder(a, b[1..]);
      }
    }
  }

  /** `handleCreatePoll`'s validation and payload. The checks run in the source's order:
      a blank question, then fewer than two non-blank options, then none of them marked
      correct. The payload keeps the question and option texts untrimmed; `id` and
      `createdAt` are both the clock. */
  function CreatePollPayload(draft: PollDraft, now: int): (r: Result<PollData, Rejection>)
    ensures IsBlank(draft.question) ==> r == Err(BlankQuestion)
    ensures !IsBlank(draft.question) && |NonBlank(draft.options)| < 2 ==> r == Err(TooFewOptions)
    ensures !IsBlank(draft.question) && |NonBlank(draft.options)| >= 2 && MarkedCorrect(NonBlank(draft.options)) == []
            ==> r == Err(NoCorrectOption)
    ensures !IsBlank(draft.question) && |NonBlank(draft.options)| >= 2 && MarkedCorrect(NonBlank(draft.options)) != []
            ==> r.Ok?
    ensures r.Ok? ==> && r.value.question == draft.question
                      && r.value.maxTime == Some(draft.maxTime)
                      && r.value.clientId == Some(now) && r.value.clientCreatedAt == Some(now)
  {
    var valid := NonBlank(draft.options);
    var correct := MarkedCorrect(valid);
    if IsBlank(draft.question) then Err(BlankQuestion)
    else if |valid| < 2 then Err(TooFewOptions)
    else if |correct| == 0 then Err(NoCorrectOption)
    else Ok(PollData(draft.question, Texts(valid), Some(correct[0].text), Some(Texts(correct)),
                     Some(draft.maxTime), Some(now), Some(now)))
  }

  /** A sent payload's options are the texts of the non-blank rows, one per row and in
      the form's order: at least two, none blank, and every non-blank row's text is there. */
  lemma PayloadOptions(draft: PollDraft, now: int)
    requires CreatePollPayload(draft, now).Ok?
    ensures var p := CreatePollPayload(draft, now).value;
            && |p.options| >= 2
            && |p.options| == |NonBlank(draft.options)|
            && (forall i :: 0 <= i < |p.options| ==> !IsBlank(p.options[i]))
            && (forall x :: x in draft.options && !IsBlank(x.text) ==> x.text in p.options)
            && IsSubsequence(p.options, Texts(draft.options))
  {
    var valid := NonBlank(draft.options);
    var p := CreatePollPayload(draft, now).value;
    assert p.options == Texts(valid);
    forall i | 0 <= i < |p.options| ensures !IsBlank(p.options[i]) {
      assert valid[i] in valid;
    }
    forall x | x in draft.options && !IsBlank(x.text) ensures x.text in p.options {
      TextOfMember(valid, x);
    }
    NonBlankKeepsOrder(draft.options);
    TextsKeepOrder(valid, draft.options);
  }

  /** The correct answers of a sent payload are, in order, the texts of the non-blank
      rows marked correct, one per row: every such text is there, every listed answer is
      the text of such a row and one of the options, and `correctAnswer` is the first. */
  lemma PayloadCorrectAnswers(draft: PollDraft, now: int)
    requires CreatePollPayload(draft, now).Ok?
    ensures var p := CreatePollPayload(draft, now).value;
            && p.correctAnswers == Some(Texts(MarkedCorrect(NonBlank(draft.options))))
            && |p.correctAnswers.value| >= 1
            && |p.correctAnswers.value| == |MarkedCorrect(NonBlank(draft.options))|
            && p.correctAnswer == Some(p.correctAnswers.value[0])
            && IsSubsequence(p.correctAnswers.value, p.options)
            && (forall a :: a in p.correctAnswers.value ==> a in p.options)
            && (forall x :: x in draft.options && !IsBlank(x.text) && x.isCorrect ==> x.text in p.correctAnswers.value)
            && (forall a :: a in p.correctAnswers.value ==>
                  exists x :: x in draft.options && !IsBlank(x.text) && x.isCorrect && x.text == a)
  {
    var valid := NonBlank(draft.options);
    var correct := MarkedCorrect(valid);
    var p := CreatePollPayload(draft, now).value;
    assert p.options == Texts(valid) && p.correctAnswers == Some(Texts(correct));
    MarkedCorrectKeepsOrder(valid);
    TextsKeepOrder(correct, valid);
    SubsequenceMembers(Texts(correct), Texts(valid));
    forall x | x in draft.options && !IsBlank(x.text) && x.isCorrect ensures x.text in Texts(correct) {
      TextOfMember(correct, x);
    }
    forall a | a in Texts(correct)
      ensures exists x :: x in draft.options && !IsBlank(x.text) && x.isCorrect && x.text == a
    {
      var x := RowOfText(correct, a);
      assert x in valid;
    }
  }

  /** A text in the list comes from a row. */
  lemma RowOfText(s: seq<OptionDraft>, a: string) returns (x: OptionDraft)
    requires a in Texts(s)
    ensures x in s && x.text == a
  {
    var k :| 0 <= k < |Texts(s)| && Texts(s)[k] == a;
    x := s[k];
  }

  lemma TextOfMember(s: seq<OptionDraft>, x: OptionDraft)
    requires x in s
    ensures x.text in Texts(s)
  {
    var k :| 0 <= k < |s| && s[k] == x;
    assert Texts(s)[k] == x.text;
  }

  /** The server builds from a sent payload an active poll with exactly these options,
      every correct answer present, and the form's timer (15 seconds if it was 0). */
  lemma ServerAcceptsPayload(draft: PollDraft, now: int, id: nat, at: int)
    requires CreatePollPayload(draft, now).Ok?
    ensures var data := CreatePollPayload(draft, now).value;
            var poll := BuildPoll(data, id, at);
            && poll.isActive && poll.options == data.options
            && |poll.correctAnswers| == |data.correctAnswers.value|
            && (forall i :: 0 <= i < |poll.correctAnswers| ==> poll.correctAnswers[i].Some?)
            && poll.maxTime == (if draft.maxTime == 0 then DefaultMaxTime else draft.maxTime)
  {
  }

  /** `addOption`: one blank, unmarked row appended. */
  function WithOptionAdded(draft: PollDraft): (r: PollDraft)
    ensures r.options == draft.options + [BlankOption]
    ensures r.question == draft.question && r.maxTime == draft.maxTime
  {
    draft.(options := draft.options + [BlankOption])
  }

  /** `removeOption(index)`: refused while there are two rows or fewer; otherwise the row
      at `index` goes, and an index outside the list removes nothing. */
  function WithOptionRemoved(draft: PollDraft, index: int): (r: PollDraft)
    ensures r.question == draft.question && r.maxTime == draft.maxTime
    ensures |draft.options| <= 2 ==> r == draft
    ensures |draft.options| > 2 && 0 <= index < |draft.options| ==>
              r.options == draft.options[..index] + draft.options[index + 1..]
    ensures |draft.options| > 2 && !(0 <= index < |draft.options|) ==> r.options == draft.options
  {
    if |draft.options| <= 2 then draft
    else if 0 <= index < |draft.options| then draft.(options := draft.options[..index] + draft.options[index + 1..])
    else draft
  }

  /** No editor takes the form below two rows once it has two. */
  lemma EditorsKeepTwoOptions(draft: PollDraft, index: int, text: string, isCorrect: bool)
    requires |draft.options| >= 2
    ensures |WithOptionAdded(draft).options| >= 2
    ensures |WithOptionRemoved(draft, index).options| >= 2
    ensures |WithOptionText(draft, index, text).options| >= 2
    ensures |WithOptionCorrectness(draft, index, isCorrect).options| >= 2
  {
  }

  /** `updateOptionText(index, text)`: only that row's text changes. */
  function WithOptionText(draft: PollDraft, index: int, text: string): (r: PollDraft)
    ensures r.question == draft.question && r.maxTime == draft.maxTime
    ensures |r.options| == |draft.options|
    ensures forall i :: 0 <= i < |r.options| && i != index ==> r.options[i] == draft.options[i]
    ensures 0 <= index < |r.options| ==> r.options[index] == OptionDraft(text, draft.options[index].isCorrect)
  {
    draft.(options := seq(|draft.options|, i requires 0 <= i < |draft.options| =>
                            if i == index then draft.options[i].(text := text) else draft.options[i]))
  }

  /** `updateOptionCorrectness(index, isCorrect)`: only that row's mark changes. */
  function WithOptionCorrectness(draft: PollDraft, index: int, isCorrect: bool): (r: PollDraft)
    ensures r.question == draft.question && r.maxTime == draft.maxTime
    ensures |r.options| == |draft.options|
    ensures forall i :: 0 <= i < |r.options| && i != index ==> r.options[i] == draft.options[i]
    ensures 0 <= index < |r.options| ==> r.options[index] == OptionDraft(draft.options[index].text, isCorrect)
  {
    draft.(options := seq(|draft.options|, i requires 0 <= i < |draft.options| =>
                            if i == index then draft.options[i].(isCorrect := isCorrect) else draft.options[i]))
  }

  /** An entry of the dashboard's own history. */
  datatype CompletedPoll = CompletedPoll(poll: PollData, results: Results, completedAt: int, totalParticipants: nat)

  class Dashboard {
    /** The payload last sent; the server's own poll object never reaches this slot. */
    var currentPoll: Option<PollData>
    var students: seq<Student>
    /** Most recent first. */
    var pollHistory: seq<CompletedPoll>
    var showCreatePoll: bool
    var showResults: bool
    var showHistory: bool
    var pollResults: Results
    var timeLeft: int
    var newPoll: PollDraft
    /** Everything sent with `socket.emit`, in order. */
    var sent: seq<Command>

    /** The form always has at least two option rows. */
    ghost predicate Valid()
      reads this`newPoll
    {
      |newPoll.options| >= 2
    }

    constructor ()
      ensures Valid()
      ensures currentPoll.None? && students == [] && pollHistory == [] && sent == []
      ensures !showCreatePoll && !showResults && !showHistory
      ensures pollResults == NoResults && timeLeft == 0 && newPoll == InitialDraft
    {
      currentPoll := None;
      students := [];
      pollHistory := [];
      showCreatePoll := false;
      showResults := false;
      showHistory := false;
      pollResults := NoResults;
      timeLeft := 0;
      newPoll := InitialDraft;
      sent := [];
    }

    /** `students-list`: replaces the roster; anything but an array empties it. */
    method OnStudentsList(list: Option<seq<Student>>)
      modifies this`students
      ensures students == if list.Some? then list.value else []
    {
      students := list.GetOr([]);
    }

    /** `student-joined`: appended unless an entry with that id is already listed. */
    method OnStudentJoined(st: Student)
      modifies this`students
      ensures students == AppendIfAbsent(old(students), st)
    {
      students := AppendIfAbsent(students, st);
    }

    /** `poll-results`. */
    method OnPollResults(results: Results)
      modifies this`pollResults
      ensures pollResults == results
    {
      pollResults := results;
    }

    /** The history entry both `poll-ended` and `createNextPoll` prepend while a sent
        poll is still current (`pollResults` is an object, hence always truthy). */
    method ArchiveCurrent(now: int)
      modifies this`pollHistory
      ensures currentPoll.None? ==> pollHistory == old(pollHistory)
      ensures currentPoll.Some? ==>
                pollHistory == [CompletedPoll(currentPoll.value, pollResults, now, |students|)] + old(pollHistory)
    {
      if currentPoll.Some? {
        pollHistory := [CompletedPoll(currentPoll.value, pollResults, now, |students|)] + pollHistory;
      }
    }

    /** `poll-ended`: the countdown shows zero and the current poll is archived. The
        slot itself is not cleared. */
    method OnPollEnded(now: int)
      modifies this`timeLeft, this`pollHistory
      ensures timeLeft == 0
      ensures currentPoll.None? ==> pollHistory == old(pollHistory)
      ensures currentPoll.Some? ==>
                pollHistory == [CompletedPoll(currentPoll.value, pollResults, now, |students|)] + old(pollHistory)
    {
      timeLeft := 0;
      ArchiveCurrent(now);
    }

    /** `handleCreatePoll`: sends the payload when the form passes validation, then shows
        the results pane with the form's timer and resets the form; a rejected form
        changes nothing. */
    method HandleCreatePoll(now: int) returns (r: Result<PollData, Rejection>)
      requires Valid()
      modifies this`sent, this`currentPoll, this`showCreatePoll, this`showResults, this`timeLeft, this`newPoll
      ensures Valid()
      ensures r == CreatePollPayload(old(newPoll), now)
      ensures r.Err? ==> && sent == old(sent) && currentPoll == old(currentPoll) && newPoll == old(newPoll)
                         && showCreatePoll == old(showCreatePoll) && showResults == old(showResults)
                         && timeLeft == old(timeLeft)
      ensures r.Ok? ==> && sent == old(sent) + [CreatePollCommand(r.value)]
                        && currentPoll == Some(r.value)
                        && !showCreatePoll && showResults
                        && timeLeft == old(newPoll).maxTime
                        && newPoll == InitialDraft
    {
      r := CreatePollPayload(newPoll, now);
      if r.Ok? {
        SendPoll(r.value, newPoll.maxTime);
      }
    }

    /** The accepted branch of `handleCreatePoll` for `payload`, whose timer is `maxTime`. */
    method SendPoll(payload: PollData, maxTime: int)
      modifies this`sent, this`currentPoll, this`showCreatePoll, this`showResults, this`timeLeft, this`newPoll
      ensures Valid()
      ensures sent == old(sent) + [CreatePollCommand(payload)]
      ensures currentPoll == Some(payload) && !showCreatePoll && showResults
      ensures timeLeft == maxTime && newPoll == InitialDraft
    {
      sent := sent + [CreatePollCommand(payload)];
      currentPoll := Some(payload);
      showCreatePoll := false;
      showResults := true;
      timeLeft := maxTime;
      newPoll := InitialDraft;
    }

    /** `createNextPoll`: archives a current poll, then opens the form with the slot and
        the results cleared. */
    method CreateNextPoll(now: int)
      modifies this`pollHistory, this`showCreatePoll, this`showResults, this`currentPoll
      modifies this`pollResults, this`showHistory
      ensures old(currentPoll).None? ==> pollHistory == old(pollHistory)
      ensures old(currentPoll).Some? ==>
                pollHistory == [CompletedPoll(old(currentPoll).value, old(pollResults), now, |students|)] + old(pollHistory)
      ensures showCreatePoll && !showResults && !showHistory
      ensures currentPoll.None? && pollResults == NoResults
    {
      ArchiveCurrent(now);
      showCreatePoll := true;
      showResults := false;
      currentPoll := None;
      pollResults := NoResults;
      showHistory := false;
    }

    /** `kickStudent`: sends the command and drops every listed entry with that id. */
    method KickStudent(studentId: ConnectionId)
      modifies this`sent, this`students
      ensures sent == old(sent) + [KickStudentCommand(studentId)]
      ensures students == WithoutId(old(students), studentId)
    {
      sent := sent + [KickStudentCommand(studentId)];
      students := WithoutId(students, studentId);
    }

    /** The question box. */
    method EditQuestion(question: string)
      requires Valid()
      modifies this`newPoll
      ensures Valid() && newPoll == old(newPoll).(question := question)
    {
      newPoll := newPoll.(question := question);
    }

    /** The timer select (`parseInt` of one of its fixed values). */
    method SelectTimer(maxTime: int)
      requires Valid()
      modifies this`newPoll
      ensures Valid() && newPoll == old(newPoll).(maxTime := maxTime)
    {
      newPoll := newPoll.(maxTime := maxTime);
    }

    method AddOption()
      requires Valid()
      modifies this`newPoll
      ensures Valid() && newPoll == WithOptionAdded(old(newPoll))
    {
      newPoll := WithOptionAdded(newPoll);
    }

    method RemoveOption(index: int)
      requires Valid()
      modifies this`newPoll
      ensures Valid() && newPoll == WithOptionRemoved(old(newPoll), index)
    {
      newPoll := WithOptionRemoved(newPoll, index);
    }

    method UpdateOptionText(index: int, text: string)
      requires Valid()
      modifies this`newPoll
      ensures Valid() && newPoll == WithOptionText(old(newPoll), index, text)
    {
      newPoll := WithOptionText(newPoll, index, text);
    }

    method UpdateOptionCorrectness(index: int, isCorrect: bool)
      requires Valid()
      modifies this`newPoll
      ensures Valid() && newPoll == WithOptionCorrectness(old(newPoll), index, isCorrect)
    {
      newPoll := WithOptionCorrectness(newPoll, index, isCorrect);
    }
  }
}
