/**
 * The records that travel between the server and the two client views:
 * roster entries, polls, results, chat messages, the server's broadcasts
 * and the commands the clients send.
 */
module Protocol {
  import opened Wrappers
  import opened Tally

  /** A connection id (socket.io's `socket.id`). */
  type ConnectionId = string

  /** A roster entry, keyed by the student's connection id. */
  datatype Student = Student(
    id: ConnectionId,
    name: string,
    hasAnswered: bool,
    answer: Option<string>,
    joinedAt: int)

  /** The create-poll payload as the server reads it. `maxTime` is absent when the
      sender left it out or sent `NaN` (which JSON carries as `null`); `clientId` and
      `clientCreatedAt` are sent by the dashboard and ignored by the server. */
  datatype PollData = PollData(
    question: string,
    options: seq<string>,
    correctAnswer: Option<string>,
    correctAnswers: Option<seq<string>>,
    maxTime: Option<int>,
    clientId: Option<int>,
    clientCreatedAt: Option<int>)

  /** The server's poll object. `correctAnswers` holds `[correctAnswer]` when the payload
      had no list, so an entry may itself be absent. */
  datatype Poll = Poll(
    id: nat,
    question: string,
    options: seq<string>,
    correctAnswer: Option<string>,
    correctAnswers: seq<Option<string>>,
    maxTime: int,
    createdAt: int,
    answers: Tally,
    isActive: bool,
    closedAt: Option<int>)

  /** What `calculateResults` returns. */
  datatype Results = Results(answers: Tally, totalResponses: nat, poll: Option<Poll>)

  const NoResults := Results([], 0, None)

  datatype MessageData = MessageData(sender: string, senderType: string, message: string)

  datatype ChatMessage = ChatMessage(id: nat, sender: string, senderType: string, message: string, timestamp: int)

  /** Who receives an emission: every connection, a socket.io room, or one connection. */
  datatype Audience = Everyone | TeacherRoom | StudentsRoom | Connection(id: ConnectionId)

  /** The server's outgoing events. */
  datatype Event =
    | CurrentPoll(current: Option<Poll>)
    | NewPoll(poll: Poll, remainingTime: Option<int>)
    | TimerUpdate(remaining: int)
    | PollResults(results: Results)
    | PollClosed(results: Results)
    | PollEnded
    | PollHistory(history: seq<Poll>)
    | StudentsList(students: seq<Student>)
    | StudentJoined(student: Student)
    | StudentLeft(studentId: ConnectionId)
    | StudentConnected(success: bool, name: string)
    | Kicked
    | NewMessage(message: ChatMessage)
    | ChatHistory(messages: seq<ChatMessage>)

  datatype Emission = Emission(to: Audience, event: Event)

  /** The commands a client view sends to the server. */
  datatype Command =
    | CreatePollCommand(data: PollData)
    | SubmitAnswerCommand(answer: string)
    | KickStudentCommand(studentId: ConnectionId)
}
