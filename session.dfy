/**
  The interactive session loop. Every line the user types is trimmed and
  lowercased; `quit` ends the session; anything else, `generate mom`
  included, is sent to the interview backend and recorded as a user turn
  followed by the assistant's reply. The completion flag is updated from that
  reply before the `generate mom` command is looked at, so a reply to
  `generate mom` that carries the closing phrases unlocks the minutes in the
  same iteration.

  Both backends are parameters: `interview` maps the history and the new user
  text to the reply, `minutes` maps the formatted transcript to the document.
  Ghost logs record every call made to them.
 */
module Session {
  import opened Text
  import opened Transcript
  import opened Completion
  import opened Minutes

  const QuitCommand: string := "quit"
  const GenerateCommand: string := "generate mom"

  /** What became of a `generate mom` request in one iteration. */
  datatype MinutesRequest = NotRequested | Refused | Generated(document: string)

  /** What one iteration shows the user. */
  datatype Outcome =
    | Ended
    | Replied(reply: string, justCompleted: bool, request: MinutesRequest)

  /** An assistant turn that carries the closing phrases. */
  predicate CompletesInterview(turn: Turn) {
    turn.speaker == Assistant && SignalsCompletion(turn.text)
  }

  /** Some assistant reply of the transcript's exchanges signalled completion. */
  predicate CompletedWithin(turns: seq<Turn>) {
    exists j :: 0 <= j < |turns| / 2 && CompletesInterview(turns[2 * j + 1])
  }

  /** Reference definition of the minutes produced over the exchanges of a
      transcript: one document per `generate mom` exchange after which the
      interview counted as complete, made from the transcript up to and
      including that exchange. */
  function MinutesRecord(turns: seq<Turn>, minutes: string -> string): seq<string>
    requires |turns| % 2 == 0
  {
    if turns == [] then []
    else
      MinutesRecord(turns[..|turns| - 2], minutes) +
      (if turns[|turns| - 2].text == GenerateCommand && CompletedWithin(turns)
       then [minutes(TranscriptText(turns))] else [])
  }

  /** No minutes are produced while no reply has signalled completion,
      however often `generate mom` is typed. */
  lemma {:induction false} NoMinutesBeforeCompletion(turns: seq<Turn>, minutes: string -> string)
    requires |turns| % 2 == 0 && !CompletedWithin(turns)
    ensures MinutesRecord(turns, minutes) == []
  {
    if turns != [] {
      var shorter := turns[..|turns| - 2];
      forall j | 0 <= j < |shorter| / 2 ensures !CompletesInterview(shorter[2 * j + 1]) {
        assert shorter[2 * j + 1] == turns[2 * j + 1];
      }
      NoMinutesBeforeCompletion(shorter, minutes);
    }
  }

  /** In an alternating transcript only assistant turns can complete the
      interview, so completion anywhere is completion at some odd position. */
  lemma CompletedAnywhere(turns: seq<Turn>)
    requires |turns| % 2 == 0 && Alternates(turns)
    ensures (exists k :: 0 <= k < |turns| && CompletesInterview(turns[k])) <==> CompletedWithin(turns)
  {
    if exists k :: 0 <= k < |turns| && CompletesInterview(turns[k]) {
      var k :| 0 <= k < |turns| && CompletesInterview(turns[k]);
      assert k % 2 == 1;
      assert turns[2 * (k / 2) + 1] == turns[k];
    }
    if CompletedWithin(turns) {
      var j :| 0 <= j < |turns| / 2 && CompletesInterview(turns[2 * j + 1]);
      assert 0 <= 2 * j + 1 < |turns|;
    }
  }

  /** The invariant of a session's state: the transcript alternates user
      and assistant turns, records the
      completion flag faithfully, and every interview call received exactly
      the history before its exchange and that exchange's user text; no
      minutes call happens before completion. */
  ghost predicate Consistent(
    turns: seq<Turn>, completed: bool,
    interviewCalls: seq<(seq<Turn>, string)>, minutesCalls: seq<string>)
  {
    && |turns| % 2 == 0
    && Alternates(turns)
    && (completed <==> exists k :: 0 <= k < |turns| && CompletesInterview(turns[k]))
    && |interviewCalls| == |turns| / 2
    && (forall j :: 0 <= j < |interviewCalls| ==> interviewCalls[j] == (turns[..2 * j], turns[2 * j].text))
    && (!completed ==> minutesCalls == [])
  }

  lemma ExchangeKeepsCompletion(turns: seq<Turn>, completed: bool, input: string, reply: string)
    requires completed <==> exists k :: 0 <= k < |turns| && CompletesInterview(turns[k])
    ensures var longer := turns + [Turn(User, input), Turn(Assistant, reply)];
      (completed || SignalsCompletion(reply)) <==>
        exists k :: 0 <= k < |longer| && CompletesInterview(longer[k])
  {
    var longer := turns + [Turn(User, input), Turn(Assistant, reply)];
    if completed {
      var k :| 0 <= k < |turns| && CompletesInterview(turns[k]);
      assert longer[k] == turns[k];
    } else if SignalsCompletion(reply) {
      assert CompletesInterview(longer[|turns| + 1]);
    } else {
      forall k | 0 <= k < |longer| ensures !CompletesInterview(longer[k]) {
        if k < |turns| {
          assert longer[k] == turns[k];
        }
      }
    }
  }

  lemma ExchangeKeepsCalls(turns: seq<Turn>, interviewCalls: seq<(seq<Turn>, string)>, input: string, reply: string)
    requires |turns| % 2 == 0 && |interviewCalls| == |turns| / 2
    requires forall j :: 0 <= j < |interviewCalls| ==> interviewCalls[j] == (turns[..2 * j], turns[2 * j].text)
    ensures var longer := turns + [Turn(User, input), Turn(Assistant, reply)];
      var calls := interviewCalls + [(turns, input)];
      && |calls| == |longer| / 2
      && forall j :: 0 <= j < |calls| ==> calls[j] == (longer[..2 * j], longer[2 * j].text)
  {
    var longer := turns + [Turn(User, input), Turn(Assistant, reply)];
    var calls := interviewCalls + [(turns, input)];
    forall j | 0 <= j < |calls| ensures calls[j] == (longer[..2 * j], longer[2 * j].text) {
      if j < |interviewCalls| {
        assert longer[..2 * j] == turns[..2 * j];
        assert longer[2 * j] == turns[2 * j];
      } else {
        assert longer[..2 * j] == turns;
      }
    }
  }

  /** One exchange keeps the invariant. */
  lemma ExchangeKeepsConsistent(
    turns: seq<Turn>, completed: bool,
    interviewCalls: seq<(seq<Turn>, string)>, minutesCalls: seq<string>,
    input: string, reply: string,
    newTurns: seq<Turn>, newCompleted: bool,
    newInterviewCalls: seq<(seq<Turn>, string)>, newMinutesCalls: seq<string>)
    requires Consistent(turns, completed, interviewCalls, minutesCalls)
    requires newTurns == turns + [Turn(User, input), Turn(Assistant, reply)]
    requires newCompleted == (completed || SignalsCompletion(reply))
    requires newInterviewCalls == interviewCalls + [(turns, input)]
    requires !newCompleted ==> newMinutesCalls == []
    ensures Consistent(newTurns, newCompleted, newInterviewCalls, newMinutesCalls)
  {
    var longer := turns + [Turn(User, input), Turn(Assistant, reply)];
    ExchangeKeepsCompletion(turns, completed, input, reply);
    ExchangeKeepsCalls(turns, interviewCalls, input, reply);
    assert forall k :: 0 <= k < |turns| ==> longer[k] == turns[k];
  }

  class ChatSession {
    var transcript: seq<Turn>
    var interviewCompleted: bool
    var active: bool
    ghost var interviewCalls: seq<(seq<Turn>, string)>
    ghost var minutesCalls: seq<string>

    ghost predicate Valid()
      reads this
    {
      Consistent(transcript, interviewCompleted, interviewCalls, minutesCalls)
    }

    /** `create_chat()` followed by `interview_completed = False`. */
    constructor ()
      ensures Valid() && active
      ensures transcript == [] && !interviewCompleted
      ensures interviewCalls == [] && minutesCalls == []
    {
      transcript := [];
      interviewCompleted := false;
      active := true;
      interviewCalls := [];
      minutesCalls := [];
    }

    /** One iteration of the `while True` loop, on the raw line `line`. */
    method Step(line: string, interview: (seq<Turn>, string) -> string, minutes: string -> string)
      returns (outcome: Outcome)
      requires Valid() && active
      modifies this
      ensures Valid()
      ensures old(interviewCompleted) ==> interviewCompleted
      ensures Normalize(line) == QuitCommand ==>
        && outcome == Ended && !active
        && transcript == old(transcript) && interviewCompleted == old(interviewCompleted)
        && interviewCalls == old(interviewCalls) && minutesCalls == old(minutesCalls)
      ensures Normalize(line) != QuitCommand ==>
        var input := Normalize(line);
        var reply := interview(old(transcript), input);
        && active
        && transcript == old(transcript) + [Turn(User, input), Turn(Assistant, reply)]
        && interviewCalls == old(interviewCalls) + [(old(transcript), input)]
        && interviewCompleted == (old(interviewCompleted) || SignalsCompletion(reply))
        && outcome == Replied(reply, interviewCompleted && !old(interviewCompleted),
             if input != GenerateCommand then NotRequested
             else if interviewCompleted then Generated(minutes(TranscriptText(transcript)))
             else Refused)
        && minutesCalls == old(minutesCalls) +
             (if input == GenerateCommand && interviewCompleted then [TranscriptText(transcript)] else [])
    {
      var input := Normalize(line);
      if input == QuitCommand {
        active := false;
        outcome := Ended;
        return;
      }
      var response := interview(transcript, input);
      transcript := transcript + [Turn(User, input), Turn(Assistant, response)];
      interviewCalls := interviewCalls + [(old(transcript), input)];

      var justCompleted := false;
      if !interviewCompleted {
        if SignalsCompletion(response) {
          interviewCompleted := true;
          justCompleted := true;
        }
      }

      var request := NotRequested;
      if input == GenerateCommand {
        if interviewCompleted {
          ghost var sent;
          var document;
          document, sent := GenerateMinutes(transcript, minutes);
          minutesCalls := minutesCalls + [sent];
          request := Generated(document);
        } else {
          request := Refused;
        }
      }
      outcome := Replied(response, justCompleted, request);

      ExchangeKeepsConsistent(old(transcript), old(interviewCompleted), old(interviewCalls), old(minutesCalls),
        input, response, transcript, interviewCompleted, interviewCalls, minutesCalls);
    }
  }

  /** The first |turns| / 2 lines were all answered, in order: each gave a
      user turn holding its normalised text and an assistant turn holding the
      interview backend's reply to that text after the history before it. */
  ghost predicate AnsweredInOrder(lines: seq<string>, turns: seq<Turn>, interview: (seq<Turn>, string) -> string)
    requires |turns| % 2 == 0 && |turns| / 2 <= |lines|
  {
    forall j :: 0 <= j < |turns| / 2 ==>
      && Normalize(lines[j]) != QuitCommand
      && turns[2 * j] == Turn(User, Normalize(lines[j]))
      && turns[2 * j + 1] == Turn(Assistant, interview(turns[..2 * j], Normalize(lines[j])))
  }

  lemma AnswerExtends(lines: seq<string>, turns: seq<Turn>, interview: (seq<Turn>, string) -> string, longer: seq<Turn>)
    requires |turns| % 2 == 0 && |turns| / 2 < |lines|
    requires AnsweredInOrder(lines, turns, interview)
    requires Normalize(lines[|turns| / 2]) != QuitCommand
    requires longer == turns + [Turn(User, Normalize(lines[|turns| / 2])),
                                Turn(Assistant, interview(turns, Normalize(lines[|turns| / 2])))]
    ensures AnsweredInOrder(lines, longer, interview)
  {
    forall j | 0 <= j < |longer| / 2
      ensures longer[2 * j] == Turn(User, Normalize(lines[j]))
      ensures longer[2 * j + 1] == Turn(Assistant, interview(longer[..2 * j], Normalize(lines[j])))
    {
      if j < |turns| / 2 {
        assert longer[..2 * j] == turns[..2 * j];
      } else {
        assert longer[..2 * j] == turns;
      }
    }
  }

  /** One more exchange adds at most the minutes of that exchange. */
  lemma MinutesRecordExtends(turns: seq<Turn>, longer: seq<Turn>, minutes: string -> string)
    requires |turns| % 2 == 0 && |longer| == |turns| + 2 && turns <= longer
    ensures MinutesRecord(longer, minutes) ==
      MinutesRecord(turns, minutes) +
      (if longer[|turns|].text == GenerateCommand && CompletedWithin(longer)
       then [minutes(TranscriptText(longer))] else [])
  {
    assert longer[..|longer| - 2] == turns;
  }

  /** What one answered line contributes to the session's record. */
  lemma AnsweredLineExtends(
    lines: seq<string>, before: seq<Turn>, input: string, reply: string, after: seq<Turn>,
    completed: bool, request: MinutesRequest, documents: seq<string>, newDocuments: seq<string>,
    interview: (seq<Turn>, string) -> string, minutes: string -> string)
    requires |before| % 2 == 0 && |before| / 2 < |lines|
    requires AnsweredInOrder(lines, before, interview)
    requires documents == MinutesRecord(before, minutes)
    requires input == Normalize(lines[|before| / 2]) && input != QuitCommand
    requires reply == interview(before, input)
    requires after == before + [Turn(User, input), Turn(Assistant, reply)]
    requires Alternates(after)
    requires completed <==> exists k :: 0 <= k < |after| && CompletesInterview(after[k])
    requires request ==
      if input != GenerateCommand then NotRequested
      else if completed then Generated(minutes(TranscriptText(after)))
      else Refused
    requires newDocuments == documents + (if request.Generated? then [request.document] else [])
    ensures AnsweredInOrder(lines, after, interview)
    ensures newDocuments == MinutesRecord(after, minutes)
  {
    AnswerExtends(lines, before, interview, after);
    MinutesRecordExtends(before, after, minutes);
    CompletedAnywhere(after);
  }

  /** `main()` over a finite sequence of input lines: the loop runs until a
      line normalises to `quit` or no lines remain. Returns the final
      transcript and flag, how many lines were answered, and every minutes
      document produced, in order. */
  method RunSession(lines: seq<string>, interview: (seq<Turn>, string) -> string, minutes: string -> string)
    returns (transcript: seq<Turn>, completed: bool, answered: nat, documents: seq<string>)
    ensures answered <= |lines|
    ensures forall j :: 0 <= j < answered ==> Normalize(lines[j]) != QuitCommand
    ensures answered < |lines| ==> Normalize(lines[answered]) == QuitCommand
    ensures |transcript| == 2 * answered
    ensures forall j :: 0 <= j < answered ==>
      && transcript[2 * j] == Turn(User, Normalize(lines[j]))
      && transcript[2 * j + 1] == Turn(Assistant, interview(transcript[..2 * j], Normalize(lines[j])))
    ensures completed <==> CompletedWithin(transcript)
    ensures documents == MinutesRecord(transcript, minutes)
  {
    var session := new ChatSession();
    var i := 0;
    documents := [];
    while i < |lines|
      invariant session.Valid() && session.active
      invariant 0 <= i <= |lines| && |session.transcript| == 2 * i
      invariant AnsweredInOrder(lines, session.transcript, interview)
      invariant documents == MinutesRecord(session.transcript, minutes)
    {
      ghost var before := session.transcript;
      ghost var oldDocuments := documents;
      var outcome := session.Step(lines[i], interview, minutes);
      if outcome == Ended {
        break;
      }
      if outcome.request.Generated? {
        documents := documents + [outcome.request.document];
      }
      AnsweredLineExtends(lines, before, Normalize(lines[i]), outcome.reply, session.transcript,
        session.interviewCompleted, outcome.request, oldDocuments, documents, interview, minutes);
      i := i + 1;
    }
    CompletedAnywhere(session.transcript);
    transcript := session.transcript;
    completed := session.interviewCompleted;
    answered := i;
  }
}
