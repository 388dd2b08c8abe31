# Atria-MoM: the interview session and the minutes formatter

Atria-MoM is a console chatbot. It interviews a user about a meeting and
then turns the interview into Meeting Minutes (MoM). Both the interviewer and
the minutes writer are large-language-model backends behind a chat library.
This project models the program logic that sits around those backends in
`app.py`, and proves properties of it.

- **Session loop** (`main`, module `Session`). A `ChatSession` object holds
  three things: the conversation memory as a transcript of alternating
  user/assistant turns, the `interview_completed` flag, and whether the loop
  is still running.
  - `Step` is one iteration of `while True`. It trims and lowercases the
    line. On `quit` it ends the loop. Otherwise it sends the line to the
    interview backend and appends the user turn and the reply. It then
    updates the completion flag from the reply, and only after that does it
    look at `generate mom`.
  - `RunSession` drives `Step` over a finite sequence of input lines.
  - Both backends are function-valued parameters. Ghost logs record each
    call made to them, so the model can state when a backend is called and
    with what.
- **Completion heuristic** (module `Completion`). The interview counts as
  complete when the lowercased reply contains both "additional information"
  and "would like to add".
- **Minutes formatter** (`generate_mom`, module `Minutes`).
  - `FormatTranscript` is the loop that walks the memory in steps of two.
    It emits `Q: <question>\nA: <answer>\n\n` for every complete pair and
    drops a trailing unpaired message. It is proved equal to the recursive
    reference definition `TranscriptText`.
  - `GenerateMinutes` hands the formatted text to the minutes backend.
- **Text operations** (module `Text`): ASCII `lower()`, `strip()` over the
  ASCII characters for which `isspace()` holds, and substring containment.
- Module `Transcript` holds the turn datatype that the other modules share.

In the code, `generate mom` is matched only after the input has been sent
to the interview backend and recorded in memory (`app.py:162` comes before
`app.py:173`). The model follows the code, with two consequences:
- `generate mom` typed before completion adds an exchange to the transcript
  and makes an interview call; it is not a no-op;
- a reply to `generate mom` that carries the closing phrases unlocks the
  minutes in that same iteration.

## Model

| member | source | states |
|---|---|---|
| Minutes.FormatTranscript | app.py:136-141 | the loop's accumulated text equals the reference transcript `TranscriptText` of the whole history |
| Minutes.FormatStep | app.py:137-141 | one loop step at an even index appends the block of the pair `(i, i+1)` when the partner exists, and appends nothing for a trailing unpaired message |
| Minutes.GenerateMinutes | app.py:131-146 | the backend is applied to the formatted transcript of the whole memory (returned as the ghost `sent`, which the session's minutes log records), and the minutes are its output on that text |
| Minutes.TranscriptIsBlocks | app.py:137-141 | exactly `|history| / 2` blocks are emitted; block k is built from message 2k as Q and message 2k+1 as A; they appear in ascending k |
| Minutes.TranscriptEmptyIff | app.py:136-138 | the formatted text is empty if and only if the history has fewer than two messages |
| Minutes.OddDropsLast | app.py:137-138 | a history of odd length formats the same as that history without its last message |
| Minutes.AppendPair | app.py:137-141 | appending two messages to a complete set of pairs extends the output by exactly the block `"Q: "+q+"\nA: "+a+"\n\n"` |
| Minutes.PrefixMonotone | app.py:137-141 | the formatted text of a prefix of the history is a prefix of the formatted text of the history |
| Minutes.FiveTurnsGiveTwoPairs | app.py:137-141 | five messages give the blocks of the first two pairs; the fifth message is dropped |
| Completion.SignalsCompletionIff | app.py:166-170 | the completion test holds if and only if both phrases occur at some index of the lowercased reply |
| Completion.SignalsCompletionIgnoresCase | app.py:167 | the test gives the same answer on a reply and on its lowercased form |
| Completion.ShortReplyNeverSignals | app.py:168-169 | a reply shorter than "would like to add" never completes the interview |
| Completion.PhrasesAreLowerCase | app.py:168-169 | both phrases are their own lowercase form, so lowering the reply cannot hide them |
| Completion.EmbeddedPhrasesSignal | app.py:168-169 | any reply that contains "additional information" followed later by "would like to add", with arbitrary text around them, completes the interview |
| Completion.IgnoresOrdinaryReply | app.py:168-169 | an ordinary reply ("let's continue") does not complete the interview |
| Text.LowerChar | app.py:156 | a character is changed exactly when it is an ASCII capital, which becomes the small letter at the same alphabet position; the result is never a capital |
| Text.LowerIdempotent | app.py:156 | lowercasing twice is the same as lowercasing once |
| Text.LowerAppend | app.py:167 | lowercasing distributes over concatenation |
| Text.LowerUnchanged | app.py:167 | a string without capitals is its own lowercase form |
| Text.LowerKeepsOccurrences | app.py:167-169 | lowercase words embedded in a text occur at the same indices in the lowercased text |
| Text.TrimLeftSpec | app.py:156 | left trimming yields the suffix that remains after a whitespace-only prefix; that suffix is empty or does not start with whitespace |
| Text.TrimRightSpec | app.py:156 | right trimming yields the prefix that remains before a whitespace-only suffix; that prefix is empty or does not end with whitespace |
| Text.StripIsTrimmedSlice | app.py:156 | `strip()` is a contiguous slice with whitespace only on either side, and it neither starts nor ends with whitespace |
| Text.StripUnchanged | app.py:156 | a string that neither starts nor ends with whitespace is its own strip |
| Text.NormalizeIsNormal | app.py:156 | a normalised line has no surrounding whitespace and no capital letter |
| Text.NormalizeIdempotent | app.py:156 | normalising an already normalised line changes nothing |
| Text.NormalizeQuitVariant | app.py:156-158 | `" QUIT\n"` normalises to `quit`, so it ends the session |
| Text.ContainsIff | app.py:168-169 | `sub in s` holds if and only if there is an index at which `s` holds `sub` |
| Session.ChatSession.constructor | app.py:149-150 | a new session is running, with an empty memory, `interview_completed` false and no backend calls made |
| Session.ChatSession.Step | app.py:155-182 | with both backends taken as total (see "Left out"): `quit` ends the loop and changes nothing else; any other line makes one interview call on the old memory and the normalised line, appends that user turn and the reply, sets the flag to old flag or signal, never clears it, and calls the minutes backend on the formatted transcript exactly when the line is `generate mom` and the flag is now set; the invariant is kept |
| Session.RunSession | app.py:148-182 | lines are answered up to the first `quit`; N answered lines give 2N turns, turn 2j the normalised line j and turn 2j+1 the backend's reply to it after the history before it; the flag holds exactly when some reply signalled completion; the documents are exactly `MinutesRecord` of the transcript |
| Session.NoMinutesBeforeCompletion | app.py:173-181 | no minutes are produced while no reply has signalled completion, however often `generate mom` is typed |
| Session.CompletedAnywhere | app.py:162-170 | in an alternating transcript, a completing turn anywhere is a completing assistant reply at some odd position |
| Session.ExchangeKeepsCompletion | app.py:166-170 | after an exchange, the flag (old flag or the reply signals) matches "some turn completes the interview" |
| Session.ExchangeKeepsCalls | app.py:162 | after an exchange, the interview-call log still pairs call j with the history before exchange j and with that exchange's user text |
| Session.ExchangeKeepsConsistent | app.py:155-182 | one exchange preserves the session invariant: alternating turns, a faithful flag, the call log and no minutes call before completion |
| Session.AnswerExtends | app.py:156-163 | one more answered line extends the record that every line was answered, in order, by the backend's reply to that line's history |
| Session.MinutesRecordExtends | app.py:173-179 | unfolds one step of the reference definition `MinutesRecord` (one exchange adds the document of a `generate mom` exchange completed by then, or nothing) for a transcript given as a prefix plus two turns; a proof helper for `RunSession` |
| Session.AnsweredLineExtends | app.py:155-182 | an answered line extends both the in-order answer record and the minutes record |

In more detail, `Session.ChatSession.Step` states:
- The completion flag never goes from true to false.
- A line that normalises to `quit` ends the loop (`Ended`). Nothing else
  changes: the memory, the flag and both call logs.
- Any other line, `generate mom` included:
  - makes exactly one interview call, on the previous memory and the
    normalised line;
  - appends exactly the user turn and the reply;
  - sets the flag to the old flag or whether the reply signals completion.
- A minutes call on the formatted transcript happens exactly when the line
  is `generate mom` and the flag is set after this iteration's check.
  Otherwise that request is refused, or it was not a request.
- The session invariant is kept.

And `Session.RunSession` states:
- The loop answers lines until the first line that normalises to `quit`,
  or until no lines remain.
- It returns 2N turns for N answered lines. Turn 2j is the normalised line
  j. Turn 2j+1 is the backend's reply to line j after the history before it.
- The flag is set exactly when some reply signalled completion.
- The documents are exactly `MinutesRecord` of the transcript.

## Left out

- The chat library and the OpenAI service (`ChatOpenAI`, `ConversationChain.predict`, `LLMChain.run`, `create_chat`, `create_mom_chain`, app.py:82-129, 145, 162). They are foreign, network-backed calls. The model takes them as the function parameters `interview` and `minutes`: the model's reply is a function of the history and the new text, and its document a function of the formatted transcript. The real chains sample at `temperature=0.7` (app.py:86, 113) and are not deterministic, but this does not over-constrain them: within one session every interview call receives a strictly longer history, and every minutes call a strictly longer transcript (each exchange adds a non-empty block), so no two calls of a run share an input and every real run is produced by some choice of the two functions.
- Session.ChatSession.Step, Minutes.GenerateMinutes: backend failures are not modelled. The interview call (app.py:162) and the minutes call (app.py:145) can raise on a network or service error; `main` (app.py:148-182) catches nothing, so such an error ends the program. A failed interview call leaves nothing in memory for that line, because memory is written only after the call returns; the model's `Step` instead appends two turns for every non-`quit` line. A failed minutes call comes after the `generate mom` exchange has been recorded, its reply shown and the flag updated; the program then ends where the model's `Step` returns `Generated`. The model treats both backends as total functions.
- The ghost call logs are appended next to each backend call in `Step`; the minutes log records the text `GenerateMinutes` reports it applied the backend to, but the interview log is kept by the same convention and is not derived from the call itself.
- The prompt texts `INTERVIEW_PROMPT` and `MOM_PROMPT` (app.py:17-80). They are configuration text with no logic; the backends' parameters stand for them.
- `load_dotenv`, the `temperature` and model-name settings. They are environment and service configuration.
- Console I/O: the banners, the `print` calls and the `Bot:` echo (app.py:152-181). `Step` returns an `Outcome` instead, which says what would be shown: the reply, whether the interview was just completed, and what became of a minutes request.
- The `input()` call. `RunSession` reads a finite sequence of lines, and the loop also stops when no lines remain, where the program would instead wait for more input or fail on end of input.
- `Text.Lower`, `Text.Strip`: Python's Unicode `str.lower()` and `str.strip()` are modelled on ASCII only. Lowercasing maps `A`-`Z` and nothing else. Trimming removes the ASCII characters for which `isspace()` holds (9-13, 28-31 and space) and no Unicode spaces.
- The chat memory's message objects. Each message is modelled as its speaker and its text content.
