/**
  The Meeting Minutes compiler: the conversation memory is flattened into a
  question/answer transcript, pairing turn 2k (the question) with turn 2k+1
  (the answer) and dropping a trailing unpaired turn, and that transcript is
  handed to the minutes backend as its only input.
 */
module Minutes {
  import opened Transcript

  /** One formatted pair: `f"Q: {question}\nA: {answer}\n\n"`. */
  function Block(question: string, answer: string): string {
    "Q: " + question + "\nA: " + answer + "\n\n"
  }

  /** Reference definition of the formatted transcript: the first pair's
      block followed by the transcript of the remaining turns. */
  function TranscriptText(history: seq<Turn>): string
    decreases |history|
  {
    if |history| < 2 then "" else Block(history[0].text, history[1].text) + TranscriptText(history[2..])
  }

  /** The block of every complete pair, in order of position. */
  function Blocks(history: seq<Turn>): seq<string> {
    seq(|history| / 2, k requires 0 <= k < |history| / 2 => Block(history[2 * k].text, history[2 * k + 1].text))
  }

  function Concat(parts: seq<string>): string {
    if parts == [] then "" else parts[0] + Concat(parts[1..])
  }

  /** The formatting loop of the minutes generator: walks the history in
      steps of two and appends a block whenever a partner turn exists. */
  method FormatTranscript(history: seq<Turn>) returns (interviewHistory: string)
    ensures interviewHistory == TranscriptText(history)
  {
    interviewHistory := "";
    var i := 0;
    while i < |history|
      invariant 0 <= i <= |history| + 1 && i % 2 == 0
      invariant interviewHistory == TranscriptText(history[..if i <= |history| then i else |history|])
    {
      FormatStep(history, i);
      if i + 1 < |history| {
        var question := history[i].text;
        var answer := history[i + 1].text;
        interviewHistory := interviewHistory + Block(question, answer);
      }
      i := i + 2;
    }
    assert history[..|history|] == history;
  }

  /** One iteration of the formatting loop at an even position `i`: a full
      pair adds its block, a trailing unpaired turn adds nothing. */
  lemma FormatStep(history: seq<Turn>, i: int)
    requires 0 <= i < |history| && i % 2 == 0
    ensures i + 1 < |history| ==>
      TranscriptText(history[..i + 2]) == TranscriptText(history[..i]) + Block(history[i].text, history[i + 1].text)
    ensures i + 1 == |history| ==> TranscriptText(history[..i + 1]) == TranscriptText(history[..i])
  {
    var done := history[..i];
    if i + 1 < |history| {
      var extended := history[..i + 2];
      assert extended == done + [history[i], history[i + 1]];
      AppendPair(done, history[i], history[i + 1]);
    } else {
      assert history[..i + 1] == history;
      OddDropsLast(history);
    }
  }

  /** `generate_mom`: the minutes are whatever the backend makes of the
      formatted transcript of the whole memory; `sent` is the text the
      backend was applied to. */
  method GenerateMinutes(history: seq<Turn>, backend: string -> string) returns (minutes: string, ghost sent: string)
    ensures minutes == backend(TranscriptText(history))
    ensures sent == TranscriptText(history) && minutes == backend(sent)
  {
    var interviewHistory := FormatTranscript(history);
    minutes := backend(interviewHistory);
    sent := interviewHistory;
  }

  /** Exactly |history| / 2 blocks are emitted, block k built from turns 2k
      and 2k+1, in ascending k. */
  lemma {:induction false} TranscriptIsBlocks(history: seq<Turn>)
    ensures |Blocks(history)| == |history| / 2
    ensures TranscriptText(history) == Concat(Blocks(history))
    decreases |history|
  {
    if |history| >= 2 {
      TranscriptIsBlocks(history[2..]);
      var b, rest := Blocks(history), Blocks(history[2..]);
      assert b == [Block(history[0].text, history[1].text)] + rest by {
        forall k | 0 <= k < |rest| ensures b[k + 1] == rest[k] {
          assert history[2..][2 * k] == history[2 * (k + 1)];
        }
      }
      assert b[1..] == rest;
    }
  }

  /** The transcript is empty exactly when there is no complete pair. */
  lemma TranscriptEmptyIff(history: seq<Turn>)
    ensures TranscriptText(history) == "" <==> |history| < 2
  {
    if |history| >= 2 {
      assert |TranscriptText(history)| >= |Block(history[0].text, history[1].text)|;
    }
  }

  /** A trailing unpaired turn is dropped. */
  lemma {:induction false} OddDropsLast(history: seq<Turn>)
    requires |history| % 2 == 1
    ensures TranscriptText(history) == TranscriptText(history[..|history| - 1])
    decreases |history|
  {
    if |history| >= 3 {
      OddDropsLast(history[2..]);
      assert history[2..][..|history| - 3] == history[..|history| - 1][2..];
    }
  }

  /** Two more turns after a complete set of pairs add exactly one block at
      the end. */
  lemma {:induction false} AppendPair(history: seq<Turn>, question: Turn, answer: Turn)
    requires |history| % 2 == 0
    ensures TranscriptText(history + [question, answer]) ==
      TranscriptText(history) + Block(question.text, answer.text)
    decreases |history|
  {
    var extended := history + [question, answer];
    if |history| == 0 {
      assert extended[2..] == [];
    } else {
      var rest := history[2..];
      assert extended[0] == history[0] && extended[1] == history[1];
      assert extended[2..] == rest + [question, answer];
      AppendPair(rest, question, answer);
    }
  }

  /** A longer conversation never rewrites what an earlier one formatted:
      the transcript of a prefix is a prefix of the transcript. */
  lemma {:induction false} PrefixMonotone(history: seq<Turn>, longer: seq<Turn>)
    requires history <= longer
    ensures TranscriptText(history) <= TranscriptText(longer)
    decreases |history|
  {
    if |history| >= 2 {
      assert longer[0] == history[0] && longer[1] == history[1];
      PrefixMonotone(history[2..], longer[2..]);
    }
  }

  /** Five turns give the first two pairs and drop the fifth. */
  lemma FiveTurnsGiveTwoPairs(u1: Turn, a1: Turn, u2: Turn, a2: Turn, u3: Turn)
    ensures TranscriptText([u1, a1, u2, a2, u3]) == Block(u1.text, a1.text) + Block(u2.text, a2.text)
  {
    var h := [u1, a1, u2, a2, u3];
    assert h[2..] == [u2, a2, u3];
    assert h[2..][2..] == [u3];
    assert TranscriptText(h[2..]) == Block(u2.text, a2.text) + TranscriptText([u3]);
    assert TranscriptText(h) == Block(u1.text, a1.text) + TranscriptText(h[2..]);
  }
}
