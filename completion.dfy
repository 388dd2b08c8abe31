/**
  The completion heuristic of the interview: after every assistant reply
  the session lowercases the reply and declares the interview complete when
  it mentions both closing phrases of the interview instructions.
 */
module Completion {
  import opened Text

  const AdditionalInformation: string := "additional information"
  const WouldLikeToAdd: string := "would like to add"

  /** `"additional information" in r.lower() and "would like to add" in r.lower()` */
  predicate SignalsCompletion(response: string) {
    var lowered := Lower(response);
    Contains(lowered, AdditionalInformation) && Contains(lowered, WouldLikeToAdd)
  }

  /** The heuristic holds exactly when each phrase occurs somewhere in the
      lowercased reply. */
  lemma SignalsCompletionIff(response: string)
    ensures SignalsCompletion(response) <==>
      (exists i :: OccursAt(Lower(response), AdditionalInformation, i)) &&
      (exists j :: OccursAt(Lower(response), WouldLikeToAdd, j))
  {
    assert SignalsCompletion(response) ==
      (Contains(Lower(response), AdditionalInformation) && Contains(Lower(response), WouldLikeToAdd));
    ContainsIff(Lower(response), AdditionalInformation);
    ContainsIff(Lower(response), WouldLikeToAdd);
  }

  /** The heuristic does not distinguish a reply from its lowercased form. */
  lemma SignalsCompletionIgnoresCase(response: string)
    ensures SignalsCompletion(Lower(response)) == SignalsCompletion(response)
  {
    LowerIdempotent(response);
  }

  /** A reply shorter than either phrase can never signal completion. */
  lemma ShortReplyNeverSignals(response: string)
    requires |response| < |WouldLikeToAdd|
    ensures !SignalsCompletion(response)
  {
    ContainsIff(Lower(response), WouldLikeToAdd);
  }

  /** Both phrases are already in lower case. */
  lemma PhrasesAreLowerCase()
    ensures Lower(AdditionalInformation) == AdditionalInformation
    ensures Lower(WouldLikeToAdd) == WouldLikeToAdd
  {
    assert forall c | c in AdditionalInformation :: !IsUpper(c);
    assert forall c | c in WouldLikeToAdd :: !IsUpper(c);
    LowerUnchanged(AdditionalInformation);
    LowerUnchanged(WouldLikeToAdd);
  }

  /** Any reply that mentions both phrases, in that order, with anything
      before, between and after them, signals completion. */
  lemma EmbeddedPhrasesSignal(before: string, between: string, after: string)
    ensures SignalsCompletion(before + AdditionalInformation + between + WouldLikeToAdd + after)
  {
    var r := before + AdditionalInformation + between + WouldLikeToAdd + after;
    PhrasesAreLowerCase();
    LowerKeepsOccurrences(before, AdditionalInformation, between, WouldLikeToAdd, after);
    SignalsCompletionIff(r);
  }

  /** An ordinary follow-up question is not mistaken for the closing one. */
  lemma IgnoresOrdinaryReply()
    ensures !SignalsCompletion("let's continue")
  {
    ShortReplyNeverSignals("let's continue");
  }
}
