/**
  The conversation memory: an ordered record of turns, each a speaker and
  the text that speaker contributed.
 */
module Transcript {

  datatype Speaker = User | Assistant

  datatype Turn = Turn(speaker: Speaker, text: string)

  /** The strict alternation the session loop produces: user turns at even
      positions, assistant turns at odd ones. */
  predicate Alternates(turns: seq<Turn>) {
    forall k :: 0 <= k < |turns| ==>
      turns[k].speaker == (if k % 2 == 0 then User else Assistant)
  }
}
