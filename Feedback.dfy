/**
 * What the user hears and sees for one response (js/main.js, the body of the
 * recognition "result" handler). The label of the response is appended at
 * once; the message is spoken; for two alternative spellings the follow-up
 * phrase is spoken and the second spelling appended, after a space, once the
 * message's utterance has ended. Only the path where that utterance reaches
 * its end is modelled.
 */
module Feedback {
  import opened Corrections
  import opened Interpreter

  /** The labels appended while the message is being spoken; an empty label is falsy and shown not at all. */
  function ImmediateLabels(r: Response): (labels: seq<string>)
    ensures |labels| <= 1
    ensures labels == [] <==> r.word.NoWord? || r.word == Single("")
    ensures r.word.Pair? ==> labels == [r.word.first]
    ensures r.word.Single? && r.word.spelling != "" ==> labels == [r.word.spelling]
  {
    match r.word
    case NoWord => []
    case Single(w) => if w == "" then [] else [w]
    case Pair(first, _) => [first]
  }

  /** Whether a follow-up is spoken after the message: two spellings and a continuation. */
  predicate HasFollowUp(r: Response)
    ensures HasFollowUp(r) ==> r.word.Pair? && r.continuation.Some?
  {
    r.word.Pair? && r.continuation.Some?
  }

  /** The labels appended once the message has been spoken. */
  function LaterLabels(r: Response): (labels: seq<string>)
    ensures labels != [] <==> HasFollowUp(r)
    ensures HasFollowUp(r) ==> labels == [" " + r.word.second]
  {
    if HasFollowUp(r) then [" " + r.word.second] else []
  }

  /** Everything spoken for the response, in order. */
  function Utterances(r: Response): (spoken: seq<string>)
    ensures 1 <= |spoken| <= 2 && spoken[0] == r.message
    ensures |spoken| == 2 <==> HasFollowUp(r)
    ensures HasFollowUp(r) ==> spoken == [r.message, r.continuation.value]
  {
    if HasFollowUp(r) then [r.message, r.continuation.value] else [r.message]
  }

  /** Everything displayed for the response, in order. */
  function Labels(r: Response): (labels: seq<string>)
    ensures |labels| <= 2
    ensures |labels| == 2 <==> HasFollowUp(r)
    ensures labels != [] ==> !r.word.NoWord?
    ensures r.word.Pair? ==> labels != [] && labels[0] == r.word.first
    ensures HasFollowUp(r) ==> labels == [r.word.first, " " + r.word.second]
    ensures r.word.Single? ==> labels == (if r.word.spelling == "" then [] else [r.word.spelling])
  {
    ImmediateLabels(r) + LaterLabels(r)
  }

  /** A transcript that is not understood is apologised for and shows nothing. */
  lemma NotUnderstoodShowsNothing(transcript: string, index: nat)
    requires index < |DisappointingPhrases|
    requires !InputIsUnderstandable(transcript)
    ensures Labels(HandleTranscript(transcript, index)) == []
    ensures Utterances(HandleTranscript(transcript, index)) == [DisappointingPhrases[index]]
  {
  }

  /** For "au" and "y" both spellings are shown, the second after the follow-up phrase. */
  lemma AmbiguousSoundsShowTwoSpellings(transcript: string, index: nat)
    requires index < |DisappointingPhrases|
    requires InputIsUnderstandable(transcript)
    requires RequestedWord(transcript) in {"au", "y"}
    ensures var r := HandleTranscript(transcript, index);
      Utterances(r) == [r.message, Continuation] &&
      Labels(r) == if RequestedWord(transcript) == "au" then ["au", " ou"] else ["ei", " ij"]
  {
    assert " " + "ou" == " ou" && " " + "ij" == " ij";
  }

  /**
   * Every other understood transcript shows its visual correction once, and
   * shows nothing exactly when the requested word is empty.
   */
  lemma PlainSoundsShowOneSpelling(transcript: string, index: nat)
    requires index < |DisappointingPhrases|
    requires InputIsUnderstandable(transcript)
    requires RequestedWord(transcript) !in {"au", "y"}
    ensures var r := HandleTranscript(transcript, index);
      Utterances(r) == [r.message] &&
      Labels(r) == (if RequestedWord(transcript) == "" then [] else [CorrectVisually(RequestedWord(transcript))])
  {
    var w := RequestedWord(transcript);
    assert CorrectVisually(w) == "" <==> w == "" by {
      if w == "" { assert "" !in VisualCorrections; }
    }
  }

  /** Over every transcript, a follow-up is spoken and shown exactly for "au" and "y". */
  lemma FollowUpExactlyForAmbiguousSounds(transcript: string, index: nat)
    requires index < |DisappointingPhrases|
    ensures HasFollowUp(HandleTranscript(transcript, index)) <==>
              InputIsUnderstandable(transcript) && RequestedWord(transcript) in {"au", "y"}
  {
  }
}
