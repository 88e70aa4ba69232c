/**
 * The request/response interpreter of the letter speller (js/main.js,
 * inputIsUnderstandable, getSuccessfulAudioResponse,
 * getDisappointingAudioResponse and the choice between them in the
 * recognition "result" handler).
 *
 * A transcript such as "Hoe schrijf je de a" ("How do you write the a") is
 * answered with a sentence to speak and a label to display.
 */
module Interpreter {
  import opened Wrappers
  import opened Corrections

  /** The question every understood transcript starts with. */
  const Question: string := "Hoe schrijf je"
  /** The short request form, 15 characters. */
  const ShortRequest: string := Question + " "
  /** The long request form ("... de "), 18 characters. */
  const LongRequest: string := ShortRequest + "de "
  /** Spoken after the first of two alternative spellings. */
  const Continuation: string := "Óf zo:"
  /** Closes every successful announcement: `"<word>" schrijf je zo:`. */
  const Announcement: string := "\" schrijf je zo:"

  /** What the displayed part of a response holds. */
  datatype Word =
    | NoWord                                 // `word` left undefined
    | Single(spelling: string)               // one spelling
    | Pair(first: string, second: string)    // two alternative spellings

  /** A response: the sentence to speak, the label(s), an optional follow-up. */
  datatype Response = Response(message: string, word: Word, continuation: Option<string>)

  /** The eight fixed apologies spoken when a transcript is not understood. */
  const DisappointingPhrases: seq<string> := [
    "Ik heb je niet helemaal begrepen.",
    "Kun je het iets duidelijker zeggen?",
    "Sorry, die vraag begrijp ik niet.",
    "Ik heb het niet goed gehoord. Wil je het nog eens proberen?",
    "Kun je iets langzamer praten?",
    "Ik snap niet wat je bedoeld.",
    "Sorry, dat snap ik niet helemaal.",
    "Probeer het nog eens."
  ]

  /** A transcript is understood when it starts with the question; no space need follow. */
  predicate InputIsUnderstandable(response: string)
    ensures InputIsUnderstandable(response) <==> response == Question + Substr(response, |Question|)
  {
    Question <= response
  }

  /** JavaScript's one-argument `String.prototype.substr` for a non-negative start. */
  function Substr(s: string, start: nat): (r: string)
    ensures start <= |s| ==> s == s[..start] + r
    ensures |s| <= start ==> r == ""
    ensures |r| == if start <= |s| then |s| - start else 0
  {
    if start <= |s| then s[start..] else ""
  }

  /** Whether the transcript carries the long prefix "Hoe schrijf je de ". */
  predicate IsLongRequest(response: string)
    ensures IsLongRequest(response) <==> response == LongRequest + Substr(response, |LongRequest|)
    ensures IsLongRequest(response) ==> InputIsUnderstandable(response)
  {
    LongRequest <= response
  }

  /** The word asked about: the transcript without its request prefix. */
  function RequestedWord(response: string): (w: string)
    ensures IsLongRequest(response) ==> response == LongRequest + w
    ensures !IsLongRequest(response) && |response| <= |ShortRequest| ==> w == ""
    ensures !IsLongRequest(response) && |ShortRequest| <= |response| ==>
              response == response[..|ShortRequest|] + w
    ensures !IsLongRequest(response) && ShortRequest <= response ==> response == ShortRequest + w
  {
    if IsLongRequest(response) then Substr(response, |LongRequest|)
    else Substr(response, |ShortRequest|)
  }

  /** The sentence announcing how `spoken` is written. */
  function Announce(long: bool, spoken: string): (m: string)
    ensures |m| == (if long then 4 else 1) + |spoken| + |Announcement|
    ensures m[|m| - |Announcement|..] == Announcement
    ensures long ==> m[..4] == "De \""
    ensures !long ==> m[0] == '"'
    ensures m[(if long then 4 else 1)..|m| - |Announcement|] == spoken
  {
    (if long then "De " else "") + "\"" + spoken + Announcement
  }

  /** The answer to an understood transcript. */
  function GetSuccessfulAudioResponse(response: string): (r: Response)
    ensures r.message == Announce(IsLongRequest(response), CorrectAuditively(RequestedWord(response)))
    ensures RequestedWord(response) == "au" ==> r.word == Pair("au", "ou") && r.continuation == Some(Continuation)
    ensures RequestedWord(response) == "y" ==> r.word == Pair("ei", "ij") && r.continuation == Some(Continuation)
    ensures RequestedWord(response) !in {"au", "y"} ==>
              r.word == Single(CorrectVisually(RequestedWord(response))) && r.continuation == None
  {
    var requested := RequestedWord(response);
    var message := Announce(IsLongRequest(response), CorrectAuditively(requested));
    if requested == "au" then Response(message, Pair("au", "ou"), Some(Continuation))
    else if requested == "y" then Response(message, Pair("ei", "ij"), Some(Continuation))
    else Response(message, Single(CorrectVisually(requested)), None)
  }

  /** The answer to a transcript that is not understood; `index` replaces the random draw. */
  function GetDisappointingAudioResponse(index: nat): (r: Response)
    requires index < |DisappointingPhrases|
    ensures r.message in DisappointingPhrases
    ensures r.word == NoWord && r.continuation == None
  {
    Response(DisappointingPhrases[index], NoWord, None)
  }

  /** The choice made by the recognition "result" handler. */
  function HandleTranscript(response: string, index: nat): (r: Response)
    requires index < |DisappointingPhrases|
    ensures InputIsUnderstandable(response) ==> r == GetSuccessfulAudioResponse(response)
    ensures !InputIsUnderstandable(response) ==> r == GetDisappointingAudioResponse(index)
  {
    if InputIsUnderstandable(response) then GetSuccessfulAudioResponse(response)
    else GetDisappointingAudioResponse(index)
  }

  /** Both request forms are understood, and the long form is an extension of the short one. */
  lemma RequestsAreUnderstandable(response: string)
    ensures LongRequest <= response ==> ShortRequest <= response
    ensures ShortRequest <= response ==> InputIsUnderstandable(response)
  {
  }

  /** No trailing space is needed, and the prefix match is case-sensitive. */
  lemma UnderstandableExamples()
    ensures InputIsUnderstandable("Hoe schrijf je")
    ensures InputIsUnderstandable("Hoe schrijf jea")
    ensures !InputIsUnderstandable("hoe schrijf je a")
    ensures !InputIsUnderstandable("Hoe schrijf j")
  {
    assert "hoe schrijf je a"[0] != Question[0];
  }

  /** The announcement begins with "De " exactly for the long request form. */
  lemma MessageStartsWithDeIffLong(response: string)
    ensures "De " <= GetSuccessfulAudioResponse(response).message <==> IsLongRequest(response)
  {
    var m := GetSuccessfulAudioResponse(response).message;
    if !IsLongRequest(response) {
      assert m[0] == '"';
    }
  }

  /** Worked answer: "a" is shown as "aa" and spoken unchanged. */
  lemma ShortRequestExample()
    ensures GetSuccessfulAudioResponse("Hoe schrijf je a") == Response("\"a\" schrijf je zo:", Single("aa"), None)
  {
    assert !IsLongRequest("Hoe schrijf je a");
    assert RequestedWord("Hoe schrijf je a") == "a";
    assert CorrectAuditively("a") == "a";
    assert CorrectVisually("a") == "aa";
    assert Announce(false, "a") == "\"a\" schrijf je zo:";
  }

  /** Worked answer: "au" has two spellings and a follow-up phrase. */
  lemma AmbiguousRequestExample()
    ensures GetSuccessfulAudioResponse("Hoe schrijf je au").word == Pair("au", "ou")
    ensures GetSuccessfulAudioResponse("Hoe schrijf je au").continuation == Some(Continuation)
  {
    assert !IsLongRequest("Hoe schrijf je au");
    assert RequestedWord("Hoe schrijf je au") == "au";
  }

  /** Worked answer: the long form with "q" is spoken as "oeh" and shown as "oe". */
  lemma LongRequestExample()
    ensures GetSuccessfulAudioResponse("Hoe schrijf je de q") == Response("De \"oeh\" schrijf je zo:", Single("oe"), None)
  {
    assert IsLongRequest("Hoe schrijf je de q");
    assert RequestedWord("Hoe schrijf je de q") == "q";
    assert CorrectAuditively("q") == "oeh";
    assert CorrectVisually("q") == "oe";
    assert Announce(true, "oeh") == "De \"oeh\" schrijf je zo:";
  }

  /** Worked answer: the bare question asks for the empty word. */
  lemma BareQuestionExample()
    ensures GetSuccessfulAudioResponse("Hoe schrijf je").word == Single("")
  {
    assert !IsLongRequest("Hoe schrijf je");
    assert RequestedWord("Hoe schrijf je") == "";
    assert CorrectVisually("") == "";
  }

  /** No apology ends the way an announcement does. */
  lemma PhrasesAreNotAnnouncements()
    ensures forall k :: 0 <= k < |DisappointingPhrases| ==>
              |DisappointingPhrases[k]| < |Announcement| ||
              DisappointingPhrases[k][|DisappointingPhrases[k]| - |Announcement|..] != Announcement
  {
  }

  /** A user can always tell an answer from an apology by what is spoken. */
  lemma SuccessAndFailureMessagesDiffer(response: string, index: nat)
    requires index < |DisappointingPhrases|
    ensures GetSuccessfulAudioResponse(response).message != GetDisappointingAudioResponse(index).message
  {
    PhrasesAreNotAnnouncements();
  }

  /** Every apology can be drawn. */
  lemma EveryPhraseIsReachable(phrase: string)
    requires phrase in DisappointingPhrases
    ensures exists index :: 0 <= index < |DisappointingPhrases| && GetDisappointingAudioResponse(index).message == phrase
  {
    var index :| 0 <= index < |DisappointingPhrases| && DisappointingPhrases[index] == phrase;
    assert GetDisappointingAudioResponse(index).message == phrase;
  }
}
