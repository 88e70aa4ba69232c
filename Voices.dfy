/**
 * The Dutch voice that start-up selects and logs (js/main.js, getDutchVoice);
 * it is never handed to the speech output. Keep the voices
 * whose language tag starts with "nl", prefer the one called
 * "Google Nederlands", and otherwise take the first Dutch one.
 */
module Voices {
  import opened Wrappers

  /** The two attributes of a SpeechSynthesisVoice the choice looks at. */
  datatype Voice = Voice(voiceURI: string, lang: string)

  const PreferredURI: string := "Google Nederlands"

  predicate IsDutch(v: Voice)
  {
    "nl" <= v.lang
  }

  predicate IsPreferred(v: Voice)
  {
    IsDutch(v) && v.voiceURI == PreferredURI
  }

  /** `voices[i]` is the first Dutch voice of the list. */
  ghost predicate FirstDutchAt(voices: seq<Voice>, i: int)
  {
    0 <= i < |voices| && IsDutch(voices[i]) && forall j :: 0 <= j < i ==> !IsDutch(voices[j])
  }

  /** `voices[i]` is the first Dutch voice called "Google Nederlands". */
  ghost predicate FirstPreferredAt(voices: seq<Voice>, i: int)
  {
    0 <= i < |voices| && IsPreferred(voices[i]) && forall j :: 0 <= j < i ==> !IsPreferred(voices[j])
  }

  /** `voiceList.filter(v => v.lang.startsWith('nl'))`: the Dutch voices, in list order. */
  function DutchVoices(voices: seq<Voice>): (r: seq<Voice>)
    ensures |r| <= |voices|
    ensures forall v :: v in r <==> v in voices && IsDutch(v)
    ensures |r| > 0 ==> exists i :: FirstDutchAt(voices, i) && r[0] == voices[i]
  {
    if voices == [] then []
    else if IsDutch(voices[0]) then
      assert FirstDutchAt(voices, 0);
      [voices[0]] + DutchVoices(voices[1..])
    else
      var rest := DutchVoices(voices[1..]);
      assert |rest| > 0 ==> exists i :: FirstDutchAt(voices, i) && rest[0] == voices[i] by {
        if |rest| > 0 {
          var i :| FirstDutchAt(voices[1..], i) && rest[0] == voices[1..][i];
          assert FirstDutchAt(voices, i + 1);
        }
      }
      rest
  }

  /** The filter of a one-voice list keeps the voice exactly when it is Dutch. */
  lemma DutchVoicesOfOne(v: Voice)
    ensures DutchVoices([v]) == if IsDutch(v) then [v] else []
  {
    assert [v][1..] == [];
  }

  /** The filter distributes over concatenation, so it keeps the list order. */
  lemma {:induction false} DutchVoicesAppend(a: seq<Voice>, b: seq<Voice>)
    ensures DutchVoices(a + b) == DutchVoices(a) + DutchVoices(b)
  {
    if a == [] {
      assert a + b == b;
    } else {
      assert (a + b)[0] == a[0];
      assert (a + b)[1..] == a[1..] + b;
      DutchVoicesAppend(a[1..], b);
    }
  }

  /** `list.find(x => x.voiceURI === uri)`: the first voice with that URI. */
  function FindByURI(voices: seq<Voice>, uri: string): (r: Option<Voice>)
    ensures r.None? <==> forall j :: 0 <= j < |voices| ==> voices[j].voiceURI != uri
    ensures r.Some? ==> exists i :: 0 <= i < |voices| && r.value == voices[i] && r.value.voiceURI == uri &&
                                    forall j :: 0 <= j < i ==> voices[j].voiceURI != uri
  {
    if voices == [] then None
    else if voices[0].voiceURI == uri then Some(voices[0])
    else
      var r := FindByURI(voices[1..], uri);
      assert r.Some? ==> exists i :: 0 <= i < |voices| && r.value == voices[i] && r.value.voiceURI == uri &&
                                    forall j :: 0 <= j < i ==> voices[j].voiceURI != uri by {
        if r.Some? {
          var i :| 0 <= i < |voices[1..]| && r.value == voices[1..][i] && r.value.voiceURI == uri &&
                   forall j :: 0 <= j < i ==> voices[1..][j].voiceURI != uri;
          forall j | 0 <= j < i + 1 ensures voices[j].voiceURI != uri {
            if j > 0 { assert voices[j] == voices[1..][j - 1]; }
          }
        }
      }
      assert r.None? ==> forall j :: 0 <= j < |voices| ==> voices[j].voiceURI != uri by {
        if r.None? {
          forall j | 0 <= j < |voices| ensures voices[j].voiceURI != uri {
            if j > 0 { assert voices[j] == voices[1..][j - 1]; }
          }
        }
      }
      r
  }

  /**
   * The voice start-up selects and logs, or None (`undefined`) when no voice
   * is Dutch; start-up then fails when it reads the voice's URI.
   */
  function GetDutchVoice(voices: seq<Voice>): (r: Option<Voice>)
    ensures r.Some? ==> r.value in voices && IsDutch(r.value)
    ensures r.None? <==> forall v :: v in voices ==> !IsDutch(v)
  {
    var dutch := DutchVoices(voices);
    var preferred := FindByURI(dutch, PreferredURI);
    if preferred.Some? then preferred
    else if |dutch| > 0 then Some(dutch[0])
    else None
  }

  /** Searching the filtered list finds the first preferred voice of the whole list. */
  lemma {:induction false} FindPreferredAmongDutch(voices: seq<Voice>)
    requires exists i :: 0 <= i < |voices| && IsPreferred(voices[i])
    ensures exists i :: FirstPreferredAt(voices, i) && FindByURI(DutchVoices(voices), PreferredURI) == Some(voices[i])
  {
    var k :| 0 <= k < |voices| && IsPreferred(voices[k]);
    var dutch := DutchVoices(voices);
    if IsPreferred(voices[0]) {
      assert dutch[0] == voices[0];
      assert FirstPreferredAt(voices, 0);
    } else {
      var rest := voices[1..];
      assert IsPreferred(rest[k - 1]);
      FindPreferredAmongDutch(rest);
      var i :| FirstPreferredAt(rest, i) && FindByURI(DutchVoices(rest), PreferredURI) == Some(rest[i]);
      if IsDutch(voices[0]) {
        assert dutch == [voices[0]] + DutchVoices(rest);
        assert dutch[1..] == DutchVoices(rest);
      } else {
        assert dutch == DutchVoices(rest);
      }
      assert FirstPreferredAt(voices, i + 1);
    }
  }

  /**
   * The preference rule: the first Dutch "Google Nederlands" voice when there
   * is one, otherwise the first Dutch voice, otherwise none.
   */
  lemma GetDutchVoiceChoice(voices: seq<Voice>)
    ensures (exists i :: 0 <= i < |voices| && IsPreferred(voices[i])) ==>
              exists i :: FirstPreferredAt(voices, i) && GetDutchVoice(voices) == Some(voices[i])
    ensures (forall i :: 0 <= i < |voices| ==> !IsPreferred(voices[i])) &&
            (exists i :: 0 <= i < |voices| && IsDutch(voices[i])) ==>
              exists i :: FirstDutchAt(voices, i) && GetDutchVoice(voices) == Some(voices[i])
    ensures (forall i :: 0 <= i < |voices| ==> !IsDutch(voices[i])) ==> GetDutchVoice(voices) == None
  {
    var dutch := DutchVoices(voices);
    if exists i :: 0 <= i < |voices| && IsPreferred(voices[i]) {
      FindPreferredAmongDutch(voices);
    } else {
      assert FindByURI(dutch, PreferredURI) == None by {
        forall j | 0 <= j < |dutch| ensures dutch[j].voiceURI != PreferredURI {
          assert dutch[j] in voices;
        }
      }
      if exists i :: 0 <= i < |voices| && IsDutch(voices[i]) {
        var i :| 0 <= i < |voices| && IsDutch(voices[i]);
        assert voices[i] in dutch;
      } else {
        assert forall v :: v in voices ==> !IsDutch(v);
      }
    }
  }

  /** A "Google Nederlands" voice that is not Dutch is not preferred. */
  lemma GetDutchVoiceExample()
    ensures GetDutchVoice([Voice("Google Nederlands", "en-US"), Voice("Xander", "nl-NL")]) == Some(Voice("Xander", "nl-NL"))
    ensures GetDutchVoice([Voice("Xander", "nl-NL"), Voice("Google Nederlands", "nl-NL")]) == Some(Voice("Google Nederlands", "nl-NL"))
    ensures GetDutchVoice([Voice("Daniel", "en-GB")]) == None
  {
    var a := [Voice("Google Nederlands", "en-US"), Voice("Xander", "nl-NL")];
    assert a[0].lang[0] != 'n';
    assert !IsDutch(a[0]) && IsDutch(a[1]);
    assert DutchVoices(a[1..][1..]) == [];
    assert DutchVoices(a) == [a[1]];
    var b := [Voice("Xander", "nl-NL"), Voice("Google Nederlands", "nl-NL")];
    assert IsDutch(b[0]) && IsDutch(b[1]);
    assert DutchVoices(b[1..][1..]) == [];
    assert DutchVoices(b) == b;
    assert FindByURI(b, PreferredURI) == Some(b[1]);
    assert "en-GB"[0] != 'n';
  }
}
