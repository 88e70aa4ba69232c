/**
 * The two static "mishearing" tables of the letter speller and the lookups
 * over them (js/main.js, VISUAL_CORRECTIONS, AUDITIVE_CORRECTIONS,
 * correctVisually, correctAuditively).
 *
 * In JavaScript the tables are object literals and the lookup uses the `in`
 * operator, which also sees keys inherited from Object.prototype (so
 * "toString" would yield a function). Here a table is a Dafny map that holds
 * its own keys only.
 */
module Corrections {

  /** Spellings to display for sounds the recogniser reports. */
  const VisualCorrections: map<string, string> := map[
    "a" := "aa",
    "i" := "ie",
    "e" := "ee",
    "o" := "oo",
    "u" := "uu",
    "y" := "ei",
    "q" := "oe",
    "hoe" := "oeh",
    "eruit" := "ui",
    "rui" := "ui"
  ]

  /** Spellings to pronounce; "q" and "y" are never read out as letters. */
  const AuditiveCorrections: map<string, string> := map[
    "y" := "ei",
    "q" := "oeh",
    "hoe" := "oeh",
    "eruit" := "ui",
    "rui" := "ui",
    "eu" := "euh"
  ]

  /** No value of the table is itself a key of it, so a lookup never chains. */
  ghost predicate ValuesAreNotKeys(table: map<string, string>)
  {
    forall k :: k in table ==> table[k] !in table
  }

  /** Looks `word` up in `table`, falling back to the word itself. */
  function Correct(table: map<string, string>, word: string): (r: string)
    requires ValuesAreNotKeys(table)
    ensures r !in table
    ensures word !in table ==> r == word
    ensures word in table ==> r == table[word]
  {
    if word in table then table[word] else word
  }

  lemma VisualValuesAreNotKeys()
    ensures ValuesAreNotKeys(VisualCorrections)
  {
  }

  lemma AuditiveValuesAreNotKeys()
    ensures ValuesAreNotKeys(AuditiveCorrections)
  {
  }

  /** The display spelling of `word`. */
  function CorrectVisually(word: string): (r: string)
    ensures r !in VisualCorrections
    ensures r == word <==> word !in VisualCorrections
  {
    VisualValuesAreNotKeys();
    Correct(VisualCorrections, word)
  }

  /** The spoken spelling of `word`. */
  function CorrectAuditively(word: string): (r: string)
    ensures r !in AuditiveCorrections
    ensures r == word <==> word !in AuditiveCorrections
  {
    AuditiveValuesAreNotKeys();
    Correct(AuditiveCorrections, word)
  }

  /** Correcting a second time changes nothing. */
  lemma CorrectIsIdempotent(table: map<string, string>, word: string)
    requires ValuesAreNotKeys(table)
    ensures Correct(table, Correct(table, word)) == Correct(table, word)
  {
  }

  lemma CorrectVisuallyIsIdempotent(word: string)
    ensures CorrectVisually(CorrectVisually(word)) == CorrectVisually(word)
  {
  }

  lemma CorrectAuditivelyIsIdempotent(word: string)
    ensures CorrectAuditively(CorrectAuditively(word)) == CorrectAuditively(word)
  {
  }

  /** The ten entries of the visual table, and identity everywhere else. */
  lemma CorrectVisuallyTable(word: string)
    ensures CorrectVisually("a") == "aa" && CorrectVisually("i") == "ie"
    ensures CorrectVisually("e") == "ee" && CorrectVisually("o") == "oo"
    ensures CorrectVisually("u") == "uu" && CorrectVisually("y") == "ei"
    ensures CorrectVisually("q") == "oe" && CorrectVisually("hoe") == "oeh"
    ensures CorrectVisually("eruit") == "ui" && CorrectVisually("rui") == "ui"
    ensures word !in {"a", "i", "e", "o", "u", "y", "q", "hoe", "eruit", "rui"} ==> CorrectVisually(word) == word
  {
  }

  /** The six entries of the auditive table, and identity everywhere else. */
  lemma CorrectAuditivelyTable(word: string)
    ensures CorrectAuditively("y") == "ei" && CorrectAuditively("q") == "oeh"
    ensures CorrectAuditively("hoe") == "oeh" && CorrectAuditively("eruit") == "ui"
    ensures CorrectAuditively("rui") == "ui" && CorrectAuditively("eu") == "euh"
    ensures word !in {"y", "q", "hoe", "eruit", "rui", "eu"} ==> CorrectAuditively(word) == word
    ensures CorrectAuditively("a") == "a"
  {
  }
}
