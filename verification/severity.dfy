/** The `level` setting of every rule, mapped to the host's severities. */
module Severity {
  import opened Text

  datatype Level = Error | Warning | Notice

  /** `level` spells `word` up to letter case: character by character, it
      lower-cases to the letters of `word`. */
  predicate SpelledAs(level: string, word: string) {
    |level| == |word| && forall k :: 0 <= k < |word| ==> LowerChar(level[k]) == word[k]
  }

  lemma SpelledIff(level: string, word: string)
    ensures SpelledAs(level, word) <==> ToLower(level) == word
  {
    if SpelledAs(level, word) {
      assert forall k :: 0 <= k < |word| ==> ToLower(level)[k] == word[k];
    }
  }

  /** `ToSeverity`: "notice" and "warning" in any letter case; everything
      else, the empty string included, is an error. */
  function ToSeverity(level: string): (r: Level)
    ensures r == Notice <==> SpelledAs(level, "notice")
    ensures r == Warning <==> SpelledAs(level, "warning")
    ensures r == Error <==> !SpelledAs(level, "notice") && !SpelledAs(level, "warning")
  {
    SpelledIff(level, "notice");
    SpelledIff(level, "warning");
    var l := ToLower(level);
    if l == "notice" then Notice
    else if l == "warning" then Warning
    else Error
  }

  /** The result depends only on the lower-cased text. */
  lemma SeverityIgnoresCase(level: string)
    ensures ToSeverity(level) == ToSeverity(ToLower(level))
  {
    LowerIdempotent(level);
  }

  /** Any spelling whose letters lower-case to "warning" is a warning. */
  lemma MixedCaseWarning()
    ensures ToSeverity("WaRnInG") == Warning
  {
    assert ToLower("WaRnInG") == "warning";
  }

  lemma UpperCaseNotice()
    ensures ToSeverity("NOTICE") == Notice
  {
    assert ToLower("NOTICE") == "notice";
  }

  /** An unknown or empty level is an error. */
  lemma UnknownIsError()
    ensures ToSeverity("") == Error && ToSeverity("unknown") == Error
  {
    assert ToLower("unknown") == "unknown";
  }
}
