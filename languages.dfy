/** The target languages offered for translation: the select box's labels
    and the dictionary `mapa_idiomas` that turns a label into the code
    handed to the translator. */
module Languages {

  /** The labels of the target-language select box, in display order. */
  const LanguageOptions: seq<string> := ["português", "inglês", "espanhol", "francês", "alemão"]

  /** `mapa_idiomas`: display label to target language code. */
  const LanguageCodes: map<string, string> :=
    map["português" := "pt", "inglês" := "en", "espanhol" := "es", "francês" := "fr", "alemão" := "de"]

  /** `mapa_idiomas[idioma]` for the label picked in the select box: the
      lookup never fails, and the code is one of the five two-letter codes. */
  function TargetCode(choice: string): (code: string)
    requires choice in LanguageOptions
    ensures code in {"pt", "en", "es", "fr", "de"}
    ensures |code| == 2
  {
    LanguageCodes[choice]
  }

  /** The select box offers five labels, none of them twice, and the
      dictionary has exactly those five labels as keys. */
  lemma LanguageLabels()
    ensures |LanguageOptions| == 5 && |LanguageCodes| == 5
    ensures forall i, j :: 0 <= i < j < |LanguageOptions| ==> LanguageOptions[i] != LanguageOptions[j]
    ensures LanguageCodes.Keys == set choice | choice in LanguageOptions
  {
  }

  /** The codes of the dictionary are exactly pt, en, es, fr and de. */
  lemma LanguageCodeSet()
    ensures LanguageCodes.Values == {"pt", "en", "es", "fr", "de"}
  {
    forall code | code in LanguageCodes.Values ensures code in {"pt", "en", "es", "fr", "de"} {
      var choice :| choice in LanguageCodes && LanguageCodes[choice] == code;
    }
    assert LanguageCodes["português"] == "pt" && LanguageCodes["inglês"] == "en";
    assert LanguageCodes["espanhol"] == "es" && LanguageCodes["francês"] == "fr";
    assert LanguageCodes["alemão"] == "de";
  }

  /** Different labels translate into different languages. */
  lemma TargetCodesDistinct(a: string, b: string)
    requires a in LanguageOptions && b in LanguageOptions && a != b
    ensures TargetCode(a) != TargetCode(b)
  {
  }
}
