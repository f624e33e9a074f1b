/** The list of supported languages, the default pair and the lookup by language code. */
module Languages {
  import opened Common

  /** A selectable language: its code (`value`), English label (`label` in the source) and optional native label. */
  datatype Language = Language(value: string, displayLabel: string, nativeLabel: Option<string>)

  const SupportedLanguages: seq<Language> := [
    Language("en", "English", Some("English")),
    Language("es", "Spanish", Some("Español")),
    Language("fr", "French", Some("Français")),
    Language("de", "German", Some("Deutsch")),
    Language("it", "Italian", Some("Italiano")),
    Language("pt", "Portuguese", Some("Português")),
    Language("ja", "Japanese", Some("日本語")),
    Language("ko", "Korean", Some("한국어")),
    Language("zh", "Chinese", Some("中文")),
    Language("ru", "Russian", Some("Русский")),
    Language("hi", "Hindi", Some("हिन्दी")),
    Language("ar", "Arabic", Some("العربية")),
    Language("bn", "Bengali", Some("বাংলা")),
    Language("nl", "Dutch", Some("Nederlands")),
    Language("sv", "Swedish", Some("Svenska")),
    Language("tr", "Turkish", Some("Türkçe")),
    Language("vi", "Vietnamese", Some("Tiếng Việt")),
    Language("pl", "Polish", Some("Polski")),
    Language("id", "Indonesian", Some("Bahasa Indonesia")),
    Language("th", "Thai", Some("ไทย"))
  ]

  const DefaultSourceLanguage: string := "en"
  const DefaultTargetLanguage: string := "es"

  /** `value.split('-')[0]`: the part of a code before its first `-` (the whole code if it has none). */
  function BaseCode(value: string): (base: string)
    ensures StartsWith(value, base)
    ensures '-' !in base
    ensures |base| < |value| ==> value[|base|] == '-'
  {
    if value == [] || value[0] == '-' then [] else [value[0]] + BaseCode(value[1..])
  }

  /** `lang` is what the lookup accepts for `value`: the code itself or its base code. */
  predicate MatchesCode(lang: Language, value: string, base: string) {
    lang.value == value || lang.value == base
  }

  /** `langs.find(...)`: the first language matching the code or the base code. */
  function FindLanguage(langs: seq<Language>, value: string, base: string): (r: Option<Language>)
    ensures r.None? <==> forall i :: 0 <= i < |langs| ==> !MatchesCode(langs[i], value, base)
    ensures r.Some? ==> exists i :: 0 <= i < |langs| && langs[i] == r.value && MatchesCode(r.value, value, base)
                                    && forall j :: 0 <= j < i ==> !MatchesCode(langs[j], value, base)
  {
    if langs == [] then None
    else if MatchesCode(langs[0], value, base) then
      assert langs[0] == langs[0];
      Some(langs[0])
    else
      var r := FindLanguage(langs[1..], value, base);
      assert forall i :: 1 <= i < |langs| ==> langs[i] == langs[1..][i - 1];
      if r.Some? then
        var i :| 0 <= i < |langs[1..]| && langs[1..][i] == r.value && MatchesCode(r.value, value, base)
                  && forall j :: 0 <= j < i ==> !MatchesCode(langs[1..][j], value, base);
        assert langs[i + 1] == r.value;
        r
      else
        r
  }

  /**
   * `getLanguageByValue(value)`: the supported language for a code, falling
   * back to its base code. A found language is supported and carries the
   * code asked for or its base code; nothing is found exactly when no
   * supported code matches either.
   */
  function GetLanguageByValue(value: string): (r: Option<Language>)
    ensures r.Some? ==> r.value in SupportedLanguages && (r.value.value == value || r.value.value == BaseCode(value))
    ensures r.None? <==>
              forall i :: 0 <= i < |SupportedLanguages| ==>
                SupportedLanguages[i].value != value && SupportedLanguages[i].value != BaseCode(value)
  {
    FindLanguage(SupportedLanguages, value, BaseCode(value))
  }

  /** The codes of the supported languages are pairwise distinct. */
  predicate DistinctCodes(langs: seq<Language>) {
    forall i, j :: 0 <= i < j < |langs| ==> langs[i].value != langs[j].value
  }

  /** A code with no `-` (so it is its own base code) and no `_` (the cache key separator). */
  predicate PlainCode(code: string) {
    code != [] && '-' !in code && '_' !in code
  }

  /** A two-letter code read as a number, so that distinctness becomes integer disequality. */
  function CodeNumber(code: string): int {
    if |code| == 2 then code[0] as int * 65536 + code[1] as int else -1
  }

  /** The supported codes read as numbers, in list order. */
  const SupportedCodeNumbers: seq<int> := [
    6619246, 6619251, 6684786, 6553701, 6881396, 7340148, 6946913, 7012463, 7995496, 7471221,
    6815849, 6357106, 6422638, 7209068, 7536758, 7602290, 7733353, 7340140, 6881380, 7602280]

  lemma SupportedCodesAsNumbers()
    ensures |SupportedCodeNumbers| == |SupportedLanguages|
    ensures forall i :: 0 <= i < |SupportedLanguages| ==> CodeNumber(SupportedLanguages[i].value) == SupportedCodeNumbers[i]
  {
  }

  lemma SupportedCodeNumbersDistinct()
    ensures forall i, j :: 0 <= i < j < |SupportedCodeNumbers| ==> SupportedCodeNumbers[i] != SupportedCodeNumbers[j]
  {
  }

  /** The supported codes are pairwise distinct. */
  lemma SupportedCodesDistinct()
    ensures DistinctCodes(SupportedLanguages)
  {
    SupportedCodesAsNumbers();
    SupportedCodeNumbersDistinct();
  }

  /** Every supported code is a plain two-letter code. */
  lemma SupportedCodesPlain()
    ensures forall i :: 0 <= i < |SupportedLanguages| ==>
              |SupportedLanguages[i].value| == 2 && PlainCode(SupportedLanguages[i].value)
  {
  }

  /** A code without `-` is its own base code. */
  lemma {:induction false} BaseCodeOfPlain(value: string)
    requires '-' !in value
    ensures BaseCode(value) == value
  {
    if value != [] {
      BaseCodeOfPlain(value[1..]);
    }
  }

  /** A code whose base code is that of a supported language finds exactly that language (`zh-CN` and `zh` both find `zh`). */
  lemma GetLanguageByBaseCode(value: string, k: nat)
    requires k < |SupportedLanguages| && BaseCode(value) == SupportedLanguages[k].value
    ensures GetLanguageByValue(value) == Some(SupportedLanguages[k])
  {
    SupportedCodesDistinct();
    SupportedCodesPlain();
    var langs, base := SupportedLanguages, BaseCode(value);
    // A supported code contains no '-', so it equals `value` only when `value` is its own base code.
    forall i | 0 <= i < |langs| && langs[i].value == value ensures langs[i].value == base {
      BaseCodeOfPlain(value);
    }
    assert MatchesCode(langs[k], value, base);
    var r := GetLanguageByValue(value);
    var i :| 0 <= i < |langs| && langs[i] == r.value && MatchesCode(r.value, value, base)
             && forall j :: 0 <= j < i ==> !MatchesCode(langs[j], value, base);
    assert i == k;
  }

  /** Looking up the code of a supported language finds that language. */
  lemma GetLanguageByValueOfSupported(k: nat)
    requires k < |SupportedLanguages|
    ensures GetLanguageByValue(SupportedLanguages[k].value) == Some(SupportedLanguages[k])
  {
    SupportedCodesPlain();
    BaseCodeOfPlain(SupportedLanguages[k].value);
    GetLanguageByBaseCode(SupportedLanguages[k].value, k);
  }

  /** A regional code resolves to its base language: `zh-CN` finds the `zh` entry. */
  lemma RegionalCodeResolves()
    ensures GetLanguageByValue("zh-CN") == Some(Language("zh", "Chinese", Some("中文")))
  {
    assert BaseCode("zh-CN") == "zh" by {
      assert "zh-CN"[1..] == "h-CN";
      assert "h-CN"[1..] == "-CN";
    }
    GetLanguageByBaseCode("zh-CN", 8);
  }

  /** A code whose base is not supported finds nothing: `xx-YY` resolves to no language. */
  lemma UnlistedBaseResolvesToNothing()
    ensures GetLanguageByValue("xx-YY").None?
  {
    assert BaseCode("xx-YY") == "xx" by {
      assert "xx-YY"[1..] == "x-YY";
      assert "x-YY"[1..] == "-YY";
    }
    SupportedCodesPlain();
    assert forall i :: 0 <= i < |SupportedLanguages| ==> SupportedLanguages[i].value != "xx";
  }

  /** The value starts with three characters none of which is `-`: it is no two-letter code, and neither is its base code. */
  predicate WordLike(value: string) {
    |value| >= 3 && value[0] != '-' && value[1] != '-' && value[2] != '-'
  }

  /** Every English label of a supported language is word-like. */
  lemma SupportedLabelsWordLike()
    ensures forall i :: 0 <= i < |SupportedLanguages| ==> WordLike(SupportedLanguages[i].displayLabel)
  {
  }

  /** Looking up a word-like value finds nothing: every supported code has two letters. */
  lemma WordLikeValueFindsNothing(value: string)
    requires WordLike(value)
    ensures GetLanguageByValue(value).None?
  {
    assert BaseCode(value)[..3] == value[..3] by {
      assert BaseCode(value) == [value[0]] + BaseCode(value[1..]);
      assert BaseCode(value[1..]) == [value[1]] + BaseCode(value[2..]);
      assert BaseCode(value[2..]) == [value[2]] + BaseCode(value[3..]);
    }
    SupportedCodesPlain();
  }

  /** The default pair is two distinct supported languages. */
  lemma DefaultsSupported()
    ensures GetLanguageByValue(DefaultSourceLanguage) == Some(SupportedLanguages[0])
    ensures GetLanguageByValue(DefaultTargetLanguage) == Some(SupportedLanguages[1])
    ensures DefaultSourceLanguage != DefaultTargetLanguage
  {
    GetLanguageByValueOfSupported(0);
    GetLanguageByValueOfSupported(1);
  }
}
