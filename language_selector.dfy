/**
 * The language picker sheet: the search over the language list, the flag
 * shown beside each language, and what choosing a language does.
 */
module LanguageSelector {
  import opened Common
  import opened Languages

  // ---------------------------------------------------------------------------
  // Flags
  // ---------------------------------------------------------------------------

  /** The flag of a two-letter region (`"US"`): its two Unicode regional indicator symbols. */
  function RegionalFlag(region: string): (flag: string)
    requires |region| == 2 && 'A' <= region[0] <= 'Z' && 'A' <= region[1] <= 'Z'
    ensures |flag| == 2
    ensures forall k :: 0 <= k < 2 ==> flag[k] as int == 0x1F1E6 + (region[k] as int - 'A' as int)
  {
    [(0x1F1E6 + (region[0] as int - 'A' as int)) as char, (0x1F1E6 + (region[1] as int - 'A' as int)) as char]
  }

  /** The table `flagEmojis`, by the region whose flag it shows for each of its eleven language codes. */
  function FlagRegion(code: string): Option<string> {
    if code == "en" then Some("US") else if code == "es" then Some("ES") else if code == "fr" then Some("FR")
    else if code == "de" then Some("DE") else if code == "it" then Some("IT") else if code == "pt" then Some("PT")
    else if code == "ja" then Some("JP") else if code == "ko" then Some("KR") else if code == "zh" then Some("CN")
    else if code == "ru" then Some("RU") else if code == "hi" then Some("IN")
    else None
  }

  /** The default flag, a white flag (U+1F3F3 followed by the emoji presentation selector). */
  const DefaultFlag: string := "\U{1F3F3}\U{FE0F}"

  /** Two capital letters. */
  predicate RegionCode(region: string) {
    |region| == 2 && 'A' <= region[0] <= 'Z' && 'A' <= region[1] <= 'Z'
  }

  /** `getFlagEmoji(code)`: the listed flag, or the white flag for any other code. */
  function FlagEmoji(code: string): (flag: string)
    ensures FlagRegion(code).Some? ==> RegionCode(FlagRegion(code).value) && flag == RegionalFlag(FlagRegion(code).value)
    ensures FlagRegion(code).None? ==> flag == DefaultFlag
    ensures |flag| == 2
  {
    match FlagRegion(code)
    case Some(region) => RegionalFlag(region)
    case None => DefaultFlag
  }

  /** A listed code never shows the default flag, and two listed codes show the same flag exactly when they name the same region. */
  lemma FlagsDistinguishRegions(a: string, b: string)
    requires FlagRegion(a).Some? && FlagRegion(b).Some?
    ensures FlagEmoji(a) != DefaultFlag
    ensures FlagEmoji(a) == FlagEmoji(b) <==> FlagRegion(a) == FlagRegion(b)
  {
    var ra, rb := FlagRegion(a).value, FlagRegion(b).value;
    assert FlagEmoji(a)[0] != DefaultFlag[0];
    if FlagEmoji(a) == FlagEmoji(b) {
      assert FlagEmoji(a)[0] == FlagEmoji(b)[0] && FlagEmoji(a)[1] == FlagEmoji(b)[1];
      assert ra == [ra[0], ra[1]] && rb == [rb[0], rb[1]];
    }
  }

  /** The eleven listed codes show eleven different flags. */
  lemma ListedFlagsDistinct()
    ensures forall a, b :: FlagRegion(a).Some? && FlagRegion(b).Some? && a != b ==> FlagEmoji(a) != FlagEmoji(b)
  {
    forall a, b | FlagRegion(a).Some? && FlagRegion(b).Some? && a != b ensures FlagEmoji(a) != FlagEmoji(b) {
      FlagsDistinguishRegions(a, b);
    }
  }

  /** The first eleven supported languages have a flag of their own; the other nine show the white flag. */
  lemma SupportedLanguageFlags()
    ensures forall i :: 0 <= i < 11 ==> FlagRegion(SupportedLanguages[i].value).Some?
    ensures forall i :: 11 <= i < |SupportedLanguages| ==> FlagEmoji(SupportedLanguages[i].value) == DefaultFlag
  {
  }

  /** What a JavaScript property read `flagEmojis[code]` finds: an own string, an inherited member of `Object.prototype`, or nothing. */
  datatype PropertyValue = OwnString(s: string) | Inherited(name: string) | Undefined

  /** The members every object literal inherits from `Object.prototype`. */
  const ObjectPrototypeMembers: set<string> := {
    "constructor", "hasOwnProperty", "isPrototypeOf", "propertyIsEnumerable", "toLocaleString",
    "toString", "valueOf", "__proto__", "__defineGetter__", "__defineSetter__",
    "__lookupGetter__", "__lookupSetter__"}

  /** `flagEmojis[code] || default` as written: an inherited member is truthy, so it is returned instead of a flag. */
  function FlagLookupAsWritten(code: string): (r: PropertyValue)
    ensures FlagRegion(code).Some? ==> r == OwnString(FlagEmoji(code))
    ensures FlagRegion(code).None? && code !in ObjectPrototypeMembers ==> r == OwnString(DefaultFlag)
    ensures code in ObjectPrototypeMembers ==> r.Inherited?
  {
    var found := if FlagRegion(code).Some? then OwnString(FlagEmoji(code))
                 else if code in ObjectPrototypeMembers then Inherited(code)
                 else Undefined;
    if found.Undefined? then OwnString(DefaultFlag) else found
  }

  /** The code `"constructor"` gets the inherited `Object` constructor, not a flag. */
  lemma ConstructorCodeGetsNoFlag()
    ensures FlagLookupAsWritten("constructor") == Inherited("constructor")
    ensures FlagEmoji("constructor") == DefaultFlag
  {
  }

  /** No supported code is an inherited member name, so the lookup as written agrees with `FlagEmoji` on them. */
  lemma SupportedCodesGetFlags(i: nat)
    requires i < |SupportedLanguages|
    ensures FlagLookupAsWritten(SupportedLanguages[i].value) == OwnString(FlagEmoji(SupportedLanguages[i].value))
  {
    SupportedCodesPlain();
    assert forall name :: name in ObjectPrototypeMembers ==> |name| > 2;
  }

  // ---------------------------------------------------------------------------
  // Searching and choosing
  // ---------------------------------------------------------------------------

  /**
   * The filter callback: the term occurs in the lower-cased label or in the
   * lower-cased native label, if there is one. The empty term matches every
   * language; a term longer than the label, with no native label long enough
   * to hold it, matches none.
   */
  predicate MatchesSearch(lang: Language, term: string): (r: bool)
    ensures term == [] ==> r
    ensures r ==> |term| <= |lang.displayLabel| || (lang.nativeLabel.Some? && |term| <= |lang.nativeLabel.value|)
  {
    assert OccursAt(ToLower(lang.displayLabel), [], 0);
    Includes(ToLower(lang.displayLabel), term) || (lang.nativeLabel.Some? && Includes(ToLower(lang.nativeLabel.value), term))
  }

  /** `filteredLanguages`: the languages matching the lower-cased search term, in list order. */
  function FilteredLanguages(languages: seq<Language>, searchTerm: string): (r: seq<Language>)
    ensures Subsequence(r, languages)
    ensures forall lang :: lang in r <==> lang in languages && MatchesSearch(lang, ToLower(searchTerm))
  {
    if languages == [] then []
    else
      var rest := FilteredLanguages(languages[1..], searchTerm);
      assert forall lang :: lang in languages <==> lang == languages[0] || lang in languages[1..];
      if MatchesSearch(languages[0], ToLower(searchTerm)) then [languages[0]] + rest else rest
  }

  /** The filter keeps every matching language as often as it occurs in the list, and no other language. */
  lemma {:induction false} FilteredLanguagesCounts(languages: seq<Language>, searchTerm: string, lang: Language)
    ensures multiset(FilteredLanguages(languages, searchTerm))[lang]
              == if MatchesSearch(lang, ToLower(searchTerm)) then multiset(languages)[lang] else 0
  {
    if languages != [] {
      var head, tail := languages[0], languages[1..];
      FilteredLanguagesCounts(tail, searchTerm, lang);
      assert languages == [head] + tail;
      assert multiset(languages) == multiset{head} + multiset(tail);
      if MatchesSearch(head, ToLower(searchTerm)) {
        var rest := FilteredLanguages(tail, searchTerm);
        assert FilteredLanguages(languages, searchTerm) == [head] + rest;
        assert multiset([head] + rest) == multiset{head} + multiset(rest);
      }
    }
  }

  /**
   * A language is listed exactly when the lower-cased term occurs in its
   * lower-cased label or native label; a language without a native label
   * can match on its label only.
   */
  lemma FilteredLanguagesMembers(languages: seq<Language>, searchTerm: string, lang: Language)
    ensures lang in FilteredLanguages(languages, searchTerm) <==>
      && lang in languages
      && ((exists i :: OccursAt(ToLower(lang.displayLabel), ToLower(searchTerm), i))
          || (lang.nativeLabel.Some? && exists i :: OccursAt(ToLower(lang.nativeLabel.value), ToLower(searchTerm), i)))
  {
  }

  /** The empty term occurs in every label. */
  lemma {:induction false} EmptySearchKeepsAll(languages: seq<Language>)
    ensures FilteredLanguages(languages, []) == languages
  {
    if languages != [] {
      assert OccursAt(ToLower(languages[0].displayLabel), [], 0);
      EmptySearchKeepsAll(languages[1..]);
    }
  }

  /** The sheet's state: its search term. Whether it is open is its parent's. */
  datatype SelectResult = SelectResult(chosen: string, requestOpen: bool, searchTerm: string)

  /** `handleSelect(value)`: reports the chosen value, asks the parent to close the sheet, and clears the term. */
  function HandleSelect(searchTerm: string, value: string): (r: SelectResult)
    ensures r.chosen == value && !r.requestOpen
    ensures forall languages :: FilteredLanguages(languages, r.searchTerm) == languages
  {
    forall languages: seq<Language> ensures FilteredLanguages(languages, []) == languages {
      EmptySearchKeepsAll(languages);
    }
    SelectResult(value, false, [])
  }
}
