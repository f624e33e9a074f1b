/** The shared record type of the translation history (one entry per translation). */
module Types {
  import opened Common

  /**
   * A history entry as it is stored. Fields a parsed record lacks are
   * represented by their falsy value (`""` for strings, `0` for the
   * timestamp), which is how the validation in the history service sees them.
   */
  datatype TranslationEntry = TranslationEntry(
    id: string,
    sourceLanguage: string,        // display label, e.g. "English"
    targetLanguage: string,        // display label, e.g. "Spanish"
    sourceText: string,
    targetText: string,
    timestamp: int,                // milliseconds since the epoch
    isFavorite: bool,
    sourceLanguageCode: Option<string>,
    targetLanguageCode: Option<string>)
}
