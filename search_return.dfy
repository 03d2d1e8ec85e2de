/**
 * What the edit and comment screens keep for going back to the search screen: the five
 * filter texts to restore there, and how the repository answered an update.
 */
module SearchReturn {
  import opened Wrappers

  /**
   * The outcome of `StudentProfileRepository.updateProfile`, whose body is not part of this
   * model: it returned `true`, returned `false`, or threw an `IOException`.
   */
  datatype UpdateResult = Updated | NotUpdated | UpdateFailed

  /** The filter texts handed to the search screen's `applyInitialFilters`. */
  datatype SearchFilters = SearchFilters(name: string, status: string, language: string, database: string, role: string)

  /** The filters before `setReturnState` is called. */
  const NoFilters := SearchFilters("", "", "", "", "")

  /** `safeValue`: `null` becomes the empty string, any other text is kept as it is. */
  function SafeValue(value: Option<string>): (r: string)
    ensures value.Some? ==> r == value.value
    ensures value.None? ==> r == ""
  {
    value.GetOr("")
  }

  /** `setReturnState`'s five assignments. */
  function ReturnFilters(name: Option<string>, status: Option<string>, language: Option<string>,
                         database: Option<string>, role: Option<string>): SearchFilters
  {
    SearchFilters(SafeValue(name), SafeValue(status), SafeValue(language), SafeValue(database), SafeValue(role))
  }

  /** Each filter is kept verbatim when given, and empty when `null`; so no filter at all restores `NoFilters`. */
  lemma ReturnFiltersKept(name: Option<string>, status: Option<string>, language: Option<string>,
                          database: Option<string>, role: Option<string>)
    ensures var f := ReturnFilters(name, status, language, database, role);
      f.name == name.GetOr("") && f.status == status.GetOr("") && f.language == language.GetOr("")
      && f.database == database.GetOr("") && f.role == role.GetOr("")
    ensures ReturnFilters(None, None, None, None, None) == NoFilters
  {
  }
}
