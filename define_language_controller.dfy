/**
 * `DefineLanguageController`: the list of languages on screen and the file behind it.
 * A new name is trimmed, must be non-blank and must not equal an existing name ignoring
 * case; it is added, the list re-sorted, and saved. When saving fails the name is
 * removed again.
 */
module DefineLanguageController {
  import opened Wrappers
  import opened Seqs
  import opened JavaStrings
  import opened CaseInsensitiveOrder
  import opened StoredFiles
  import opened LanguageRepository

  datatype SaveOutcome = NameRequired | AlreadyExists | Saved | SaveFailed

  /** `languages.stream().anyMatch(language -> language.getName().equalsIgnoreCase(name))` */
  predicate AnyNameMatches(languages: seq<string>, name: string) {
    exists i | 0 <= i < |languages| :: EqualsIgnoreCase(languages[i], name)
  }

  /** A name that matches no listed name ignoring case is a fresh key. */
  lemma FreshName(before: seq<string>, name: string)
    requires !AnyNameMatches(before, name)
    ensures forall i | 0 <= i < |before| :: !EqualsIgnoreCase(NameOf(before[i]), NameOf(name))
  {
  }

  class LanguageScreen {
    /** The `languages` list shown in the table. */
    var languages: seq<string>
    /** The repository's storage file. */
    var file: StoredFile

    /** The list on screen is always in case-insensitive order. */
    ghost predicate Valid()
      reads this
    {
      SortedBy(languages, NameOf)
    }

    constructor(file: StoredFile)
      ensures this.file == file && languages == [] && Valid()
    {
      this.file := file;
      languages := [];
    }

    /** `refreshFromStorage`: replaces the list with the loaded languages, sorted; a failed read changes nothing. */
    method RefreshFromStorage() returns (loaded: bool)
      requires Valid()
      modifies this
      ensures Valid() && file == old(file)
      ensures loaded <==> LoadAll(file).Some?
      ensures loaded ==> languages == SortBy(LoadAll(file).value, NameOf)
      ensures loaded && file.Text? ==> languages == Normalize(ReadAllLines(file.content))
      ensures !loaded ==> languages == old(languages)
    {
      var stored := LoadAll(file);
      if stored.Some? {
        languages := SortBy(stored.value, NameOf);
        SortBySorted(stored.value, NameOf);
        if file.Text? {
          SortByIdempotent(Cleaned(ReadAllLines(file.content)), NameOf);
        }
        loaded := true;
      } else {
        loaded := false;
      }
    }

    /** `onSaveLanguage`, with the text field's content, the platform line separator and how writing the file ends. */
    method OnSaveLanguage(text: Option<string>, lineSep: string, write: WriteResult) returns (outcome: SaveOutcome)
      requires Valid()
      modifies this
      ensures Valid()
      ensures outcome == NameRequired <==> TrimOrEmpty(text) == ""
      ensures outcome == AlreadyExists <==> TrimOrEmpty(text) != "" && AnyNameMatches(old(languages), TrimOrEmpty(text))
      ensures outcome == Saved <==> TrimOrEmpty(text) != "" && !AnyNameMatches(old(languages), TrimOrEmpty(text)) && write.Completed?
      ensures outcome == Saved ==>
        languages == SortBy(old(languages) + [TrimOrEmpty(text)], NameOf)
        && multiset(languages) == multiset(old(languages)) + multiset{TrimOrEmpty(text)}
        && file == SavedFile(languages, lineSep)
      ensures outcome != Saved ==> languages == old(languages)
      ensures outcome == NameRequired || outcome == AlreadyExists ==> file == old(file)
      ensures outcome == SaveFailed ==>
        file == AfterWrite(old(file), SavedText(SortBy(old(languages) + [TrimOrEmpty(text)], NameOf), lineSep), write)
      ensures UniqueKeys(old(languages), NameOf) ==> UniqueKeys(languages, NameOf)
    {
      var name := TrimOrEmpty(text);
      if name == "" {
        return NameRequired;
      }
      if AnyNameMatches(languages, name) {
        return AlreadyExists;
      }
      var saved := AddLanguage(name, lineSep, write);
      outcome := if saved then Saved else SaveFailed;
    }

    /**
     * Adds an accepted name and sorts, then saves; when the save fails the name is taken out
     * again (`languages.remove`), and the file is what the failed write left.
     */
    method AddLanguage(name: string, lineSep: string, write: WriteResult) returns (saved: bool)
      requires Valid() && !AnyNameMatches(languages, name)
      modifies this
      ensures Valid() && saved == write.Completed?
      ensures saved ==> languages == SortBy(old(languages) + [name], NameOf) && file == SavedFile(languages, lineSep)
      ensures !saved ==>
        languages == old(languages)
        && file == AfterWrite(old(file), SavedText(SortBy(old(languages) + [name], NameOf), lineSep), write)
      ensures UniqueKeys(old(languages), NameOf) ==> UniqueKeys(languages, NameOf)
    {
      var before := languages;
      var after := SortBy(before + [name], NameOf);
      FreshName(before, name);
      AddFresh(before, name, NameOf, after);
      languages := after;
      file := AfterWrite(file, SavedText(after, lineSep), write);
      if !write.Completed? {
        languages := RemoveFirst(languages, name);
        assert languages == before;
        saved := false;
      } else {
        saved := true;
      }
    }
  }
}
