/**
 * `LanguageRepository`: the programming-language names, one per line. Loading and
 * saving both trim the names, drop the empty ones and sort the rest with
 * `String.CASE_INSENSITIVE_ORDER`; neither removes duplicates.
 */
module LanguageRepository {
  import opened Wrappers
  import opened Seqs
  import opened JavaStrings
  import opened CaseInsensitiveOrder
  import opened StoredFiles

  /** `ProgrammingLanguage` is a wrapper around its name: a language is its name here. */
  function NameOf(name: string): string {
    name
  }

  /** The pipeline `map(String::trim).filter(!isEmpty)` shared by loading and saving. */
  function Cleaned(names: seq<string>): seq<string> {
    Filter(Map(names, Trim), IsNonEmpty)
  }

  /** `...sorted(String.CASE_INSENSITIVE_ORDER)` after `Cleaned`. */
  function Normalize(names: seq<string>): seq<string> {
    SortBy(Cleaned(names), NameOf)
  }

  /** `loadAll`: a missing file holds no languages, an unreadable one is an `IOException`. */
  function LoadAll(file: StoredFile): Option<seq<string>> {
    match file
    case Missing => Some([])
    case Unreadable => None
    case Text(content) => Some(Normalize(ReadAllLines(content)))
  }

  /** The text `saveAll` writes: the trimmed non-empty names in order, one per line. */
  function SavedText(languages: seq<string>, lineSep: string): string {
    WrittenText(Normalize(languages), lineSep)
  }

  /** The file a completed `saveAll` leaves, replacing what was there. */
  function SavedFile(languages: seq<string>, lineSep: string): StoredFile {
    Text(SavedText(languages, lineSep))
  }

  lemma CleanedMembers(names: seq<string>)
    ensures forall x | x in Cleaned(names) :: x != "" && IsTrimmed(x) && exists j | 0 <= j < |names| :: x == Trim(names[j])
    ensures forall j | 0 <= j < |names| && Trim(names[j]) != "" :: Trim(names[j]) in Cleaned(names)
  {
    var trimmed := Map(names, Trim);
    FilterMembers(trimmed, IsNonEmpty);
    forall x | x in Cleaned(names) ensures exists j | 0 <= j < |names| :: x == Trim(names[j]) {
      var j :| 0 <= j < |trimmed| && trimmed[j] == x;
      assert x == Trim(names[j]);
    }
    forall j | 0 <= j < |names| && Trim(names[j]) != "" ensures Trim(names[j]) in Cleaned(names) {
      assert trimmed[j] == Trim(names[j]);
    }
  }

  /**
   * What `loadAll` and `saveAll` produce: in case-insensitive order, names that compare
   * equal keeping their input order, and exactly the trimmed non-empty names, each as
   * often as in the input.
   */
  lemma NormalizeOrder(names: seq<string>)
    ensures SortedBy(Normalize(names), NameOf)
    ensures forall k :: Class(Normalize(names), NameOf, k) == Class(Cleaned(names), NameOf, k)
    ensures multiset(Normalize(names)) == multiset(Cleaned(names))
  {
    SortBySorted(Cleaned(names), NameOf);
    forall k ensures Class(Normalize(names), NameOf, k) == Class(Cleaned(names), NameOf, k) {
      SortByStable(Cleaned(names), NameOf, k);
    }
  }

  /** Every name of the result is the trimmed form of an input name, and no trimmed non-empty name is lost. */
  lemma NormalizeMembers(names: seq<string>)
    ensures |Normalize(names)| <= |names|
    ensures forall x | x in Normalize(names) :: x != "" && IsTrimmed(x) && exists j | 0 <= j < |names| :: x == Trim(names[j])
    ensures forall j | 0 <= j < |names| && Trim(names[j]) != "" :: Trim(names[j]) in Normalize(names)
  {
    CleanedMembers(names);
    var r := Normalize(names);
    assert forall x :: x in r <==> x in multiset(r);
    assert forall x :: x in Cleaned(names) <==> x in multiset(Cleaned(names));
  }

  /** No deduplication: a name given twice is stored twice. */
  lemma DuplicatesKept(name: string)
    requires Trim(name) != ""
    ensures Normalize([name, name]) == [Trim(name), Trim(name)]
  {
    var t := Trim(name);
    assert Cleaned([name, name]) == [t, t] by {
      assert Map([name, name], Trim) == [t, t];
      FilterKeepsAll([t, t], IsNonEmpty);
    }
    assert SortBy([t, t], NameOf) == [t, t] by {
      LexLeqReflexive(Lower(t));
      assert SortedBy([t, t], NameOf);
      SortBySortedIdentity([t, t], NameOf);
    }
  }

  /** A list that is already trimmed, without empties and in order is left as it is. */
  lemma {:induction false} NormalizeOfNormal(names: seq<string>)
    requires SortedBy(names, NameOf)
    requires forall i | 0 <= i < |names| :: names[i] != "" && IsTrimmed(names[i])
    ensures Normalize(names) == names
  {
    var trimmed := Map(names, Trim);
    forall i | 0 <= i < |names| ensures trimmed[i] == names[i] {
      TrimOfTrimmed(names[i]);
    }
    assert trimmed == names;
    FilterKeepsAll(names, IsNonEmpty);
    SortBySortedIdentity(names, NameOf);
  }

  /** Normalising twice is normalising once. */
  lemma NormalizeIdempotent(names: seq<string>)
    ensures Normalize(Normalize(names)) == Normalize(names)
  {
    NormalizeOrder(names);
    NormalizeMembers(names);
    var r := Normalize(names);
    assert forall i | 0 <= i < |r| :: r[i] in r;
    NormalizeOfNormal(r);
  }

  /** Trimming cannot bring in a line end. */
  lemma TrimOneLine(name: string)
    requires IsOneLine(name)
    ensures IsOneLine(Trim(name))
  {
    var t := Trim(name);
    TrimChars(name);
    forall k | 0 <= k < |t| ensures !IsLineEnd(t[k]) {
      assert t[k] in t;
      var j :| 0 <= j < |name| && name[j] == t[k];
    }
  }

  /** Loading after saving gives the normalised list that was saved, when no name holds a line end. */
  lemma LoadAfterSave(languages: seq<string>, lineSep: string)
    requires IsLineSeparator(lineSep)
    requires forall i | 0 <= i < |languages| :: IsOneLine(languages[i])
    ensures LoadAll(SavedFile(languages, lineSep)) == Some(Normalize(languages))
  {
    var saved := Normalize(languages);
    forall i | 0 <= i < |saved| ensures IsOneLine(saved[i]) {
      NormalizeMembers(languages);
      assert saved[i] in saved;
      var j :| 0 <= j < |languages| && saved[i] == Trim(languages[j]);
      TrimOneLine(languages[j]);
    }
    ReadWrittenLines(saved, lineSep);
    NormalizeIdempotent(languages);
  }

  /** A name with a line end inside it is saved on two lines and comes back as two names. */
  lemma LineBreakSplitsName(lineSep: string)
    requires IsLineSeparator(lineSep)
    ensures LoadAll(SavedFile(["a\nb"], lineSep)) == Some(["a", "b"])
  {
    var names := ["a\nb"];
    var read := ["a", "b"];
    NormalOne(names);
    WrittenBreakSplits(lineSep);
    assert ReadAllLines(WrittenText(names, lineSep)) == read;
    NormalTwo();
  }

  lemma NormalOne(names: seq<string>)
    requires names == ["a\nb"]
    ensures Normalize(names) == names
  {
    assert IsTrimmed(names[0]);
    NormalizeOfNormal(names);
  }

  lemma NormalTwo()
    ensures Normalize(["a", "b"]) == ["a", "b"]
  {
    var names := ["a", "b"];
    assert Lower("a") == "a" && Lower("b") == "b";
    assert NameLeq(names[0], names[1]);
    assert SortedBy(names, NameOf);
    NormalizeOfNormal(names);
  }
}
