/**
 * `StudentProfileRepository`: a flat file with one profile per line and ten columns
 * separated by `|`. Text columns hold Base64 of the UTF-8 bytes, list columns the
 * Base64 of each element joined by `;`, and the three flags the literal words
 * `true`/`false`.
 *
 * The file is a `StoredFile` value: missing, unreadable, or its decoded text. How a write
 * ends (completed, failed before opening, failed after truncating) is a `WriteResult`.
 */
module ProfileRepository {
  import opened Wrappers
  import opened Seqs
  import opened JavaStrings
  import opened CaseInsensitiveOrder
  import Base64
  import opened StudentProfiles
  import opened StoredFiles

  const FieldDelimiter: char := '|'
  const ListDelimiter: char := ';'
  const ColumnCount: nat := 10

  /** Why a store operation throws. */
  datatype StoreError = ReadFailed | WriteFailed | MalformedBase64

  /** `Boolean.toString` */
  function BoolString(b: bool): string {
    if b then "true" else "false"
  }

  /** `Boolean.parseBoolean`: `"true"` in any case reads as true, everything else as false. */
  function ParseBoolean(s: string): bool {
    EqualsIgnoreCase(s, "true")
  }

  /** The flags read back as written, and the comparison ignores case. */
  lemma ParseBooleanOfBoolString(b: bool)
    ensures ParseBoolean(BoolString(b)) == b
    ensures ParseBoolean("TRUE") && ParseBoolean("True") && !ParseBoolean("yes") && !ParseBoolean("1")
  {
    assert |Lower("false")| != |Lower("true")|;
    assert Lower("TRUE") == Lower("true");
    assert Lower("True") == Lower("true");
    assert |Lower("yes")| != |Lower("true")|;
    assert |Lower("1")| != |Lower("true")|;
  }

  /** `parseBoolean` accepts exactly the four letters of `true`, each in either case. */
  lemma ParseBooleanMeaning(s: string)
    ensures ParseBoolean(s) <==>
      |s| == 4 && (s[0] == 't' || s[0] == 'T') && (s[1] == 'r' || s[1] == 'R')
      && (s[2] == 'u' || s[2] == 'U') && (s[3] == 'e' || s[3] == 'E')
  {
    if |s| == 4 {
      assert Lower(s) == [Fold(s[0]), Fold(s[1]), Fold(s[2]), Fold(s[3])];
      assert Lower("true") == "true";
    } else {
      assert |Lower(s)| != |Lower("true")|;
    }
  }

  /** `encode`: Base64 of the UTF-8 bytes, `null` written as the empty string. */
  function Encode(value: Option<string>): (r: string)
    ensures r == "" <==> value.GetOr("") == ""
    ensures forall i | 0 <= i < |r| :: Base64.IsEncodedChar(r[i])
  {
    Base64.EncodeText(value.GetOr(""))
  }

  /** `decode`; `None` where the decoder throws `IllegalArgumentException`. */
  function Decode(encoded: string): Option<string> {
    Base64.DecodeText(encoded)
  }

  /** A text column reads back as written, `null` as the empty string. */
  lemma DecodeEncode(value: Option<string>)
    ensures Decode(Encode(value)) == Some(value.GetOr(""))
  {
    Base64.DecodeEncodeText(value.GetOr(""));
  }

  /** `encode` applied to one list element. */
  function EncodeElement(value: string): string {
    Encode(Some(value))
  }

  /** `encodeList`: `""` for an empty list, else the encoded elements joined by `;`. */
  function EncodeList(values: seq<string>): string {
    if values == [] then "" else Join(Map(values, EncodeElement), [ListDelimiter])
  }

  /** The elements `parseList` collects from the split column: empty pieces skipped, `None` when one fails to decode. */
  function DecodeElements(elements: seq<string>): Option<seq<string>> {
    if elements == [] then Some([])
    else
      match DecodeElements(elements[..|elements| - 1])
      case None => None
      case Some(decoded) =>
        var element := elements[|elements| - 1];
        if element == "" then Some(decoded)
        else
          match Decode(element)
          case None => None
          case Some(d) => Some(decoded + [d])
  }

  /** What `parseList` returns for a column; `None` where it throws. */
  function DecodeList(encoded: string): Option<seq<string>> {
    if IsBlank(encoded) then Some([]) else DecodeElements(Split(encoded, ListDelimiter))
  }

  lemma DecodeElementsSnoc(elements: seq<string>, i: nat)
    requires i < |elements|
    ensures DecodeElements(elements[..i + 1]) ==
      match DecodeElements(elements[..i])
      case None => None
      case Some(decoded) =>
        if elements[i] == "" then Some(decoded)
        else match Decode(elements[i])
          case None => None
          case Some(d) => Some(decoded + [d])
  {
    assert elements[..i + 1][..i] == elements[..i];
  }

  /** Once one element fails to decode, the whole list fails. */
  lemma {:induction false} DecodeElementsFailure(elements: seq<string>, n: nat)
    requires n <= |elements|
    requires DecodeElements(elements[..n]) == None
    ensures DecodeElements(elements) == None
    decreases |elements| - n
  {
    if n < |elements| {
      DecodeElementsSnoc(elements, n);
      DecodeElementsFailure(elements, n + 1);
    } else {
      assert elements[..n] == elements;
    }
  }

  /** `parseList`: a blank column is the empty list; otherwise every non-empty `;`-piece is decoded in order. */
  method ParseList(encoded: string) returns (r: Option<seq<string>>)
    ensures r == DecodeList(encoded)
  {
    if IsBlank(encoded) {
      return Some([]);
    }
    var elements := Split(encoded, ListDelimiter);
    var decoded: seq<string> := [];
    var i := 0;
    while i < |elements|
      invariant 0 <= i <= |elements|
      invariant DecodeElements(elements[..i]) == Some(decoded)
    {
      var element := elements[i];
      DecodeElementsSnoc(elements, i);
      if element != "" {
        var d := Decode(element);
        if d.None? {
          DecodeElementsFailure(elements, i + 1);
          return None;
        }
        decoded := decoded + [d.value];
      }
      i := i + 1;
    }
    assert elements[..i] == elements;
    return Some(decoded);
  }

  /** The ten columns of a profile's line, in file order. */
  function Columns(p: Profile): seq<string> {
    [Encode(Some(p.fullName)), Encode(p.academicStatus), BoolString(p.employed), Encode(p.jobDetails),
     EncodeList(p.programmingLanguages), EncodeList(p.databases), Encode(p.preferredRole),
     EncodeList(p.comments), BoolString(p.whitelist), BoolString(p.blacklist)]
  }

  /** `formatLine` */
  function FormatLine(p: Profile): string {
    Join(Columns(p), [FieldDelimiter])
  }

  function DecodeColumn(segment: string): Result<string, StoreError> {
    match Decode(segment)
    case None => Err(MalformedBase64)
    case Some(v) => Ok(v)
  }

  function DecodeListColumn(segment: string): Result<seq<string>, StoreError> {
    match DecodeList(segment)
    case None => Err(MalformedBase64)
    case Some(v) => Ok(v)
  }

  /**
   * `parseLine`: `Ok(None)` (the `null` that `loadAll` skips) unless the line has exactly
   * ten columns, `Err` when a text or list column is not valid Base64.
   */
  function ParseLine(line: string): (r: Result<Option<Profile>, StoreError>)
    ensures r == Ok(None) <==> |Split(line, FieldDelimiter)| != ColumnCount
    ensures r.Err? <==> var s := Split(line, FieldDelimiter);
      |s| == ColumnCount
      && (Decode(s[0]).None? || Decode(s[1]).None? || Decode(s[3]).None? || DecodeList(s[4]).None?
          || DecodeList(s[5]).None? || Decode(s[6]).None? || DecodeList(s[7]).None?)
    ensures r.Ok? && r.value.Some? ==> var s, p := Split(line, FieldDelimiter), r.value.value;
      p.employed == ParseBoolean(s[2]) && p.whitelist == ParseBoolean(s[8]) && p.blacklist == ParseBoolean(s[9])
      && Some(p.fullName) == Decode(s[0]) && p.academicStatus == Decode(s[1]) && p.jobDetails == Decode(s[3])
      && p.preferredRole == Decode(s[6]) && Some(p.programmingLanguages) == DecodeList(s[4])
      && Some(p.databases) == DecodeList(s[5]) && Some(p.comments) == DecodeList(s[7])
  {
    var segments := Split(line, FieldDelimiter);
    if |segments| != ColumnCount then Ok(None)
    else
      var fullName :- DecodeColumn(segments[0]);
      var academicStatus :- DecodeColumn(segments[1]);
      var jobDetails :- DecodeColumn(segments[3]);
      var languages :- DecodeListColumn(segments[4]);
      var databases :- DecodeListColumn(segments[5]);
      var preferredRole :- DecodeColumn(segments[6]);
      var comments :- DecodeListColumn(segments[7]);
      Ok(Some(Profile(fullName, Some(academicStatus), ParseBoolean(segments[2]), Some(jobDetails),
        languages, databases, Some(preferredRole), comments, ParseBoolean(segments[8]), ParseBoolean(segments[9]))))
  }

  /** A character of a list column: Base64 or the list delimiter. */
  predicate IsListColumnChar(c: char) {
    Base64.IsEncodedChar(c) || c == ListDelimiter
  }

  /** Every character of `s` is one of a list column. */
  predicate IsListColumn(s: string) {
    forall k | 0 <= k < |s| :: IsListColumnChar(s[k])
  }

  lemma {:induction false} JoinEncodedChars(ys: seq<string>)
    requires forall i, k | 0 <= i < |ys| && 0 <= k < |ys[i]| :: Base64.IsEncodedChar(ys[i][k])
    ensures IsListColumn(Join(ys, [ListDelimiter]))
  {
    if |ys| == 1 {
      assert forall k | 0 <= k < |ys[0]| :: Base64.IsEncodedChar(ys[0][k]);
    } else if |ys| > 1 {
      JoinEncodedChars(ys[1..]);
      var rest := Join(ys[1..], [ListDelimiter]);
      var s := ys[0] + [ListDelimiter] + rest;
      forall k | 0 <= k < |s| ensures IsListColumnChar(s[k]) {
        if k < |ys[0]| {
          assert s[k] == ys[0][k];
          assert Base64.IsEncodedChar(ys[0][k]);
        } else if k > |ys[0]| {
          assert s[k] == rest[k - |ys[0]| - 1];
          assert IsListColumnChar(rest[k - |ys[0]| - 1]);
        } else {
          assert s[k] == ListDelimiter;
        }
      }
    }
  }

  /** A list column is made of Base64 characters and `;` only. */
  lemma EncodeListChars(values: seq<string>)
    ensures IsListColumn(EncodeList(values))
  {
    if values != [] {
      var ys := Map(values, EncodeElement);
      forall i, k | 0 <= i < |ys| && 0 <= k < |ys[i]| ensures Base64.IsEncodedChar(ys[i][k]) {
        assert ys[i] == EncodeElement(values[i]);
      }
      JoinEncodedChars(ys);
      assert EncodeList(values) == Join(ys, [ListDelimiter]);
    }
  }

  lemma EncodeFree(value: Option<string>)
    ensures IsColumnFree(Encode(value)) && ListDelimiter !in Encode(value)
  {
    var s := Encode(value);
    assert forall k | 0 <= k < |s| :: s[k] != FieldDelimiter && s[k] != ListDelimiter;
  }

  lemma EncodeListFree(values: seq<string>)
    ensures IsColumnFree(EncodeList(values))
  {
    var s := EncodeList(values);
    EncodeListChars(values);
    assert forall k | 0 <= k < |s| :: s[k] != FieldDelimiter;
  }

  /** `s` can be a column: it holds no column delimiter. */
  predicate IsColumnFree(s: string) {
    FieldDelimiter !in s
  }

  /** No column of a formatted line contains the column delimiter. */
  lemma ColumnsFree(p: Profile)
    ensures forall i | 0 <= i < |Columns(p)| :: FieldDelimiter !in Columns(p)[i]
  {
    EncodeColumnFree(Some(p.fullName));
    EncodeColumnFree(p.academicStatus);
    EncodeColumnFree(p.jobDetails);
    EncodeColumnFree(p.preferredRole);
    EncodeListFree(p.programmingLanguages);
    EncodeListFree(p.databases);
    EncodeListFree(p.comments);
    BoolStringFree(p.employed);
    BoolStringFree(p.whitelist);
    BoolStringFree(p.blacklist);
    NoColumnHas(Encode(Some(p.fullName)), Encode(p.academicStatus), BoolString(p.employed), Encode(p.jobDetails),
      EncodeList(p.programmingLanguages), EncodeList(p.databases), Encode(p.preferredRole),
      EncodeList(p.comments), BoolString(p.whitelist), BoolString(p.blacklist));
  }

  lemma BoolStringFree(b: bool)
    ensures IsColumnFree(BoolString(b))
  {
  }

  /** A delimiter found in none of ten columns one by one is in none of them. */
  lemma NoColumnHas(c0: string, c1: string, c2: string, c3: string, c4: string,
                    c5: string, c6: string, c7: string, c8: string, c9: string)
    requires IsColumnFree(c0) && IsColumnFree(c1) && IsColumnFree(c2) && IsColumnFree(c3) && IsColumnFree(c4)
    requires IsColumnFree(c5) && IsColumnFree(c6) && IsColumnFree(c7) && IsColumnFree(c8) && IsColumnFree(c9)
    ensures var s := [c0, c1, c2, c3, c4, c5, c6, c7, c8, c9];
      forall i | 0 <= i < |s| :: FieldDelimiter !in s[i]
  {
    var s := [c0, c1, c2, c3, c4, c5, c6, c7, c8, c9];
    forall i | 0 <= i < |s| ensures FieldDelimiter !in s[i] {
      if i < 5 {
        assert i == 0 || i == 1 || i == 2 || i == 3 || i == 4;
      } else {
        assert i == 5 || i == 6 || i == 7 || i == 8 || i == 9;
      }
    }
  }

  lemma EncodeColumnFree(value: Option<string>)
    ensures IsColumnFree(Encode(value))
  {
    EncodeFree(value);
  }

  /** Splitting a formatted line at `|` gives back its ten columns, since Base64 never contains `|`. */
  lemma SplitFormatLine(p: Profile)
    ensures Split(FormatLine(p), FieldDelimiter) == Columns(p)
    ensures |Split(FormatLine(p), FieldDelimiter)| == ColumnCount
  {
    ColumnsFree(p);
    SplitJoin(Columns(p), FieldDelimiter);
  }

  /** A list column read back: the elements in order, without the empty strings. */
  lemma {:induction false} DecodeEncodedElements(values: seq<string>)
    ensures DecodeElements(Map(values, EncodeElement)) == Some(Filter(values, IsNonEmpty))
  {
    if values != [] {
      var init, last := values[..|values| - 1], values[|values| - 1];
      var ys := Map(values, EncodeElement);
      assert ys[..|ys| - 1] == Map(init, EncodeElement);
      DecodeEncodedElements(init);
      DecodeEncode(Some(last));
      assert ys[|ys| - 1] == EncodeElement(last);
    }
  }

  /** An encoded list never contains a whitespace character. */
  lemma EncodedListBlank(values: seq<string>)
    ensures IsBlank(EncodeList(values)) <==> EncodeList(values) == ""
  {
    var s := EncodeList(values);
    EncodeListChars(values);
    if s != "" {
      assert !IsWhitespace(s[0]);
    }
  }

  lemma {:induction false} JoinEmpty(ys: seq<string>, sep: string)
    requires sep != ""
    ensures Join(ys, sep) == "" <==> ys == [] || (|ys| == 1 && ys[0] == "")
  {
  }

  /** No encoded list element contains the list delimiter. */
  lemma EncodedElementsFree(values: seq<string>)
    ensures forall i | 0 <= i < |values| :: ListDelimiter !in Map(values, EncodeElement)[i]
  {
    var ys := Map(values, EncodeElement);
    forall i | 0 <= i < |values| ensures ListDelimiter !in ys[i] {
      assert ys[i] == Encode(Some(values[i]));
      EncodeFree(Some(values[i]));
    }
  }

  /** `parseList` after `encodeList` gives back the list without its empty strings. */
  lemma DecodeEncodeList(values: seq<string>)
    ensures DecodeList(EncodeList(values)) == Some(Filter(values, IsNonEmpty))
  {
    EncodedListBlank(values);
    if values != [] {
      var ys := Map(values, EncodeElement);
      JoinEmpty(ys, [ListDelimiter]);
      if EncodeList(values) == "" {
        assert values == [values[0]] && values[0] == "" by {
          assert EncodeElement(values[0]) == "";
        }
        assert Filter(values, IsNonEmpty) == [];
      } else {
        EncodedElementsFree(values);
        SplitJoin(ys, ListDelimiter);
        DecodeEncodedElements(values);
      }
    }
  }

  /** A list with no empty string survives the round trip. */
  lemma DecodeEncodeListExact(values: seq<string>)
    requires forall i | 0 <= i < |values| :: values[i] != ""
    ensures DecodeList(EncodeList(values)) == Some(values)
  {
    DecodeEncodeList(values);
    FilterKeepsAll(values, IsNonEmpty);
  }

  /** The empty strings of a list are lost: `[""]` reads back as `[]` and `[a, ""]` as `[a]`. */
  lemma EmptyElementsLost(a: string)
    requires a != ""
    ensures DecodeList(EncodeList([""])) == Some([])
    ensures DecodeList(EncodeList([a, ""])) == Some([a])
  {
    DecodeEncodeList([""]);
    DecodeEncodeList([a, ""]);
    assert [""][..0] == [];
    assert Filter([""], IsNonEmpty) == [];
    assert [a, ""][..1] == [a];
    assert [a][..0] == [];
    assert Filter([a], IsNonEmpty) == [a];
    assert Filter([a, ""], IsNonEmpty) == [a];
  }

  /** What a profile looks like after a save and a load: `null` texts become `""`, empty list elements vanish. */
  function Normalized(p: Profile): (q: Profile)
    ensures q.fullName == p.fullName
  {
    p.(academicStatus := Some(p.academicStatus.GetOr("")), jobDetails := Some(p.jobDetails.GetOr("")),
       preferredRole := Some(p.preferredRole.GetOr("")),
       programmingLanguages := Filter(p.programmingLanguages, IsNonEmpty),
       databases := Filter(p.databases, IsNonEmpty), comments := Filter(p.comments, IsNonEmpty))
  }

  /** The ten segments `s` of a line read back, column by column, as the fields of `q`. */
  predicate ReadsBackAs(s: seq<string>, q: Profile) {
    |s| == ColumnCount && TextsReadBackAs(s, q) && ListsReadBackAs(s, q) && FlagsReadBackAs(s, q)
  }

  /** The name, status, job and role columns. */
  predicate TextsReadBackAs(s: seq<string>, q: Profile)
    requires |s| == ColumnCount
  {
    DecodeColumn(s[0]) == Ok(q.fullName)
    && q.academicStatus.Some? && DecodeColumn(s[1]) == Ok(q.academicStatus.value)
    && q.jobDetails.Some? && DecodeColumn(s[3]) == Ok(q.jobDetails.value)
    && q.preferredRole.Some? && DecodeColumn(s[6]) == Ok(q.preferredRole.value)
  }

  /** The language, database and comment columns. */
  predicate ListsReadBackAs(s: seq<string>, q: Profile)
    requires |s| == ColumnCount
  {
    DecodeListColumn(s[4]) == Ok(q.programmingLanguages)
    && DecodeListColumn(s[5]) == Ok(q.databases)
    && DecodeListColumn(s[7]) == Ok(q.comments)
  }

  /** The employed, whitelist and blacklist columns. */
  predicate FlagsReadBackAs(s: seq<string>, q: Profile)
    requires |s| == ColumnCount
  {
    ParseBoolean(s[2]) == q.employed && ParseBoolean(s[8]) == q.whitelist && ParseBoolean(s[9]) == q.blacklist
  }

  /** A line whose segments read back as `q` parses to `q`. */
  lemma ParseSegments(line: string, q: Profile)
    requires ReadsBackAs(Split(line, FieldDelimiter), q)
    ensures ParseLine(line) == Ok(Some(q))
  {
  }

  /** Each column `formatLine` writes decodes to the field of the normalised profile. */
  lemma ColumnsReadBack(p: Profile)
    ensures ReadsBackAs(Columns(p), Normalized(p))
  {
    DecodeEncode(Some(p.fullName));
    DecodeEncode(p.academicStatus);
    DecodeEncode(p.jobDetails);
    DecodeEncode(p.preferredRole);
    DecodeEncodeList(p.programmingLanguages);
    DecodeEncodeList(p.databases);
    DecodeEncodeList(p.comments);
    ParseBooleanOfBoolString(p.employed);
    ParseBooleanOfBoolString(p.whitelist);
    ParseBooleanOfBoolString(p.blacklist);
    ColumnValuesReadBack(Encode(Some(p.fullName)), Encode(p.academicStatus), BoolString(p.employed),
      Encode(p.jobDetails), EncodeList(p.programmingLanguages), EncodeList(p.databases), Encode(p.preferredRole),
      EncodeList(p.comments), BoolString(p.whitelist), BoolString(p.blacklist), Normalized(p));
  }

  /** Ten columns that each decode to the matching field of `q` read back as `q`. */
  lemma ColumnValuesReadBack(c0: string, c1: string, c2: string, c3: string, c4: string,
                             c5: string, c6: string, c7: string, c8: string, c9: string, q: Profile)
    requires Decode(c0) == Some(q.fullName) && Decode(c1) == q.academicStatus && q.academicStatus.Some?
    requires Decode(c3) == q.jobDetails && q.jobDetails.Some? && Decode(c6) == q.preferredRole && q.preferredRole.Some?
    requires DecodeList(c4) == Some(q.programmingLanguages) && DecodeList(c5) == Some(q.databases)
    requires DecodeList(c7) == Some(q.comments)
    requires ParseBoolean(c2) == q.employed && ParseBoolean(c8) == q.whitelist && ParseBoolean(c9) == q.blacklist
    ensures ReadsBackAs([c0, c1, c2, c3, c4, c5, c6, c7, c8, c9], q)
  {
  }

  /** `parseLine(formatLine(p))` is the normalised `p`. */
  lemma ParseFormatLine(p: Profile)
    ensures ParseLine(FormatLine(p)) == Ok(Some(Normalized(p)))
  {
    SplitFormatLine(p);
    ColumnsReadBack(p);
    ParseSegments(FormatLine(p), Normalized(p));
  }

  /** A profile with no `null` text and no empty list element is stored exactly. */
  predicate IsStorable(p: Profile) {
    p.academicStatus.Some? && p.jobDetails.Some? && p.preferredRole.Some?
    && (forall i | 0 <= i < |p.programmingLanguages| :: p.programmingLanguages[i] != "")
    && (forall i | 0 <= i < |p.databases| :: p.databases[i] != "")
    && (forall i | 0 <= i < |p.comments| :: p.comments[i] != "")
  }

  lemma ParseFormatLineExact(p: Profile)
    requires IsStorable(p)
    ensures ParseLine(FormatLine(p)) == Ok(Some(p))
  {
    ParseFormatLine(p);
    FilterKeepsAll(p.programmingLanguages, IsNonEmpty);
    FilterKeepsAll(p.databases, IsNonEmpty);
    FilterKeepsAll(p.comments, IsNonEmpty);
  }

  /** A `null` status comes back as the empty string. */
  lemma NullFieldBecomesEmpty(p: Profile)
    requires p.academicStatus.None?
    ensures var r := ParseLine(FormatLine(p)); r.Ok? && r.value.Some? && r.value.value.academicStatus == Some("")
  {
    ParseFormatLine(p);
  }

  /** The profiles `loadAll` collects from the lines, in file order: blank lines and lines without ten columns skipped. */
  function ParsedProfiles(lines: seq<string>): Result<seq<Profile>, StoreError> {
    if lines == [] then Ok([])
    else
      var profiles :- ParsedProfiles(lines[..|lines| - 1]);
      var line := lines[|lines| - 1];
      if IsBlank(line) then Ok(profiles)
      else
        var parsed :- ParseLine(line);
        match parsed
        case None => Ok(profiles)
        case Some(p) => Ok(profiles + [p])
  }

  /** What `loadAll` returns for a file: the parsed profiles sorted by name, ignoring case. */
  function Loaded(file: StoredFile): Result<seq<Profile>, StoreError> {
    match file
    case Missing => Ok([])
    case Unreadable => Err(ReadFailed)
    case Text(content) =>
      var profiles :- ParsedProfiles(ReadAllLines(content));
      Ok(SortBy(profiles, FullNameOf))
  }

  /** The lines `saveAll` writes: one per profile, in name order. */
  function SavedLines(profiles: seq<Profile>): seq<string> {
    Map(SortBy(profiles, FullNameOf), FormatLine)
  }

  /** The text `saveAll` writes: each saved line followed by the platform separator. */
  function SavedText(profiles: seq<Profile>, lineSep: string): string {
    WrittenText(SavedLines(profiles), lineSep)
  }

  /** The file a completed `saveAll` leaves, replacing what was there. */
  function SavedFile(profiles: seq<Profile>, lineSep: string): StoredFile {
    Text(SavedText(profiles, lineSep))
  }

  /**
   * How a screen's call of `loadAll` ends: with the profiles; with the `IOException` of an
   * unreadable file, which every screen catches; or with the `IllegalArgumentException` of
   * a column that is not Base64, which no screen catches, so that it leaves the screen's
   * method before anything is assigned.
   */
  datatype LoadOutcome = ProfilesLoaded | LoadCaught | LoadEscaped

  /** The outcome of a `loadAll` that returned `r`. */
  function OutcomeOf(r: Result<seq<Profile>, StoreError>): (o: LoadOutcome)
    ensures o == ProfilesLoaded <==> r.Ok?
    ensures o == LoadEscaped <==> r == Err(MalformedBase64)
  {
    match r
    case Ok(_) => ProfilesLoaded
    case Err(e) => if e == MalformedBase64 then LoadEscaped else LoadCaught
  }

  /** `deleteByName`'s `removeIf`: the profiles whose name is not the trimmed argument, ignoring case. */
  function WithoutName(profiles: seq<Profile>, name: string): seq<Profile> {
    Filter(profiles, p => KeptBesides(p, name))
  }

  /** The `removeIf` predicate, negated: the profile's name is not `name`, ignoring case. */
  predicate KeptBesides(p: Profile, name: string) {
    !EqualsIgnoreCase(p.fullName, name)
  }

  /** `removeIf` keeps exactly the profiles whose name does not match, in their order. */
  lemma WithoutNameMembers(profiles: seq<Profile>, name: string)
    ensures |WithoutName(profiles, name)| <= |profiles|
    ensures forall p | p in WithoutName(profiles, name) :: p in profiles && !EqualsIgnoreCase(p.fullName, name)
    ensures forall i | 0 <= i < |profiles| && !EqualsIgnoreCase(profiles[i].fullName, name) ::
      profiles[i] in WithoutName(profiles, name)
    ensures |WithoutName(profiles, name)| == |profiles| <==> forall i | 0 <= i < |profiles| :: !EqualsIgnoreCase(profiles[i].fullName, name)
  {
    FilterMembers(profiles, p => KeptBesides(p, name));
    FilterDropsNone(profiles, p => KeptBesides(p, name));
  }

  /** A list whose names are in order stays in order when some of it is removed. */
  lemma {:induction false} WithoutNameSorted(profiles: seq<Profile>, name: string)
    requires SortedBy(profiles, FullNameOf)
    ensures SortedBy(WithoutName(profiles, name), FullNameOf)
  {
    if profiles != [] {
      var init, last := profiles[..|profiles| - 1], profiles[|profiles| - 1];
      WithoutNameSorted(init, name);
      WithoutNameMembers(init, name);
      var kept := WithoutName(init, name);
      if !EqualsIgnoreCase(last.fullName, name) {
        forall i, j | 0 <= i < j < |kept + [last]| ensures NameLeq(FullNameOf((kept + [last])[i]), FullNameOf((kept + [last])[j])) {
          if j == |kept| {
            assert kept[i] in init;
            var k :| 0 <= k < |init| && init[k] == kept[i];
            assert profiles[k] == kept[i];
          }
        }
      }
    }
  }

  class StudentProfileRepository {
    var file: StoredFile

    constructor(file: StoredFile)
      ensures this.file == file
    {
      this.file := file;
    }

    /**
     * `loadAll`: a missing file is no profiles; otherwise the non-blank lines are parsed in
     * order, the ten-column ones kept, and the result sorted by name ignoring case.
     */
    method LoadAll() returns (r: Result<seq<Profile>, StoreError>)
      ensures r == Loaded(file)
    {
      match file {
        case Missing =>
          return Ok([]);
        case Unreadable =>
          return Err(ReadFailed);
        case Text(content) =>
          var lines := ReadAllLines(content);
          var profiles: seq<Profile> := [];
          var i := 0;
          while i < |lines|
            invariant 0 <= i <= |lines|
            invariant ParsedProfiles(lines[..i]) == Ok(profiles)
          {
            var line := lines[i];
            ParsedProfilesSnoc(lines, i);
            if !IsBlank(line) {
              var parsed := ParseLine(line);
              if parsed.Err? {
                ParsedProfilesFailure(lines, i + 1);
                return Err(parsed.error);
              }
              if parsed.value.Some? {
                profiles := profiles + [parsed.value.value];
              }
            }
            i := i + 1;
          }
          assert lines[..i] == lines;
          profiles := SortBy(profiles, FullNameOf);
          return Ok(profiles);
      }
    }

    /**
     * `saveAll`: the file is rewritten with one line per profile, in name order. A failed
     * write raises `WriteFailed` and leaves the file as `AfterWrite` says: untouched when
     * opening failed, truncated to a prefix of the new text when writing did.
     */
    method SaveAll(profiles: seq<Profile>, lineSep: string, write: WriteResult) returns (r: Result<(), StoreError>)
      modifies this
      ensures r.Ok? <==> write.Completed?
      ensures r.Err? ==> r.error == WriteFailed
      ensures file == AfterWrite(old(file), SavedText(profiles, lineSep), write)
      ensures r.Ok? ==> file == SavedFile(profiles, lineSep)
    {
      file := AfterWrite(file, SavedText(profiles, lineSep), write);
      if write.Completed? {
        return Ok(());
      }
      return Err(WriteFailed);
    }

    /**
     * `deleteByName`: a missing or blank name removes nothing; otherwise every stored profile
     * whose name matches the trimmed argument ignoring case goes, and the file is rewritten
     * only when one did.
     */
    method DeleteByName(fullName: Option<string>, lineSep: string, write: WriteResult) returns (r: Result<bool, StoreError>)
      modifies this
      ensures fullName.None? || IsBlank(fullName.value) ==> r == Ok(false) && file == old(file)
      ensures fullName.Some? && !IsBlank(fullName.value) && Loaded(old(file)).Err? ==>
        r == Err(Loaded(old(file)).error) && file == old(file)
      ensures fullName.Some? && !IsBlank(fullName.value) && Loaded(old(file)).Ok? ==>
        var profiles := Loaded(old(file)).value;
        var kept := WithoutName(profiles, Trim(fullName.value));
        if |kept| == |profiles| then r == Ok(false) && file == old(file)
        else if write.Completed? then r == Ok(true) && file == SavedFile(kept, lineSep)
        else r == Err(WriteFailed) && file == AfterWrite(old(file), SavedText(kept, lineSep), write)
    {
      if fullName.None? || IsBlank(fullName.value) {
        return Ok(false);
      }
      var loaded := LoadAll();
      if loaded.Err? {
        return Err(loaded.error);
      }
      var profiles := loaded.value;
      var kept := WithoutName(profiles, Trim(fullName.value));
      var removed := |kept| < |profiles|;
      if removed {
        var saved := SaveAll(kept, lineSep, write);
        if saved.Err? {
          return Err(saved.error);
        }
      }
      return Ok(removed);
    }
  }

  lemma ParsedProfilesSnoc(lines: seq<string>, i: nat)
    requires i < |lines|
    ensures ParsedProfiles(lines[..i + 1]) ==
      match ParsedProfiles(lines[..i])
      case Err(e) => Err(e)
      case Ok(profiles) =>
        if IsBlank(lines[i]) then Ok(profiles)
        else match ParseLine(lines[i])
          case Err(e) => Err(e)
          case Ok(None) => Ok(profiles)
          case Ok(Some(p)) => Ok(profiles + [p])
  {
    assert lines[..i + 1][..i] == lines[..i];
  }

  /** A line that fails to parse makes the whole load fail with its error. */
  lemma {:induction false} ParsedProfilesFailure(lines: seq<string>, n: nat)
    requires n <= |lines|
    requires ParsedProfiles(lines[..n]).Err?
    ensures ParsedProfiles(lines) == Err(ParsedProfiles(lines[..n]).error)
    decreases |lines| - n
  {
    if n < |lines| {
      ParsedProfilesSnoc(lines, n);
      ParsedProfilesFailure(lines, n + 1);
    } else {
      assert lines[..n] == lines;
    }
  }

  /** The result of a successful load is in name order, and a permutation of what was parsed. */
  lemma LoadedSorted(file: StoredFile)
    requires Loaded(file).Ok?
    ensures SortedBy(Loaded(file).value, FullNameOf)
    ensures file.Text? ==> multiset(Loaded(file).value) == multiset(ParsedProfiles(ReadAllLines(file.content)).value)
  {
    if file.Text? {
      SortBySorted(ParsedProfiles(ReadAllLines(file.content)).value, FullNameOf);
    }
  }

  /** Joining one-line texts with a one-line separator gives one line. */
  lemma {:induction false} JoinOneLine(xs: seq<string>, sep: string)
    requires IsOneLine(sep)
    requires forall i | 0 <= i < |xs| :: IsOneLine(xs[i])
    ensures IsOneLine(Join(xs, sep))
  {
    if |xs| > 1 {
      JoinOneLine(xs[1..], sep);
    }
  }

  lemma EncodeOneLine(value: Option<string>)
    ensures IsOneLine(Encode(value))
  {
    var s := Encode(value);
    assert forall k | 0 <= k < |s| :: Base64.IsEncodedChar(s[k]);
  }

  lemma EncodeListOneLine(values: seq<string>)
    ensures IsOneLine(EncodeList(values))
  {
    var s := EncodeList(values);
    EncodeListChars(values);
    assert forall k | 0 <= k < |s| :: IsListColumnChar(s[k]);
  }

  /** A formatted line holds no line end, so the file reads it back as one line. */
  lemma FormatLineOneLine(p: Profile)
    ensures IsOneLine(FormatLine(p))
  {
    var cs := Columns(p);
    assert forall i | 0 <= i < |cs| :: IsOneLine(cs[i]) by {
      EncodeOneLine(Some(p.fullName));
      EncodeOneLine(p.academicStatus);
      EncodeOneLine(p.jobDetails);
      EncodeOneLine(p.preferredRole);
      EncodeListOneLine(p.programmingLanguages);
      EncodeListOneLine(p.databases);
      EncodeListOneLine(p.comments);
      ColumnsOneLine(cs[0], cs[1], cs[2], cs[3], cs[4], cs[5], cs[6], cs[7], cs[8], cs[9]);
      assert cs == [cs[0], cs[1], cs[2], cs[3], cs[4], cs[5], cs[6], cs[7], cs[8], cs[9]];
    }
    JoinOneLine(cs, [FieldDelimiter]);
  }

  /** Ten columns that are each one line. */
  lemma ColumnsOneLine(c0: string, c1: string, c2: string, c3: string, c4: string,
                       c5: string, c6: string, c7: string, c8: string, c9: string)
    requires IsOneLine(c0) && IsOneLine(c1) && IsOneLine(c2) && IsOneLine(c3) && IsOneLine(c4)
    requires IsOneLine(c5) && IsOneLine(c6) && IsOneLine(c7) && IsOneLine(c8) && IsOneLine(c9)
    ensures var s := [c0, c1, c2, c3, c4, c5, c6, c7, c8, c9];
      forall i | 0 <= i < |s| :: IsOneLine(s[i])
  {
    var s := [c0, c1, c2, c3, c4, c5, c6, c7, c8, c9];
    forall i | 0 <= i < |s| ensures IsOneLine(s[i]) {
      if i < 5 {
        assert i == 0 || i == 1 || i == 2 || i == 3 || i == 4;
      } else {
        assert i == 5 || i == 6 || i == 7 || i == 8 || i == 9;
      }
    }
  }

  /** A formatted line is never blank: it contains `|`. */
  lemma FormatLineNotBlank(p: Profile)
    ensures !IsBlank(FormatLine(p))
  {
    var cs := Columns(p);
    assert FormatLine(p) == cs[0] + [FieldDelimiter] + Join(cs[1..], [FieldDelimiter]);
    assert FormatLine(p)[|cs[0]|] == FieldDelimiter;
  }

  lemma {:induction false} ParsedFormattedLines(profiles: seq<Profile>)
    ensures ParsedProfiles(Map(profiles, FormatLine)) == Ok(Map(profiles, Normalized))
  {
    if profiles != [] {
      var init, last := profiles[..|profiles| - 1], profiles[|profiles| - 1];
      assert profiles == init + [last];
      MapConcat(init, [last], FormatLine);
      MapConcat(init, [last], Normalized);
      assert Map([last], FormatLine) == [FormatLine(last)];
      assert Map([last], Normalized) == [Normalized(last)];
      ParsedFormattedLines(init);
      ParsedFormattedLine(Map(init, FormatLine), last);
    } else {
      assert Map(profiles, FormatLine) == [];
      assert Map(profiles, Normalized) == [];
    }
  }

  /** One more formatted line adds its profile, normalised, to what was loaded. */
  lemma ParsedFormattedLine(lines: seq<string>, p: Profile)
    requires ParsedProfiles(lines).Ok?
    ensures ParsedProfiles(lines + [FormatLine(p)]) == Ok(ParsedProfiles(lines).value + [Normalized(p)])
  {
    var all := lines + [FormatLine(p)];
    assert all[..|all| - 1] == lines;
    FormatLineNotBlank(p);
    ParseFormatLine(p);
  }

  lemma NormalizedSorted(profiles: seq<Profile>)
    requires SortedBy(profiles, FullNameOf)
    ensures SortedBy(Map(profiles, Normalized), FullNameOf)
  {
    var ns := Map(profiles, Normalized);
    assert forall i | 0 <= i < |ns| :: ns[i].fullName == profiles[i].fullName;
  }

  /** Loading after a successful save gives the saved profiles in name order, normalised. */
  lemma LoadAfterSave(profiles: seq<Profile>, lineSep: string)
    requires IsLineSeparator(lineSep)
    ensures Loaded(SavedFile(profiles, lineSep)) == Ok(Map(SortBy(profiles, FullNameOf), Normalized))
  {
    var sorted := SortBy(profiles, FullNameOf);
    var lines := SavedLines(profiles);
    forall i | 0 <= i < |lines| ensures IsOneLine(lines[i]) {
      FormatLineOneLine(sorted[i]);
    }
    ReadWrittenLines(lines, lineSep);
    ParsedFormattedLines(sorted);
    SortBySorted(profiles, FullNameOf);
    NormalizedSorted(sorted);
    SortBySortedIdentity(Map(sorted, Normalized), FullNameOf);
  }

  /**
   * A save that fails after `Files.write` has truncated the file can lose what was stored:
   * cut before its first character, the file loads as no profiles at all.
   */
  lemma TruncatedSaveLosesAll(before: StoredFile, profiles: seq<Profile>, lineSep: string)
    ensures Loaded(AfterWrite(before, SavedText(profiles, lineSep), FailedAfterTruncate(0))) == Ok([])
  {
    var text := SavedText(profiles, lineSep);
    assert text[..0] == "";
  }
}
