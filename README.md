# Student profile manager — verified model

This project models the core of a JavaFX desktop application (package
`cs151.application`). Faculty use it to keep student profiles: name, academic status,
employment and job details, programming languages, databases, preferred role, dated
comments, and whitelist/blacklist flags. It also keeps a list of programming languages.
The model covers:

- **Storage.** `StudentProfileRepository` writes one line per profile: ten `|`-separated
  columns, text as Base64 of UTF-8, and lists as `;`-joined Base64 elements. It reads them
  back, sorts them case-insensitively by name, and deletes by name. `LanguageRepository`
  keeps one language per line, trimmed and sorted.
- **Profile value.** `StudentProfile` is the `Profile` datatype. Its display helpers
  include the grouping of comments by date (`formatComments`).
- **Screens.** The state the screens keep and change: define languages, create a
  profile, edit a profile, search, reports, report detail, and view and add comments.
  Their validation is in the order the code performs it.

Modules:

| module | file | models |
|---|---|---|
| `Wrappers` | wrappers.dfy | `Option`, `Result` |
| `Seqs` | seqs.dfy | stream `filter`/`map`, `List.remove`, `LinkedHashSet` order |
| `JavaStrings` | java_strings.dfy | `String.trim`, `indexOf`, `split` at the bar with limit -1, `split("\\R")`, `String.join`, ASCII `toLowerCase` |
| `CaseInsensitiveOrder` | case_insensitive_order.dfy | `String.CASE_INSENSITIVE_ORDER` and the stable list sort |
| `Utf8`, `Base64` | utf8.dfy, base64.dfy | `getBytes(UTF_8)`, `new String(…, UTF_8)`, `Base64.getEncoder/getDecoder` |
| `StoredFiles` | stored_file.dfy | a file as missing, unreadable, or its text; `Files.write` and `Files.readAllLines` |
| `StudentProfiles` | student_profile.dfy | `StudentProfile` |
| `ProfileRepository` | profile_repository.dfy | `StudentProfileRepository` (class `StudentProfileRepository`) |
| `LanguageRepository` | language_repository.dfy | `LanguageRepository` |
| `ProfileForm` | profile_form.dfy | the form controls and the create/edit validation |
| `DefineLanguageController` | define_language_controller.dfy | `DefineLanguageController` (class `LanguageScreen`) |
| `StudentProfileController` | student_profile_controller.dfy | `StudentProfileController` (classes `ProfileTable`, `CreateProfileScreen`) |
| `EditStudentProfileController`, `SearchReturn` | edit_profile_controller.dfy, search_return.dfy | `EditStudentProfileController` |
| `SearchStudentProfileController` | search_controller.dfy | `SearchStudentProfileController` |
| `ReportsController`, `ReportStudentDetailController` | reports_controller.dfy, report_detail.dfy | the two report screens |
| `ViewStudentCommentsController` | view_comments_controller.dfy | `ViewStudentCommentsController` |

The main results:

- `ProfileRepository.LoadAfterSave`: loading after a save gives back the saved profiles,
  sorted by name, with `null` texts read as `""` and empty list elements dropped. It rests
  on the round trips of Base64, UTF-8, `split` and `parseList`.
- `LanguageRepository.LoadAfterSave`: the same for the language list, when no name holds a
  line end. `LineBreakSplitsName` shows that a name with an LF inside comes back as two names.
- `StudentProfiles.FormatCommentsReadBack`: the text `formatComments` puts in the comments
  column of the profile tables loses nothing: split into trimmed non-blank lines, it gives
  back the non-blank comments. The edit form fills its text area differently, by joining
  the comments with the line separator, and `CommentLinesOfJoin` proves that text re-parses
  to the comments.
- The screens' methods keep the profile or language list sorted case-insensitively and
  free of names that are equal ignoring case. When a save fails, they restore the list
  exactly. The table's own `sort()` afterwards is not modelled (see "Left out").

Two things in the code differ from the system's design description. The model follows
the code:

- `LanguageRepository.saveAll` does not deduplicate names (`DuplicatesKept`).
- A stored profile column that is not valid Base64 is not dropped. The decoder's
  exception makes the whole `loadAll` fail (`ParsedProfilesFailure`, `ParseLine`).

## Model

| member | source | states |
|---|---|---|
| Base64.DecodeEncodeSextet | src/main/java/cs151/application/StudentProfileRepository.java:136-144 | Decoding an alphabet character inverts encoding a 6-bit value. |
| Base64.Encode | src/main/java/cs151/application/StudentProfileRepository.java:138 | Base64 output length is a multiple of 4, and is empty exactly when the input is empty. |
| Base64.EncodeAlphabet | src/main/java/cs151/application/StudentProfileRepository.java:138 | Every output character is from the basic alphabet of RFC 4648 section 4, or the pad `=`. |
| Base64.Decode | src/main/java/cs151/application/StudentProfileRepository.java:142 | A successful decode yields no more bytes than there are characters. |
| Base64.DecodeEncode | src/main/java/cs151/application/StudentProfileRepository.java:136-144 | Decoding the encoding of any byte sequence gives it back. |
| Base64.EncodedChars | src/main/java/cs151/application/StudentProfileRepository.java:20-21 | An encoded character is printable, not a space, and never the bar character or `;`. |
| Base64.EncodeEmpty | src/main/java/cs151/application/StudentProfileRepository.java:138 | The encoding is empty exactly when the bytes are. |
| Base64.EncodeText | src/main/java/cs151/application/StudentProfileRepository.java:136-139 | The Base64 of a text's UTF-8 bytes is empty exactly for the empty text and uses only Base64 characters. |
| Base64.DecodeEncodeText | src/main/java/cs151/application/StudentProfileRepository.java:136-144 | `decode(encode(s))` is `s` for every text. |
| Utf8.EncodeChar | src/main/java/cs151/application/StudentProfileRepository.java:138 | A character becomes one to four bytes. |
| Utf8.DecodeEncodedChar | src/main/java/cs151/application/StudentProfileRepository.java:138-143 | The decoder reads back an encoded character, consuming exactly its bytes. |
| Utf8.DecodeEncode | src/main/java/cs151/application/StudentProfileRepository.java:138-143 | UTF-8 decoding inverts UTF-8 encoding. |
| Utf8.EncodeInjective | src/main/java/cs151/application/StudentProfileRepository.java:138 | Different texts have different UTF-8 bytes. |
| Utf8.EncodeEmpty | src/main/java/cs151/application/StudentProfileRepository.java:138 | Only the empty text encodes to no bytes. |
| StoredFiles.ReadAllLines | src/main/java/cs151/application/StudentProfileRepository.java:48 | `readAllLines` returns lines free of CR and LF, and no more lines than the text has characters. |
| StoredFiles.ReadWrittenLines | src/main/java/cs151/application/StudentProfileRepository.java:48-79 | Lines without CR or LF, written with either platform separator by `Files.write`, read back exactly. |
| StoredFiles.WrittenBreakSplits | src/main/java/cs151/application/LanguageRepository.java:48-75 | A written line with an LF inside reads back as two lines. |
| StoredFiles.AfterWrite | src/main/java/cs151/application/StudentProfileRepository.java:77-78 | A completed write leaves the new text. A write that fails before opening leaves the file as it was, and one that fails after truncating leaves a prefix of the new text. |
| JavaStrings.Trim | src/main/java/cs151/application/LanguageRepository.java:49 | `trim` returns a trimmed string no longer than its input. |
| JavaStrings.TrimEmpty | src/main/java/cs151/application/LanguageRepository.java:49-50 | `trim` gives the empty string exactly when every character is at most U+0020. |
| JavaStrings.TrimChars | src/main/java/cs151/application/LanguageRepository.java:49 | `trim` only removes characters. |
| JavaStrings.TrimOfTrimmed | src/main/java/cs151/application/LanguageRepository.java:49 | A string without leading or trailing blanks is its own trim. |
| JavaStrings.TrimIdempotent | src/main/java/cs151/application/LanguageRepository.java:49 | Trimming twice is trimming once. |
| JavaStrings.TrimOrEmpty | src/main/java/cs151/application/EditStudentProfileController.java:380-382 | `null` becomes `""`; any other value is trimmed. |
| JavaStrings.Lower | src/main/java/cs151/application/SearchStudentProfileController.java:286 | Lower-casing keeps the length. |
| JavaStrings.IndexOfIsFirst | src/main/java/cs151/application/StudentProfile.java:121 | `indexOf` returns the first occurrence, and -1 only when there is none. |
| JavaStrings.IndexFromIsFirst | src/main/java/cs151/application/StudentProfile.java:121 | The search from an index finds the first occurrence at or after it. |
| JavaStrings.JoinAppend | src/main/java/cs151/application/StudentProfile.java:98-104 | Joining one more element appends the separator and the element. |
| JavaStrings.Split | src/main/java/cs151/application/StudentProfileRepository.java:102 | `split` with limit -1 gives at least one piece, and no piece contains the delimiter. |
| JavaStrings.SplitJoin | src/main/java/cs151/application/StudentProfileRepository.java:102-134 | Splitting a join gives back the pieces when none contains the delimiter. |
| JavaStrings.JoinSplit | src/main/java/cs151/application/StudentProfileRepository.java:102 | Joining the pieces of a split gives back the string. |
| JavaStrings.SplitConcat | src/main/java/cs151/application/StudentProfileRepository.java:102 | Splitting at a delimiter splits the two sides independently. |
| JavaStrings.FirstLineBreak | src/main/java/cs151/application/EditStudentProfileController.java:175 | The first character that `\R` matches, with no line break before it. |
| JavaStrings.DropTrailingEmpty | src/main/java/cs151/application/EditStudentProfileController.java:175 | `split` with limit 0 removes only trailing empty pieces, and leaves no empty piece last. |
| JavaStrings.LinePiecesSingle | src/main/java/cs151/application/EditStudentProfileController.java:175 | A text without line breaks is a single piece. |
| JavaStrings.LinePiecesJoin | src/main/java/cs151/application/EditStudentProfileController.java:175 | An LF or CRLF separator between two texts splits them apart, unless the first ends in a lone CR. |
| CaseInsensitiveOrder.NameLeqTotal | src/main/java/cs151/application/StudentProfileRepository.java:60 | `CASE_INSENSITIVE_ORDER` is total. |
| CaseInsensitiveOrder.NameLeqTransitive | src/main/java/cs151/application/StudentProfileRepository.java:60 | `CASE_INSENSITIVE_ORDER` is transitive. |
| CaseInsensitiveOrder.NameEquivalence | src/main/java/cs151/application/StudentProfileRepository.java:60 | Two names compare as equal exactly when `equalsIgnoreCase` holds. |
| CaseInsensitiveOrder.Insert | src/main/java/cs151/application/StudentProfileRepository.java:60 | Inserting adds exactly one element and keeps all the others. |
| CaseInsensitiveOrder.SortBy | src/main/java/cs151/application/StudentProfileRepository.java:60 | The sort is a permutation of its input. |
| CaseInsensitiveOrder.InsertSorted | src/main/java/cs151/application/StudentProfileRepository.java:60 | Inserting into a sorted list keeps it sorted. |
| CaseInsensitiveOrder.SortBySorted | src/main/java/cs151/application/StudentProfileRepository.java:60 | The sorted list is in case-insensitive key order. |
| CaseInsensitiveOrder.SortByStable | src/main/java/cs151/application/StudentProfileRepository.java:60 | The sort is stable: elements with equal keys keep their relative order. |
| CaseInsensitiveOrder.SortBySortedIdentity | src/main/java/cs151/application/LanguageRepository.java:51 | Sorting a list that is already in order changes nothing. |
| CaseInsensitiveOrder.SortByIdempotent | src/main/java/cs151/application/LanguageRepository.java:51 | Sorting twice is sorting once. |
| CaseInsensitiveOrder.SortByUniqueKeys | src/main/java/cs151/application/StudentProfileController.java:405-406 | Sorting neither creates nor removes two keys that are equal ignoring case. |
| CaseInsensitiveOrder.AppendFreshKey | src/main/java/cs151/application/StudentProfileController.java:289-296 | Appending an element whose key matches no existing key keeps the keys unique. |
| CaseInsensitiveOrder.RemoveInsertedSorted | src/main/java/cs151/application/StudentProfileController.java:354-361 | Removing a fresh element just added to a sorted list and re-sorted gives the list back. |
| CaseInsensitiveOrder.AddFresh | src/main/java/cs151/application/StudentProfileController.java:354-361 | Adding a fresh element and sorting gives a sorted list with exactly one more element. Removing that element restores the list, and unique keys stay unique. |
| Seqs.MapConcat | src/main/java/cs151/application/LanguageRepository.java:48-53 | Mapping distributes over concatenation. |
| Seqs.Filter | src/main/java/cs151/application/LanguageRepository.java:50 | A stream filter returns no more elements than it is given. |
| Seqs.FilterConcat | src/main/java/cs151/application/LanguageRepository.java:50 | Filtering distributes over concatenation, so it keeps the input order. |
| Seqs.FilterCount | src/main/java/cs151/application/SearchStudentProfileController.java:259-265 | An element passing the filter occurs as often as in the input, and otherwise not at all. |
| Seqs.FilterSubMultiset | src/main/java/cs151/application/SearchStudentProfileController.java:259-265 | The filtered list is a sub-multiset of the input. |
| Seqs.FilterKeepsAll | src/main/java/cs151/application/LanguageRepository.java:50 | A filter that every element passes changes nothing. |
| Seqs.FilterMembers | src/main/java/cs151/application/LanguageRepository.java:50 | The filter keeps exactly the elements that pass it. |
| Seqs.FilterDropsNone | src/main/java/cs151/application/StudentProfileRepository.java:94-95 | A filter drops nothing exactly when every element passes it, which is how `removeIf` reports a removal. |
| Seqs.FilterEmpty | src/main/java/cs151/application/StudentProfile.java:106-116 | A filter keeps nothing exactly when no element passes it. |
| Seqs.RemoveFirstMultiset | src/main/java/cs151/application/StudentProfileController.java:361 | `List.remove` takes out one copy of the element when present, else changes nothing. |
| Seqs.RemoveInserted | src/main/java/cs151/application/DefineLanguageController.java:93 | Removing the only copy of an inserted element gives back the list. |
| Seqs.Distinct | src/main/java/cs151/application/EditStudentProfileController.java:271-272 | `LinkedHashSet` order: every element once, nothing new, no duplicates. |
| Seqs.DistinctConcat | src/main/java/cs151/application/EditStudentProfileController.java:271-272 | Adding a second list to the set appends its new elements, in order, after the first list's set. |
| Seqs.DistinctOfDistinct | src/main/java/cs151/application/EditStudentProfileController.java:271 | A list without duplicates is its own set order. |
| StudentProfiles.JobDetailsDisplay | src/main/java/cs151/application/StudentProfile.java:63-68 | Non-blank details are shown unchanged. `""` is shown exactly when the student is employed with null or blank details; otherwise `N/A`. |
| StudentProfiles.JobStatusLabel | src/main/java/cs151/application/StudentProfile.java:94-96 | `Employed` exactly when employed, otherwise `Not Employed`. |
| StudentProfiles.WhitelistLabel | src/main/java/cs151/application/StudentProfile.java:142-144 | `Yes` exactly when whitelisted, otherwise `No`. |
| StudentProfiles.BlacklistLabel | src/main/java/cs151/application/StudentProfile.java:146-148 | `Yes` exactly when blacklisted, otherwise `No`. |
| StudentProfiles.FormatLanguages | src/main/java/cs151/application/StudentProfile.java:98-100 | No languages are shown as `""`, and a single language as itself. |
| StudentProfiles.FormatDatabases | src/main/java/cs151/application/StudentProfile.java:102-104 | No databases are shown as `""`, and a single database as itself. |
| StudentProfiles.FormatLanguagesAppend | src/main/java/cs151/application/StudentProfile.java:98-100 | The stored languages are shown in order, separated by `, `. |
| StudentProfiles.FormatDatabasesAppend | src/main/java/cs151/application/StudentProfile.java:102-104 | The stored databases are shown in order, separated by `, `. |
| StudentProfiles.DashFromIsIndexFrom | src/main/java/cs151/application/StudentProfile.java:121 | The character scan for `" - "` is `indexOf`. |
| StudentProfiles.DatePrefixIsBeforeFirstDash | src/main/java/cs151/application/StudentProfile.java:120-124 | A comment has a date prefix exactly when its first `" - "` is at index 8 or later. The prefix is the text before it. |
| StudentProfiles.StampedDatePrefix | src/main/java/cs151/application/StudentProfile.java:120-124 | A comment stamped with a date of 8 or more characters and no space has that date as its prefix. |
| StudentProfiles.Digits | src/main/java/cs151/application/StudentProfileController.java:49 | Zero-padded digits are at least the requested width and all decimal. |
| StudentProfiles.IsoDateShape | src/main/java/cs151/application/StudentProfileController.java:49 | A `yyyy-MM-dd` date is at least ten characters of digits and dashes, with no space. |
| StudentProfiles.StampedOnDate | src/main/java/cs151/application/StudentProfileController.java:272 | A comment stamped on a date is grouped under that date by `formatComments`. |
| StudentProfiles.LastDateIsLast | src/main/java/cs151/application/StudentProfile.java:136 | The remembered date is that of the last dated comment, and none when no comment is dated. |
| StudentProfiles.RenderedSnoc | src/main/java/cs151/application/StudentProfile.java:126-136 | One more comment appends its separator and itself, and moves the remembered date on only when it is dated. |
| StudentProfiles.RenderedEmpty | src/main/java/cs151/application/StudentProfile.java:131-134 | The output is empty exactly when no comment has been written. |
| StudentProfiles.FormatComments | src/main/java/cs151/application/StudentProfile.java:106-140 | The loop's output is the non-blank comments in order: a line separator between them, and a blank line before a comment whose date differs from the last dated one. It is `""` exactly when every comment is blank. |
| StudentProfiles.FormatNext | src/main/java/cs151/application/StudentProfile.java:113-137 | One loop turn keeps the invariant: the output renders the non-blank comments so far, and `previousDate` is their last date. |
| StudentProfiles.AppendComment | src/main/java/cs151/application/StudentProfile.java:119-136 | Appending a non-blank comment renders it after the earlier ones with the right separator. |
| StudentProfiles.FormatStep | src/main/java/cs151/application/StudentProfile.java:126-134 | The two conditional appends write exactly the separator the rendering prescribes. |
| StudentProfiles.CommentLinesPieces | src/main/java/cs151/application/EditStudentProfileController.java:175-178 | Splitting at `\R`, trimming and dropping empties is unaffected by `split`'s removal of trailing empties. |
| StudentProfiles.LinePiecesOfJoin | src/main/java/cs151/application/EditStudentProfileController.java:175 | Joining one-line texts with LF or CRLF and splitting at `\R` gives them back. |
| StudentProfiles.CleanLinesKept | src/main/java/cs151/application/EditStudentProfileController.java:176-177 | Trimmed, non-empty comments pass the trim-and-filter unchanged. |
| StudentProfiles.CommentLinesOfJoin | src/main/java/cs151/application/EditStudentProfileController.java:175-178 | Comments joined with the line separator re-parse to themselves when each is trimmed, non-empty and on one line. |
| StudentProfiles.RenderedLines | src/main/java/cs151/application/StudentProfile.java:106-140 | Re-parsing the rendered comments, blank lines included, gives back the comments. |
| StudentProfiles.FormatCommentsReadBack | src/main/java/cs151/application/StudentProfile.java:106-140 | Splitting the `formatComments` column text into trimmed non-blank lines gives back exactly the non-blank comments, when each is trimmed and on one line. |
| ProfileRepository.ParseBooleanOfBoolString | src/main/java/cs151/application/StudentProfileRepository.java:109-133 | A flag written with `Boolean.toString` reads back as itself; `TRUE` and `True` read as true, `yes` and `1` as false. |
| ProfileRepository.ParseBooleanMeaning | src/main/java/cs151/application/StudentProfileRepository.java:109-116 | `parseBoolean` accepts exactly the four letters of `true`, each in either case, and nothing else. |
| ProfileRepository.Encode | src/main/java/cs151/application/StudentProfileRepository.java:136-139 | `encode` writes only Base64 characters, and writes `""` exactly for `null` or the empty text. |
| ProfileRepository.DecodeEncode | src/main/java/cs151/application/StudentProfileRepository.java:136-144 | A text column reads back as written, with `null` read back as `""`. |
| ProfileRepository.EncodeFree | src/main/java/cs151/application/StudentProfileRepository.java:136-139 | An encoded text contains neither the bar character nor `;`. |
| ProfileRepository.EncodeListChars | src/main/java/cs151/application/StudentProfileRepository.java:146-153 | A list column contains only Base64 characters and `;`. |
| ProfileRepository.EncodeListFree | src/main/java/cs151/application/StudentProfileRepository.java:146-153 | A list column never contains the bar character. |
| ProfileRepository.ColumnsFree | src/main/java/cs151/application/StudentProfileRepository.java:122-134 | No column of a formatted line contains the bar character. |
| ProfileRepository.SplitFormatLine | src/main/java/cs151/application/StudentProfileRepository.java:122-134 | Splitting a formatted line at the bar character gives back its ten columns. |
| ProfileRepository.ParseList | src/main/java/cs151/application/StudentProfileRepository.java:155-168 | The loop's result is the column's list: empty for a blank column, else the non-empty `;`-pieces decoded in order, failing when one piece is not Base64. |
| ProfileRepository.DecodeElementsFailure | src/main/java/cs151/application/StudentProfileRepository.java:161-166 | Once an element fails to decode, the whole list fails. |
| ProfileRepository.DecodeEncodedElements | src/main/java/cs151/application/StudentProfileRepository.java:146-166 | The encoded elements read back in order, without the empty strings. |
| ProfileRepository.EncodedListBlank | src/main/java/cs151/application/StudentProfileRepository.java:146-158 | An encoded list is blank exactly when it is `""`. |
| ProfileRepository.EncodedElementsFree | src/main/java/cs151/application/StudentProfileRepository.java:146-153 | No encoded element contains `;`. |
| ProfileRepository.DecodeEncodeList | src/main/java/cs151/application/StudentProfileRepository.java:146-168 | `parseList(encodeList(xs))` is `xs` without its empty strings. |
| ProfileRepository.DecodeEncodeListExact | src/main/java/cs151/application/StudentProfileRepository.java:146-168 | A list without empty strings round-trips exactly. |
| ProfileRepository.EmptyElementsLost | src/main/java/cs151/application/StudentProfileRepository.java:146-166 | `[""]` reads back as `[]` and `[a, ""]` as `[a]`. |
| ProfileRepository.ParseLine | src/main/java/cs151/application/StudentProfileRepository.java:101-120 | A line without exactly ten segments gives no profile. With ten segments, the load fails exactly when a text or list column is not Base64. Otherwise each field is its column, decoded. |
| ProfileRepository.ParseSegments | src/main/java/cs151/application/StudentProfileRepository.java:101-120 | A line whose ten segments decode to a profile's fields parses to that profile. |
| ProfileRepository.ColumnsReadBack | src/main/java/cs151/application/StudentProfileRepository.java:122-168 | Each column written decodes to the same field of the normalised profile. |
| ProfileRepository.ParseFormatLine | src/main/java/cs151/application/StudentProfileRepository.java:101-168 | `parseLine(formatLine(p))` is `p`, except that `null` texts become `""` and empty list elements vanish. |
| ProfileRepository.ParseFormatLineExact | src/main/java/cs151/application/StudentProfileRepository.java:101-168 | A profile with no `null` text and no empty list element round-trips exactly. |
| ProfileRepository.NullFieldBecomesEmpty | src/main/java/cs151/application/StudentProfileRepository.java:136-144 | A `null` status comes back as `""`. |
| ProfileRepository.ParsedProfilesFailure | src/main/java/cs151/application/StudentProfileRepository.java:50-58 | A line that fails to decode makes the whole load fail with that error. |
| ProfileRepository.LoadedSorted | src/main/java/cs151/application/StudentProfileRepository.java:60-61 | A successful load is in case-insensitive name order and is a permutation of the parsed profiles. |
| ProfileRepository.FormatLineNotBlank | src/main/java/cs151/application/StudentProfileRepository.java:122-134 | A formatted line is never blank, so loading never skips it. |
| ProfileRepository.FormatLineOneLine | src/main/java/cs151/application/StudentProfileRepository.java:122-134 | A formatted line holds no CR or LF, so the file reads it back as exactly one line. |
| ProfileRepository.ParsedFormattedLines | src/main/java/cs151/application/StudentProfileRepository.java:50-58 | Loading the lines formatted from some profiles gives those profiles, normalised, in order. |
| ProfileRepository.NormalizedSorted | src/main/java/cs151/application/StudentProfileRepository.java:60 | Normalising keeps the name order. |
| ProfileRepository.LoadAfterSave | src/main/java/cs151/application/StudentProfileRepository.java:42-79 | Loading after a successful save gives the saved profiles, sorted by name and normalised, on either platform line separator. |
| ProfileRepository.TruncatedSaveLosesAll | src/main/java/cs151/application/StudentProfileRepository.java:77-78 | A save that fails right after truncating leaves a file that loads as no profiles, whatever was stored before. |
| ProfileRepository.WithoutNameMembers | src/main/java/cs151/application/StudentProfileRepository.java:94 | `removeIf` keeps exactly the profiles whose name does not match, ignoring case, and never adds any. It removes something exactly when some name matches. |
| ProfileRepository.WithoutNameSorted | src/main/java/cs151/application/StudentProfileRepository.java:93-96 | The surviving profiles stay in name order. |
| ProfileRepository.StudentProfileRepository.constructor | src/main/java/cs151/application/StudentProfileRepository.java:32-34 | The repository works on the given storage file. |
| ProfileRepository.StudentProfileRepository.LoadAll | src/main/java/cs151/application/StudentProfileRepository.java:42-62 | The loop's result is the file's profiles: none for a missing file, an error for an unreadable one, blank lines and lines without ten columns skipped, a malformed column an error, then sorted by name. |
| ProfileRepository.OutcomeOf | src/main/java/cs151/application/SearchStudentProfileController.java:240-250 | A load succeeds exactly when `loadAll` returns profiles, and escapes the screen exactly when a column is not Base64, the `IllegalArgumentException` no `catch (IOException)` handles. |
| ProfileRepository.StudentProfileRepository.SaveAll | src/main/java/cs151/application/StudentProfileRepository.java:70-79 | A completed write replaces the file by one formatted line per profile, in name order. A failed write raises the write error and leaves the file untouched when it failed before opening, or a prefix of the new text when it failed after `TRUNCATE_EXISTING`. |
| ProfileRepository.StudentProfileRepository.DeleteByName | src/main/java/cs151/application/StudentProfileRepository.java:88-99 | A `null` or blank name returns false and touches nothing. A load error is passed on. Otherwise every profile matching the trimmed name ignoring case is removed, and the file is saved only when something was removed; a failed save leaves what the write left. The result says whether anything was removed. |
| LanguageRepository.CleanedMembers | src/main/java/cs151/application/LanguageRepository.java:48-50 | The trimmed, non-empty names are exactly the non-empty trims of the input names. |
| LanguageRepository.NormalizeOrder | src/main/java/cs151/application/LanguageRepository.java:48-53 | The result is in case-insensitive order, stable, and a permutation of the trimmed non-empty names. |
| LanguageRepository.NormalizeMembers | src/main/java/cs151/application/LanguageRepository.java:48-53 | The result is never longer than the input, and every name in it is the trim of some input name. No non-empty trimmed name is lost. |
| LanguageRepository.DuplicatesKept | src/main/java/cs151/application/LanguageRepository.java:67-72 | No deduplication: a name given twice is stored twice. |
| LanguageRepository.NormalizeOfNormal | src/main/java/cs151/application/LanguageRepository.java:48-53 | A trimmed, non-empty, sorted list is left as it is. |
| LanguageRepository.NormalizeIdempotent | src/main/java/cs151/application/LanguageRepository.java:48-53 | Normalising twice is normalising once. |
| LanguageRepository.LoadAfterSave | src/main/java/cs151/application/LanguageRepository.java:41-80 | When no name holds a line end, `loadAll` after `saveAll(xs)` gives the normalised `xs`. |
| LanguageRepository.LineBreakSplitsName | src/main/java/cs151/application/LanguageRepository.java:41-80 | A saved name with an LF inside comes back as two names: `"a\nb"` reads back as `"a"` and `"b"`. |
| DefineLanguageController.FreshName | src/main/java/cs151/application/DefineLanguageController.java:72-80 | A name that passes the `alreadyExists` test equals no listed name ignoring case. |
| DefineLanguageController.LanguageScreen.RefreshFromStorage | src/main/java/cs151/application/DefineLanguageController.java:123-132 | The list becomes the loaded languages, sorted. A failed read leaves it unchanged. |
| DefineLanguageController.LanguageScreen.OnSaveLanguage | src/main/java/cs151/application/DefineLanguageController.java:63-97 | A blank name is rejected, and so is a name equal to a listed one ignoring case; both leave list and file as they were. Otherwise the list gains exactly the trimmed name, stays sorted and is saved. A failed save restores the list, and the file is what the failed write left. Names unique ignoring case stay unique. |
| DefineLanguageController.LanguageScreen.AddLanguage | src/main/java/cs151/application/DefineLanguageController.java:82-96 | Add, sort and save. When the write fails, `remove` restores the earlier list exactly, and the file is what the failed write of the new list left. |
| ProfileForm.CheckNew | src/main/java/cs151/application/StudentProfileController.java:282-352 | An accepted form gives a profile with a trimmed non-empty name that no listed profile has ignoring case. It has status, role, languages and databases, and job details when employed. |
| ProfileForm.CheckEdit | src/main/java/cs151/application/EditStudentProfileController.java:125-189 | An accepted form gives a profile satisfying the same checks, without the uniqueness test. |
| ProfileForm.CheckNewOrder | src/main/java/cs151/application/StudentProfileController.java:282-339 | The rejection reasons in order: blank name, taken name, status, job details, languages, databases, role, both lists. |
| ProfileForm.CheckNewProfile | src/main/java/cs151/application/StudentProfileController.java:341-352 | An accepted form gives the profile of its trimmed name, its values and the collected comments. |
| ProfileForm.EditIsNewWithoutUniqueness | src/main/java/cs151/application/EditStudentProfileController.java:125-173 | The edit checks are the create checks without the uniqueness test, in the same order. |
| ProfileForm.FormControls.constructor | src/main/java/cs151/application/StudentProfileController.java:151-158 | `unemployed` is selected, the job field is disabled and empty, and neither list is ticked. |
| ProfileForm.FormControls.Values | src/main/java/cs151/application/StudentProfileController.java:298-335 | The form carries the toggle as `employed`, the job text and both check-boxes. |
| ProfileForm.FormControls.SelectJobStatus | src/main/java/cs151/application/StudentProfileController.java:232-246 | Selecting no toggle or a toggle other than `employed` disables and clears the job field, and selecting `employed` enables it. |
| ProfileForm.FormControls.SetJobDetails | src/main/java/cs151/application/EditStudentProfileController.java:253 | Sets the job text only. |
| ProfileForm.FormControls.SetWhitelist | src/main/java/cs151/application/StudentProfileController.java:248-254 | Ticking whitelist clears blacklist, so both are never ticked. |
| ProfileForm.FormControls.SetBlacklist | src/main/java/cs151/application/StudentProfileController.java:256-262 | Ticking blacklist clears whitelist, so both are never ticked. |
| ProfileForm.NeverBothLists | src/main/java/cs151/application/StudentProfileController.java:334-339 | With the listeners in place, the both-lists rejection can never happen. |
| StudentProfileController.FreshProfileName | src/main/java/cs151/application/StudentProfileController.java:289-296 | A name that passes the `nameExists` test equals no listed name ignoring case. |
| StudentProfileController.UnemployedWithoutDetails | src/main/java/cs151/application/StudentProfileController.java:305-311 | On this screen an unemployed student is saved with empty job details. |
| StudentProfileController.ProfileTable.SetAllSorted | src/main/java/cs151/application/StudentProfileController.java:221-223 | The table holds the given profiles, sorted by name. |
| StudentProfileController.ProfileTable.AddSorted | src/main/java/cs151/application/StudentProfileController.java:354-355 | The table gains exactly the new profile and stays sorted. Removing it gives the old table back, and unique names stay unique. |
| StudentProfileController.ProfileTable.Remove | src/main/java/cs151/application/StudentProfileController.java:361 | The first element equal to the profile is removed. |
| StudentProfileController.CreateProfileScreen.constructor | src/main/java/cs151/application/StudentProfileController.java:151-158 | No profiles or comments, `unemployed` selected, neither list ticked. |
| StudentProfileController.CreateProfileScreen.Initialize | src/main/java/cs151/application/StudentProfileController.java:139-149 | The stored languages are offered and the stored profiles shown, sorted. The outcome of loading the profiles is passed on; when it is not a success the table is unchanged. |
| StudentProfileController.CreateProfileScreen.LoadLanguages | src/main/java/cs151/application/StudentProfileController.java:198-217 | The stored names are offered; the list is disabled when there are none or they cannot be read. |
| StudentProfileController.CreateProfileScreen.LoadProfiles | src/main/java/cs151/application/StudentProfileController.java:219-230 | The table shows the stored profiles sorted. A read error is caught (`false`) and a column that is not Base64 escapes as an exception; both leave the table unchanged. |
| StudentProfileController.CreateProfileScreen.OnAddComment | src/main/java/cs151/application/StudentProfileController.java:265-277 | An empty trimmed entry leaves the comments unchanged. Otherwise `<yyyy-MM-dd> - <trimmed text>` is appended. |
| StudentProfileController.CreateProfileScreen.ClearForm | src/main/java/cs151/application/StudentProfileController.java:391-403 | No comments, `unemployed` selected, the job field empty and neither list ticked. |
| StudentProfileController.CreateProfileScreen.OnSaveProfile | src/main/java/cs151/application/StudentProfileController.java:280-364 | A rejected form changes nothing. An accepted one is added, sorted and saved, then the form is cleared. A failed save restores the table and the form, and the file is what the failed write left. Unique names stay unique. |
| StudentProfileController.CreateProfileScreen.SaveAccepted | src/main/java/cs151/application/StudentProfileController.java:354-363 | An accepted profile is added and saved, and the form cleared. A failed save leaves table and form as they were, and the file as the failed write left it. |
| StudentProfileController.CreateProfileScreen.AddAndWrite | src/main/java/cs151/application/StudentProfileController.java:354-361 | Add, sort and save. When the write fails, the profile is removed and the table restored exactly; the file is what the failed write left. |
| EditStudentProfileController.FindIndexCaseInsensitive | src/main/java/cs151/application/EditStudentProfileController.java:341-348 | The first index whose item equals the value ignoring case, or -1 exactly when there is none. |
| EditStudentProfileController.EnsureItemsPresent | src/main/java/cs151/application/EditStudentProfileController.java:350-364 | The loop's result is the list with each missing non-blank value appended. |
| EditStudentProfileController.WithItemsAppends | src/main/java/cs151/application/EditStudentProfileController.java:350-364 | Existing items stay in place. Each appended item is a non-blank value with no earlier match ignoring case. |
| EditStudentProfileController.WithItemsCovers | src/main/java/cs151/application/EditStudentProfileController.java:350-364 | Afterwards every non-blank value matches some item ignoring case. |
| EditStudentProfileController.LinkedSetOf | src/main/java/cs151/application/EditStudentProfileController.java:271 | Filling a `LinkedHashSet` gives the first occurrences in order. |
| EditStudentProfileController.DistinctHas | src/main/java/cs151/application/EditStudentProfileController.java:271 | An element is in the set exactly when it occurs in the list. |
| EditStudentProfileController.MergedLanguages | src/main/java/cs151/application/EditStudentProfileController.java:271-273 | The items are the stored languages followed by the preferred ones not already there, with no duplicates. |
| EditStudentProfileController.EditProfileScreen.constructor | src/main/java/cs151/application/EditStudentProfileController.java:93-99 | "unemployed" is selected, the job field is empty and disabled, neither list is ticked, the comments are empty, the database options are listed and the stored languages loaded, the list disabled exactly when it is empty. |
| EditStudentProfileController.EditProfileScreen.SetReturnState | src/main/java/cs151/application/EditStudentProfileController.java:112-119 | Each filter is stored verbatim, `null` as `""`. |
| EditStudentProfileController.EditProfileScreen.LoadLanguages | src/main/java/cs151/application/EditStudentProfileController.java:266-288 | Items are the stored languages then the missing preferred ones, without duplicates, or exactly the preferred ones when reading fails. The list is disabled exactly when empty. |
| EditStudentProfileController.EditProfileScreen.SetProfile | src/main/java/cs151/application/EditStudentProfileController.java:242-264 | `originalName` is the profile's name. The toggle, job text, languages, databases, joined comments and check-boxes show the profile; ticking blacklist after whitelist clears whitelist. |
| EditStudentProfileController.EditProfileScreen.OnSaveProfile | src/main/java/cs151/application/EditStudentProfileController.java:121-203 | The form is checked with the comments re-parsed from the text area. `originalName` becomes the new name only after a successful update, and is unchanged otherwise. |
| EditStudentProfileController.EditProfileScreen.ApplyChecked | src/main/java/cs151/application/EditStudentProfileController.java:191-202 | A rejected form or a failed update leaves `originalName` and the return message unchanged. A successful one sets both. |
| SearchReturn.SafeValue | src/main/java/cs151/application/EditStudentProfileController.java:384-386 | `null` becomes `""`; anything else is kept as it is. |
| SearchReturn.ReturnFiltersKept | src/main/java/cs151/application/EditStudentProfileController.java:112-119 | Each filter is kept verbatim when given and is empty when `null`. |
| SearchStudentProfileController.MatchesNameMeaning | src/main/java/cs151/application/SearchStudentProfileController.java:282-287 | The name filter matches when empty, otherwise exactly when the lower-cased name contains the lower-cased filter. |
| SearchStudentProfileController.NameMatchesItself | src/main/java/cs151/application/SearchStudentProfileController.java:282-287 | A name matches a filter equal to it ignoring case. |
| SearchStudentProfileController.FiltersIgnoreCase | src/main/java/cs151/application/SearchStudentProfileController.java:289-301 | The single-value and collection tests do not see the filter's case. |
| SearchStudentProfileController.NothingMatchesNothing | src/main/java/cs151/application/SearchStudentProfileController.java:289-301 | An empty collection or a `null` value never matches a non-empty filter. |
| SearchStudentProfileController.CriteriaOf | src/main/java/cs151/application/SearchStudentProfileController.java:253-257 | Every filter is trimmed, and `null` becomes `""`. |
| SearchStudentProfileController.MatchingExactly | src/main/java/cs151/application/SearchStudentProfileController.java:259-265 | Exactly the profiles that pass all five tests are kept, never more than were loaded, as a sub-multiset of the loaded ones. |
| SearchStudentProfileController.EmptyCriteriaKeepAll | src/main/java/cs151/application/SearchStudentProfileController.java:259-267 | With every filter empty, every loaded profile is kept. |
| SearchStudentProfileController.NoInputsNoCriteria | src/main/java/cs151/application/SearchStudentProfileController.java:311-317 | No input gives empty filters. |
| SearchStudentProfileController.SortedMatches | src/main/java/cs151/application/SearchStudentProfileController.java:259-268 | The table is sorted by name, holds exactly the passing profiles, and is a sub-multiset of `allProfiles`. |
| SearchStudentProfileController.SearchScreen.LoadProfiles | src/main/java/cs151/application/SearchStudentProfileController.java:240-250 | `allProfiles` is the loaded profiles sorted by name. A read error is caught and empties it (`false`). A column that is not Base64 escapes as an exception and leaves it unchanged. |
| SearchStudentProfileController.SearchScreen.ApplyFilters | src/main/java/cs151/application/SearchStudentProfileController.java:252-269 | The table is the sorted list of profiles passing every filter. `allProfiles` is untouched. |
| ReportStudentDetailController.Preview | src/main/java/cs151/application/ReportStudentDetailController.java:207 | The preview is the text when it is at most 90 characters. Otherwise it is the first 87 characters and `...`, so never more than 90. |
| ReportStudentDetailController.From | src/main/java/cs151/application/ReportStudentDetailController.java:197-209 | The full text is the stored value, `null` as `""`. The preview is at most 90 characters. |
| ReportStudentDetailController.FromDated | src/main/java/cs151/application/ReportStudentDetailController.java:197-206 | When the first LF is after index 0, the date is the trimmed text before it and the text the trimmed rest. |
| ReportStudentDetailController.FromAtNewline | src/main/java/cs151/application/ReportStudentDetailController.java:200-206 | The entry of a value whose `indexOf('\n')` is positive. |
| ReportStudentDetailController.FirstNewlineIndex | src/main/java/cs151/application/ReportStudentDetailController.java:201 | `indexOf('\n')` finds the first LF. |
| ReportStudentDetailController.FromUndated | src/main/java/cs151/application/ReportStudentDetailController.java:197-207 | With no LF, or an LF first, the date is `""` and the text the whole value. |
| ReportStudentDetailController.FromNull | src/main/java/cs151/application/ReportStudentDetailController.java:197-208 | `null` is an undated entry with empty text. |
| ReportStudentDetailController.ToCommentEntries | src/main/java/cs151/application/ReportStudentDetailController.java:148-160 | A `null` list gives no entries. Otherwise there is one entry per non-blank comment, in order. |
| ReportStudentDetailController.EntriesShowComments | src/main/java/cs151/application/ReportStudentDetailController.java:148-160 | Each entry's full text is the corresponding non-blank comment. |
| ReportStudentDetailController.FlagLabel | src/main/java/cs151/application/ReportStudentDetailController.java:162-170 | `Whitelist` exactly when whitelisted. `Blacklist` exactly when blacklisted but not whitelisted. `""` exactly when neither. |
| ReportsController.ReportExactly | src/main/java/cs151/application/ReportsController.java:134-137 | The whitelist report holds exactly the whitelisted profiles and the blacklist report exactly the blacklisted ones. Neither is longer than the loaded list, or holds a profile more often than it was loaded. |
| ReportsController.ReportConcat | src/main/java/cs151/application/ReportsController.java:134-136 | The report keeps the loaded order. |
| ReportsController.FlagsColumnLabel | src/main/java/cs151/application/ReportsController.java:98-101 | The flags label is `""` exactly when neither flag is set. |
| ReportsController.FlagLabelsAgree | src/main/java/cs151/application/ReportsController.java:98-101 | The flags column gives whitelist precedence over blacklist, as the detail page does. |
| ReportsController.ReportsScreen.constructor | src/main/java/cs151/application/ReportsController.java:32-35 | No profiles, nothing shown, and the whitelist report selected. |
| ReportsController.ReportsScreen.RefreshFromStorage | src/main/java/cs151/application/ReportsController.java:115-126 | The loaded profiles sorted by name. A read error is caught and leaves no profiles. A column that is not Base64 escapes as an exception and leaves `allProfiles` unchanged. |
| ReportsController.ReportsScreen.ApplyFilter | src/main/java/cs151/application/ReportsController.java:128-147 | The table shows the current report, and is emptied when no profiles are loaded. |
| ReportsController.ReportsScreen.SetInitialFilter | src/main/java/cs151/application/ReportsController.java:189-200 | `null` changes nothing. A filter becomes current and is applied. |
| ReportsController.ReportsScreen.SelectReport | src/main/java/cs151/application/ReportsController.java:80-87 | The chosen report becomes current and is shown. |
| ViewStudentCommentsController.ReplaceLineFeeds | src/main/java/cs151/application/ViewStudentCommentsController.java:116 | Replacing `\r?\n` never lengthens the text. |
| ViewStudentCommentsController.ReplaceRemovesLineFeeds | src/main/java/cs151/application/ViewStudentCommentsController.java:116 | No LF is left, and every other character comes from the input. |
| ViewStudentCommentsController.ReplaceWithoutReturns | src/main/java/cs151/application/ViewStudentCommentsController.java:116 | Without CRs, each LF becomes a space and nothing else changes. |
| ViewStudentCommentsController.CollapseSpaces | src/main/java/cs151/application/ViewStudentCommentsController.java:117 | Collapsing keeps the first and last characters, and is empty only for empty input. |
| ViewStudentCommentsController.CollapseShape | src/main/java/cs151/application/ViewStudentCommentsController.java:117 | No two spaces remain in a row, and no new character appears. |
| ViewStudentCommentsController.CollapseKeepsWords | src/main/java/cs151/application/ViewStudentCommentsController.java:117 | Only spaces are removed: the other characters stay, in order. |
| ViewStudentCommentsController.CollapseOfSingleSpaced | src/main/java/cs151/application/ViewStudentCommentsController.java:117 | Text with no double space is left as it is. |
| ViewStudentCommentsController.CollapseIdempotent | src/main/java/cs151/application/ViewStudentCommentsController.java:117 | Collapsing twice is collapsing once. |
| ViewStudentCommentsController.SanitizeShape | src/main/java/cs151/application/ViewStudentCommentsController.java:116-117 | The sanitised comment is trimmed, single-spaced and free of LF. |
| ViewStudentCommentsController.SecondCheckDead | src/main/java/cs151/application/ViewStudentCommentsController.java:109-122 | After the first emptiness check passes, the sanitised text is never empty. |
| ViewStudentCommentsController.LoneReturnKept | src/main/java/cs151/application/ViewStudentCommentsController.java:116 | A lone CR is kept in the stored comment. |
| ViewStudentCommentsController.TabsKept | src/main/java/cs151/application/ViewStudentCommentsController.java:117 | Runs of tabs are not collapsed. |
| ViewStudentCommentsController.SanitizedOneLine | src/main/java/cs151/application/ViewStudentCommentsController.java:116-117 | Input whose only line breaks are LFs sanitises to one line. |
| ViewStudentCommentsController.StampedIsClean | src/main/java/cs151/application/ViewStudentCommentsController.java:124-125 | A trimmed one-line text stamped with a date is a comment that re-parses as itself. |
| ViewStudentCommentsController.AddedCommentIsClean | src/main/java/cs151/application/ViewStudentCommentsController.java:109-125 | An added comment from LF-only input is trimmed, non-empty and on one line. |
| ViewStudentCommentsController.AddedCommentWhenNonBlank | src/main/java/cs151/application/ViewStudentCommentsController.java:109-125 | A comment is added exactly when the trimmed input is non-empty. It is the date, ` - ` and the sanitised text. |
| ViewStudentCommentsController.WithComment | src/main/java/cs151/application/ViewStudentCommentsController.java:126-138 | The updated profile equals the old one except that its comments gain the new comment at the end. |
| ViewStudentCommentsController.AddedCommentSurvivesEditing | src/main/java/cs151/application/ViewStudentCommentsController.java:124-138 | Comments that re-parse as themselves still do after a comment is added. |
| ViewStudentCommentsController.CommentsScreen.SetProfile | src/main/java/cs151/application/ViewStudentCommentsController.java:86-95 | The profile becomes current, its comments are listed and the input is cleared. |
| ViewStudentCommentsController.CommentsScreen.SetReturnState | src/main/java/cs151/application/ViewStudentCommentsController.java:97-104 | Each filter is stored verbatim, `null` as `""`. |
| ViewStudentCommentsController.CommentsScreen.OnAddComment | src/main/java/cs151/application/ViewStudentCommentsController.java:106-154 | Empty input changes nothing. A successful update makes the profile with the appended stamped comment current, lists its comments and clears the input. A failed update or exception changes nothing. |

## Left out

- File system. `ensureParentDirectory`, the `user.dir` paths and the wording of wrapped `IOException` messages are not modelled. A file is the `StoredFile` value holding its text, already decoded from UTF-8; a file that is not valid UTF-8 is `Unreadable`. How a write ends is a `WriteResult` parameter: completed, failed before opening, or failed after truncating with a prefix written. A write cut inside a multi-byte character is modelled as cut at a character boundary. The line structure of `Files.write` and `Files.readAllLines` is modelled.
- LanguageRepository.LoadAfterSave: covers only names without CR or LF. The language screen's single-line text field does not let one be typed, but `saveAll` itself accepts one, and it then reads back split into several names (`LineBreakSplitsName`).
- StudentProfileController.ProfileTable.SetAllSorted: the `profilesTable.sort()` that ends `sortProfiles` is not modelled. With the name column as sort order and no comparator set, JavaFX re-sorts the items with the column's default comparator, a locale `Collator`, which can order accented or punctuated names differently from `CASE_INSENSITIVE_ORDER`. The stated order is the one `FXCollections.sort` gives. This carries over to `CreateProfileScreen.LoadProfiles` and `Initialize`.
- StudentProfileController.ProfileTable.AddSorted: the same `profilesTable.sort()` after `sortProfiles` is not modelled. This carries over to `CreateProfileScreen.AddAndWrite`, `SaveAccepted` and `OnSaveProfile`.
- StudentProfileController.CreateProfileScreen.Initialize: the table order stated is that of `FXCollections.sort`. The `profilesTable.sort()` re-sort with the locale `Collator` that follows is not modelled (see `ProfileTable.SetAllSorted`).
- StudentProfileController.CreateProfileScreen.LoadProfiles: the same `profilesTable.sort()` re-sort after `sortProfiles` is not modelled.
- StudentProfileController.CreateProfileScreen.OnSaveProfile: the same `profilesTable.sort()` re-sort after the add is not modelled (see `ProfileTable.AddSorted`).
- StudentProfileController.CreateProfileScreen.SaveAccepted: the same `profilesTable.sort()` re-sort after the add is not modelled.
- StudentProfileController.CreateProfileScreen.AddAndWrite: the same `profilesTable.sort()` re-sort after the add is not modelled.
- DefineLanguageController.LanguageScreen.RefreshFromStorage: the `languagesTable.sort()` at the end of `sortLanguages` is not modelled, for the same reason.
- DefineLanguageController.LanguageScreen.AddLanguage: the same `languagesTable.sort()` is not modelled. This carries over to `OnSaveLanguage`.
- SearchStudentProfileController.SearchScreen.ApplyFilters: the `profilesTable.sort()` after `FXCollections.sort` is not modelled. This carries over to `SortedMatches`.
- JavaFX. Scenes, stages, focus, cell factories, placeholders, feedback texts and colours are not modelled. Only the state the controllers keep is modelled.
- `MainController` and `CommentDetailController` are pure navigation and display, with no state or logic to verify.
- Navigation handlers are not modelled: `onBackToSearch`, `onBackToHome`, `onEditSelectedProfile`, `onRefreshProfiles`, `onToggleProfiles` and `onResetForm`. The same goes for the calls that open other screens (`initializeForEdit`, `applyInitialFilters`, `showSuccessMessage` on the target screen).
- `onDeleteSelectedProfile` in the search screen is left out. It only calls `deleteByName` (modelled as `StudentProfileRepository.DeleteByName`) then reloads (`SearchScreen.LoadProfiles`) and then re-applies the filters (`SearchScreen.ApplyFilters`).
- `updateProfile` is a call the edit and comments screens make into code that is not part of this model. Its outcome is a parameter.
- `LocalDate.now()` is a date parameter, and `System.lineSeparator()` is a separator parameter.
- Selection state is not modelled: `selectComboValue`, list-view selection, and the combo-box and list-view items beyond the lists themselves.
- Unicode. Case folding is ASCII only. Strings are sequences of Unicode scalar values, not UTF-16 code units, so a lone surrogate cannot appear. Malformed UTF-8 becomes U+FFFD byte by byte rather than per maximal subpart.
- The `null` checks on comment and list fields are not modelled, because `List.copyOf` in the constructor already rejects `null`.
- StudentProfileController.ProfileTable.Remove: `List.remove` on a profile is modelled by value equality. The profile just added is the only one with its name, so identity and equality agree.
- ProfileForm.NeverBothLists: the "both lists" rejection is kept in `CheckNew`/`CheckEdit` but proved unreachable, because the listeners untick the other box.
- ViewStudentCommentsController.CommentsScreen.OnAddComment: requires a current profile when the comment is not blank. Java then throws a `NullPointerException` at `currentProfile.getComments()` when `setProfile` has not run; that path is not modelled.
- StudentProfiles.IsoDate: covers years 1 to 9999 only. Outside them `DateTimeFormatter`'s `yyyy` prints a sign (`+10000`) or the year of era (`0001` for year 0), which `IsoDate` does not.
- ViewStudentCommentsController.SecondCheckDead: the second emptiness check in `onAddComment` is modelled and proved dead.
- ViewStudentCommentsController.AddedCommentSurvivesEditing: assumes input whose only line breaks are LF. A lone CR survives sanitising (`LoneReturnKept`) and would split the comment when the edit screen re-parses it.
- The feedback messages of `applyFilters` and of the reports screen are not modelled. The messages of the validation steps are an enumeration of reasons, not the exact texts.
- Object frames. Most methods state their new state through field equalities. The failure branches of the create screen (`OnSaveProfile`, `SaveAccepted`) and of `CommentsScreen.OnAddComment` use object-level `unchanged`.
