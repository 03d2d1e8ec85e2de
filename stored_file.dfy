/**
 * A text file as the repositories see it: `Files.write(path, lines)` writes each line
 * followed by the platform line separator, and `Files.readAllLines` reads the lines back,
 * ending a line at LF, CR or CR LF as `BufferedReader.readLine` does.
 */
module StoredFiles {
  /** Absent, present but unreadable, or present with this text. */
  datatype StoredFile = Missing | Unreadable | Text(content: string)

  /** A character that ends a line for `readAllLines`. */
  predicate IsLineEnd(c: char) {
    c == '\n' || c == '\r'
  }

  /** `s` contains no line end, so it is read back as one line. */
  predicate IsOneLine(s: string) {
    '\n' !in s && '\r' !in s
  }

  /** `System.lineSeparator()`: LF, or CR LF on Windows. */
  predicate IsLineSeparator(sep: string) {
    sep == "\n" || sep == "\r\n"
  }

  /** The text `Files.write` produces: every line followed by the separator. */
  function WrittenText(lines: seq<string>, sep: string): string {
    if lines == [] then "" else lines[0] + sep + WrittenText(lines[1..], sep)
  }

  /**
   * How `Files.write(path, lines, CREATE, TRUNCATE_EXISTING, WRITE)` ends: it completes; it
   * fails before the file is opened (a missing directory, a refused open), leaving the file
   * as it was; or it fails after opening has truncated the file, with only the first `kept`
   * characters of the text on disk.
   */
  datatype WriteResult = Completed | FailedBeforeOpen | FailedAfterTruncate(kept: nat)

  /** The file after writing `text` over `before`. */
  function AfterWrite(before: StoredFile, text: string, write: WriteResult): (after: StoredFile)
    ensures write.Completed? ==> after == Text(text)
    ensures write.FailedBeforeOpen? ==> after == before
    ensures write.FailedAfterTruncate? ==> after.Text? && after.content <= text
  {
    match write
    case Completed => Text(text)
    case FailedBeforeOpen => before
    case FailedAfterTruncate(kept) => Text(text[..if kept < |text| then kept else |text|])
  }

  /** The index of the first line end, or the length when there is none. */
  function LineEnd(text: string): (i: nat)
    ensures i <= |text| && (i < |text| ==> IsLineEnd(text[i]))
    ensures forall k | 0 <= k < i :: !IsLineEnd(text[k])
  {
    if text == [] || IsLineEnd(text[0]) then 0 else 1 + LineEnd(text[1..])
  }

  /** Where the next line starts after the line end at `i`: CR LF is one ending. */
  function NextLine(text: string, i: nat): (j: nat)
    requires i < |text|
    ensures i < j <= |text|
  {
    if text[i] == '\r' && i + 1 < |text| && text[i + 1] == '\n' then i + 2 else i + 1
  }

  /**
   * `Files.readAllLines`: the text split at its line ends. A last line without an ending
   * counts; nothing after the final ending does.
   */
  function ReadAllLines(text: string): (r: seq<string>)
    ensures forall i | 0 <= i < |r| :: IsOneLine(r[i])
    ensures |r| <= |text|
    decreases |text|
  {
    if text == [] then []
    else
      var i := LineEnd(text);
      if i == |text| then [text]
      else [text[..i]] + ReadAllLines(text[NextLine(text, i)..])
  }

  /** The lines read back from one written line, followed by the rest of the file. */
  lemma ReadWrittenLine(line: string, sep: string, rest: string)
    requires IsLineSeparator(sep) && IsOneLine(line)
    ensures ReadAllLines(line + sep + rest) == [line] + ReadAllLines(rest)
  {
    var text := line + sep + rest;
    assert text[|line|] == sep[0];
    assert LineEnd(text) == |line| by {
      LineEndAt(text, line);
    }
    assert NextLine(text, |line|) == |line| + |sep| by {
      if sep == "\r\n" {
        assert text[|line| + 1] == '\n';
      }
    }
    assert text[..|line|] == line;
    assert text[|line| + |sep|..] == rest;
  }

  lemma LineEndAt(text: string, line: string)
    requires IsOneLine(line) && |line| < |text| && text[..|line|] == line && IsLineEnd(text[|line|])
    ensures LineEnd(text) == |line|
  {
    forall k | 0 <= k < |line| ensures !IsLineEnd(text[k]) {
      assert text[k] == line[k];
    }
  }

  /** Writing lines that hold no line end and reading the file back gives the same lines. */
  lemma {:induction false} ReadWrittenLines(lines: seq<string>, sep: string)
    requires IsLineSeparator(sep)
    requires forall i | 0 <= i < |lines| :: IsOneLine(lines[i])
    ensures ReadAllLines(WrittenText(lines, sep)) == lines
  {
    if lines != [] {
      ReadWrittenLines(lines[1..], sep);
      ReadWrittenLine(lines[0], sep, WrittenText(lines[1..], sep));
    }
  }

  /** A written line with a line end inside it is read back as two lines. */
  lemma WrittenBreakSplits(sep: string)
    requires IsLineSeparator(sep)
    ensures ReadAllLines(WrittenText(["a\nb"], sep)) == ["a", "b"]
  {
    var text := "a\nb" + sep;
    assert WrittenText(["a\nb"], sep) == text;
    assert LineEnd(text) == 1;
    assert NextLine(text, 1) == 2;
    assert text[..1] == "a" && text[2..] == "b" + sep;
    ReadWrittenLine("b", sep, "");
    assert "b" + sep + "" == "b" + sep;
  }
}
