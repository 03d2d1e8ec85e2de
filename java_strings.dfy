/**
 * The `java.lang.String` operations the application relies on, over Dafny strings.
 *
 * Case handling is ASCII-only: `Fold` lower-cases 'A'..'Z' and leaves every other
 * character alone. `equalsIgnoreCase`, `toLowerCase(Locale.ENGLISH)` and
 * `String.CASE_INSENSITIVE_ORDER` are all stated in terms of it.
 */
module JavaStrings {
  import opened Wrappers
  import opened Seqs

  /** `Character.isWhitespace`: the Unicode space separators except the no-break ones, and the ASCII controls TAB..CR and FS..US. */
  predicate IsWhitespace(c: char) {
    c == ' ' || ('\t' <= c <= '\r') || ('\U{1C}' <= c <= '\U{1F}')
    || c == '\U{1680}' || ('\U{2000}' <= c <= '\U{2006}') || ('\U{2008}' <= c <= '\U{200A}')
    || c == '\U{2028}' || c == '\U{2029}' || c == '\U{205F}' || c == '\U{3000}'
  }

  /** `String.isBlank`: empty or whitespace only. */
  predicate IsBlank(s: string) {
    forall i | 0 <= i < |s| :: IsWhitespace(s[i])
  }

  /** `!s.isBlank()` */
  predicate IsNonBlank(s: string) {
    !IsBlank(s)
  }

  /** `!s.isEmpty()` */
  predicate IsNonEmpty(s: string) {
    s != ""
  }

  /** `String.trim` strips every character whose code is at most U+0020. */
  predicate IsTrimmable(c: char) {
    c <= ' '
  }

  /** A string that `trim` leaves alone. */
  predicate IsTrimmed(s: string) {
    s == [] || (!IsTrimmable(s[0]) && !IsTrimmable(s[|s| - 1]))
  }

  function TrimStart(s: string): (r: string)
    ensures |r| <= |s| && r == s[|s| - |r|..]
    ensures forall k | 0 <= k < |s| - |r| :: IsTrimmable(s[k])
    ensures r != [] ==> !IsTrimmable(r[0])
  {
    if s != [] && IsTrimmable(s[0]) then TrimStart(s[1..]) else s
  }

  function TrimEnd(s: string): (r: string)
    ensures |r| <= |s| && r == s[..|r|]
    ensures forall k | |r| <= k < |s| :: IsTrimmable(s[k])
    ensures r != [] ==> !IsTrimmable(r[|r| - 1])
  {
    if s != [] && IsTrimmable(s[|s| - 1]) then TrimEnd(s[..|s| - 1]) else s
  }

  /** `String.trim`. */
  function Trim(s: string): (r: string)
    ensures |r| <= |s| && IsTrimmed(r)
  {
    var t := TrimStart(s);
    var r := TrimEnd(t);
    assert r != [] ==> r[0] == t[0];
    r
  }

  /** `trim` gives the empty string exactly when every character is trimmable. */
  lemma TrimEmpty(s: string)
    ensures Trim(s) == [] <==> forall k | 0 <= k < |s| :: IsTrimmable(s[k])
  {
    var t := TrimStart(s);
    assert forall k | 0 <= k < |s| && |s| - |t| <= k :: s[k] == t[k - (|s| - |t|)];
  }

  /** `trim` only removes characters. */
  lemma TrimChars(s: string)
    ensures forall c | c in Trim(s) :: c in s
  {
    var t := TrimStart(s);
    assert forall k | 0 <= k < |s| && |s| - |t| <= k :: s[k] == t[k - (|s| - |t|)];
  }

  /** Trimming a string that has no surrounding blanks changes nothing. */
  lemma TrimOfTrimmed(s: string)
    requires IsTrimmed(s)
    ensures Trim(s) == s
  {
  }

  /** `trim` is idempotent. */
  lemma TrimIdempotent(s: string)
    ensures Trim(Trim(s)) == Trim(s)
  {
    TrimOfTrimmed(Trim(s));
  }

  /** `value == null ? "" : value.trim()` */
  function TrimOrEmpty(value: Option<string>): (r: string)
    ensures value.None? ==> r == ""
    ensures IsTrimmed(r)
  {
    Trim(value.GetOr(""))
  }

  /** `Character.toLowerCase` restricted to ASCII. */
  function Fold(c: char): char {
    if 'A' <= c <= 'Z' then (c as int + 32) as char else c
  }

  /** `toLowerCase(Locale.ENGLISH)`, character by character. */
  function Lower(s: string): (r: string)
    ensures |r| == |s|
  {
    seq(|s|, i requires 0 <= i < |s| => Fold(s[i]))
  }

  /** `String.equalsIgnoreCase`. */
  predicate EqualsIgnoreCase(a: string, b: string) {
    Lower(a) == Lower(b)
  }

  /** `sub` occurs in `s` starting at index `k`. */
  predicate OccursAt(s: string, sub: string, k: int) {
    0 <= k && k + |sub| <= |s| && s[k..k + |sub|] == sub
  }

  function IndexFrom(s: string, sub: string, from: nat): (r: int)
    requires from <= |s|
    ensures r == -1 || (from <= r && OccursAt(s, sub, r))
    decreases |s| - from
  {
    if OccursAt(s, sub, from) then from
    else if from + |sub| >= |s| then -1
    else IndexFrom(s, sub, from + 1)
  }

  lemma {:induction false} IndexFromIsFirst(s: string, sub: string, from: nat)
    requires from <= |s|
    ensures IndexFrom(s, sub, from) == -1 ==> forall k | from <= k :: !OccursAt(s, sub, k)
    ensures IndexFrom(s, sub, from) != -1 ==> forall k | from <= k < IndexFrom(s, sub, from) :: !OccursAt(s, sub, k)
    decreases |s| - from
  {
    if !OccursAt(s, sub, from) && from + |sub| < |s| {
      IndexFromIsFirst(s, sub, from + 1);
    }
  }

  /** `String.indexOf(String)`: the first index at which `sub` occurs, or -1. */
  function IndexOf(s: string, sub: string): (r: int)
    ensures r == -1 || (0 <= r && OccursAt(s, sub, r))
  {
    IndexFrom(s, sub, 0)
  }

  /** `indexOf` finds the first occurrence, and -1 means there is none. */
  lemma IndexOfIsFirst(s: string, sub: string)
    ensures IndexOf(s, sub) == -1 ==> forall k :: !OccursAt(s, sub, k)
    ensures IndexOf(s, sub) != -1 ==> forall k | 0 <= k < IndexOf(s, sub) :: !OccursAt(s, sub, k)
  {
    IndexFromIsFirst(s, sub, 0);
  }

  /** `String.contains`. */
  predicate Contains(s: string, sub: string) {
    IndexOf(s, sub) >= 0
  }

  /** `String.join(sep, xs)` and `Collectors.joining(sep)`. */
  function Join(xs: seq<string>, sep: string): string {
    if xs == [] then ""
    else if |xs| == 1 then xs[0]
    else xs[0] + sep + Join(xs[1..], sep)
  }

  /** Joining one more element appends the separator and the element. */
  lemma {:induction false} JoinAppend(xs: seq<string>, x: string, sep: string)
    requires xs != []
    ensures Join(xs + [x], sep) == Join(xs, sep) + sep + x
  {
    if |xs| > 1 {
      assert (xs + [x])[1..] == xs[1..] + [x];
      JoinAppend(xs[1..], x, sep);
    }
  }

  /** `s.split(Pattern.quote(d), -1)`: every piece between two occurrences of `d`, trailing empty ones included. */
  function Split(s: string, d: char): (r: seq<string>)
    ensures |r| >= 1
    ensures forall i | 0 <= i < |r| :: d !in r[i]
    decreases |s|
  {
    var i := IndexOf(s, [d]);
    IndexOfIsFirst(s, [d]);
    if i < 0 then
      assert forall k | 0 <= k < |s| :: s[k] != d by {
        forall k | 0 <= k < |s| ensures s[k] != d {
          assert !OccursAt(s, [d], k);
          assert s[k..k + 1] == [s[k]];
        }
      }
      [s]
    else
      assert forall k | 0 <= k < i :: s[k] != d by {
        forall k | 0 <= k < i ensures s[k] != d {
          assert !OccursAt(s, [d], k);
          assert s[k..k + 1] == [s[k]];
        }
      }
      [s[..i]] + Split(s[i + 1..], d)
  }

  /** Splitting undoes joining, when no piece contains the delimiter. */
  lemma {:induction false} SplitJoin(xs: seq<string>, d: char)
    requires |xs| >= 1
    requires forall i | 0 <= i < |xs| :: d !in xs[i]
    ensures Split(Join(xs, [d]), d) == xs
  {
    var s := Join(xs, [d]);
    if |xs| == 1 {
      NoIndex(xs[0], d);
    } else {
      var rest := Join(xs[1..], [d]);
      assert s == xs[0] + [d] + rest;
      FirstIndex(xs[0], d, rest);
      assert s[|xs[0]| + 1..] == rest;
      assert s[..|xs[0]|] == xs[0];
      SplitJoin(xs[1..], d);
      assert Split(s, d) == [xs[0]] + Split(rest, d);
      assert xs == [xs[0]] + xs[1..];
    }
  }

  /** Joining undoes splitting. */
  lemma {:induction false} JoinSplit(s: string, d: char)
    ensures Join(Split(s, d), [d]) == s
    decreases |s|
  {
    var i := IndexOf(s, [d]);
    if i >= 0 {
      var rest := s[i + 1..];
      var pieces := Split(rest, d);
      assert Split(s, d) == [s[..i]] + pieces;
      JoinSplit(rest, d);
      assert Join([s[..i]] + pieces, [d]) == s[..i] + [d] + Join(pieces, [d]) by {
        assert ([s[..i]] + pieces)[1..] == pieces;
      }
      assert s == s[..i] + [d] + rest by {
        assert s[i..i + 1] == [d];
      }
    }
  }

  /** Splitting at a delimiter splits the two sides independently. */
  lemma {:induction false} SplitConcat(a: string, d: char, b: string)
    ensures Split(a + [d] + b, d) == Split(a, d) + Split(b, d)
    decreases |a|
  {
    var s := a + [d] + b;
    var i := IndexOf(a, [d]);
    if i < 0 {
      NoDelimiter(a, d);
      FirstIndex(a, d, b);
      assert s[..|a|] == a;
      assert s[|a| + 1..] == b;
    } else {
      IndexInPrefix(a, d, b);
      assert s[..i] == a[..i];
      assert s[i + 1..] == a[i + 1..] + [d] + b;
      SplitConcat(a[i + 1..], d, b);
    }
  }

  lemma NoDelimiter(a: string, d: char)
    requires IndexOf(a, [d]) < 0
    ensures d !in a
  {
    IndexOfIsFirst(a, [d]);
    forall k | 0 <= k < |a| ensures a[k] != d {
      assert !OccursAt(a, [d], k);
      assert a[k..k + 1] == [a[k]];
    }
  }

  lemma IndexInPrefix(a: string, d: char, b: string)
    requires IndexOf(a, [d]) >= 0
    ensures IndexOf(a + [d] + b, [d]) == IndexOf(a, [d])
  {
    var s := a + [d] + b;
    var i := IndexOf(a, [d]);
    IndexOfIsFirst(a, [d]);
    IndexOfIsFirst(s, [d]);
    assert OccursAt(s, [d], i) by {
      assert s[i..i + 1] == a[i..i + 1];
    }
    forall k | 0 <= k < i ensures !OccursAt(s, [d], k) {
      assert !OccursAt(a, [d], k);
      assert s[k..k + 1] == a[k..k + 1];
    }
  }

  lemma NoIndex(s: string, d: char)
    requires d !in s
    ensures IndexOf(s, [d]) == -1
  {
    IndexOfIsFirst(s, [d]);
    forall k | 0 <= k < |s| ensures !OccursAt(s, [d], k) {
      assert s[k..k + 1] == [s[k]];
    }
  }

  lemma FirstIndex(a: string, d: char, b: string)
    requires d !in a
    ensures IndexOf(a + [d] + b, [d]) == |a|
  {
    var s := a + [d] + b;
    IndexOfIsFirst(s, [d]);
    assert OccursAt(s, [d], |a|) by {
      assert s[|a|..|a| + 1] == [d];
    }
    forall k | 0 <= k < |a| ensures !OccursAt(s, [d], k) {
      assert s[k..k + 1] == [a[k]];
    }
  }

  /** A character that Java's `\R` matches on its own (CRLF is matched as a pair as well). */
  predicate IsLineBreak(c: char) {
    c == '\n' || c == '\U{0B}' || c == '\U{0C}' || c == '\r' || c == '\U{85}' || c == '\U{2028}' || c == '\U{2029}'
  }

  predicate HasLineBreak(s: string) {
    exists k | 0 <= k < |s| :: IsLineBreak(s[k])
  }

  function FirstLineBreak(s: string): (i: nat)
    requires HasLineBreak(s)
    ensures i < |s| && IsLineBreak(s[i])
    ensures forall k | 0 <= k < i :: !IsLineBreak(s[k])
  {
    if IsLineBreak(s[0]) then 0
    else
      assert HasLineBreak(s[1..]) by {
        var k :| 0 <= k < |s| && IsLineBreak(s[k]);
        assert s[1..][k - 1] == s[k];
      }
      1 + FirstLineBreak(s[1..])
  }

  /** The length of the `\R` match at a line break: two for CR LF, else one. */
  function BreakWidth(s: string, i: nat): (w: nat)
    requires i < |s|
    ensures 1 <= w && i + w <= |s|
  {
    if s[i] == '\r' && i + 1 < |s| && s[i + 1] == '\n' then 2 else 1
  }

  /** The pieces between the matches of `\R`, scanning left to right; a CR followed by LF is one match. */
  function LinePieces(s: string): (r: seq<string>)
    ensures |r| >= 1
    decreases |s|
  {
    if !HasLineBreak(s) then [s]
    else
      var i := FirstLineBreak(s);
      [s[..i]] + LinePieces(s[i + BreakWidth(s, i)..])
  }

  /** Drops the empty strings at the end, as `split` with limit 0 does. */
  function DropTrailingEmpty(xs: seq<string>): (r: seq<string>)
    ensures |r| <= |xs| && r == xs[..|r|]
    ensures forall i | |r| <= i < |xs| :: xs[i] == ""
    ensures r == [] || r[|r| - 1] != ""
  {
    if xs != [] && xs[|xs| - 1] == "" then DropTrailingEmpty(xs[..|xs| - 1]) else xs
  }

  /** `s.split("\\R")`: the whole string when there is no line break, else the pieces without the trailing empty ones. */
  function SplitLines(s: string): seq<string> {
    if !HasLineBreak(s) then [s] else DropTrailingEmpty(LinePieces(s))
  }

  lemma FirstLineBreakPrefix(a: string, t: string)
    requires HasLineBreak(a)
    ensures HasLineBreak(a + t)
    ensures FirstLineBreak(a + t) == FirstLineBreak(a)
  {
    var k :| 0 <= k < |a| && IsLineBreak(a[k]);
    assert (a + t)[k] == a[k];
    forall k | 0 <= k < |a| ensures (a + t)[k] == a[k] {
    }
  }

  lemma FirstLineBreakAfter(a: string, t: string)
    requires !HasLineBreak(a)
    requires t != [] && IsLineBreak(t[0])
    ensures HasLineBreak(a + t)
    ensures FirstLineBreak(a + t) == |a|
  {
    assert (a + t)[|a|] == t[0];
    forall k | 0 <= k < |a| ensures (a + t)[k] == a[k] {
    }
  }

  /** `t` begins with a line separator of either platform: LF or CR LF. */
  predicate StartsWithSeparator(t: string) {
    (|t| >= 1 && t[0] == '\n') || (|t| >= 2 && t[0] == '\r' && t[1] == '\n')
  }

  lemma LinePiecesSeparatorFirst(a: string, t: string)
    requires !HasLineBreak(a)
    requires StartsWithSeparator(t)
    ensures var w := if t[0] == '\n' then 1 else 2;
      w <= |t| && LinePieces(a + t) == [a] + LinePieces(t[w..])
  {
    var s := a + t;
    var w := if t[0] == '\n' then 1 else 2;
    FirstLineBreakAfter(a, t);
    assert s[|a|] == t[0];
    assert t[0] == '\r' ==> s[|a| + 1] == t[1];
    assert BreakWidth(s, |a|) == w;
    assert s[..|a|] == a;
    assert s[|a| + w..] == t[w..];
  }

  lemma LinePiecesBreakFirst(a: string, t: string)
    requires HasLineBreak(a)
    requires a[|a| - 1] != '\r'
    ensures var i := FirstLineBreak(a);
      LinePieces(a + t) == [a[..i]] + LinePieces(a[i + BreakWidth(a, i)..] + t)
  {
    var s := a + t;
    var i := FirstLineBreak(a);
    FirstLineBreakPrefix(a, t);
    var w := BreakWidth(a, i);
    assert BreakWidth(s, i) == w by {
      assert s[i] == a[i];
      if i + 1 < |a| {
        assert s[i + 1] == a[i + 1];
      }
    }
    assert s[..i] == a[..i];
    assert s[i + w..] == a[i + w..] + t;
  }

  lemma Associate(x: string, p: seq<string>, q: seq<string>)
    ensures [x] + (p + q) == ([x] + p) + q
  {
  }

  /** A line separator followed by more text splits off the text before it, unless that ends in a lone CR. */
  lemma {:induction false} LinePiecesConcat(a: string, t: string)
    requires StartsWithSeparator(t)
    requires a == [] || a[|a| - 1] != '\r'
    ensures var w := if t[0] == '\n' then 1 else 2;
      w <= |t| && LinePieces(a + t) == LinePieces(a) + LinePieces(t[w..])
    decreases |a|
  {
    if !HasLineBreak(a) {
      LinePiecesSeparatorFirst(a, t);
    } else {
      var i := FirstLineBreak(a);
      var a' := a[i + BreakWidth(a, i)..];
      var w := if t[0] == '\n' then 1 else 2;
      assert LinePieces(a + t) == [a[..i]] + LinePieces(a' + t) by {
        LinePiecesBreakFirst(a, t);
      }
      assert LinePieces(a' + t) == LinePieces(a') + LinePieces(t[w..]) by {
        assert a' == [] || a'[|a'| - 1] == a[|a| - 1];
        LinePiecesConcat(a', t);
      }
      Associate(a[..i], LinePieces(a'), LinePieces(t[w..]));
    }
  }

  /** A text without line breaks is one piece. */
  lemma LinePiecesSingle(a: string)
    requires !HasLineBreak(a)
    ensures LinePieces(a) == [a]
  {
  }

  /** A line separator between two texts splits them apart, unless the first ends in a lone CR. */
  lemma LinePiecesJoin(a: string, sep: string, b: string)
    requires sep == "\n" || sep == "\r\n"
    requires a == [] || a[|a| - 1] != '\r'
    ensures LinePieces(a + sep + b) == LinePieces(a) + LinePieces(b)
  {
    var t := sep + b;
    assert a + sep + b == a + t;
    LinePiecesConcat(a, t);
    assert t[|sep|..] == b;
  }
}
