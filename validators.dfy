// The three input patterns of config/config.php, as predicates over code
// points (the patterns carry the /u flag). A PCRE `$` without the D flag also
// matches just before one final "\n"; every predicate below admits that one
// trailing newline exactly as the pattern does.

module Validators {
  import opened PhpStrings

  predicate IsControl(c: char) {
    c as int <= 0x1F
  }

  // ------------------------------------------------------ REGEX_FILE_NAME

  /** `[^\x00-\x1F\/\\\\]`: no control character and no path separator. */
  predicate FileNameChar(c: char) {
    !IsControl(c) && c != '/' && c != '\\'
  }

  /** REGEX_FILE_NAME `/^[^\x00-\x1F\/\\\\]{1,255}$/u`. */
  predicate FileNameOk(s: string) {
    var t := StripFinalNewline(s);
    1 <= |t| <= 255 && forall i :: 0 <= i < |t| ==> FileNameChar(t[i])
  }

  /** The pattern lets one trailing newline through, and only one. */
  lemma FileNameTrailingNewline(s: string)
    requires FileNameOk(s) && !EndsWith(s, "\n")
    ensures FileNameOk(s + "\n")
    ensures !FileNameOk(s + "\n\n")
  {
    assert StripFinalNewline(s + "\n") == s;
    var t := StripFinalNewline(s + "\n\n");
    assert t == s + "\n";
    assert !FileNameChar(t[|t| - 1]);
  }

  /** Once the caller has applied `trim`, the newline allowance is gone: an
      accepted trimmed name is 1 to 255 separator-free, control-free code points. */
  lemma TrimmedFileName(raw: string)
    ensures var s := Trim(raw);
      FileNameOk(s) <==> 1 <= |s| <= 255 && forall i :: 0 <= i < |s| ==> FileNameChar(s[i])
  {
    var s := Trim(raw);
    TrimSetShape(raw, DefaultTrimSet);
    assert StripFinalNewline(s) == s;
  }

  /** The names "." and ".." pass the pattern: it does not exclude them. */
  lemma DotNamesAreFileNames()
    ensures FileNameOk(".") && FileNameOk("..")
  {
    assert StripFinalNewline(".") == ".";
    assert StripFinalNewline("..") == "..";
  }

  // ---------------------------------------------------- REGEX_FOLDER_NAME

  /** `[^<>:"\/\\\\|?*\x00-\x1F]`. */
  predicate FolderChar(c: char) {
    !IsControl(c) && c !in {'<', '>', ':', '"', '/', '\\', '|', '?', '*'}
  }

  predicate AllFolderChars(s: string) {
    forall i :: 0 <= i < |s| ==> FolderChar(s[i])
  }

  /** One segment: `[^<>:"\/\\\\|?*\x00-\x1F]{1,255}`. */
  predicate SegmentOk(s: string) {
    1 <= |s| <= 255 && AllFolderChars(s)
  }

  /** The body of the pattern read as written: a run of 1..255 folder
      characters, then either the end or `[\/\\\\]` and the body again. */
  predicate BodyMatches(t: string)
    decreases |t|, 1
  {
    exists k :: 1 <= k <= |t| && BodyStep(t, k)
  }

  /** The first run of the body is `t[..k]`. */
  predicate BodyStep(t: string, k: int)
    decreases |t|, 0
  {
    1 <= k <= 255 && k <= |t| && AllFolderChars(t[..k]) &&
      (k == |t| || (t[k] in SlashSet && BodyMatches(t[k + 1..])))
  }

  /** `(?!^(?:CON|PRN|AUX|NUL|COM[1-9]|LPT[1-9])$)`: case-sensitive, whole string. */
  predicate ReservedDeviceName(t: string) {
    || t in {"CON", "PRN", "AUX", "NUL"}
    || (|t| == 4 && (t[..3] == "COM" || t[..3] == "LPT") && '1' <= t[3] <= '9')
  }

  /** `(?!.*[. ]$)`. */
  predicate EndsWithDotOrSpace(t: string) {
    |t| > 0 && t[|t| - 1] in {'.', ' '}
  }

  /** REGEX_FOLDER_NAME. */
  predicate FolderNameOk(s: string) {
    var t := StripFinalNewline(s);
    BodyMatches(t) && !ReservedDeviceName(t) && !EndsWithDotOrSpace(t)
  }

  /** Every piece of `t` between '/' and '\' is a valid segment. */
  predicate AllSegmentsOk(t: string) {
    var parts := Split(t, SlashSet);
    forall i :: 0 <= i < |parts| ==> SegmentOk(parts[i])
  }

  lemma RunHasNoSeparator(t: string)
    requires AllFolderChars(t)
    ensures !HasAny(t, SlashSet)
  {
  }

  /** After a run of folder characters, the next separator is the first one. */
  lemma SeparatorAfterRun(t: string, k: nat)
    requires k < |t| && t[k] in SlashSet && AllFolderChars(t[..k])
    ensures HasAny(t, SlashSet) && FirstIndex(t, SlashSet) == k
  {
  }

  lemma {:induction false} SegmentsImplyBody(t: string)
    requires AllSegmentsOk(t)
    ensures BodyMatches(t)
    decreases |t|
  {
    var parts := Split(t, SlashSet);
    if !HasAny(t, SlashSet) {
      assert parts == [t] && SegmentOk(t);
      assert t[..|t|] == t;
      assert BodyStep(t, |t|);
    } else {
      var k := FirstIndex(t, SlashSet);
      var rest := t[k + 1..];
      var tail := Split(rest, SlashSet);
      assert parts == [t[..k]] + tail;
      assert SegmentOk(parts[0]);
      forall i | 0 <= i < |tail| ensures SegmentOk(tail[i]) {
        assert tail[i] == parts[i + 1];
      }
      SegmentsImplyBody(rest);
      assert BodyStep(t, k);
    }
  }

  lemma {:induction false} BodyImpliesSegments(t: string)
    requires BodyMatches(t)
    ensures AllSegmentsOk(t)
    decreases |t|
  {
    var k :| 1 <= k <= |t| && BodyStep(t, k);
    var parts := Split(t, SlashSet);
    if k == |t| {
      assert t[..k] == t;
      RunHasNoSeparator(t);
      assert parts == [t];
    } else {
      SeparatorAfterRun(t, k);
      var rest := t[k + 1..];
      var tail := Split(rest, SlashSet);
      assert parts == [t[..k]] + tail;
      BodyImpliesSegments(rest);
      forall i | 0 <= i < |parts| ensures SegmentOk(parts[i]) {
        if i > 0 {
          assert parts[i] == tail[i - 1];
        }
      }
    }
  }

  /** The body matches exactly when every piece between '/' and '\' is a
      valid segment: one or more segments, joined by single separators. */
  lemma BodyMatchesSegments(t: string)
    ensures BodyMatches(t) <==> AllSegmentsOk(t)
  {
    if BodyMatches(t) {
      BodyImpliesSegments(t);
    }
    if AllSegmentsOk(t) {
      SegmentsImplyBody(t);
    }
  }

  /** A separator at either end, or two in a row, is rejected. */
  lemma FolderRejectsEmptySegment(s: string)
    requires !EndsWith(s, "\n")
    requires exists i :: 0 <= i < |Split(s, SlashSet)| && Split(s, SlashSet)[i] == ""
    ensures !FolderNameOk(s)
  {
    assert StripFinalNewline(s) == s;
    BodyMatchesSegments(s);
  }

  lemma LeadingSeparatorRejected(sep: char, rest: string)
    requires sep in SlashSet
    ensures !FolderNameOk([sep] + rest)
  {
    var t := StripFinalNewline([sep] + rest);
    assert t[0] == sep;
    assert !BodyMatches(t) by {
      forall k | 1 <= k <= |t| ensures !BodyStep(t, k) {
        assert t[..k][0] == sep;
      }
    }
  }

  /** A last character '.' or ' ' is rejected (before a final newline too). */
  lemma FolderRejectsTrailingDotOrSpace(body: string, last: char, nl: bool)
    requires last == '.' || last == ' '
    ensures !FolderNameOk(body + [last] + (if nl then "\n" else ""))
  {
    var s := body + [last] + (if nl then "\n" else "");
    assert StripFinalNewline(s) == body + [last];
  }

  /** The Windows device names are refused as whole folder names, also
      with the one trailing newline `$` lets through. */
  lemma ReservedNamesRefused()
    ensures !FolderNameOk("CON") && !FolderNameOk("LPT7") && !FolderNameOk("NUL\n")
  {
    assert StripFinalNewline("NUL\n") == "NUL";
  }

  /** The reserved-name check is whole-string and case-sensitive: lower
      case, a longer name and a path that merely starts with one pass. */
  lemma ReservedNamesOnlyWhole()
    ensures FolderNameOk("con") && FolderNameOk("CON/x") && FolderNameOk("COM10")
  {
    assert FolderNameOk("con") by { OneSegment("con"); }
    assert FolderNameOk("COM10") by { OneSegment("COM10"); }
    assert FolderNameOk("CON/x") by {
      TwoSegments("CON", '/', "x");
      assert "CON" + ['/'] + "x" == "CON/x";
    }
  }

  /** The pattern by itself admits ".." as a segment that is not the last. */
  lemma DotDotSegmentAdmitted()
    ensures FolderNameOk("../x") && FolderNameOk("a/../b")
    ensures !FolderNameOk("..") && !FolderNameOk("x/..")
  {
    TwoSegments("..", '/', "x");
    assert ".." + ['/'] + "x" == "../x";
    TwoSegments("..", '/', "b");
    assert ".." + ['/'] + "b" == "../b";
    assert "a/../b" == "a" + ['/'] + "../b";
    assert BodyMatches("a/../b") by {
      var t := "a/../b";
      assert t[..1] == "a" && t[1] == '/' && t[2..] == "../b";
      assert BodyStep(t, 1);
    }
    assert StripFinalNewline("a/../b") == "a/../b";
    assert StripFinalNewline("x/..") == "x/..";
  }

  lemma OneRun(a: string)
    requires SegmentOk(a)
    ensures BodyMatches(a)
  {
    assert a[..|a|] == a;
    assert BodyStep(a, |a|);
  }

  lemma ReservedHasNoSeparator(t: string)
    requires ReservedDeviceName(t)
    ensures !HasAny(t, SlashSet)
  {
    if |t| == 4 && (t[..3] == "COM" || t[..3] == "LPT") {
      assert t[0] == t[..3][0] && t[1] == t[..3][1] && t[2] == t[..3][2];
    }
  }

  lemma OneSegment(a: string)
    requires !EndsWith(a, "\n") && SegmentOk(a)
    requires !ReservedDeviceName(a) && !EndsWithDotOrSpace(a)
    ensures FolderNameOk(a) && BodyMatches(a)
  {
    OneRun(a);
    assert StripFinalNewline(a) == a;
  }

  lemma TwoSegmentsBody(a: string, sep: char, b: string)
    requires sep in SlashSet && SegmentOk(a) && SegmentOk(b)
    ensures BodyMatches(a + [sep] + b)
  {
    var t := a + [sep] + b;
    OneRun(b);
    assert t[..|a|] == a && t[|a|] == sep && t[|a| + 1..] == b;
    assert BodyStep(t, |a|);
  }

  lemma TwoSegments(a: string, sep: char, b: string)
    requires sep in SlashSet && SegmentOk(a) && SegmentOk(b)
    requires !EndsWithDotOrSpace(b) && b[|b| - 1] != '\n'
    ensures FolderNameOk(a + [sep] + b) && BodyMatches(a + [sep] + b)
  {
    var t := a + [sep] + b;
    TwoSegmentsBody(a, sep, b);
    assert t[|t| - 1] == b[|b| - 1];
    assert StripFinalNewline(t) == t;
    assert t[|a|] == sep;
    if ReservedDeviceName(t) {
      ReservedHasNoSeparator(t);
    }
  }

  // ------------------------------------------------------------ REGEX_USER

  /** `\p{L}` or `\p{N}`, classified for U+0000..U+00FF (ASCII and Latin-1);
      code points above U+00FF are not classified. */
  predicate LetterOrNumber(c: char) {
    || 'a' <= c <= 'z' || 'A' <= c <= 'Z' || '0' <= c <= '9'
    || c as int in {0xAA, 0xB2, 0xB3, 0xB5, 0xB9, 0xBA, 0xBC, 0xBD, 0xBE}
    || (0xC0 <= c as int <= 0xFF && c as int != 0xD7 && c as int != 0xF7)
  }

  predicate UserChar(c: char) {
    LetterOrNumber(c) || c == '_' || c == '-' || c == ' '
  }

  /** REGEX_USER `/^[\p{L}\p{N}_\- ]+$/u`. */
  predicate UserNameOk(s: string) {
    var t := StripFinalNewline(s);
    |t| >= 1 && forall i :: 0 <= i < |t| ==> UserChar(t[i])
  }

  /** An accepted user name holds no separator, no dot, and no control
      character except the one final newline the `$` admits. */
  lemma UserNameHasNoPathCharacters(s: string)
    requires UserNameOk(s)
    ensures forall i :: 0 <= i < |s| ==> s[i] !in {'/', '\\', '.', ':'}
    ensures forall i :: 0 <= i < |s| - 1 ==> !IsControl(s[i])
    ensures |s| >= 1 && (IsControl(s[|s| - 1]) ==> s[|s| - 1] == '\n')
  {
    var t := StripFinalNewline(s);
    assert forall i :: 0 <= i < |t| ==> t[i] == s[i];
    forall i | 0 <= i < |s| ensures s[i] !in {'/', '\\', '.', ':'} {
      if i < |t| {
        assert UserChar(t[i]);
      }
    }
  }

  /** Every accepted user name of at most 255 characters, with no final
      newline, is also an accepted file name. */
  lemma ShortUserNameIsFileName(s: string)
    requires UserNameOk(s) && |s| <= 255 && !EndsWith(s, "\n")
    ensures FileNameOk(s)
  {
    assert StripFinalNewline(s) == s;
    forall i | 0 <= i < |s| ensures FileNameChar(s[i]) {
      assert UserChar(s[i]);
    }
  }
}
