// The PHP string built-ins that the file store leans on (trim, strtolower,
// basename, explode, str_replace, integer-to-string), written over
// `seq<char>`. Each follows PHP 8 on a POSIX host: `basename` and the
// directory separator are '/', and `strtolower` folds ASCII letters only.

module PhpStrings {

  /** The characters PHP's `trim` strips when it is given no list: " \t\n\r\0\x0B". */
  const DefaultTrimSet: set<char> := {' ', '\t', '\n', '\r', '\0', '\U{000B}'}

  /** The list `"/\\ "` that the folder code hands to `trim`. */
  const SlashSpaceSet: set<char> := {'/', '\\', ' '}

  /** The list `"/\\"` that the restore and extract code hands to `trim`. */
  const SlashSet: set<char> := {'/', '\\'}

  /** PHP's falsy strings: the empty string and "0" (`empty()`, `?:`, `if ($s)`). */
  predicate Falsy(s: string) {
    s == "" || s == "0"
  }

  // ---------------------------------------------------------------- trim

  /** How many leading characters of `s` belong to `cs`. */
  function LeadCount(s: string, cs: set<char>): (k: nat)
    ensures k <= |s|
  {
    if |s| > 0 && s[0] in cs then 1 + LeadCount(s[1..], cs) else 0
  }

  /** The counted characters belong to `cs` and the next one does not. */
  lemma {:induction false} LeadCountSpec(s: string, cs: set<char>)
    ensures forall i :: 0 <= i < LeadCount(s, cs) ==> s[i] in cs
    ensures LeadCount(s, cs) < |s| ==> s[LeadCount(s, cs)] !in cs
  {
    if |s| > 0 && s[0] in cs {
      LeadCountSpec(s[1..], cs);
    }
  }

  /** How many trailing characters of `s` belong to `cs`. */
  function TailCount(s: string, cs: set<char>): (k: nat)
    ensures k <= |s|
  {
    if |s| > 0 && s[|s| - 1] in cs then 1 + TailCount(s[..|s| - 1], cs) else 0
  }

  /** The counted characters belong to `cs` and the one before them does not. */
  lemma {:induction false} TailCountSpec(s: string, cs: set<char>)
    ensures forall i :: |s| - TailCount(s, cs) <= i < |s| ==> s[i] in cs
    ensures TailCount(s, cs) < |s| ==> s[|s| - 1 - TailCount(s, cs)] !in cs
  {
    if |s| > 0 && s[|s| - 1] in cs {
      TailCountSpec(s[..|s| - 1], cs);
    }
  }

  function LTrim(s: string, cs: set<char>): string {
    s[LeadCount(s, cs)..]
  }

  function RTrim(s: string, cs: set<char>): string {
    s[..|s| - TailCount(s, cs)]
  }

  /** PHP `trim($s, $chars)`: strip characters of `cs` from both ends. */
  function TrimSet(s: string, cs: set<char>): string {
    RTrim(LTrim(s, cs), cs)
  }

  /** PHP `trim($s)` with the default character list. */
  function Trim(s: string): string {
    TrimSet(s, DefaultTrimSet)
  }

  /** A trimmed string neither starts nor ends with a stripped character,
      and it is a contiguous piece of the input. */
  lemma TrimSetShape(s: string, cs: set<char>)
    ensures var r := TrimSet(s, cs);
      && (r != [] ==> r[0] !in cs && r[|r| - 1] !in cs)
      && LeadCount(s, cs) + |r| <= |s| && r == s[LeadCount(s, cs)..LeadCount(s, cs) + |r|]
  {
    var l := LTrim(s, cs);
    var r := TrimSet(s, cs);
    var i := LeadCount(s, cs);
    assert l == s[i..];
    assert r == l[..|l| - TailCount(l, cs)];
    assert r == s[i..i + |r|];
    if r != [] {
      LeadCountSpec(s, cs);
      TailCountSpec(l, cs);
      assert r[0] == l[0];
      assert r[|r| - 1] == l[|l| - 1 - TailCount(l, cs)];
    }
  }

  /** Trimming twice with the same list is trimming once. */
  lemma TrimSetIdempotent(s: string, cs: set<char>)
    ensures TrimSet(TrimSet(s, cs), cs) == TrimSet(s, cs)
  {
    var r := TrimSet(s, cs);
    TrimSetShape(s, cs);
    assert LeadCount(r, cs) == 0;
    assert LTrim(r, cs) == r;
    assert TailCount(r, cs) == 0;
  }

  /** Leading characters of `cs` followed by one that is not, or by nothing. */
  lemma {:induction false} LeadCountSkips(pre: string, rest: string, cs: set<char>)
    requires forall i :: 0 <= i < |pre| ==> pre[i] in cs
    requires rest == [] || rest[0] !in cs
    ensures LeadCount(pre + rest, cs) == |pre|
  {
    if pre != [] {
      assert (pre + rest)[1..] == pre[1..] + rest;
      LeadCountSkips(pre[1..], rest, cs);
    }
  }

  /** Trailing characters of `cs` preceded by one that is not, or by nothing. */
  lemma {:induction false} TailCountSkips(rest: string, post: string, cs: set<char>)
    requires forall i :: 0 <= i < |post| ==> post[i] in cs
    requires rest == [] || rest[|rest| - 1] !in cs
    ensures TailCount(rest + post, cs) == |post|
  {
    if post != [] {
      var s := rest + post;
      assert s[..|s| - 1] == rest + post[..|post| - 1];
      TailCountSkips(rest, post[..|post| - 1], cs);
    }
  }

  /** Trimming `cs` off a piece wrapped in characters of `cs` gives back the
      piece, when the piece neither starts nor ends with one of them. */
  lemma TrimSetWrapped(pre: string, t: string, post: string, cs: set<char>)
    requires forall i :: 0 <= i < |pre| ==> pre[i] in cs
    requires forall i :: 0 <= i < |post| ==> post[i] in cs
    requires t != [] ==> t[0] !in cs && t[|t| - 1] !in cs
    ensures TrimSet(pre + t + post, cs) == t
  {
    var s := pre + t + post;
    if t == [] {
      assert s == (pre + post) + [];
      LeadCountSkips(pre + post, [], cs);
      assert LTrim(s, cs) == [];
    } else {
      assert s == pre + (t + post);
      LeadCountSkips(pre, t + post, cs);
      assert LTrim(s, cs) == t + post;
      TailCountSkips(t, post, cs);
      assert (t + post)[..|t|] == t;
    }
  }

  // ---------------------------------------------------------- strtolower

  function LowerChar(c: char): char {
    if 'A' <= c <= 'Z' then (c as int + 32) as char else c
  }

  /** PHP 8 `strtolower`: ASCII letters only. */
  function ToLower(s: string): (r: string)
    ensures |r| == |s|
    ensures forall i :: 0 <= i < |s| ==> r[i] == LowerChar(s[i])
  {
    if s == [] then [] else [LowerChar(s[0])] + ToLower(s[1..])
  }

  /** `strtolower($s) === 'root'`: "root" spelled in any letter case. */
  predicate IsRootAnyCase(s: string) {
    ToLower(s) == "root"
  }

  lemma RootAnyCaseExamples()
    ensures IsRootAnyCase("root") && IsRootAnyCase("Root") && IsRootAnyCase("ROOT")
    ensures !IsRootAnyCase("root/") && !IsRootAnyCase(" root")
  {
    assert ToLower("Root") == "root";
    assert ToLower("ROOT") == "root";
    assert ToLower("root") == "root";
    assert |ToLower("root/")| == 5;
    assert ToLower(" root")[0] == ' ';
  }

  // ---------------------------------------------------------- searching

  predicate StartsWith(s: string, prefix: string) {
    |prefix| <= |s| && s[..|prefix|] == prefix
  }

  predicate EndsWith(s: string, suffix: string) {
    |suffix| <= |s| && s[|s| - |suffix|..] == suffix
  }

  /** `strpos($s, '..') !== false`. */
  predicate HasDotDot(s: string) {
    exists i :: 0 <= i < |s| - 1 && s[i] == '.' && s[i + 1] == '.'
  }

  /** Index of the first `c` in `s`. */
  function IndexOf(s: string, c: char): (k: nat)
    requires c in s
    ensures k < |s| && s[k] == c
    ensures forall i :: 0 <= i < k ==> s[i] != c
  {
    if s[0] == c then 0 else 1 + IndexOf(s[1..], c)
  }

  /** The part of `s` after its last `c` (all of `s` when there is none). */
  function AfterLast(s: string, c: char): (r: string)
    ensures c !in r
    ensures |r| <= |s| && r == s[|s| - |r|..]
    ensures |r| < |s| ==> s[|s| - |r| - 1] == c
  {
    if s == [] then []
    else if s[|s| - 1] == c then []
    else AfterLast(s[..|s| - 1], c) + [s[|s| - 1]]
  }

  /** What follows the last `c` in `p + [c] + q`, when `q` has no `c`, is `q`. */
  lemma {:induction false} AfterLastOfSplit(p: string, c: char, q: string)
    requires c !in q
    ensures AfterLast(p + [c] + q, c) == q
  {
    var s := p + [c] + q;
    if q != [] {
      assert s[|s| - 1] == q[|q| - 1];
      assert s[..|s| - 1] == p + [c] + q[..|q| - 1];
      AfterLastOfSplit(p, c, q[..|q| - 1]);
      assert q == q[..|q| - 1] + [q[|q| - 1]];
    }
  }

  /** PHP `basename($path)` on a POSIX host: drop trailing '/', keep what
      follows the last remaining '/'. */
  function Basename(path: string): (r: string)
    ensures '/' !in r
  {
    AfterLast(RTrim(path, {'/'}), '/')
  }

  /** The base name of a path ending in a non-empty, slash-free segment is
      that segment. */
  lemma BasenameOfSplit(p: string, q: string)
    requires q != [] && '/' !in q
    ensures Basename(p + ['/'] + q) == q
  {
    var s := p + ['/'] + q;
    assert s[|s| - 1] == q[|q| - 1];
    assert TailCount(s, {'/'}) == 0;
    assert RTrim(s, {'/'}) == s;
    AfterLastOfSplit(p, '/', q);
  }

  /** Whether some character of `s` belongs to `cs`. */
  predicate HasAny(s: string, cs: set<char>) {
    exists i :: 0 <= i < |s| && s[i] in cs
  }

  /** Index of the first character of `s` that belongs to `cs`. */
  function FirstIndex(s: string, cs: set<char>): (k: nat)
    requires HasAny(s, cs)
    ensures k < |s| && s[k] in cs
    ensures forall i :: 0 <= i < k ==> s[i] !in cs
  {
    if s[0] in cs then 0
    else
      assert HasAny(s[1..], cs) by {
        var i :| 0 <= i < |s| && s[i] in cs;
        assert s[1..][i - 1] == s[i];
      }
      1 + FirstIndex(s[1..], cs)
  }

  /** The pieces of `s` between characters of `cs`, empty pieces kept. */
  function Split(s: string, cs: set<char>): (parts: seq<string>)
    ensures |parts| >= 1
    ensures forall i :: 0 <= i < |parts| ==> !HasAny(parts[i], cs)
    decreases |s|
  {
    if !HasAny(s, cs) then [s]
    else
      var k := FirstIndex(s, cs);
      [s[..k]] + Split(s[k + 1..], cs)
  }

  /** PHP `explode($sep, $s)`. */
  function Explode(s: string, sep: char): (parts: seq<string>)
    ensures |parts| >= 1
    ensures forall i :: 0 <= i < |parts| ==> sep !in parts[i]
  {
    Split(s, {sep})
  }

  /** PHP `implode($sep, $parts)`. */
  function Implode(parts: seq<string>, sep: char): string
    requires |parts| >= 1
  {
    if |parts| == 1 then parts[0] else parts[0] + [sep] + Implode(parts[1..], sep)
  }

  /** `implode` undoes `explode`. */
  lemma {:induction false} ExplodeImplode(s: string, sep: char)
    ensures Implode(Explode(s, sep), sep) == s
    decreases |s|
  {
    if HasAny(s, {sep}) {
      var k := FirstIndex(s, {sep});
      var rest := Split(s[k + 1..], {sep});
      var parts := Split(s, {sep});
      assert parts == [s[..k]] + rest;
      assert parts[1..] == rest;
      ExplodeImplode(s[k + 1..], sep);
      assert Implode(parts, sep) == s[..k] + [sep] + Implode(rest, sep);
      assert s == s[..k] + [sep] + s[k + 1..];
    }
  }

  /** The non-empty pieces of `s` between '/' separators: the directory a
      path string names once repeated and surrounding slashes are ignored. */
  function Segments(s: string): (r: seq<string>)
    ensures forall i :: 0 <= i < |r| ==> r[i] != "" && '/' !in r[i]
  {
    NonEmpty(Explode(s, '/'))
  }

  function NonEmpty(parts: seq<string>): (r: seq<string>)
    ensures forall i :: 0 <= i < |r| ==> r[i] != "" && exists j :: 0 <= j < |parts| && parts[j] == r[i]
  {
    if parts == [] then []
    else if parts[0] == "" then NonEmpty(parts[1..])
    else [parts[0]] + NonEmpty(parts[1..])
  }

  /** `str_replace(['/', '\\', ' '], '-', $s)`. */
  function DashSeparators(s: string): (r: string)
    ensures |r| == |s|
    ensures forall i :: 0 <= i < |s| ==> r[i] == (if s[i] in SlashSpaceSet then '-' else s[i])
  {
    if s == [] then [] else [if s[0] in SlashSpaceSet then '-' else s[0]] + DashSeparators(s[1..])
  }

  /** The final newline that a PCRE `$` lets through, removed. */
  function StripFinalNewline(s: string): string {
    if |s| > 0 && s[|s| - 1] == '\n' then s[..|s| - 1] else s
  }

  // ---------------------------------------------------------- integers

  predicate IsDigit(c: char) {
    '0' <= c <= '9'
  }

  function DigitChar(d: nat): (c: char)
    requires d < 10
    ensures IsDigit(c) && c as int - '0' as int == d
  {
    ('0' as int + d) as char
  }

  /** PHP's decimal rendering of a non-negative integer. */
  function NatToString(n: nat): (s: string)
    ensures |s| >= 1 && forall i :: 0 <= i < |s| ==> IsDigit(s[i])
  {
    if n < 10 then [DigitChar(n)] else NatToString(n / 10) + [DigitChar(n % 10)]
  }

  /** PHP's decimal rendering of an integer (a '-' before negatives). */
  function IntToString(n: int): string {
    if n < 0 then "-" + NatToString(-n) else NatToString(n)
  }

  /** The value of a run of decimal digits. */
  function DigitsValue(s: string): nat
    requires forall i :: 0 <= i < |s| ==> IsDigit(s[i])
  {
    if s == [] then 0
    else
      assert IsDigit(s[|s| - 1]);
      10 * DigitsValue(s[..|s| - 1]) + (s[|s| - 1] as int - '0' as int)
  }

  /** Reading back the decimal rendering gives the number. */
  lemma {:induction false} NatToStringRoundTrip(n: nat)
    ensures DigitsValue(NatToString(n)) == n
  {
    if n >= 10 {
      NatToStringRoundTrip(n / 10);
      var s := NatToString(n);
      assert s[..|s| - 1] == NatToString(n / 10);
    }
  }

  /** Different numbers render differently. */
  lemma NatToStringInjective(a: nat, b: nat)
    requires NatToString(a) == NatToString(b)
    ensures a == b
  {
    NatToStringRoundTrip(a);
    NatToStringRoundTrip(b);
  }
}
