// `getUniqueFileName`: when a name is taken in a directory, try
// "stem (1).ext", "stem (2).ext", ... until one is free.

module Naming {
  import opened PhpStrings
  import opened Store

  /** `pathinfo($name, PATHINFO_FILENAME)` for a name without '/': what
      precedes the last '.'. */
  function Stem(name: string): string {
    if '.' in name then name[..|name| - |AfterLast(name, '.')| - 1] else name
  }

  /** `pathinfo($name, PATHINFO_EXTENSION)`: what follows the last '.', or
      "" when there is none. */
  function Extension(name: string): (ext: string)
    ensures '.' !in ext
  {
    if '.' in name then AfterLast(name, '.') else ""
  }

  /** A name with a dot is its stem, the dot and its extension. */
  lemma StemDotExtension(name: string)
    requires '.' in name
    ensures name == Stem(name) + "." + Extension(name)
  {
  }

  /** The numbered variant tried at round `n`: the extension is kept only
      when it is truthy (so "x.0" becomes "x (1)"). */
  function Candidate(name: string, n: nat): (c: string)
    ensures !DirectoryAlias(c)
  {
    var ext := Extension(name);
    Stem(name) + " (" + NatToString(n) + (")" + (if Falsy(ext) then "" else "." + ext))
  }

  lemma MiddleEqual(p: string, a: string, b: string, q: string)
    requires p + a + q == p + b + q
    ensures a == b
  {
    assert |a| == |b|;
    assert a == (p + a + q)[|p|..|p| + |a|];
    assert b == (p + b + q)[|p|..|p| + |b|];
  }

  /** Different rounds produce different names. */
  lemma CandidateInjective(name: string, a: nat, b: nat)
    requires Candidate(name, a) == Candidate(name, b)
    ensures a == b
  {
    var ext := Extension(name);
    var tail := ")" + (if Falsy(ext) then "" else "." + ext);
    var head := Stem(name) + " (";
    assert Candidate(name, a) == head + NatToString(a) + tail;
    assert Candidate(name, b) == head + NatToString(b) + tail;
    NumberedInjective(head, tail, a, b);
  }

  lemma NumberedInjective(head: string, tail: string, a: nat, b: nat)
    requires head + NatToString(a) + tail == head + NatToString(b) + tail
    ensures a == b
  {
    MiddleEqual(head, NatToString(a), NatToString(b), tail);
    NatToStringInjective(a, b);
  }

  /** The path tried at round k: `dir` and the k-th numbered variant. */
  function CandidatePath(dir: Path, name: string): nat -> Path {
    (k: nat) => dir + [Candidate(name, k)]
  }

  /** The paths `f(1)`, ..., `f(n)` of rounds 1 to n. */
  function Rounds(f: nat -> Path, n: nat): set<Path> {
    if n == 0 then {} else Rounds(f, n - 1) + {f(n)}
  }

  /** No two rounds try the same path. */
  ghost predicate DistinctRounds(f: nat -> Path) {
    forall a, b :: 1 <= a < b ==> f(a) != f(b)
  }

  lemma {:induction false} RoundIsNew(f: nat -> Path, m: nat, n: nat)
    requires m < n && DistinctRounds(f)
    ensures f(n) !in Rounds(f, m)
  {
    if m > 0 {
      RoundIsNew(f, m - 1, n);
    }
  }

  /** Rounds with distinct paths make a set of n paths. */
  lemma {:induction false} RoundsSize(f: nat -> Path, n: nat)
    requires DistinctRounds(f)
    ensures |Rounds(f, n)| == n
  {
    if n > 0 {
      RoundsSize(f, n - 1);
      RoundIsNew(f, n - 1, n);
    }
  }

  lemma {:induction false} RoundsWithin(f: nat -> Path, n: nat, keys: set<Path>)
    requires forall j :: 1 <= j <= n ==> f(j) in keys
    ensures Rounds(f, n) <= keys
  {
    if n > 0 {
      RoundsWithin(f, n - 1, keys);
    }
  }

  /** The candidate paths of different rounds differ. */
  lemma CandidatePathsDistinct(dir: Path, name: string)
    ensures DistinctRounds(CandidatePath(dir, name))
  {
    var f := CandidatePath(dir, name);
    forall a, b | 1 <= a < b ensures f(a) != f(b) {
      assert f(a)[|dir|] == Candidate(name, a) && f(b)[|dir|] == Candidate(name, b);
      if Candidate(name, a) == Candidate(name, b) {
        CandidateInjective(name, a, b);
      }
    }
  }

  /** While rounds 1 to n are all taken, n cannot exceed the number of paths in the tree. */
  lemma TakenRoundsBounded(tree: map<Path, Node>, f: nat -> Path, n: nat)
    requires DistinctRounds(f)
    requires forall j :: 1 <= j <= n ==> f(j) in tree
    ensures n <= |tree|
  {
    RoundsSize(f, n);
    RoundsWithin(f, n, tree.Keys);
    SubsetSize(Rounds(f, n), tree.Keys);
  }

  lemma SubsetSize<T>(a: set<T>, b: set<T>)
    requires a <= b
    ensures |a| <= |b|
  {
    assert b == a + (b - a);
  }

  /** The first free round at or after n, given that rounds 1 to n-1 are
      taken; it exists because distinct rounds cannot all be taken. */
  function FirstFree(tree: map<Path, Node>, f: nat -> Path, n: nat): (k: nat)
    requires n >= 1 && DistinctRounds(f)
    requires forall j :: 1 <= j < n ==> f(j) in tree
    ensures k >= n && f(k) !in tree
    ensures forall j :: 1 <= j < k ==> f(j) in tree
    decreases |tree| + 1 - n
  {
    if f(n) in tree then
      TakenRoundsBounded(tree, f, n);
      FirstFree(tree, f, n + 1)
    else n
  }

  /** The name `getUniqueFileName` settles on in directory `dir`; "." and
      ".." exist whenever the directory does, so they are numbered too. */
  function UniqueName(tree: map<Path, Node>, dir: Path, name: string): (r: string)
    ensures !FileExists(tree, dir, r) && dir + [r] !in tree
    ensures !FileExists(tree, dir, name) ==> r == name
  {
    if !FileExists(tree, dir, name) then name
    else
      CandidatePathsDistinct(dir, name);
      Candidate(name, FirstFree(tree, CandidatePath(dir, name), 1))
  }

  /** `getUniqueFileName`, with its do-while loop. */
  method GetUniqueFileName(tree: map<Path, Node>, dir: Path, name: string) returns (r: string)
    ensures r == UniqueName(tree, dir, name)
    ensures !FileExists(tree, dir, r)
  {
    if !FileExists(tree, dir, name) {
      return name;
    }
    ghost var f := CandidatePath(dir, name);
    CandidatePathsDistinct(dir, name);
    var counter := 1;
    var newName := Candidate(name, counter);
    counter := counter + 1;
    while dir + [newName] in tree
      invariant counter >= 2 && newName == Candidate(name, counter - 1)
      invariant forall j :: 1 <= j < counter - 1 ==> f(j) in tree
      invariant FirstFree(tree, f, 1) == FirstFree(tree, f, counter - 1)
      decreases |tree| + 1 - counter
    {
      TakenRoundsBounded(tree, f, counter - 1);
      newName := Candidate(name, counter);
      counter := counter + 1;
    }
    return newName;
  }

  lemma AfterLastOfDotted(head: string, ext: string)
    requires '.' !in ext
    ensures AfterLast(head + "." + ext, '.') == ext
  {
    var s := head + "." + ext;
    assert s[|s| - |ext| - 1] == '.';
  }

  /** A truthy extension survives: the new name has the same extension. */
  lemma CandidateKeepsExtension(name: string, n: nat)
    requires !Falsy(Extension(name))
    ensures Extension(Candidate(name, n)) == Extension(name)
  {
    var ext := Extension(name);
    var head := Stem(name) + " (" + NatToString(n) + ")";
    assert Candidate(name, n) == head + "." + ext;
    AfterLastOfDotted(head, ext);
  }

  /** A taken name is replaced by the numbered variant of the first round
      whose name is free: all earlier rounds were taken. */
  lemma UniqueNameFirstFreeRound(tree: map<Path, Node>, dir: Path, name: string)
    requires FileExists(tree, dir, name)
    ensures exists k :: k >= 1 && UniqueName(tree, dir, name) == Candidate(name, k) &&
                        (forall j :: 1 <= j < k ==> dir + [Candidate(name, j)] in tree)
  {
    CandidatePathsDistinct(dir, name);
    var f := CandidatePath(dir, name);
    var k := FirstFree(tree, f, 1);
    assert UniqueName(tree, dir, name) == Candidate(name, k);
    assert forall j :: 1 <= j < k ==> f(j) == dir + [Candidate(name, j)];
  }

  /** A taken name whose first numbered variant is free becomes that variant. */
  lemma UniqueNameFirstRound(tree: map<Path, Node>, dir: Path, name: string)
    requires FileExists(tree, dir, name) && dir + [Candidate(name, 1)] !in tree
    ensures UniqueName(tree, dir, name) == Candidate(name, 1)
  {
    UniqueNameFirstFreeRound(tree, dir, name);
    var k :| k >= 1 && UniqueName(tree, dir, name) == Candidate(name, k) &&
             (forall j :: 1 <= j < k ==> dir + [Candidate(name, j)] in tree);
    assert k == 1;
  }

  /** A taken name is never returned unchanged: renaming or copying onto an
      existing name always yields a numbered variant, even for the same file. */
  lemma TakenNameChanges(tree: map<Path, Node>, dir: Path, name: string)
    requires FileExists(tree, dir, name)
    ensures UniqueName(tree, dir, name) != name
  {
  }

  /** A dotted name splits at its last dot into stem and extension. */
  lemma DottedParts(head: string, ext: string)
    requires '.' !in ext
    ensures Extension(head + "." + ext) == ext && Stem(head + "." + ext) == head
  {
    AfterLastOfDotted(head, ext);
    var s := head + "." + ext;
    assert s[..|s| - |ext| - 1] == head;
  }

  /** "report.pdf" becomes "report (n).pdf": the number goes before the
      last dot and a truthy extension is kept. */
  lemma CandidateOfDotted(head: string, ext: string, n: nat)
    requires '.' !in ext && !Falsy(ext)
    ensures Candidate(head + "." + ext, n) == head + " (" + NatToString(n) + ")." + ext
  {
    DottedParts(head, ext);
  }

  /** An extension "0" is falsy and dropped: "x.0" becomes "x (n)". */
  lemma CandidateDropsZeroExtension(head: string, n: nat)
    ensures Candidate(head + ".0", n) == head + " (" + NatToString(n) + ")"
  {
    assert head + ".0" == head + "." + "0";
    DottedParts(head, "0");
  }

  /** "." has an empty stem and no extension, and ".." has the stem ".", so
      their numbered variants are " (n)" and ". (n)". */
  lemma CandidateOfDots(n: nat)
    ensures Candidate(".", n) == " (" + NatToString(n) + ")"
    ensures Candidate("..", n) == ". (" + NatToString(n) + ")"
  {
    assert AfterLast(".", '.') == [] && AfterLast("..", '.') == [];
    assert Stem(".") == "" && Extension(".") == "";
    assert Stem("..") == "." by {
      assert ".."[..1] == ".";
    }
    assert Extension("..") == "";
  }

  /** A name without a dot just gets the number appended. */
  lemma CandidateWithoutDot(name: string, n: nat)
    requires '.' !in name
    ensures Candidate(name, n) == name + " (" + NatToString(n) + ")"
  {
  }
}
