// ZIP archives: createZipArchive picks the files to pack from one folder;
// extractZipArchive unpacks archives of a folder and copies each archive's
// metadata entry to the names it reports. Archive contents come from
// `env.archives`; the bytes written by the extraction are not modelled.

module Archive {
  import opened PhpStrings
  import opened Validators
  import opened Store
  import opened FileOps
  import opened Trash

  // ---------------------------------------------------- createZipArchive

  /** The directory createZipArchive packs from, for a folder already
      defaulted to 'root': a folder holding ".." anywhere is refused, and
      the folder must exist inside the uploads directory. */
  function ZipDir(s: State, env: Env, f: string): (r: Result<Path>)
    ensures r.Ok? && r.value != [] ==> !HasDotDot(f) && Exists(s.tree, r.value) && r.value !in env.escaping
    ensures r.Err? ==> r.problem.kind in {InvalidFolder, FolderNotFound}
  {
    if IsRootAnyCase(f) then Ok([])
    else if HasDotDot(f) then Err(Problem(InvalidFolder, f))
    else
      var dir := Segments(TrimSet(f, SlashSpaceSet));
      if !Exists(s.tree, dir) || dir in env.escaping then Err(Problem(FolderNotFound, f))
      else Ok(dir)
  }

  /** A cleaned name that goes into the archive: accepted by the file-name
      pattern and present in the folder. */
  predicate Zippable(tree: map<Path, Node>, dir: Path, name: string) {
    FileNameOk(name) && FileExists(tree, dir, name)
  }

  /** The names packed, in request order. */
  function Selection(tree: map<Path, Node>, dir: Path, names: seq<string>): seq<string> {
    if names == [] then []
    else
      var last := names[|names| - 1];
      Selection(tree, dir, names[..|names| - 1]) + (if Zippable(tree, dir, last) then [last] else [])
  }

  /** A name is packed exactly when it was requested and is zippable. */
  lemma {:induction false} SelectionMembers(tree: map<Path, Node>, dir: Path, names: seq<string>)
    ensures forall x :: x in Selection(tree, dir, names) <==> x in names && Zippable(tree, dir, x)
  {
    if names != [] {
      var init := names[..|names| - 1];
      SelectionMembers(tree, dir, init);
      assert names == init + [names[|names| - 1]];
    }
  }

  /** The selection loop of createZipArchive. */
  method SelectForZip(tree: map<Path, Node>, dir: Path, names: seq<string>) returns (picked: seq<string>)
    ensures picked == Selection(tree, dir, names)
  {
    picked := [];
    var i := 0;
    while i < |names|
      invariant i <= |names|
      invariant picked == Selection(tree, dir, names[..i])
    {
      assert names[..i + 1][..i] == names[..i];
      if FileNameOk(names[i]) && FileExists(tree, dir, names[i]) {
        picked := picked + [names[i]];
      }
      i := i + 1;
    }
    assert names[..|names|] == names;
  }

  /** `createZipArchive`: the entry names of the new archive (each file is
      added under its base name), or why none was made. The temporary path
      is left out; the uploads tree is not touched. */
  method CreateZipArchive(s: State, env: Env, folder: string, files: seq<string>) returns (r: Result<seq<string>>)
    ensures var z := ZipDir(s, env, DefaultedFolder(folder));
      z.Err? ==> r == Err(z.problem)
    ensures var z := ZipDir(s, env, DefaultedFolder(folder));
      z.Ok? ==>
        var picked := Selection(s.tree, z.value, CleanNames(files));
        && (picked == [] ==> r == Err(Problem(NothingToZip, DefaultedFolder(folder))))
        && (picked != [] && !env.zipCreateOk ==> r == Err(Problem(ZipCreateFailed, DefaultedFolder(folder))))
        && (picked != [] && env.zipCreateOk ==> r == Ok(picked))
    ensures r.Ok? ==> r.value != []
    ensures r.Ok? ==>
      forall x :: x in r.value <==> x in CleanNames(files) && Zippable(s.tree, ZipDir(s, env, DefaultedFolder(folder)).value, x)
  {
    var f := DefaultedFolder(folder);
    var z := ZipDir(s, env, f);
    if z.Err? {
      return Err(z.problem);
    }
    var picked := SelectForZip(s.tree, z.value, CleanNames(files));
    if picked == [] {
      return Err(Problem(NothingToZip, f));
    }
    if !env.zipCreateOk {
      return Err(Problem(ZipCreateFailed, f));
    }
    SelectionMembers(s.tree, z.value, CleanNames(files));
    r := Ok(picked);
  }

  // --------------------------------------------------- extractZipArchive

  /** A folder part extractZipArchive refuses. */
  predicate BadPart(part: string) {
    Falsy(part) || part == "." || part == ".." || !FolderNameOk(part)
  }

  /** The directory extractZipArchive unpacks into: the uploads directory
      for 'root' in any letter case or a blank folder; otherwise every
      '/'-separated part of the folder, trimmed of slashes, must be a valid
      folder name, and the directory must exist inside the uploads
      directory. */
  function ExtractDir(s: State, env: Env, folder: string): (r: Result<Path>)
    ensures r.Ok? && r.value != [] ==>
      IsDir(s.tree, r.value) && r.value !in env.escaping
      && forall i :: 0 <= i < |r.value| ==> !BadPart(r.value[i]) && '/' !in r.value[i]
    ensures r.Err? ==> r.problem.kind in {InvalidFolder, FolderNotFound}
  {
    if IsRootAnyCase(folder) || Trim(folder) == "" then Ok([])
    else
      var parts := Explode(TrimSet(folder, SlashSet), '/');
      if exists i :: 0 <= i < |parts| && BadPart(parts[i]) then Err(Problem(InvalidFolder, folder))
      else if !IsDir(s.tree, parts) || parts in env.escaping then Err(Problem(FolderNotFound, folder))
      else Ok(parts)
  }

  /** `strtolower(substr($name, -4)) === '.zip'`; a name shorter than four
      characters is compared whole. */
  predicate IsZipName(name: string) {
    ToLower(if |name| >= 4 then name[|name| - 4..] else name) == ".zip"
  }

  /** The names an archive reports: the base name of each entry, skipping
      the falsy ones (a directory entry such as "docs/" has base name "docs"). */
  function EntryNames(entries: seq<string>): (r: seq<string>)
    ensures |r| <= |entries|
    ensures forall k :: 0 <= k < |r| ==> '/' !in r[k] && !Falsy(r[k])
  {
    if entries == [] then []
    else
      var b := Basename(entries[|entries| - 1]);
      EntryNames(entries[..|entries| - 1]) + (if Falsy(b) then [] else [b])
  }

  /** The metadata document with `m` stored under each of `names`. */
  function Stamp(d: Doc, names: seq<string>, m: Meta): (r: Doc)
    ensures forall k :: k in r <==> k in d || k in names
    ensures forall k :: k in r ==> r[k] == (if k in names then m else d[k])
  {
    if names == [] then d
    else Stamp(d, names[..|names| - 1], m)[names[|names| - 1] := m]
  }

  /** The first inner loop: collect the reported names. */
  method CollectEntries(entries: seq<string>) returns (names: seq<string>)
    ensures names == EntryNames(entries)
  {
    names := [];
    var i := 0;
    while i < |entries|
      invariant i <= |entries|
      invariant names == EntryNames(entries[..i])
    {
      assert entries[..i + 1][..i] == entries[..i];
      var b := Basename(entries[i]);
      if !Falsy(b) {
        names := names + [b];
      }
      i := i + 1;
    }
    assert entries[..|entries|] == entries;
  }

  /** The second inner loop: copy the archive's metadata entry to every
      reported name (the loop recomputes the same base names). */
  method StampNames(d: Doc, names: seq<string>, m: Meta) returns (d': Doc)
    ensures d' == Stamp(d, names, m)
  {
    d' := d;
    var i := 0;
    while i < |names|
      invariant i <= |names|
      invariant d' == Stamp(d, names[..i], m)
    {
      assert names[..i + 1][..i] == names[..i];
      d' := d'[names[i] := m];
      i := i + 1;
    }
    assert names[..|names|] == names;
  }

  /** The state of the extraction loop: the metadata being built, the
      names reported so far and the collected problems. */
  datatype ExtractAcc = ExtractAcc(dest: Doc, extracted: seq<string>, problems: seq<Problem>)

  /** What one round of the loop decides for the i-th cleaned name. */
  datatype Verdict = Skip | Refuse(problem: Problem) | Unpack(entries: seq<string>)

  /** Names not ending in ".zip" are skipped silently; then the name must
      pass the file-name pattern, exist, open as an archive and extract. */
  function Classify(env: Env, tree: map<Path, Node>, dir: Path, i: nat, name: string): Verdict {
    if !IsZipName(name) then Skip
    else if !FileNameOk(name) then Refuse(Problem(InvalidName, name))
    else if !FileExists(tree, dir, name) then Refuse(Problem(Missing, name))
    else if !IsFile(tree, dir + [name]) || dir + [name] !in env.archives then Refuse(Problem(NotAnArchive, name))
    else if i in env.failing then Refuse(Problem(IoFailed, name))
    else Unpack(env.archives[dir + [name]])
  }

  /** The effect of a verdict: a refusal is recorded; an extraction reports
      the entries' base names and, when the archive has a metadata entry,
      copies it to each of them. */
  function Apply(srcMeta: Doc, acc: ExtractAcc, name: string, v: Verdict): ExtractAcc {
    match v
    case Skip => acc
    case Refuse(p) => acc.(problems := acc.problems + [p])
    case Unpack(entries) =>
      var names := EntryNames(entries);
      acc.(extracted := acc.extracted + names,
           dest := if name in srcMeta then Stamp(acc.dest, names, srcMeta[name]) else acc.dest)
  }

  /** One round, for the i-th cleaned name. */
  function ExtractStep(env: Env, tree: map<Path, Node>, dir: Path, srcMeta: Doc,
                       acc: ExtractAcc, i: nat, name: string): ExtractAcc
  {
    Apply(srcMeta, acc, name, Classify(env, tree, dir, i, name))
  }

  function ExtractPrefix(env: Env, tree: map<Path, Node>, dir: Path, srcMeta: Doc,
                         init: ExtractAcc, names: seq<string>, n: nat): ExtractAcc
    requires n <= |names|
  {
    if n == 0 then init
    else ExtractStep(env, tree, dir, srcMeta, ExtractPrefix(env, tree, dir, srcMeta, init, names, n - 1), n - 1, names[n - 1])
  }

  /** The body of the extraction loop once the round's verdict is known. */
  method ExtractRound(srcMeta: Doc, acc: ExtractAcc, name: string, v: Verdict) returns (acc': ExtractAcc)
    ensures acc' == Apply(srcMeta, acc, name, v)
  {
    match v {
      case Skip =>
        acc' := acc;
      case Refuse(p) =>
        acc' := acc.(problems := acc.problems + [p]);
      case Unpack(entries) =>
        var reported := CollectEntries(entries);
        var dest := acc.dest;
        if name in srcMeta {
          dest := StampNames(acc.dest, reported, srcMeta[name]);
        }
        acc' := ExtractAcc(dest, acc.extracted + reported, acc.problems);
    }
  }

  /** The extraction loop. */
  method ExtractLoop(env: Env, tree: map<Path, Node>, dir: Path, srcMeta: Doc, init: ExtractAcc, names: seq<string>)
    returns (acc: ExtractAcc)
    ensures acc == ExtractPrefix(env, tree, dir, srcMeta, init, names, |names|)
  {
    acc := init;
    var i := 0;
    while i < |names|
      invariant i <= |names|
      invariant acc == ExtractPrefix(env, tree, dir, srcMeta, init, names, i)
    {
      var v := Classify(env, tree, dir, i, names[i]);
      acc := ExtractRound(srcMeta, acc, names[i], v);
      i := i + 1;
    }
  }

  /** What extractZipArchive returns: the reported names when every step
      succeeded, otherwise every problem. */
  datatype Extraction = Extracted(files: seq<string>) | Failed(problems: seq<Problem>)

  /** extractZipArchive once the folder is resolved to directory `dir`
      and document `docName`: run the loop, then write the document. */
  function ExtractIn(s: State, env: Env, dir: Path, docName: string, names: seq<string>): (State, Extraction) {
    var srcMeta := DocOf(s, docName);
    var a := ExtractPrefix(env, s.tree, dir, srcMeta, ExtractAcc(srcMeta, [], []), names, |names|);
    var w := WriteDoc(s, env, docName, a.dest);
    var problems := a.problems + (if w.1 then [] else [Problem(MetadataWriteFailed, docName)]);
    (w.0, if problems == [] then Extracted(a.extracted) else Failed(problems))
  }

  function ExtractOutcome(s: State, env: Env, folder: string, files: seq<string>): (State, Extraction) {
    var d := ExtractDir(s, env, folder);
    if d.Err? then (s, Failed([d.problem]))
    else ExtractIn(s, env, d.value, DocName(folder), CleanNames(files))
  }

  /** `extractZipArchive`. */
  method ExtractZipArchive(s: State, env: Env, folder: string, files: seq<string>) returns (s': State, r: Extraction)
    ensures (s', r) == ExtractOutcome(s, env, folder, files)
  {
    var d := ExtractDir(s, env, folder);
    if d.Err? {
      return s, Failed([d.problem]);
    }
    var docName := DocName(folder);
    var srcMeta := DocOf(s, docName);
    var names := CleanNames(files);
    var a := ExtractLoop(env, s.tree, d.value, srcMeta, ExtractAcc(srcMeta, [], []), names);
    var w := WriteDoc(s, env, docName, a.dest);
    var problems := a.problems + (if w.1 then [] else [Problem(MetadataWriteFailed, docName)]);
    s' := w.0;
    r := if problems == [] then Extracted(a.extracted) else Failed(problems);
  }

  // -------------------------------------------------------------- lemmas

  /** `d'` agrees with `d` on every name outside `names`. */
  ghost predicate AgreesOutside(d: Doc, d': Doc, names: seq<string>) {
    forall k :: k !in names ==> (k in d <==> k in d') && (k in d ==> d[k] == d'[k])
  }

  /** No name of `names` holds a '/' or is falsy. */
  predicate Flat(names: seq<string>) {
    forall k :: 0 <= k < |names| ==> '/' !in names[k] && !Falsy(names[k])
  }

  lemma FlatConcat(a: seq<string>, b: seq<string>)
    requires Flat(a) && Flat(b)
    ensures Flat(a + b)
  {
    forall k | 0 <= k < |a + b|
      ensures '/' !in (a + b)[k] && !Falsy((a + b)[k])
    {
      if k < |a| { assert (a + b)[k] == a[k]; } else { assert (a + b)[k] == b[k - |a|]; }
    }
  }

  /** Agreement outside `n1` and then outside `n2` is agreement outside
      any list holding both. */
  lemma AgreesChain(d0: Doc, d1: Doc, d2: Doc, n1: seq<string>, n2: seq<string>)
    requires AgreesOutside(d0, d1, n1) && AgreesOutside(d1, d2, n2)
    ensures AgreesOutside(d0, d2, n1 + n2)
  {
    forall k | k !in n1 + n2
      ensures (k in d0 <==> k in d2) && (k in d0 ==> d0[k] == d2[k])
    {
      assert k !in n1 && k !in n2;
    }
  }

  /** `a` extends the report of `acc` by the flat names `added`, and its
      metadata document differs from that of `acc` only under those names. */
  ghost predicate Grew(acc: ExtractAcc, a: ExtractAcc, added: seq<string>) {
    a.extracted == acc.extracted + added && Flat(added) && AgreesOutside(acc.dest, a.dest, added)
  }

  lemma GrewChain(x: ExtractAcc, y: ExtractAcc, z: ExtractAcc, m: seq<string>, k: seq<string>)
    requires Grew(x, y, m) && Grew(y, z, k)
    ensures Grew(x, z, m + k)
  {
    FlatConcat(m, k);
    AgreesChain(x.dest, y.dest, z.dest, m, k);
  }

  /** One step only appends reported names, which are flat and non-falsy,
      and only rewrites metadata entries of the names it appends. */
  lemma ExtractStepShape(env: Env, tree: map<Path, Node>, dir: Path, srcMeta: Doc, acc: ExtractAcc, i: nat, name: string)
    returns (added: seq<string>)
    ensures Grew(acc, ExtractStep(env, tree, dir, srcMeta, acc, i, name), added)
  {
    var v := Classify(env, tree, dir, i, name);
    var a := Apply(srcMeta, acc, name, v);
    if v.Unpack? {
      added := EntryNames(v.entries);
    } else {
      added := [];
      assert a.extracted == acc.extracted + added;
    }
  }

  lemma ExtractPrefixUnfold(env: Env, tree: map<Path, Node>, dir: Path, srcMeta: Doc,
                            init: ExtractAcc, names: seq<string>, n: nat)
    requires 0 < n <= |names|
    ensures ExtractPrefix(env, tree, dir, srcMeta, init, names, n) ==
      ExtractStep(env, tree, dir, srcMeta, ExtractPrefix(env, tree, dir, srcMeta, init, names, n - 1), n - 1, names[n - 1])
  {
  }

  /** One more round keeps the report flat and the document changed only
      at reported names. */
  lemma ExtractStepExtends(env: Env, tree: map<Path, Node>, dir: Path, srcMeta: Doc, init: ExtractAcc,
                           acc: ExtractAcc, i: nat, name: string)
    requires init.extracted == [] && Grew(init, acc, acc.extracted)
    ensures var a := ExtractStep(env, tree, dir, srcMeta, acc, i, name);
      Grew(init, a, a.extracted)
  {
    var added := ExtractStepShape(env, tree, dir, srcMeta, acc, i, name);
    var a := ExtractStep(env, tree, dir, srcMeta, acc, i, name);
    GrewChain(init, acc, a, acc.extracted, added);
  }

  /** Over the whole loop: the names reported are flat and non-falsy, and
      the metadata of every other name is what the folder held before. */
  lemma {:induction false} ExtractPrefixShape(env: Env, tree: map<Path, Node>, dir: Path, srcMeta: Doc,
                                              init: ExtractAcc, names: seq<string>, n: nat)
    requires n <= |names| && init.extracted == []
    ensures var a := ExtractPrefix(env, tree, dir, srcMeta, init, names, n);
      Grew(init, a, a.extracted)
  {
    if n == 0 {
      assert ExtractPrefix(env, tree, dir, srcMeta, init, names, 0) == init;
      assert Grew(init, init, []);
    } else {
      var p := ExtractPrefix(env, tree, dir, srcMeta, init, names, n - 1);
      ExtractPrefixShape(env, tree, dir, srcMeta, init, names, n - 1);
      ExtractStepExtends(env, tree, dir, srcMeta, init, p, n - 1, names[n - 1]);
      ExtractPrefixUnfold(env, tree, dir, srcMeta, init, names, n);
    }
  }

  /** The resolved extraction writes at most its metadata document: the
      uploads tree, the trash, the shares and every other document are left
      alone. */
  lemma ExtractInTouchesOnlyItsDocument(s: State, env: Env, dir: Path, docName: string, names: seq<string>)
    ensures var s' := ExtractIn(s, env, dir, docName, names).0;
      && s' == s.(docs := s'.docs)
      && forall n :: n != docName ==> (n in s'.docs <==> n in s.docs) && (n in s.docs ==> s'.docs[n] == s.docs[n])
  {
  }

  /** Of the modelled state, extractZipArchive changes at most the folder's
      metadata document; the files it unpacks are not modelled. */
  lemma ExtractTouchesOnlyItsDocument(s: State, env: Env, folder: string, files: seq<string>)
    ensures var s' := ExtractOutcome(s, env, folder, files).0;
      && s' == s.(docs := s'.docs)
      && forall n :: n != DocName(folder) ==> (n in s'.docs <==> n in s.docs) && (n in s.docs ==> s'.docs[n] == s.docs[n])
  {
    var d := ExtractDir(s, env, folder);
    if d.Ok? {
      ExtractInTouchesOnlyItsDocument(s, env, d.value, DocName(folder), CleanNames(files));
    }
  }

  /** On success the names reported are flat base names, never "" or "0",
      and the document changed only for names reported. */
  lemma ExtractInReport(s: State, env: Env, dir: Path, docName: string, names: seq<string>)
    requires ExtractIn(s, env, dir, docName, names).1.Extracted?
    ensures var (s', r) := ExtractIn(s, env, dir, docName, names);
      && Flat(r.files)
      && docName in s'.docs
      && AgreesOutside(DocOf(s, docName), s'.docs[docName], r.files)
  {
    var srcMeta := DocOf(s, docName);
    var init := ExtractAcc(srcMeta, [], []);
    var a := ExtractPrefix(env, s.tree, dir, srcMeta, init, names, |names|);
    ExtractPrefixShape(env, s.tree, dir, srcMeta, init, names, |names|);
    assert docName !in env.unwritable;
    assert ExtractIn(s, env, dir, docName, names) == (s.(docs := s.docs[docName := a.dest]), Extracted(a.extracted));
  }

  /** The same for extractZipArchive as called, and every entry of the
      written document is one the folder's document held before. */
  lemma ExtractReport(s: State, env: Env, folder: string, files: seq<string>)
    requires ExtractOutcome(s, env, folder, files).1.Extracted?
    ensures var (s', r) := ExtractOutcome(s, env, folder, files);
      && Flat(r.files)
      && DocName(folder) in s'.docs
      && AgreesOutside(DocOf(s, DocName(folder)), s'.docs[DocName(folder)], r.files)
      && EntriesFrom(s'.docs[DocName(folder)], DocOf(s, DocName(folder)))
  {
    var d := ExtractDir(s, env, folder);
    ExtractInReport(s, env, d.value, DocName(folder), CleanNames(files));
    ExtractInEntries(s, env, d.value, DocName(folder), CleanNames(files));
  }

  /** Every entry of `d` is the entry some name has in `srcMeta`. */
  ghost predicate EntriesFrom(d: Doc, srcMeta: Doc) {
    forall x :: x in d ==> exists z :: z in srcMeta && d[x] == srcMeta[z]
  }

  /** A round that unpacks an archive with a metadata entry gives every
      name it reports exactly that entry, and otherwise keeps the
      document as it was; a skipped or refused name reports nothing. */
  lemma ExtractStepStamps(env: Env, tree: map<Path, Node>, dir: Path, srcMeta: Doc, acc: ExtractAcc, i: nat, name: string)
    ensures var v := Classify(env, tree, dir, i, name);
      var a := ExtractStep(env, tree, dir, srcMeta, acc, i, name);
      && (v.Unpack? && name in srcMeta ==>
            forall x :: x in EntryNames(v.entries) ==> x in a.dest && a.dest[x] == srcMeta[name])
      && (v.Unpack? && name !in srcMeta ==> a.dest == acc.dest)
      && (!v.Unpack? ==> a.dest == acc.dest && a.extracted == acc.extracted)
      && (v.Unpack? ==> a.extracted == acc.extracted + EntryNames(v.entries))
  {
  }

  /** No round invents metadata: every entry of the document being built
      stays the entry of some name in the folder's original document. */
  lemma {:induction false} ExtractPrefixEntriesFrom(env: Env, tree: map<Path, Node>, dir: Path, srcMeta: Doc,
                                                    init: ExtractAcc, names: seq<string>, n: nat)
    requires n <= |names| && EntriesFrom(init.dest, srcMeta)
    ensures EntriesFrom(ExtractPrefix(env, tree, dir, srcMeta, init, names, n).dest, srcMeta)
  {
    if n > 0 {
      var p := ExtractPrefix(env, tree, dir, srcMeta, init, names, n - 1);
      ExtractPrefixEntriesFrom(env, tree, dir, srcMeta, init, names, n - 1);
      var name := names[n - 1];
      var v := Classify(env, tree, dir, n - 1, name);
      var a := ExtractStep(env, tree, dir, srcMeta, p, n - 1, name);
      if v.Unpack? && name in srcMeta {
        var reported := EntryNames(v.entries);
        forall x | x in a.dest ensures exists z :: z in srcMeta && a.dest[x] == srcMeta[z] {
          if x in reported {
            assert a.dest[x] == srcMeta[name];
          } else {
            assert a.dest[x] == p.dest[x];
          }
        }
      }
    }
  }

  /** On success every entry of the written document is an entry the
      folder's document held before: the extracted names carry copies of
      archives' entries and nothing else is made up. */
  lemma ExtractInEntries(s: State, env: Env, dir: Path, docName: string, names: seq<string>)
    requires ExtractIn(s, env, dir, docName, names).1.Extracted?
    ensures var s' := ExtractIn(s, env, dir, docName, names).0;
      docName in s'.docs && EntriesFrom(s'.docs[docName], DocOf(s, docName))
  {
    var srcMeta := DocOf(s, docName);
    var init := ExtractAcc(srcMeta, [], []);
    ExtractPrefixEntriesFrom(env, s.tree, dir, srcMeta, init, names, |names|);
  }

  /** A request list without a ".zip" name extracts nothing and reports
      nothing, and the metadata document is written back unchanged. */
  lemma {:induction false} NoZipNoChange(env: Env, tree: map<Path, Node>, dir: Path, srcMeta: Doc,
                                         init: ExtractAcc, names: seq<string>, n: nat)
    requires n <= |names|
    requires forall k :: 0 <= k < n ==> !IsZipName(names[k])
    ensures ExtractPrefix(env, tree, dir, srcMeta, init, names, n) == init
  {
    if n > 0 {
      NoZipNoChange(env, tree, dir, srcMeta, init, names, n - 1);
    }
  }

  /** Entries are not confined: an archive entry "../../evil.txt" is
      reported (and its metadata recorded) as "evil.txt". */
  lemma EntryPathsAreFlattened()
    ensures EntryNames(["../../evil.txt"]) == ["evil.txt"]
  {
    var q := "evil.txt";
    assert "../../evil.txt" == "../.." + ['/'] + q;
    BasenameOfSplit("../..", q);
    assert ["../../evil.txt"][..0] == [];
  }
}
