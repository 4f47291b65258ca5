// The single-folder file operations of FileModel: copyFiles, moveFiles,
// renameFile, saveFile, createFile and getDownloadInfo.

module FileOps {
  import opened PhpStrings
  import opened Validators
  import opened Store
  import opened Naming

  /** `basename(trim($name))`, the clean-up every batch applies to a name. */
  function CleanName(raw: string): (r: string)
    ensures '/' !in r
  {
    Basename(Trim(raw))
  }

  /** Every path of `before` is still there, holding the same node. */
  predicate Keeps(before: map<Path, Node>, after: map<Path, Node>) {
    forall p :: p in before ==> p in after && after[p] == before[p]
  }

  lemma KeepsTrans(t0: map<Path, Node>, t1: map<Path, Node>, t2: map<Path, Node>)
    requires Keeps(t0, t1) && Keeps(t1, t2)
    ensures Keeps(t0, t2)
  {
  }

  /** The names a batch works on: each requested name cleaned. */
  function CleanNames(files: seq<string>): (r: seq<string>)
    ensures |r| == |files|
    ensures forall i :: 0 <= i < |files| ==> r[i] == CleanName(files[i])
  {
    seq(|files|, i requires 0 <= i < |files| => CleanName(files[i]))
  }

  /** The paths outside directory `dir` (not its direct entries). */
  predicate OutsideDir(p: Path, dir: Path) {
    |p| != |dir| + 1 || p[..|dir|] != dir
  }

  // ============================================================ copyFiles

  /** What the copy loop carries: the tree, the destination metadata being
      built, and the messages so far. */
  datatype CopyAcc = CopyAcc(tree: map<Path, Node>, dest: Doc, problems: seq<Problem>)

  /** `copy()` fails when it is made to, when the source is a directory, or
      when the destination directory does not exist. */
  predicate CopyOk(tree: map<Path, Node>, env: Env, i: nat, src: Path, destDir: Path)
    requires src in tree
  {
    i !in env.failing && tree[src].File? && IsDir(tree, destDir)
  }

  /** One round of the copy loop, for the i-th requested name, cleaned.
      "." and ".." exist in every directory but `copy()` fails on them. */
  function CopyStep(env: Env, srcDir: Path, destDir: Path, srcMeta: Doc,
                    acc: CopyAcc, i: nat, original: string): CopyAcc
  {
    if !FileNameOk(original) then acc.(problems := acc.problems + [Problem(InvalidName, original)])
    else if !FileExists(acc.tree, srcDir, original) then acc.(problems := acc.problems + [Problem(Missing, original)])
    else
      var src := srcDir + [original];
      var name := UniqueName(acc.tree, destDir, original);
      if DirectoryAlias(original) || !CopyOk(acc.tree, env, i, src, destDir) then acc.(problems := acc.problems + [Problem(IoFailed, name)])
      else
        CopyAcc(acc.tree[destDir + [name] := acc.tree[src]],
                if original in srcMeta then acc.dest[name := srcMeta[original]] else acc.dest,
                acc.problems)
  }

  /** The copy loop after its first n rounds over the cleaned names. */
  function CopyPrefix(env: Env, srcDir: Path, destDir: Path, srcMeta: Doc,
                      init: CopyAcc, names: seq<string>, n: nat): CopyAcc
    requires n <= |names|
  {
    if n == 0 then init
    else CopyStep(env, srcDir, destDir, srcMeta,
                  CopyPrefix(env, srcDir, destDir, srcMeta, init, names, n - 1), n - 1, names[n - 1])
  }

  /** `a` keeps every path of `acc`, and k rounds between them each added
      one path or one problem. */
  predicate CopyKept(acc: CopyAcc, a: CopyAcc, k: nat) {
    Keeps(acc.tree, a.tree) && |a.tree| + |a.problems| == |acc.tree| + |acc.problems| + k
  }

  lemma CopyKeptChain(x: CopyAcc, y: CopyAcc, z: CopyAcc, m: nat, k: nat)
    requires CopyKept(x, y, m) && CopyKept(y, z, k)
    ensures CopyKept(x, z, m + k)
  {
    KeepsTrans(x.tree, y.tree, z.tree);
  }

  /** A copy round never overwrites or removes anything, and it either adds
      exactly one path or reports exactly one problem. */
  lemma CopyStepConserves(env: Env, srcDir: Path, destDir: Path, srcMeta: Doc,
                          acc: CopyAcc, i: nat, original: string)
    ensures CopyKept(acc, CopyStep(env, srcDir, destDir, srcMeta, acc, i, original), 1)
  {
  }

  lemma CopyPrefixUnfold(env: Env, srcDir: Path, destDir: Path, srcMeta: Doc,
                         init: CopyAcc, names: seq<string>, n: nat)
    requires 0 < n <= |names|
    ensures CopyPrefix(env, srcDir, destDir, srcMeta, init, names, n) ==
      CopyStep(env, srcDir, destDir, srcMeta, CopyPrefix(env, srcDir, destDir, srcMeta, init, names, n - 1), n - 1, names[n - 1])
  {
  }

  /** Over the whole loop: nothing is overwritten, and every requested name
      yields one new path or one problem. */
  lemma {:induction false} CopyPrefixConserves(env: Env, srcDir: Path, destDir: Path, srcMeta: Doc,
                                               init: CopyAcc, names: seq<string>, n: nat)
    requires n <= |names|
    ensures CopyKept(init, CopyPrefix(env, srcDir, destDir, srcMeta, init, names, n), n)
  {
    if n == 0 {
      assert CopyPrefix(env, srcDir, destDir, srcMeta, init, names, n) == init;
    } else {
      var prev := CopyPrefix(env, srcDir, destDir, srcMeta, init, names, n - 1);
      var next := CopyStep(env, srcDir, destDir, srcMeta, prev, n - 1, names[n - 1]);
      CopyPrefixUnfold(env, srcDir, destDir, srcMeta, init, names, n);
      CopyPrefixConserves(env, srcDir, destDir, srcMeta, init, names, n - 1);
      CopyStepConserves(env, srcDir, destDir, srcMeta, prev, n - 1, names[n - 1]);
      CopyKeptChain(init, prev, next, n - 1, 1);
    }
  }

  /** "." and ".." in an existing source directory pass the existence test,
      but copying them fails and is reported under the destination name. */
  lemma CopyDotsFail(env: Env, srcDir: Path, destDir: Path, srcMeta: Doc, acc: CopyAcc, i: nat, original: string)
    requires (original == "." || original == "..") && IsDir(acc.tree, srcDir)
    ensures CopyStep(env, srcDir, destDir, srcMeta, acc, i, original) ==
      acc.(problems := acc.problems + [Problem(IoFailed, UniqueName(acc.tree, destDir, original))])
  {
    DotNamesClean();
    assert FileNameOk(original) && DirectoryAlias(original);
    assert FileExists(acc.tree, srcDir, original);
  }

  /** A successful copy round puts the source node under a name that was
      free, and carries the source metadata over to that name. */
  lemma CopyStepSucceeds(env: Env, srcDir: Path, destDir: Path, srcMeta: Doc,
                         acc: CopyAcc, i: nat, original: string)
    requires var a := CopyStep(env, srcDir, destDir, srcMeta, acc, i, original); a.problems == acc.problems
    ensures var name := UniqueName(acc.tree, destDir, original);
      var a := CopyStep(env, srcDir, destDir, srcMeta, acc, i, original);
      && FileNameOk(original) && srcDir + [original] in acc.tree
      && destDir + [name] !in acc.tree
      && a.tree == acc.tree[destDir + [name] := acc.tree[srcDir + [original]]]
      && (original in srcMeta ==> a.dest == acc.dest[name := srcMeta[original]])
      && (original !in srcMeta ==> a.dest == acc.dest)
  {
  }

  /** The loop of `copyFiles`, over the cleaned names. */
  method CopyLoop(env: Env, srcDir: Path, destDir: Path, srcMeta: Doc, init: CopyAcc, names: seq<string>)
    returns (acc: CopyAcc)
    ensures acc == CopyPrefix(env, srcDir, destDir, srcMeta, init, names, |names|)
  {
    var tree, dest, errs := init.tree, init.dest, init.problems;
    var i := 0;
    while i < |names|
      invariant i <= |names|
      invariant CopyAcc(tree, dest, errs) == CopyPrefix(env, srcDir, destDir, srcMeta, init, names, i)
    {
      var original := names[i];
      if !FileNameOk(original) {
        errs := errs + [Problem(InvalidName, original)];
      } else if !FileExists(tree, srcDir, original) {
        errs := errs + [Problem(Missing, original)];
      } else {
        var src := srcDir + [original];
        var name := GetUniqueFileName(tree, destDir, original);
        if DirectoryAlias(original) || !CopyOk(tree, env, i, src, destDir) {
          errs := errs + [Problem(IoFailed, name)];
        } else {
          tree := tree[destDir + [name] := tree[src]];
          if original in srcMeta {
            dest := dest[name := srcMeta[original]];
          }
        }
      }
      i := i + 1;
    }
    acc := CopyAcc(tree, dest, errs);
  }

  /** What `copyFiles` leaves behind: the tree after the loop, the
      destination metadata document written after it, and the messages. */
  function CopyOutcome(s: State, env: Env, sourceFolder: string, destinationFolder: string,
                       files: seq<string>): (State, seq<Problem>)
  {
    var destDoc := DocName(destinationFolder);
    var init := CopyAcc(s.tree, DocOf(s, destDoc), []);
    var a := CopyPrefix(env, FolderDir(sourceFolder), FolderDir(destinationFolder),
                        DocOf(s, DocName(sourceFolder)), init, CleanNames(files), |files|);
    var w := WriteDoc(s.(tree := a.tree), env, destDoc, a.dest);
    (w.0, a.problems + (if w.1 then [] else [Problem(MetadataWriteFailed, destDoc)]))
  }

  /** `copyFiles`: copy each named file from one folder to another, under a
      fresh name when the name is taken, then write the destination
      metadata document. */
  method CopyFiles(s: State, env: Env, sourceFolder: string, destinationFolder: string, files: seq<string>)
    returns (s': State, problems: seq<Problem>)
    ensures (s', problems) == CopyOutcome(s, env, sourceFolder, destinationFolder, files)
  {
    var destDoc := DocName(destinationFolder);
    var init := CopyAcc(s.tree, DocOf(s, destDoc), []);
    var names := CleanNames(files);
    var a := CopyLoop(env, FolderDir(sourceFolder), FolderDir(destinationFolder),
                      DocOf(s, DocName(sourceFolder)), init, names);
    var w := WriteDoc(s.(tree := a.tree), env, destDoc, a.dest);
    s' := w.0;
    problems := a.problems + (if w.1 then [] else [Problem(MetadataWriteFailed, destDoc)]);
  }

  /** The copy loop followed by the write of the destination document. */
  lemma CopyThenWriteConserves(s: State, env: Env, srcDir: Path, destDir: Path, srcMeta: Doc,
                               destDoc: string, names: seq<string>)
    ensures var a := CopyPrefix(env, srcDir, destDir, srcMeta, CopyAcc(s.tree, DocOf(s, destDoc), []), names, |names|);
      var w := WriteDoc(s.(tree := a.tree), env, destDoc, a.dest);
      && Keeps(s.tree, w.0.tree)
      && |w.0.tree| + |a.problems| == |s.tree| + |names|
      && w.0.trash == s.trash && w.0.ledger == s.ledger && w.0.shares == s.shares && w.0.globalTags == s.globalTags
      && forall d :: d in s.docs && d != destDoc ==> d in w.0.docs && w.0.docs[d] == s.docs[d]
  {
    CopyPrefixConserves(env, srcDir, destDir, srcMeta, CopyAcc(s.tree, DocOf(s, destDoc), []), names, |names|);
  }

  /** `copyFiles` never overwrites or removes a path, every requested name
      yields a new path or a message, and only the destination metadata
      document can change. */
  lemma CopyFilesConserves(s: State, env: Env, sourceFolder: string, destinationFolder: string, files: seq<string>)
    ensures var r := CopyOutcome(s, env, sourceFolder, destinationFolder, files);
      && Keeps(s.tree, r.0.tree)
      && |r.0.tree| + |r.1| >= |s.tree| + |files|
      && r.0.trash == s.trash && r.0.ledger == s.ledger && r.0.shares == s.shares && r.0.globalTags == s.globalTags
      && forall d :: d in s.docs && d != DocName(destinationFolder) ==> d in r.0.docs && r.0.docs[d] == s.docs[d]
  {
    CopyThenWriteConserves(s, env, FolderDir(sourceFolder), FolderDir(destinationFolder),
                           DocOf(s, DocName(sourceFolder)), DocName(destinationFolder), CleanNames(files));
  }

  // ============================================================ moveFiles

  /** What the move loop carries: the tree, both metadata documents, the
      moved names and the messages so far. */
  datatype MoveAcc = MoveAcc(tree: map<Path, Node>, src: Doc, dest: Doc, moved: seq<string>, problems: seq<Problem>)

  /** One round of the move loop, for the i-th requested name. "." and ".."
      exist in every directory but `rename()` fails on them. */
  function MoveStep(env: Env, srcDir: Path, destDir: Path, acc: MoveAcc, i: nat, original: string): MoveAcc {
    if !FileNameOk(original) then acc.(problems := acc.problems + [Problem(InvalidName, original)])
    else if !FileExists(acc.tree, srcDir, original) then acc.(problems := acc.problems + [Problem(Missing, original)])
    else
      var from := srcDir + [original];
      var name := UniqueName(acc.tree, destDir, original);
      if DirectoryAlias(original) || i in env.failing then acc.(problems := acc.problems + [Problem(IoFailed, name)])
      else
        MoveAcc((acc.tree - {from})[destDir + [name] := acc.tree[from]],
                if original in acc.src then acc.src - {original} else acc.src,
                if original in acc.src then acc.dest[name := acc.src[original]] else acc.dest,
                acc.moved + [original],
                acc.problems)
  }

  function MovePrefix(env: Env, srcDir: Path, destDir: Path, init: MoveAcc, names: seq<string>, n: nat): MoveAcc
    requires n <= |names|
  {
    if n == 0 then init
    else MoveStep(env, srcDir, destDir, MovePrefix(env, srcDir, destDir, init, names, n - 1), n - 1, names[n - 1])
  }

  lemma RemoveAndAddSize(tree: map<Path, Node>, from: Path, to: Path, v: Node)
    requires from in tree && to !in tree
    ensures |(tree - {from})[to := v]| == |tree|
  {
    assert (tree - {from}).Keys == tree.Keys - {from};
    assert |tree.Keys - {from}| == |tree.Keys| - 1;
  }

  /** k move rounds from `acc` to `a` kept the number of paths and every
      path outside the two directories, each moving one name or reporting
      one problem. */
  predicate MoveKept(acc: MoveAcc, a: MoveAcc, srcDir: Path, destDir: Path, k: nat) {
    && |a.tree| == |acc.tree|
    && |a.moved| + |a.problems| == |acc.moved| + |acc.problems| + k
    && forall p :: p in acc.tree && OutsideDir(p, srcDir) && OutsideDir(p, destDir) ==>
         p in a.tree && a.tree[p] == acc.tree[p]
  }

  lemma MoveKeptChain(x: MoveAcc, y: MoveAcc, z: MoveAcc, srcDir: Path, destDir: Path, m: nat, k: nat)
    requires MoveKept(x, y, srcDir, destDir, m) && MoveKept(y, z, srcDir, destDir, k)
    ensures MoveKept(x, z, srcDir, destDir, m + k)
  {
  }

  /** A move round keeps the number of paths, touches only entries of the
      source and destination directories, and moves one name or reports one
      problem. */
  lemma MoveStepConserves(env: Env, srcDir: Path, destDir: Path, acc: MoveAcc, i: nat, original: string)
    ensures MoveKept(acc, MoveStep(env, srcDir, destDir, acc, i, original), srcDir, destDir, 1)
  {
    if FileNameOk(original) && srcDir + [original] in acc.tree && i !in env.failing {
      var from := srcDir + [original];
      var name := UniqueName(acc.tree, destDir, original);
      RemoveAndAddSize(acc.tree, from, destDir + [name], acc.tree[from]);
      forall p | p in acc.tree && OutsideDir(p, srcDir) && OutsideDir(p, destDir)
        ensures p != from && p != destDir + [name]
      {
        assert from[..|srcDir|] == srcDir;
        assert (destDir + [name])[..|destDir|] == destDir;
      }
    }
  }

  lemma MovePrefixUnfold(env: Env, srcDir: Path, destDir: Path, init: MoveAcc, names: seq<string>, n: nat)
    requires 0 < n <= |names|
    ensures MovePrefix(env, srcDir, destDir, init, names, n) ==
      MoveStep(env, srcDir, destDir, MovePrefix(env, srcDir, destDir, init, names, n - 1), n - 1, names[n - 1])
  {
  }

  lemma {:induction false} MovePrefixConserves(env: Env, srcDir: Path, destDir: Path, init: MoveAcc,
                                               names: seq<string>, n: nat)
    requires n <= |names|
    ensures MoveKept(init, MovePrefix(env, srcDir, destDir, init, names, n), srcDir, destDir, n)
  {
    if n == 0 {
      assert MovePrefix(env, srcDir, destDir, init, names, n) == init;
    } else {
      var prev := MovePrefix(env, srcDir, destDir, init, names, n - 1);
      MovePrefixConserves(env, srcDir, destDir, init, names, n - 1);
      MoveStepConserves(env, srcDir, destDir, prev, n - 1, names[n - 1]);
      MovePrefixUnfold(env, srcDir, destDir, init, names, n);
      MoveKeptChain(init, prev, MovePrefix(env, srcDir, destDir, init, names, n), srcDir, destDir, n - 1, 1);
    }
  }

  /** "." and ".." in an existing source directory pass the existence test,
      but moving them fails and is reported under the destination name. */
  lemma MoveDotsFail(env: Env, srcDir: Path, destDir: Path, acc: MoveAcc, i: nat, original: string)
    requires (original == "." || original == "..") && IsDir(acc.tree, srcDir)
    ensures MoveStep(env, srcDir, destDir, acc, i, original) ==
      acc.(problems := acc.problems + [Problem(IoFailed, UniqueName(acc.tree, destDir, original))])
  {
    DotNamesClean();
    assert FileNameOk(original) && DirectoryAlias(original);
    assert FileExists(acc.tree, srcDir, original);
  }

  /** A successful move round puts the node under a free name in the
      destination, removes it from the source, and moves its metadata entry. */
  lemma MoveStepSucceeds(env: Env, srcDir: Path, destDir: Path, acc: MoveAcc, i: nat, original: string)
    requires MoveStep(env, srcDir, destDir, acc, i, original).problems == acc.problems
    ensures var name := UniqueName(acc.tree, destDir, original);
      var a := MoveStep(env, srcDir, destDir, acc, i, original);
      && srcDir + [original] in acc.tree && destDir + [name] !in acc.tree
      && srcDir + [original] !in a.tree
      && a.tree[destDir + [name]] == acc.tree[srcDir + [original]]
      && original !in a.src
      && (original in acc.src ==> a.dest[name] == acc.src[original])
      && a.moved == acc.moved + [original]
  {
  }

  /** The loop of `moveFiles`, over the cleaned names. */
  method MoveLoop(env: Env, srcDir: Path, destDir: Path, init: MoveAcc, names: seq<string>)
    returns (acc: MoveAcc)
    ensures acc == MovePrefix(env, srcDir, destDir, init, names, |names|)
  {
    var tree, srcMeta, destMeta, moved, errs := init.tree, init.src, init.dest, init.moved, init.problems;
    var i := 0;
    while i < |names|
      invariant i <= |names|
      invariant MoveAcc(tree, srcMeta, destMeta, moved, errs) == MovePrefix(env, srcDir, destDir, init, names, i)
    {
      var original := names[i];
      if !FileNameOk(original) {
        errs := errs + [Problem(InvalidName, original)];
      } else if !FileExists(tree, srcDir, original) {
        errs := errs + [Problem(Missing, original)];
      } else {
        var from := srcDir + [original];
        var name := GetUniqueFileName(tree, destDir, original);
        if DirectoryAlias(original) || i in env.failing {
          errs := errs + [Problem(IoFailed, name)];
        } else {
          tree := (tree - {from})[destDir + [name] := tree[from]];
          moved := moved + [original];
          if original in srcMeta {
            destMeta := destMeta[name := srcMeta[original]];
            srcMeta := srcMeta - {original};
          }
        }
      }
      MovePrefixUnfold(env, srcDir, destDir, init, names, i + 1);
      i := i + 1;
    }
    acc := MoveAcc(tree, srcMeta, destMeta, moved, errs);
  }

  /** The move loop from a given tree, then the write of the source document
      and after it the destination document. */
  function MoveAndWrite(s: State, env: Env, tree: map<Path, Node>, srcDir: Path, destDir: Path,
                        srcDoc: string, destDoc: string, names: seq<string>): (State, seq<Problem>)
  {
    var a := MovePrefix(env, srcDir, destDir, MoveAcc(tree, DocOf(s, srcDoc), DocOf(s, destDoc), [], []), names, |names|);
    var w1 := WriteDoc(s.(tree := a.tree), env, srcDoc, a.src);
    var w2 := WriteDoc(w1.0, env, destDoc, a.dest);
    (w2.0, a.problems
             + (if w1.1 then [] else [Problem(MetadataWriteFailed, srcDoc)])
             + (if w2.1 then [] else [Problem(MetadataWriteFailed, destDoc)]))
  }

  /** What `moveFiles` leaves behind: nothing changes when the destination
      folder is missing and cannot be created. */
  function MoveOutcome(s: State, env: Env, sourceFolder: string, destinationFolder: string,
                       files: seq<string>): (State, seq<Problem>)
  {
    var destDir := FolderDir(destinationFolder);
    if !IsDir(s.tree, destDir) && !MkdirOk(s.tree, env, destDir) then
      (s, [Problem(FolderCreateFailed, destinationFolder)])
    else
      var tree := if IsDir(s.tree, destDir) then s.tree else Mkdir(s.tree, destDir);
      MoveAndWrite(s, env, tree, FolderDir(sourceFolder), destDir,
                   DocName(sourceFolder), DocName(destinationFolder), CleanNames(files))
  }

  /** `moveFiles`: create the destination folder if needed, move each named
      file there (under a fresh name when taken), then write the source
      metadata document and after it the destination one. */
  method MoveFiles(s: State, env: Env, sourceFolder: string, destinationFolder: string, files: seq<string>)
    returns (s': State, problems: seq<Problem>)
    ensures (s', problems) == MoveOutcome(s, env, sourceFolder, destinationFolder, files)
  {
    var srcDir, destDir := FolderDir(sourceFolder), FolderDir(destinationFolder);
    var tree := s.tree;
    if !IsDir(tree, destDir) {
      if !MkdirOk(tree, env, destDir) {
        return s, [Problem(FolderCreateFailed, destinationFolder)];
      }
      tree := Mkdir(tree, destDir);
    }
    var srcDoc, destDoc := DocName(sourceFolder), DocName(destinationFolder);
    var names := CleanNames(files);
    var a := MoveLoop(env, srcDir, destDir, MoveAcc(tree, DocOf(s, srcDoc), DocOf(s, destDoc), [], []), names);
    var w1 := WriteDoc(s.(tree := a.tree), env, srcDoc, a.src);
    var w2 := WriteDoc(w1.0, env, destDoc, a.dest);
    s' := w2.0;
    problems := a.problems
      + (if w1.1 then [] else [Problem(MetadataWriteFailed, srcDoc)])
      + (if w2.1 then [] else [Problem(MetadataWriteFailed, destDoc)]);
  }

  /** The move loop and the two writes keep the number of paths and every
      path outside the two directories, account for every name, and change
      no other document. */
  lemma MoveAndWriteConserves(s: State, env: Env, tree: map<Path, Node>, srcDir: Path, destDir: Path,
                              srcDoc: string, destDoc: string, names: seq<string>)
    ensures var r := MoveAndWrite(s, env, tree, srcDir, destDir, srcDoc, destDoc, names);
      && |r.0.tree| == |tree|
      && |r.1| >= |names| - |MovePrefix(env, srcDir, destDir, MoveAcc(tree, DocOf(s, srcDoc), DocOf(s, destDoc), [], []), names, |names|).moved|
      && (forall p :: p in tree && OutsideDir(p, srcDir) && OutsideDir(p, destDir) ==> p in r.0.tree && r.0.tree[p] == tree[p])
      && r.0.trash == s.trash && r.0.ledger == s.ledger && r.0.shares == s.shares && r.0.globalTags == s.globalTags
      && forall d :: d in s.docs && d != srcDoc && d != destDoc ==> d in r.0.docs && r.0.docs[d] == s.docs[d]
  {
    MovePrefixConserves(env, srcDir, destDir, MoveAcc(tree, DocOf(s, srcDoc), DocOf(s, destDoc), [], []), names, |names|);
  }

  /** `moveFiles` keeps the number of paths (plus the folders it creates) and
      every path outside the source and destination folders, and changes no
      document but their two. */
  lemma MoveFilesConserves(s: State, env: Env, sourceFolder: string, destinationFolder: string, files: seq<string>)
    requires IsDir(s.tree, FolderDir(destinationFolder))
    ensures var r := MoveOutcome(s, env, sourceFolder, destinationFolder, files);
      && |r.0.tree| == |s.tree|
      && (forall p :: p in s.tree && OutsideDir(p, FolderDir(sourceFolder)) && OutsideDir(p, FolderDir(destinationFolder)) ==>
            p in r.0.tree && r.0.tree[p] == s.tree[p])
      && r.0.trash == s.trash && r.0.ledger == s.ledger && r.0.shares == s.shares && r.0.globalTags == s.globalTags
      && forall d :: d in s.docs && d != DocName(sourceFolder) && d != DocName(destinationFolder) ==>
           d in r.0.docs && r.0.docs[d] == s.docs[d]
  {
    MoveAndWriteConserves(s, env, s.tree, FolderDir(sourceFolder), FolderDir(destinationFolder),
                          DocName(sourceFolder), DocName(destinationFolder), CleanNames(files));
  }

  // =========================================================== renameFile

  /** The document renameFile updates: it compares with 'root' exactly and
      does not map a blank folder to the root document. */
  function RenameDocName(folder: string): string {
    FlatDocName(Trim(if folder == "root" then "root" else folder))
  }

  /** renameFile once the folder and both names are resolved: validate the
      names, pick a free new name, check the old file exists, rename it,
      and move its metadata entry if the document has one. "." and ".."
      exist in every directory, so a new name "." is numbered and an old
      name "." or ".." passes the existence test but cannot be renamed. */
  function RenameIn(s: State, env: Env, dir: Path, docName: string, current: string, wanted: string)
    : (r: (State, Result<string>))
    ensures r.1.Err? ==> r.0 == s
    ensures r.1.Err? ==>
      r.1.problem.kind == (if !FileNameOk(current) || !FileNameOk(wanted) then InvalidName
                           else if !FileExists(s.tree, dir, current) then Missing else IoFailed)
    ensures r.1.Ok? <==>
      FileNameOk(current) && FileNameOk(wanted) && dir + [current] in s.tree && !DirectoryAlias(current)
      && 0 !in env.failing
    ensures r.1.Ok? ==>
      && !FileExists(s.tree, dir, r.1.value)
      && (!FileExists(s.tree, dir, wanted) ==> r.1.value == wanted)
      && r.0.tree == (s.tree - {dir + [current]})[dir + [r.1.value] := s.tree[dir + [current]]]
      && r.0.trash == s.trash && r.0.ledger == s.ledger && r.0.shares == s.shares && r.0.globalTags == s.globalTags
    ensures r.1.Ok? && docName in s.docs && current in s.docs[docName] && docName !in env.unwritable ==>
      r.0.docs == s.docs[docName := (s.docs[docName] - {current})[r.1.value := s.docs[docName][current]]]
    ensures r.1.Ok? && (docName !in s.docs || current !in s.docs[docName] || docName in env.unwritable) ==>
      r.0.docs == s.docs
  {
    if !FileNameOk(current) || !FileNameOk(wanted) then (s, Err(Problem(InvalidName, wanted)))
    else
      var target := UniqueName(s.tree, dir, wanted);
      if !FileExists(s.tree, dir, current) then (s, Err(Problem(Missing, current)))
      else if DirectoryAlias(current) || 0 in env.failing then (s, Err(Problem(IoFailed, current)))
      else
        var s1 := s.(tree := (s.tree - {dir + [current]})[dir + [target] := s.tree[dir + [current]]]);
        if docName in s.docs && current in s.docs[docName] then
          var d := s.docs[docName];
          ((WriteDoc(s1, env, docName, (d - {current})[target := d[current]])).0, Ok(target))
        else (s1, Ok(target))
  }

  /** `renameFile`. */
  function RenameFile(s: State, env: Env, folder: string, oldName: string, newName: string): (State, Result<string>) {
    RenameIn(s, env, FolderDir(folder), RenameDocName(folder), CleanName(oldName), CleanName(newName))
  }

  /** A file name `CleanName` leaves as it is. */
  predicate CleanFileName(n: string) {
    FileNameOk(n) && CleanName(n) == n
  }

  /** Moving the node at `x` to the free key `y` and back restores the map. */
  lemma MoveAndBack(t: map<Path, Node>, x: Path, y: Path)
    requires x in t && y !in t
    ensures var t1 := (t - {x})[y := t[x]];
      y in t1 && x !in t1 && (t1 - {y})[x := t1[y]] == t
  {
    var t1 := (t - {x})[y := t[x]];
    assert (t1 - {y})[x := t1[y]] == t;
  }

  /** Renaming a file and renaming it back restores the tree. */
  lemma RenameRoundTrip(s: State, env: Env, dir: Path, docName: string, a: string, b: string)
    requires FileNameOk(a) && FileNameOk(b) && 0 !in env.failing && dir + [a] in s.tree && !DirectoryAlias(a)
    requires IsDir(s.tree, dir)
    requires var r := RenameIn(s, env, dir, docName, a, b); r.1.Ok? && FileNameOk(r.1.value)
    ensures var r := RenameIn(s, env, dir, docName, a, b);
      var back := RenameIn(r.0, env, dir, docName, r.1.value, a);
      back.1 == Ok(a) && back.0.tree == s.tree
  {
    var r := RenameIn(s, env, dir, docName, a, b);
    var n := r.1.value;
    MoveAndBack(s.tree, dir + [a], dir + [n]);
  }

  /** `renameFile` on names `CleanName` leaves alone is the resolved rename. */
  lemma RenameFileOfCleanNames(s: State, env: Env, folder: string, a: string, b: string)
    requires CleanFileName(a) && CleanFileName(b)
    ensures RenameFile(s, env, folder, a, b) == RenameIn(s, env, FolderDir(folder), RenameDocName(folder), a, b)
  {
  }

  /** Renaming a file onto its own name does not fail: it picks a numbered variant. */
  lemma RenameToSelfNumbers(s: State, env: Env, dir: Path, docName: string, a: string)
    requires FileNameOk(a) && 0 !in env.failing && dir + [a] in s.tree && !DirectoryAlias(a)
    ensures var r := RenameIn(s, env, dir, docName, a, a);
      r.1.Ok? && r.1.value != a && r.1.value == UniqueName(s.tree, dir, a)
  {
  }

  /** Renaming onto a taken name whose first numbered variant is free gives
      that variant. */
  lemma RenameOntoTaken(s: State, env: Env, dir: Path, docName: string, a: string, wanted: string)
    requires FileNameOk(a) && 0 !in env.failing && dir + [a] in s.tree && !DirectoryAlias(a)
    requires FileNameOk(wanted) && FileExists(s.tree, dir, wanted) && dir + [Candidate(wanted, 1)] !in s.tree
    ensures RenameIn(s, env, dir, docName, a, wanted).1 == Ok(Candidate(wanted, 1))
  {
    UniqueNameFirstRound(s.tree, dir, wanted);
  }

  /** A new name "." or ".." names an existing directory entry, so it is
      numbered like any taken name; by Naming.CandidateOfDots the first
      variants are " (1)" and ". (1)". */
  lemma RenameToDots(s: State, env: Env, dir: Path, docName: string, a: string)
    requires FileNameOk(a) && 0 !in env.failing && dir + [a] in s.tree && !DirectoryAlias(a)
    requires IsDir(s.tree, dir) && dir + [Candidate(".", 1)] !in s.tree && dir + [Candidate("..", 1)] !in s.tree
    ensures RenameIn(s, env, dir, docName, a, ".").1 == Ok(Candidate(".", 1))
    ensures RenameIn(s, env, dir, docName, a, "..").1 == Ok(Candidate("..", 1))
  {
    DotNamesClean();
    RenameOntoTaken(s, env, dir, docName, a, ".");
    RenameOntoTaken(s, env, dir, docName, a, "..");
  }

  // ============================================================= saveFile

  /** The content handed to saveFile: a stream or a string, by its size. */
  datatype Content = Stream(size: nat) | Text(length: nat)

  function ContentSize(c: Content): nat {
    match c
    case Stream(n) => n
    case Text(n) => n
  }

  /** The uploader saveFile records: the argument, else the session user, else "Unknown". */
  function UploaderOf(env: Env, uploader: Option<string>): string {
    if uploader.Some? then uploader.value
    else if env.sessionUser.Some? then env.sessionUser.value
    else "Unknown"
  }

  /** The metadata entry saveFile writes: an existing entry keeps its upload
      date and tags and gets a new modification date and uploader; a new
      entry gets both dates set to now. */
  function SavedEntry(d: Doc, name: string, date: string, who: string): (m: Meta)
    ensures m.modified == Some(date) && m.uploader == Some(who)
    ensures name in d ==> m.uploaded == d[name].uploaded && m.tags == d[name].tags
    ensures name !in d ==> m.uploaded == Some(date) && m.tags == None
  {
    if name in d then d[name].(modified := Some(date), uploader := Some(who))
    else Meta(Some(date), Some(date), Some(who), None)
  }

  /** The folder saveFile, createZipArchive, saveFileTag and getFileList
      work with: trimmed, and 'root' when that is falsy ("" or "0"). */
  function DefaultedFolder(folder: string): string {
    if Falsy(Trim(folder)) then "root" else Trim(folder)
  }

  /** saveFile once the folder is validated and resolved to directory `dir`
      and document `docName`: the directory must exist inside the uploads
      directory, the content is written, then the metadata entry. A failed
      metadata write leaves the written file in place. */
  function SaveIn(s: State, env: Env, folder: string, dir: Path, docName: string, name: string,
                  content: Content, who: string): (r: (State, Result<()>))
    ensures r.1.Ok? <==>
      && IsDir(s.tree, dir) && dir !in env.escaping && 0 !in env.failing
      && !DirectoryAlias(name) && !IsDir(s.tree, dir + [name]) && docName !in env.unwritable
    ensures r.1.Ok? || r.1.problem.kind == MetadataWriteFailed ==>
      r.0.tree == s.tree[dir + [name] := File(ContentSize(content))]
    ensures r.1.Ok? ==>
      var d := DocOf(s, docName);
      r.0.docs == s.docs[docName := d[name := SavedEntry(d, name, env.date, who)]]
    ensures r.1.Err? && r.1.problem.kind != MetadataWriteFailed ==> r.0 == s
    ensures r.1.Err? ==> r.0.docs == s.docs
    ensures r.0.trash == s.trash && r.0.ledger == s.ledger && r.0.shares == s.shares && r.0.globalTags == s.globalTags
  {
    if !IsDir(s.tree, dir) || dir in env.escaping then (s, Err(Problem(InvalidPath, folder)))
    else
      var path := dir + [name];
      if 0 in env.failing || DirectoryAlias(name) || IsDir(s.tree, path) then
        (s, Err(Problem(if content.Stream? then StreamOpenFailed else IoFailed, name)))
      else
        var s1 := s.(tree := s.tree[path := File(ContentSize(content))]);
        var d := DocOf(s, docName);
        var w := WriteDoc(s1, env, docName, d[name := SavedEntry(d, name, env.date, who)]);
        if w.1 then (w.0, Ok(())) else (w.0, Err(Problem(MetadataWriteFailed, docName)))
  }

  /** The directory saveFile writes into for a defaulted folder. */
  function SaveDir(f: string): Path {
    if IsRootAnyCase(f) then [] else Segments(TrimSet(f, SlashSpaceSet))
  }

  /** `saveFile`: default and validate the folder, then save into it. */
  function SaveFile(s: State, env: Env, folder: string, fileName: string, content: Content,
                    uploader: Option<string>): (State, Result<()>)
  {
    var f := DefaultedFolder(folder);
    if !IsRootAnyCase(f) && !FolderNameOk(f) then (s, Err(Problem(InvalidFolder, f)))
    else SaveIn(s, env, f, SaveDir(f), DocName(f), CleanName(fileName), content, UploaderOf(env, uploader))
  }

  /** Saving the same content twice at the same moment leaves the state of a
      single save. */
  lemma SaveIdempotent(s: State, env: Env, folder: string, dir: Path, docName: string, name: string,
                       content: Content, who: string)
    requires SaveIn(s, env, folder, dir, docName, name, content, who).1.Ok?
    ensures var once := SaveIn(s, env, folder, dir, docName, name, content, who);
      var twice := SaveIn(once.0, env, folder, dir, docName, name, content, who);
      twice.1.Ok? && twice.0 == once.0
  {
    var once := SaveIn(s, env, folder, dir, docName, name, content, who);
    assert IsDir(once.0.tree, dir) by {
      if dir != [] {
        assert dir != dir + [name];
      }
    }
    var d := DocOf(s, docName);
    var e := SavedEntry(d, name, env.date, who);
    assert DocOf(once.0, docName) == d[name := e];
    assert SavedEntry(d[name := e], name, env.date, who) == e;
    assert once.0.tree[dir + [name]] == File(ContentSize(content));
    var twice := SaveIn(once.0, env, folder, dir, docName, name, content, who);
    assert docName in once.0.docs && once.0.docs[docName] == d[name := e];
    assert d[name := e][name := e] == d[name := e];
  }

  /** Saving over an existing entry keeps its upload date and tags. */
  lemma SaveKeepsUploadAndTags(s: State, env: Env, folder: string, dir: Path, docName: string, name: string,
                               content: Content, who: string)
    requires SaveIn(s, env, folder, dir, docName, name, content, who).1.Ok?
    requires name in DocOf(s, docName)
    ensures var r := SaveIn(s, env, folder, dir, docName, name, content, who);
      var before := DocOf(s, docName)[name];
      var after := DocOf(r.0, docName)[name];
      after.uploaded == before.uploaded && after.tags == before.tags && after.modified == Some(env.date)
      && after.uploader == Some(who)
  {
  }

  /** A folder that is not 'root' in some letter case must match the folder
      pattern; otherwise the save is refused and nothing changes. */
  lemma SaveFileValidatesFolder(s: State, env: Env, folder: string, fileName: string, content: Content,
                                uploader: Option<string>)
    ensures var f := DefaultedFolder(folder);
      var r := SaveFile(s, env, folder, fileName, content, uploader);
      !IsRootAnyCase(f) && !FolderNameOk(f) ==> r == (s, Err(Problem(InvalidFolder, f)))
  {
  }

  // =========================================================== createFile

  /** `/^[\w\-. ]+$/` without the u flag: ASCII word characters, '-', '.'
      and space, with one final "\n" admitted. */
  predicate CreateNameChar(c: char) {
    ('a' <= c <= 'z') || ('A' <= c <= 'Z') || ('0' <= c <= '9') || c == '_' || c == '-' || c == '.' || c == ' '
  }

  predicate CreateNameOk(s: string) {
    var t := StripFinalNewline(s);
    |t| >= 1 && forall i :: 0 <= i < |t| ==> CreateNameChar(t[i])
  }

  /** The HTTP code createFile reports with each failure. */
  function CreateFileCode(p: Problem): (code: int)
    ensures code == 400 <==> p.kind in {InvalidName, Collision}
  {
    if p.kind in {InvalidName, Collision} then 400 else 500
  }

  /** createFile once the folder is resolved to directory `dir` and
      document `docName`: validate the name, create the folder if missing,
      refuse to overwrite, create the empty file, then record the upload
      date and the uploader. */
  function CreateIn(s: State, env: Env, folder: string, dir: Path, docName: string, filename: string,
                    uploader: string): (r: (State, Result<()>))
    ensures r.1.Ok? ==>
      && !Exists(s.tree, dir + [filename])
      && dir + [filename] in r.0.tree && r.0.tree[dir + [filename]] == File(0)
      && IsDir(r.0.tree, dir)
      && Keeps(s.tree, r.0.tree)
      && r.0.docs == s.docs[docName := DocOf(s, docName)[filename := Meta(Some(env.date), None, Some(uploader), None)]]
    ensures r.1.Err? && r.1.problem.kind in {InvalidName, FolderCreateFailed} ==> r.0 == s
    ensures r.1.Err? ==> r.0.docs == s.docs && Keeps(s.tree, r.0.tree)
    ensures r.1.Err? && r.1.problem.kind == Collision ==> Exists(r.0.tree, dir + [filename]) || DirectoryAlias(filename)
    ensures r.0.trash == s.trash && r.0.ledger == s.ledger && r.0.shares == s.shares && r.0.globalTags == s.globalTags
  {
    if !CreateNameOk(filename) then (s, Err(Problem(InvalidName, filename)))
    else if !IsDir(s.tree, dir) && !MkdirOk(s.tree, env, dir) then (s, Err(Problem(FolderCreateFailed, folder)))
    else
      assert dir[..|dir|] == dir;
      var tree := if IsDir(s.tree, dir) then s.tree else Mkdir(s.tree, dir);
      var path := dir + [filename];
      if Exists(tree, path) || DirectoryAlias(filename) then (s.(tree := tree), Err(Problem(Collision, filename)))
      else if 0 in env.failing then (s.(tree := tree), Err(Problem(IoFailed, filename)))
      else
        assert path != dir;
        var s1 := s.(tree := tree[path := File(0)]);
        var w := WriteDoc(s1, env, docName, DocOf(s, docName)[filename := Meta(Some(env.date), None, Some(uploader), None)]);
        if w.1 then (w.0, Ok(())) else (w.0, Err(Problem(MetadataWriteFailed, docName)))
  }

  /** What createFile answers, for every input: 400 exactly when the name
      is invalid or, once the folder is there, the path is already taken;
      500 exactly when the folder cannot be made, the empty file cannot be
      written or the document cannot be saved; success otherwise. */
  lemma CreateOutcomes(s: State, env: Env, folder: string, dir: Path, docName: string, filename: string,
                       uploader: string)
    ensures var r := CreateIn(s, env, folder, dir, docName, filename, uploader).1;
      var ready := IsDir(s.tree, dir) || MkdirOk(s.tree, env, dir);
      var taken := Exists(s.tree, dir + [filename]) || DirectoryAlias(filename);
      && (r.Err? && CreateFileCode(r.problem) == 400 <==>
            !CreateNameOk(filename) || (ready && taken))
      && (r.Err? && CreateFileCode(r.problem) == 500 <==>
            CreateNameOk(filename) && (!ready || (!taken && (0 in env.failing || docName in env.unwritable))))
      && (r.Ok? <==>
            CreateNameOk(filename) && ready && !taken && 0 !in env.failing && docName !in env.unwritable)
  {
    if CreateNameOk(filename) && (IsDir(s.tree, dir) || MkdirOk(s.tree, env, dir)) && !IsDir(s.tree, dir) {
      var path := dir + [filename];
      assert |path| > |dir|;
      assert Exists(Mkdir(s.tree, dir), path) <==> Exists(s.tree, path);
    }
  }

  /** `createFile`: the folder names a directory below the uploads directory
      and a document without trimming; only the exact 'root' is the root. */
  function CreateFile(s: State, env: Env, folder: string, filename: string, uploader: string): (State, Result<()>) {
    var dir := if folder == "root" then [] else Segments(folder);
    CreateIn(s, env, folder, dir, FlatDocName(if folder == "root" then "root" else folder), filename, uploader)
  }

  /** Creating the same file twice: the second attempt is refused with 400. */
  lemma CreateTwiceCollides(s: State, env: Env, folder: string, dir: Path, docName: string, filename: string,
                            uploader: string)
    requires CreateIn(s, env, folder, dir, docName, filename, uploader).1.Ok?
    ensures var once := CreateIn(s, env, folder, dir, docName, filename, uploader);
      var twice := CreateIn(once.0, env, folder, dir, docName, filename, uploader);
      twice.1 == Err(Problem(Collision, filename)) && CreateFileCode(twice.1.problem) == 400
      && twice.0 == once.0
  {
  }

  // ====================================================== getDownloadInfo

  /** The directory getDownloadInfo reads from: the uploads directory for
      'root' in any letter case or a blank folder; otherwise the trimmed
      folder, which must not contain "..", must exist and must resolve
      inside the uploads directory. */
  function DownloadDir(s: State, env: Env, folder: string): (r: Result<Path>)
    ensures r.Ok? && r.value != [] ==> !HasDotDot(folder) && Exists(s.tree, r.value) && r.value !in env.escaping
  {
    if IsRootAnyCase(folder) || Trim(folder) == "" then Ok([])
    else if HasDotDot(folder) then Err(Problem(InvalidFolder, folder))
    else
      var dir := Segments(TrimSet(folder, SlashSpaceSet));
      if !Exists(s.tree, dir) || dir in env.escaping then Err(Problem(InvalidPath, folder))
      else Ok(dir)
  }

  /** What `realpath` makes of name `name` inside directory `dir`, read
      lexically: "" and "." stay in `dir`, ".." goes to its parent, and the
      parent of the uploads directory lies outside it (None). */
  function Resolve(dir: Path, name: string): Option<Path> {
    if name == "" || name == "." then Some(dir)
    else if name == ".." then (if dir == [] then None else Some(dir[..|dir| - 1]))
    else Some(dir + [name])
  }

  /** The file to send from directory `dir`: its real path must exist and lie
      inside the uploads directory. An ordinary name is the entry of `dir`;
      "." sends `dir` itself and ".." its parent. */
  function DownloadIn(s: State, env: Env, dir: Path, name: string): (r: Result<Path>)
    ensures r.Ok? ==> IsDir(s.tree, dir) && Exists(s.tree, r.value) && r.value !in env.escaping
    ensures !DirectoryAlias(name) ==>
      (r.Ok? <==> IsDir(s.tree, dir) && dir + [name] in s.tree && dir + [name] !in env.escaping)
    ensures !DirectoryAlias(name) && r.Ok? ==> r.value == dir + [name] && r.value in s.tree
    ensures name == "" || name == "." ==> (r.Ok? <==> IsDir(s.tree, dir) && dir !in env.escaping)
    ensures (name == "" || name == ".") && r.Ok? ==> r.value == dir
    ensures name == ".." ==>
      (r.Ok? <==> IsDir(s.tree, dir) && dir != [] && Exists(s.tree, dir[..|dir| - 1])
                  && dir[..|dir| - 1] !in env.escaping)
    ensures name == ".." && r.Ok? ==> r.value == dir[..|dir| - 1] && |r.value| + 1 == |dir|
    ensures r.Err? ==> r.problem == Problem(AccessForbidden, name)
  {
    match Resolve(dir, name)
    case None => Err(Problem(AccessForbidden, name))
    case Some(path) =>
      if !IsDir(s.tree, dir) || !Exists(s.tree, path) || path in env.escaping then Err(Problem(AccessForbidden, name))
      else Ok(path)
  }

  /** Asking for ".." in the uploads directory itself is refused, and in a
      subfolder sends that subfolder's parent. */
  lemma DownloadDotDot(s: State, env: Env, dir: Path)
    requires IsDir(s.tree, dir) && [] !in env.escaping
    ensures dir == [] ==> DownloadIn(s, env, dir, "..") == Err(Problem(AccessForbidden, ".."))
    ensures |dir| == 1 ==> DownloadIn(s, env, dir, "..") == Ok([])
  {
  }

  /** A slash-free name with no whitespace at its ends is its own clean name. */
  lemma PlainNameClean(n: string)
    requires |n| >= 1 && '/' !in n && n[0] !in DefaultTrimSet && n[|n| - 1] !in DefaultTrimSet
    ensures CleanName(n) == n
  {
    TrimUnchanged(n);
    assert TailCount(n, {'/'}) == 0;
    assert RTrim(n, {'/'}) == n;
  }

  /** "." and ".." are valid file names that `basename(trim())` keeps. */
  lemma DotNamesClean()
    ensures CleanName(".") == "." && CleanName("..") == ".."
    ensures FileNameOk(".") && FileNameOk("..")
  {
    PlainNameClean(".");
    PlainNameClean("..");
    DotNamesAreFileNames();
  }

  lemma DocsDownloadDir(s: State, env: Env)
    requires ["docs"] in s.tree && ["docs"] !in env.escaping
    ensures DownloadDir(s, env, "docs") == Ok(["docs"])
  {
    assert ToLower("docs")[0] == 'd';
    TrimUnchanged("docs");
    assert !HasDotDot("docs");
    assert LeadCount("docs", SlashSpaceSet) == 0;
    assert LTrim("docs", SlashSpaceSet) == "docs";
    assert TailCount("docs", SlashSpaceSet) == 0;
    assert TrimSet("docs", SlashSpaceSet) == "docs";
    assert Explode("docs", '/') == ["docs"] by {
      assert !HasAny("docs", {'/'});
    }
    assert NonEmpty(["docs"]) == ["docs"] by {
      assert ["docs"][1..] == [];
    }
    assert !(IsRootAnyCase("docs") || Trim("docs") == "");
  }

  /** In a resolved subfolder, ".." sends the subfolder's parent and "."
      the subfolder itself: directories, not files. */
  lemma DownloadAliases(s: State, env: Env, folder: string, dir: Path)
    requires DownloadDir(s, env, folder) == Ok(dir) && IsDir(s.tree, dir) && dir != []
    requires Exists(s.tree, dir[..|dir| - 1]) && dir[..|dir| - 1] !in env.escaping
    ensures GetDownloadInfo(s, env, folder, "..") == Ok(dir[..|dir| - 1])
    ensures GetDownloadInfo(s, env, folder, ".") == Ok(dir)
  {
    DotNamesClean();
  }

  /** In folder "docs", ".." sends the uploads directory and "." sends
      uploads/docs. */
  lemma DownloadAliasesOfDocs(s: State, env: Env)
    requires IsDir(s.tree, ["docs"]) && ["docs"] !in env.escaping && [] !in env.escaping
    ensures GetDownloadInfo(s, env, "docs", "..") == Ok([])
    ensures GetDownloadInfo(s, env, "docs", ".") == Ok(["docs"])
  {
    DocsDownloadDir(s, env);
    DownloadAliases(s, env, "docs", ["docs"]);
  }

  /** `getDownloadInfo`: the path of a file to send, or why not. */
  function GetDownloadInfo(s: State, env: Env, folder: string, file: string): (r: Result<Path>)
    ensures r.Ok? ==> FileNameOk(CleanName(file)) && Exists(s.tree, r.value) && r.value !in env.escaping
    ensures r.Ok? && !DirectoryAlias(CleanName(file)) ==>
      r.value in s.tree && |r.value| >= 1 && r.value[|r.value| - 1] == CleanName(file)
  {
    var name := CleanName(file);
    if !FileNameOk(name) then Err(Problem(InvalidName, name))
    else
      match DownloadDir(s, env, folder)
      case Err(p) => Err(p)
      case Ok(dir) => DownloadIn(s, env, dir, name)
  }
}
