// The trash: deleteFiles moves files into the trash directory and records
// them in the ledger (trash.json); getTrashItems lists the ledger;
// restoreFiles moves files back; deleteTrashFiles removes them for good.

module Trash {
  import opened PhpStrings
  import opened Validators
  import opened Store
  import opened FileOps

  /** The names a trash operation works on: each requested name trimmed. */
  function TrimNames(files: seq<string>): (r: seq<string>)
    ensures |r| == |files|
    ensures forall i :: 0 <= i < |files| ==> r[i] == Trim(files[i])
  {
    seq(|files|, i requires 0 <= i < |files| => Trim(files[i]))
  }

  /** `$v ?? "Unknown"` (also `isset($v) ? $v : "Unknown"`). */
  function OrUnknown(v: Option<string>): string {
    if v.Some? then v.value else "Unknown"
  }

  /** PHP `empty()` on an optional string field: absent, "" or "0". */
  predicate EmptyField(v: Option<string>) {
    v.None? || Falsy(v.value)
  }

  /** The first record of the ledger whose trashName is `t`. */
  function FirstRecord(ledger: seq<TrashRecord>, t: string): (k: Option<nat>)
    ensures k.Some? ==> k.value < |ledger| && ledger[k.value].trashName == Some(t)
    ensures k.Some? ==> forall j :: 0 <= j < k.value ==> ledger[j].trashName != Some(t)
    ensures k.None? ==> forall j :: 0 <= j < |ledger| ==> ledger[j].trashName != Some(t)
  {
    if ledger == [] then None
    else if ledger[0].trashName == Some(t) then Some(0)
    else match FirstRecord(ledger[1..], t)
      case None => None
      case Some(j) => Some(j + 1)
  }

  /** The ledger without its k-th record (`unset` followed by `array_values`). */
  function RemoveAt(ledger: seq<TrashRecord>, k: nat): (r: seq<TrashRecord>)
    requires k < |ledger|
    ensures |r| == |ledger| - 1
    ensures forall j :: 0 <= j < k ==> r[j] == ledger[j]
    ensures forall j :: k <= j < |r| ==> r[j] == ledger[j + 1]
  {
    ledger[..k] + ledger[k + 1..]
  }

  // ========================================================== deleteFiles

  /** The name a deleted file gets in the trash directory: `name_time`. */
  function TrashNameOf(name: string, now: int): string {
    name + "_" + IntToString(now)
  }

  /** The record deleteFiles appends for a file it moved to the trash; the
      upload date and uploader come from the folder's metadata document. */
  function DeletionRecord(env: Env, folder: string, meta: Doc, name: string): TrashRecord {
    var uploaded := if name in meta && meta[name].uploaded.Some? then meta[name].uploaded.value else "Unknown";
    var uploader := if name in meta && meta[name].uploader.Some? then meta[name].uploader.value else "Unknown";
    TrashRecord(Some("file"), Some(UploadDirString(env, folder)), Some(name), Some(TrashNameOf(name, env.now)),
                Some(env.now), Some(uploaded), Some(uploader), Some(OrUnknown(env.sessionUser)))
  }

  /** A ledger record that names a file deleted from `folder` under `name`:
      what restoreFiles reads from a record that DeletionRecord built. */
  predicate FileRecordOf(rec: TrashRecord, env: Env, folder: string, name: string) {
    rec.kind == Some("file") && rec.originalFolder == Some(UploadDirString(env, folder)) && rec.originalName == Some(name)
  }

  lemma DeletionRecordIsFileRecord(env: Env, folder: string, meta: Doc, name: string)
    ensures FileRecordOf(DeletionRecord(env, folder, meta, name), env, folder, name)
    ensures DeletionRecord(env, folder, meta, name).trashName == Some(TrashNameOf(name, env.now))
  {
  }

  /** What the delete loop carries. */
  datatype DeleteAcc = DeleteAcc(tree: map<Path, Node>, trash: map<string, Node>, ledger: seq<TrashRecord>,
                                 moved: seq<string>, problems: seq<Problem>)

  /** One round of the delete loop, for the i-th cleaned name. A name that
      does not exist counts as moved; renaming "." or ".." always fails. */
  function DeleteStep(env: Env, folder: string, dir: Path, meta: Doc, acc: DeleteAcc, i: nat, name: string): DeleteAcc {
    if !FileNameOk(name) then acc.(problems := acc.problems + [Problem(InvalidName, name)])
    else if !FileExists(acc.tree, dir, name) then acc.(moved := acc.moved + [name])
    else if i in env.failing || DirectoryAlias(name) then acc.(problems := acc.problems + [Problem(IoFailed, name)])
    else
      DeleteAcc(acc.tree - {dir + [name]},
                acc.trash[TrashNameOf(name, env.now) := acc.tree[dir + [name]]],
                acc.ledger + [DeletionRecord(env, folder, meta, name)],
                acc.moved + [name],
                acc.problems)
  }

  function DeletePrefix(env: Env, folder: string, dir: Path, meta: Doc, init: DeleteAcc,
                        names: seq<string>, n: nat): DeleteAcc
    requires n <= |names|
  {
    if n == 0 then init
    else DeleteStep(env, folder, dir, meta, DeletePrefix(env, folder, dir, meta, init, names, n - 1), n - 1, names[n - 1])
  }

  /** Every record in `ledger` from position `from` on names a file that is in the trash. */
  predicate RecordedInTrash(ledger: seq<TrashRecord>, from: nat, trash: map<string, Node>) {
    forall j :: from <= j < |ledger| ==> ledger[j].trashName.Some? && ledger[j].trashName.value in trash
  }

  /** k delete rounds from `acc` to `a` kept every path outside the folder,
      only appended to the ledger, removed a path exactly when they appended
      a record, never removed a trash entry, and accounted for each name. */
  predicate DeleteKept(acc: DeleteAcc, a: DeleteAcc, dir: Path, k: nat) {
    && (forall p :: p in acc.tree && OutsideDir(p, dir) ==> p in a.tree && a.tree[p] == acc.tree[p])
    && acc.ledger <= a.ledger
    && |a.tree| + |a.ledger| == |acc.tree| + |acc.ledger|
    && acc.trash.Keys <= a.trash.Keys
    && |a.moved| + |a.problems| == |acc.moved| + |acc.problems| + k
  }

  lemma DeleteKeptChain(x: DeleteAcc, y: DeleteAcc, z: DeleteAcc, dir: Path, m: nat, k: nat)
    requires DeleteKept(x, y, dir, m) && DeleteKept(y, z, dir, k)
    ensures DeleteKept(x, z, dir, m + k)
  {
    assert z.ledger[..|x.ledger|] == y.ledger[..|x.ledger|];
  }

  /** A delete round keeps every path outside the folder, only appends to
      the ledger, removes a path exactly when it appends a record for it,
      never removes a trash entry, and accounts for its name once. */
  lemma DeleteStepConserves(env: Env, folder: string, dir: Path, meta: Doc, acc: DeleteAcc, i: nat, name: string,
                            from: nat)
    requires from <= |acc.ledger| && RecordedInTrash(acc.ledger, from, acc.trash)
    ensures var a := DeleteStep(env, folder, dir, meta, acc, i, name);
      DeleteKept(acc, a, dir, 1) && RecordedInTrash(a.ledger, from, a.trash)
  {
    var a := DeleteStep(env, folder, dir, meta, acc, i, name);
    if FileNameOk(name) && FileExists(acc.tree, dir, name) && i !in env.failing && !DirectoryAlias(name) {
      var p := dir + [name];
      assert (acc.tree - {p}).Keys == acc.tree.Keys - {p};
      forall q | q in acc.tree && OutsideDir(q, dir)
        ensures q != p
      {
        assert p[..|dir|] == dir;
      }
    }
  }

  lemma DeletePrefixUnfold(env: Env, folder: string, dir: Path, meta: Doc, init: DeleteAcc, names: seq<string>, n: nat)
    requires 0 < n <= |names|
    ensures DeletePrefix(env, folder, dir, meta, init, names, n) ==
      DeleteStep(env, folder, dir, meta, DeletePrefix(env, folder, dir, meta, init, names, n - 1), n - 1, names[n - 1])
  {
  }

  /** A delete round extends what the rounds before it kept by one name. */
  lemma DeleteStepExtends(env: Env, folder: string, dir: Path, meta: Doc, init: DeleteAcc, acc: DeleteAcc,
                          i: nat, name: string, k: nat)
    requires DeleteKept(init, acc, dir, k) && RecordedInTrash(acc.ledger, |init.ledger|, acc.trash)
    ensures var a := DeleteStep(env, folder, dir, meta, acc, i, name);
      DeleteKept(init, a, dir, k + 1) && RecordedInTrash(a.ledger, |init.ledger|, a.trash)
  {
    DeleteStepConserves(env, folder, dir, meta, acc, i, name, |init.ledger|);
    DeleteKeptChain(init, acc, DeleteStep(env, folder, dir, meta, acc, i, name), dir, k, 1);
  }

  lemma {:induction false} DeletePrefixConserves(env: Env, folder: string, dir: Path, meta: Doc, init: DeleteAcc,
                                                 names: seq<string>, n: nat)
    requires n <= |names|
    ensures var a := DeletePrefix(env, folder, dir, meta, init, names, n);
      DeleteKept(init, a, dir, n) && RecordedInTrash(a.ledger, |init.ledger|, a.trash)
  {
    if n == 0 {
      assert DeletePrefix(env, folder, dir, meta, init, names, n) == init;
    } else {
      var prev := DeletePrefix(env, folder, dir, meta, init, names, n - 1);
      DeletePrefixConserves(env, folder, dir, meta, init, names, n - 1);
      DeleteStepExtends(env, folder, dir, meta, init, prev, n - 1, names[n - 1], n - 1);
      DeletePrefixUnfold(env, folder, dir, meta, init, names, n);
    }
  }

  /** A round that moves a file puts its node into the trash under
      `name_time` and records where it came from. */
  lemma DeleteStepMoves(env: Env, folder: string, dir: Path, meta: Doc, acc: DeleteAcc, i: nat, name: string)
    requires FileNameOk(name) && !DirectoryAlias(name) && dir + [name] in acc.tree && i !in env.failing
    ensures var a := DeleteStep(env, folder, dir, meta, acc, i, name);
      && dir + [name] !in a.tree
      && a.trash[TrashNameOf(name, env.now)] == acc.tree[dir + [name]]
      && a.ledger == acc.ledger + [DeletionRecord(env, folder, meta, name)]
      && a.moved == acc.moved + [name]
  {
  }

  /** Two files of the same name deleted from different folders in the same
      second get the same trash name: the ledger holds two records naming
      it, and the trash keeps only the second file's node. */
  lemma SameSecondSameTrashName(env: Env, folder1: string, dir1: Path, meta1: Doc,
                                folder2: string, dir2: Path, meta2: Doc,
                                acc: DeleteAcc, i: nat, j: nat, name: string)
    requires FileNameOk(name) && !DirectoryAlias(name) && i !in env.failing && j !in env.failing
    requires dir1 != dir2 && dir1 + [name] in acc.tree && dir2 + [name] in acc.tree
    ensures var a := DeleteStep(env, folder1, dir1, meta1, acc, i, name);
      var b := DeleteStep(env, folder2, dir2, meta2, a, j, name);
      && |b.ledger| == |acc.ledger| + 2
      && b.ledger[|acc.ledger|].trashName == b.ledger[|acc.ledger| + 1].trashName == Some(TrashNameOf(name, env.now))
      && dir1 + [name] !in b.tree && dir2 + [name] !in b.tree
      && b.trash[TrashNameOf(name, env.now)] == acc.tree[dir2 + [name]]
  {
    var a := DeleteStep(env, folder1, dir1, meta1, acc, i, name);
    assert dir2 + [name] != dir1 + [name] by {
      assert (dir2 + [name])[..|dir2|] == dir2 && (dir1 + [name])[..|dir1|] == dir1;
    }
    DeleteStepMoves(env, folder1, dir1, meta1, acc, i, name);
    DeleteStepMoves(env, folder2, dir2, meta2, a, j, name);
  }

  /** The loop of `deleteFiles`. */
  method DeleteLoop(env: Env, folder: string, dir: Path, meta: Doc, init: DeleteAcc, names: seq<string>)
    returns (acc: DeleteAcc)
    ensures acc == DeletePrefix(env, folder, dir, meta, init, names, |names|)
  {
    acc := init;
    var i := 0;
    while i < |names|
      invariant i <= |names|
      invariant acc == DeletePrefix(env, folder, dir, meta, init, names, i)
    {
      var name := names[i];
      if !FileNameOk(name) {
        acc := acc.(problems := acc.problems + [Problem(InvalidName, name)]);
      } else if FileExists(acc.tree, dir, name) {
        if i in env.failing || DirectoryAlias(name) {
          acc := acc.(problems := acc.problems + [Problem(IoFailed, name)]);
        } else {
          var path := dir + [name];
          var trashName := TrashNameOf(name, env.now);
          acc := DeleteAcc(acc.tree - {path}, acc.trash[trashName := acc.tree[path]],
                           acc.ledger + [DeletionRecord(env, folder, meta, name)],
                           acc.moved + [name], acc.problems);
        }
      } else {
        acc := acc.(moved := acc.moved + [name]);
      }
      i := i + 1;
    }
  }

  /** The metadata document without the entries of the given names. */
  function RemoveKeys(d: Doc, names: seq<string>): (r: Doc)
    ensures forall k :: k in r <==> k in d && k !in names
    ensures forall k :: k in r ==> r[k] == d[k]
  {
    map k | k in d && k !in names :: d[k]
  }

  /** The loop followed by the ledger write and the metadata clean-up, both
      of whose failures are ignored. */
  function DeleteAndRecord(s: State, env: Env, folder: string, dir: Path, docName: string, names: seq<string>)
    : (State, seq<string>, seq<Problem>)
  {
    var a := DeletePrefix(env, folder, dir, DocOf(s, docName), DeleteAcc(s.tree, s.trash, s.ledger, [], []), names, |names|);
    var s1 := s.(tree := a.tree, trash := a.trash, ledger := if TrashDoc in env.unwritable then s.ledger else a.ledger);
    var s2 := if docName in s.docs then WriteDoc(s1, env, docName, RemoveKeys(s.docs[docName], a.moved)).0 else s1;
    (s2, a.moved, a.problems)
  }

  /** What `deleteFiles` leaves behind, the names it reports as moved to the
      trash, and its messages. */
  function DeleteOutcome(s: State, env: Env, folder: string, files: seq<string>): (State, seq<string>, seq<Problem>) {
    DeleteAndRecord(s, env, folder, FolderDir(folder), DocName(folder), CleanNames(files))
  }

  /** `deleteFiles`: move each named file of a folder to the trash, record
      it in the ledger, then drop the metadata entries of the moved names. */
  method DeleteFiles(s: State, env: Env, folder: string, files: seq<string>)
    returns (s': State, moved: seq<string>, problems: seq<Problem>)
    ensures (s', moved, problems) == DeleteOutcome(s, env, folder, files)
  {
    var dir, docName := FolderDir(folder), DocName(folder);
    var names := CleanNames(files);
    var a := DeleteLoop(env, folder, dir, DocOf(s, docName), DeleteAcc(s.tree, s.trash, s.ledger, [], []), names);
    s' := s.(tree := a.tree, trash := a.trash);
    if TrashDoc !in env.unwritable {
      s' := s'.(ledger := a.ledger);
    }
    if docName in s.docs {
      s' := WriteDoc(s', env, docName, RemoveKeys(s.docs[docName], a.moved)).0;
    }
    moved, problems := a.moved, a.problems;
  }

  /** Deleting keeps every path outside the folder and every trash entry;
      when the ledger is written, each path that left the tree has one new
      record, every new record names a file in the trash, and the moved
      names lose their metadata entries. */
  lemma DeleteAndRecordConserves(s: State, env: Env, folder: string, dir: Path, docName: string, names: seq<string>)
    requires RecordedInTrash(s.ledger, |s.ledger|, s.trash)
    ensures var (s', moved, problems) := DeleteAndRecord(s, env, folder, dir, docName, names);
      && (forall p :: p in s.tree && OutsideDir(p, dir) ==> p in s'.tree && s'.tree[p] == s.tree[p])
      && s.trash.Keys <= s'.trash.Keys
      && |moved| + |problems| == |names|
      && s'.shares == s.shares && s'.globalTags == s.globalTags
      && (TrashDoc !in env.unwritable ==>
            && s.ledger <= s'.ledger
            && |s'.tree| + |s'.ledger| == |s.tree| + |s.ledger|
            && RecordedInTrash(s'.ledger, |s.ledger|, s'.trash))
      && (docName in s.docs && docName !in env.unwritable ==>
            forall k :: k in moved ==> k !in s'.docs[docName])
  {
    DeletePrefixConserves(env, folder, dir, DocOf(s, docName), DeleteAcc(s.tree, s.trash, s.ledger, [], []), names, |names|);
  }

  // ======================================================== getTrashItems

  /** A ledger record as getTrashItems returns it: a missing deleter becomes
      "Unknown"; a record missing its upload date or uploader gets both from
      the metadata document of its original folder, or "Unknown". */
  function Enriched(s: State, rec: TrashRecord): (r: TrashRecord)
    ensures r.deletedBy.Some? && !Falsy(r.deletedBy.value)
    ensures r.uploaded.Some? && !Falsy(r.uploaded.value)
    ensures r.uploader.Some? && !Falsy(r.uploader.value)
    ensures !EmptyField(rec.deletedBy) ==> r.deletedBy == rec.deletedBy
    ensures !EmptyField(rec.uploaded) && !EmptyField(rec.uploader) ==>
              r.uploaded == rec.uploaded && r.uploader == rec.uploader
    ensures r.(deletedBy := rec.deletedBy, uploaded := rec.uploaded, uploader := rec.uploader) == rec
  {
    var who := if EmptyField(rec.deletedBy) then Some("Unknown") else rec.deletedBy;
    if !EmptyField(rec.uploaded) && !EmptyField(rec.uploader) then rec.(deletedBy := who)
    else if rec.originalFolder.Some? && rec.originalName.Some?
         && DocName(rec.originalFolder.value) in s.docs
         && rec.originalName.value in s.docs[DocName(rec.originalFolder.value)] then
      var m := s.docs[DocName(rec.originalFolder.value)][rec.originalName.value];
      rec.(deletedBy := who,
           uploaded := if EmptyField(m.uploaded) then Some("Unknown") else m.uploaded,
           uploader := if EmptyField(m.uploader) then Some("Unknown") else m.uploader)
    else rec.(deletedBy := who, uploaded := Some("Unknown"), uploader := Some("Unknown"))
  }

  /** `getTrashItems`: the ledger with each record enriched in place. */
  method GetTrashItems(s: State) returns (items: seq<TrashRecord>)
    ensures |items| == |s.ledger|
    ensures forall j :: 0 <= j < |items| ==> items[j] == Enriched(s, s.ledger[j])
  {
    items := s.ledger;
    var i := 0;
    while i < |items|
      invariant i <= |items| == |s.ledger|
      invariant forall j :: 0 <= j < i ==> items[j] == Enriched(s, s.ledger[j])
      invariant forall j :: i <= j < |items| ==> items[j] == s.ledger[j]
    {
      items := items[i := Enriched(s, items[i])];
      i := i + 1;
    }
  }

  // ========================================================= restoreFiles

  /** The folder, relative to the uploads directory, a record's
      originalFolder names: the rest of the string after the uploads
      directory with '/' and '\' trimmed, and 'root' when that is empty or
      the string does not start with the uploads directory. */
  function RelativeFolder(uploadsDir: string, originalFolder: string): (rel: string)
    ensures rel != ""
  {
    if StartsWith(originalFolder, uploadsDir) then
      var r := TrimSet(originalFolder[|uploadsDir|..], SlashSet);
      if r == "" then "root" else r
    else "root"
  }

  /** The directory restoreFiles puts an item back into: 'root' in any
      letter case is the uploads directory. */
  function RestoreDir(rel: string): Path {
    if IsRootAnyCase(rel) then [] else Segments(rel)
  }

  /** What the restore loop carries: the state (whose own ledger stays as
      loaded), the working ledger, the restored names and the messages. */
  datatype RestoreAcc = RestoreAcc(st: State, ledger: seq<TrashRecord>, restored: seq<string>, problems: seq<Problem>)

  /** The metadata entry a restored file gets back. */
  function RestoredEntry(env: Env, rec: TrashRecord): Meta {
    Meta(Some(if rec.uploaded.Some? then rec.uploaded.value else env.date), None, Some(OrUnknown(rec.uploader)), None)
  }

  /** Restoring a folder record: create the directory unless something is there. */
  function RestoreFolderRecord(env: Env, acc: RestoreAcc, k: nat, dest: Path, name: string): RestoreAcc
    requires k < |acc.ledger|
  {
    if Exists(acc.st.tree, dest) || DirectoryAlias(name) then
      acc.(problems := acc.problems + [Problem(Collision, name)])
    else if !MkdirOk(acc.st.tree, env, dest) then acc.(problems := acc.problems + [Problem(FolderCreateFailed, name)])
    else acc.(st := acc.st.(tree := Mkdir(acc.st.tree, dest)), ledger := RemoveAt(acc.ledger, k),
              restored := acc.restored + [name + " (folder restored)"])
  }

  /** Restoring a file record: create its directory if missing, refuse to
      overwrite, move the trash file back, rewrite its metadata entry. */
  function RestoreFileRecord(env: Env, acc: RestoreAcc, i: nat, t: string, k: nat, dir: Path, docName: string,
                             name: string): RestoreAcc
    requires k < |acc.ledger|
  {
    var dest := dir + [name];
    if !Exists(acc.st.tree, dir) && !MkdirOk(acc.st.tree, env, dir) then
      acc.(problems := acc.problems + [Problem(FolderCreateFailed, name)])
    else
      var tree := if Exists(acc.st.tree, dir) then acc.st.tree else Mkdir(acc.st.tree, dir);
      var st := acc.st.(tree := tree);
      if Exists(tree, dest) || DirectoryAlias(name) then acc.(st := st, problems := acc.problems + [Problem(Collision, name)])
      else if t !in st.trash then acc.(st := st, problems := acc.problems + [Problem(Missing, t)])
      else if i in env.failing || !IsDir(tree, dir) then acc.(st := st, problems := acc.problems + [Problem(IoFailed, name)])
      else
        var moved := st.(tree := tree[dest := st.trash[t]], trash := st.trash - {t});
        var d := DocOf(st, docName)[name := RestoredEntry(env, acc.ledger[k])];
        acc.(st := WriteDoc(moved, env, docName, d).0, ledger := RemoveAt(acc.ledger, k),
             restored := acc.restored + [name])
  }

  /** What one restore round decides from the name and the working ledger. */
  datatype RestorePlan =
    | Decline(problem: Problem)
    | FolderBack(k: nat, dest: Path, name: string)
    | FileBack(k: nat, dir: Path, docName: string, name: string)

  /** The name must pass the file-name pattern and find a complete record;
      the record's kind picks a folder or a file restore, into the folder
      the record names relative to the uploads directory. */
  function PlanRestore(env: Env, ledger: seq<TrashRecord>, t: string): (p: RestorePlan)
    ensures p.FolderBack? || p.FileBack? ==> p.k < |ledger|
  {
    if !FileNameOk(t) then Decline(Problem(InvalidName, t))
    else match FirstRecord(ledger, t)
      case None => Decline(Problem(NoRecord, t))
      case Some(k) =>
        var rec := ledger[k];
        if rec.originalFolder.None? || rec.originalName.None? then Decline(Problem(IncompleteRecord, t))
        else
          var rel := RelativeFolder(env.uploadsDir, rec.originalFolder.value);
          if rec.kind == Some("folder") then FolderBack(k, RestoreDir(rel) + [rec.originalName.value], rec.originalName.value)
          else FileBack(k, RestoreDir(rel), DocName(rel), rec.originalName.value)
  }

  /** Carry out a plan. */
  function RunPlan(env: Env, acc: RestoreAcc, i: nat, t: string, p: RestorePlan): RestoreAcc
    requires p.FolderBack? || p.FileBack? ==> p.k < |acc.ledger|
  {
    match p
    case Decline(problem) => acc.(problems := acc.problems + [problem])
    case FolderBack(k, dest, name) => RestoreFolderRecord(env, acc, k, dest, name)
    case FileBack(k, dir, docName, name) => RestoreFileRecord(env, acc, i, t, k, dir, docName, name)
  }

  /** One round of the restore loop, for the i-th trimmed trash name. */
  function RestoreStep(env: Env, acc: RestoreAcc, i: nat, t: string): RestoreAcc {
    RunPlan(env, acc, i, t, PlanRestore(env, acc.ledger, t))
  }

  function RestorePrefix(env: Env, init: RestoreAcc, names: seq<string>, n: nat): RestoreAcc
    requires n <= |names|
  {
    if n == 0 then init else RestoreStep(env, RestorePrefix(env, init, names, n - 1), n - 1, names[n - 1])
  }

  /** What every restore round keeps: no path is removed or overwritten,
      trash entries are only taken out, a ledger record is dropped exactly
      when an item is restored, and the name is accounted for once. */
  predicate RestoreKept(acc: RestoreAcc, a: RestoreAcc, k: nat) {
    && Keeps(acc.st.tree, a.st.tree)
    && a.st.trash.Keys <= acc.st.trash.Keys
    && |a.ledger| + |a.restored| == |acc.ledger| + |acc.restored|
    && |a.restored| + |a.problems| == |acc.restored| + |acc.problems| + k
    && a.st.ledger == acc.st.ledger && a.st.shares == acc.st.shares && a.st.globalTags == acc.st.globalTags
  }

  lemma RestoreKeptChain(x: RestoreAcc, y: RestoreAcc, z: RestoreAcc, m: nat, k: nat)
    requires RestoreKept(x, y, m) && RestoreKept(y, z, k)
    ensures RestoreKept(x, z, m + k)
  {
    KeepsTrans(x.st.tree, y.st.tree, z.st.tree);
  }

  lemma RestoreFolderRecordKept(env: Env, acc: RestoreAcc, k: nat, dest: Path, name: string)
    requires k < |acc.ledger|
    ensures RestoreKept(acc, RestoreFolderRecord(env, acc, k, dest, name), 1)
  {
  }

  lemma RestoreFileRecordKept(env: Env, acc: RestoreAcc, i: nat, t: string, k: nat, dir: Path, docName: string,
                               name: string)
    requires k < |acc.ledger|
    ensures RestoreKept(acc, RestoreFileRecord(env, acc, i, t, k, dir, docName, name), 1)
  {
    var a := RestoreFileRecord(env, acc, i, t, k, dir, docName, name);
    if Exists(acc.st.tree, dir) || MkdirOk(acc.st.tree, env, dir) {
      var tree := if Exists(acc.st.tree, dir) then acc.st.tree else Mkdir(acc.st.tree, dir);
      assert Keeps(acc.st.tree, tree);
      var dest := dir + [name];
      if !(Exists(tree, dest) || DirectoryAlias(name)) && t in acc.st.trash && i !in env.failing && IsDir(tree, dir) {
        var st := acc.st.(tree := tree);
        var moved := st.(tree := tree[dest := st.trash[t]], trash := st.trash - {t});
        assert Keeps(tree, moved.tree);
        var d := DocOf(st, docName)[name := RestoredEntry(env, acc.ledger[k])];
        var w := WriteDoc(moved, env, docName, d).0;
        assert w.tree == moved.tree && w.trash == moved.trash;
        assert a == acc.(st := w, ledger := RemoveAt(acc.ledger, k), restored := acc.restored + [name]);
      }
    }
  }

  lemma RestoreStepConserves(env: Env, acc: RestoreAcc, i: nat, t: string)
    ensures RestoreKept(acc, RestoreStep(env, acc, i, t), 1)
  {
    match PlanRestore(env, acc.ledger, t)
    case Decline(_) =>
    case FolderBack(k, dest, name) => RestoreFolderRecordKept(env, acc, k, dest, name);
    case FileBack(k, dir, docName, name) => RestoreFileRecordKept(env, acc, i, t, k, dir, docName, name);
  }

  lemma RestorePrefixUnfold(env: Env, init: RestoreAcc, names: seq<string>, n: nat)
    requires 0 < n <= |names|
    ensures RestorePrefix(env, init, names, n) == RestoreStep(env, RestorePrefix(env, init, names, n - 1), n - 1, names[n - 1])
  {
  }

  lemma {:induction false} RestorePrefixConserves(env: Env, init: RestoreAcc, names: seq<string>, n: nat)
    requires n <= |names|
    ensures RestoreKept(init, RestorePrefix(env, init, names, n), n)
  {
    if n == 0 {
      assert RestorePrefix(env, init, names, n) == init;
    } else {
      var prev := RestorePrefix(env, init, names, n - 1);
      RestorePrefixConserves(env, init, names, n - 1);
      RestoreStepConserves(env, prev, n - 1, names[n - 1]);
      RestorePrefixUnfold(env, init, names, n);
      RestoreKeptChain(init, prev, RestorePrefix(env, init, names, n), n - 1, 1);
    }
  }

  /** A file round that restores puts the trash file's node at the
      record's original place and takes it out of the trash. */
  lemma RestoreFileRecordPlaces(env: Env, acc: RestoreAcc, i: nat, t: string, k: nat, dir: Path, docName: string,
                                 name: string)
    requires k < |acc.ledger|
    requires |RestoreFileRecord(env, acc, i, t, k, dir, docName, name).restored| > |acc.restored|
    ensures var a := RestoreFileRecord(env, acc, i, t, k, dir, docName, name);
      && t in acc.st.trash && t !in a.st.trash
      && dir + [name] !in acc.st.tree
      && dir + [name] in a.st.tree
      && a.st.tree[dir + [name]] == acc.st.trash[t]
      && (docName !in env.unwritable ==>
            name in DocOf(a.st, docName) && DocOf(a.st, docName)[name] == RestoredEntry(env, acc.ledger[k]))
      && a.ledger == RemoveAt(acc.ledger, k)
  {
  }

  /** The loop of `restoreFiles`, with the record search as an inner loop. */
  method RestoreLoop(env: Env, init: RestoreAcc, names: seq<string>) returns (acc: RestoreAcc)
    ensures acc == RestorePrefix(env, init, names, |names|)
  {
    acc := init;
    var i := 0;
    while i < |names|
      invariant i <= |names|
      invariant acc == RestorePrefix(env, init, names, i)
    {
      var plan := Plan(env, acc.ledger, names[i]);
      acc := RunPlan(env, acc, i, names[i], plan);
      i := i + 1;
    }
  }

  /** The checks at the head of each restore round, with the ledger search. */
  method Plan(env: Env, ledger: seq<TrashRecord>, t: string) returns (p: RestorePlan)
    ensures p == PlanRestore(env, ledger, t)
  {
    if !FileNameOk(t) {
      return Decline(Problem(InvalidName, t));
    }
    var found := FindRecord(ledger, t);
    if found.None? {
      return Decline(Problem(NoRecord, t));
    }
    var k := found.value;
    var rec := ledger[k];
    if rec.originalFolder.None? || rec.originalName.None? {
      return Decline(Problem(IncompleteRecord, t));
    }
    var rel := RelativeFolder(env.uploadsDir, rec.originalFolder.value);
    if rec.kind == Some("folder") {
      p := FolderBack(k, RestoreDir(rel) + [rec.originalName.value], rec.originalName.value);
    } else {
      p := FileBack(k, RestoreDir(rel), DocName(rel), rec.originalName.value);
    }
  }

  /** The search loop of restoreFiles (and the lookup of deleteTrashFiles). */
  method FindRecord(ledger: seq<TrashRecord>, t: string) returns (k: Option<nat>)
    ensures k == FirstRecord(ledger, t)
  {
    var j := 0;
    while j < |ledger|
      invariant j <= |ledger|
      invariant forall m :: 0 <= m < j ==> ledger[m].trashName != Some(t)
    {
      if ledger[j].trashName == Some(t) {
        FirstRecordIs(ledger, t, j);
        return Some(j);
      }
      j := j + 1;
    }
    FirstRecordIs(ledger, t, j);
    return None;
  }

  /** The first record is the one before which no record matches. */
  lemma {:induction false} FirstRecordIs(ledger: seq<TrashRecord>, t: string, j: nat)
    requires j <= |ledger|
    requires forall m :: 0 <= m < j ==> ledger[m].trashName != Some(t)
    requires j < |ledger| ==> ledger[j].trashName == Some(t)
    ensures FirstRecord(ledger, t) == if j < |ledger| then Some(j) else None
  {
    if ledger != [] && j > 0 {
      FirstRecordIs(ledger[1..], t, j - 1);
    }
  }

  /** What `restoreFiles` leaves behind: the loop, then the ledger write,
      whose failure is ignored. */
  function RestoreOutcome(s: State, env: Env, trashFiles: seq<string>): (State, seq<string>, seq<Problem>) {
    var a := RestorePrefix(env, RestoreAcc(s, s.ledger, [], []), TrimNames(trashFiles), |trashFiles|);
    (if TrashDoc in env.unwritable then a.st else a.st.(ledger := a.ledger), a.restored, a.problems)
  }

  /** `restoreFiles`: put each named trash item back where it came from. */
  method RestoreFiles(s: State, env: Env, trashFiles: seq<string>)
    returns (s': State, restored: seq<string>, problems: seq<Problem>)
    ensures (s', restored, problems) == RestoreOutcome(s, env, trashFiles)
  {
    var a := RestoreLoop(env, RestoreAcc(s, s.ledger, [], []), TrimNames(trashFiles));
    s' := a.st;
    if TrashDoc !in env.unwritable {
      s' := s'.(ledger := a.ledger);
    }
    restored, problems := a.restored, a.problems;
  }

  /** Restoring never removes or overwrites a path, only takes entries out
      of the trash, and removes one ledger record per restored item. */
  lemma RestoreFilesConserves(s: State, env: Env, trashFiles: seq<string>)
    ensures var (s', restored, problems) := RestoreOutcome(s, env, trashFiles);
      && Keeps(s.tree, s'.tree)
      && s'.trash.Keys <= s.trash.Keys
      && |restored| + |problems| == |trashFiles|
      && (TrashDoc !in env.unwritable ==> |s'.ledger| + |restored| == |s.ledger|)
      && s'.shares == s.shares && s'.globalTags == s.globalTags
  {
    RestorePrefixConserves(env, RestoreAcc(s, s.ledger, [], []), TrimNames(trashFiles), |trashFiles|);
  }

  // ----------------------------------------- where a deleted file returns

  /** An uploads directory the resolver returns without a trailing
      separator, or with a single '/'. */
  predicate UploadsNormal(u: string) {
    u == RTrim(u, SlashSet) || u == RTrim(u, SlashSet) + "/"
  }

  lemma SlashFree(t: string)
    requires t != [] ==> t[0] !in SlashSpaceSet && t[|t| - 1] !in SlashSpaceSet
    ensures t != [] ==> t[0] !in SlashSet && t[|t| - 1] !in SlashSet
  {
  }

  /** The relative folder restoreFiles reads back from the originalFolder
      that deleteFiles recorded: the folder trimmed of '/', '\' and ' ', or
      'root' when that is blank or the folder was the exact 'root'. */
  lemma RelativeFolderOfDeletion(env: Env, folder: string)
    requires UploadsNormal(env.uploadsDir)
    ensures var t := TrimSet(folder, SlashSpaceSet);
      RelativeFolder(env.uploadsDir, UploadDirString(env, folder)) ==
        if folder == "root" || t == "" then "root" else t
  {
    var tail := DeletionTail(env, folder);
    RelativeFolderOfTail(env.uploadsDir, tail);
  }

  /** A folder string that starts with the uploads directory is read back
      as the rest trimmed of slashes, or 'root' when nothing is left. */
  lemma RelativeFolderOfTail(u: string, tail: string)
    ensures var r := TrimSet(tail, SlashSet);
      RelativeFolder(u, u + tail) == if r == "" then "root" else r
  {
    assert (u + tail)[..|u|] == u;
    assert (u + tail)[|u|..] == tail;
  }

  /** What deleteFiles records after the uploads directory: only slashes
      for the root folder, otherwise the trimmed folder between slashes. */
  lemma DeletionTail(env: Env, folder: string) returns (tail: string)
    requires UploadsNormal(env.uploadsDir)
    ensures UploadDirString(env, folder) == env.uploadsDir + tail
    ensures TrimSet(tail, SlashSet) == if folder == "root" then "" else TrimSet(folder, SlashSpaceSet)
  {
    if folder == "root" {
      tail := RootTail(env.uploadsDir);
    } else {
      TrimSetShape(folder, SlashSpaceSet);
      tail := FolderTail(env.uploadsDir, TrimSet(folder, SlashSpaceSet));
    }
  }

  lemma TrimOfSlashes()
    ensures TrimSet("/", SlashSet) == "" && TrimSet("", SlashSet) == ""
  {
    assert LeadCount("/", SlashSet) == 1;
    assert LTrim("/", SlashSet) == "";
    assert LeadCount("", SlashSet) == 0;
  }

  lemma RootTail(u: string) returns (tail: string)
    requires UploadsNormal(u)
    ensures RTrim(u, SlashSet) + "/" == u + tail && TrimSet(tail, SlashSet) == ""
  {
    TrimOfSlashes();
    if u == RTrim(u, SlashSet) {
      tail := "/";
    } else {
      tail := "";
    }
  }

  lemma FolderTail(u: string, t: string) returns (tail: string)
    requires UploadsNormal(u)
    requires t != [] ==> t[0] !in SlashSpaceSet && t[|t| - 1] !in SlashSpaceSet
    ensures RTrim(u, SlashSet) + "/" + t + "/" == u + tail && TrimSet(tail, SlashSet) == t
  {
    SlashFree(t);
    var b := RTrim(u, SlashSet);
    if u == b {
      tail := "/" + t + "/";
      TrimSetWrapped("/", t, "/", SlashSet);
    } else {
      tail := t + "/";
      TrimSetWrapped("", t, "/", SlashSet);
      assert "" + t + "/" == tail;
    }
  }

  lemma SegmentsOfEmpty()
    ensures Segments("") == []
  {
    assert !HasAny("", {'/'});
  }

  /** A file deleted from a folder is restored into the same directory,
      unless the trimmed folder spells 'root' in another letter case. */
  lemma RestoreDirOfDeletion(env: Env, folder: string)
    requires UploadsNormal(env.uploadsDir)
    requires folder == "root" || !IsRootAnyCase(TrimSet(folder, SlashSpaceSet))
    ensures RestoreDir(RelativeFolder(env.uploadsDir, UploadDirString(env, folder))) == FolderDir(folder)
  {
    RelativeFolderOfDeletion(env, folder);
    RootAnyCaseExamples();
    SegmentsOfEmpty();
  }

  /** A file deleted from folder "Root" (the directory uploads/Root) comes
      back into the uploads directory itself. */
  lemma RootSpellingRestoresElsewhere(env: Env)
    requires UploadsNormal(env.uploadsDir)
    ensures FolderDir("Root") == ["Root"]
    ensures RestoreDir(RelativeFolder(env.uploadsDir, UploadDirString(env, "Root"))) == []
  {
    RootFolderDir();
    TrimRootSpelling();
    RelativeFolderOfDeletion(env, "Root");
    assert RelativeFolder(env.uploadsDir, UploadDirString(env, "Root")) == "Root";
    RootAnyCaseExamples();
  }

  /** A round whose name finds a complete file record is the file restore
      into the record's folder. */
  lemma RestoreStepOfFileRecord(env: Env, acc: RestoreAcc, i: nat, t: string, k: nat)
    requires FileNameOk(t) && FirstRecord(acc.ledger, t) == Some(k)
    requires acc.ledger[k].originalFolder.Some? && acc.ledger[k].originalName.Some?
    requires acc.ledger[k].kind != Some("folder")
    ensures var rel := RelativeFolder(env.uploadsDir, acc.ledger[k].originalFolder.value);
      RestoreStep(env, acc, i, t) ==
        RestoreFileRecord(env, acc, i, t, k, RestoreDir(rel), DocName(rel), acc.ledger[k].originalName.value)
  {
  }

  /** Only a name that passes the file-name pattern is ever restored. */
  lemma RestoredNameIsValid(env: Env, acc: RestoreAcc, i: nat, t: string)
    requires |RestoreStep(env, acc, i, t).restored| > |acc.restored|
    ensures FileNameOk(t)
  {
  }

  /** A record deleteFiles wrote is restored as a file into the directory
      it was deleted from. */
  lemma FileRecordRestoresAsFile(env: Env, acc: RestoreAcc, i: nat, t: string, k: nat, folder: string, name: string)
    requires UploadsNormal(env.uploadsDir)
    requires folder == "root" || !IsRootAnyCase(TrimSet(folder, SlashSpaceSet))
    requires FirstRecord(acc.ledger, t) == Some(k) && FileRecordOf(acc.ledger[k], env, folder, name)
    requires FileNameOk(t)
    ensures exists docName :: RestoreStep(env, acc, i, t) == RestoreFileRecord(env, acc, i, t, k, FolderDir(folder), docName, name)
  {
    RestoreStepOfFileRecord(env, acc, i, t, k);
    RestoreDirOfDeletion(env, folder);
    var docName := DocName(RelativeFolder(env.uploadsDir, UploadDirString(env, folder)));
    assert RestoreStep(env, acc, i, t) == RestoreFileRecord(env, acc, i, t, k, FolderDir(folder), docName, name);
  }

  // ===================================================== deleteTrashFiles

  /** One record of trash.json loaded into the array keyed by trashName: a
      record without one is dropped, a later record with a known name
      replaces the earlier one in its position, a new name is appended. */
  function KeyedStep(keyed: seq<TrashRecord>, rec: TrashRecord): seq<TrashRecord> {
    if rec.trashName.None? then keyed
    else match FirstRecord(keyed, rec.trashName.value)
      case Some(j) => keyed[j := rec]
      case None => keyed + [rec]
  }

  function KeyedPrefix(ledger: seq<TrashRecord>, n: nat): seq<TrashRecord>
    requires n <= |ledger|
  {
    if n == 0 then [] else KeyedStep(KeyedPrefix(ledger, n - 1), ledger[n - 1])
  }

  /** Every record has a trashName, and no two share one. */
  predicate UniqueKeys(keyed: seq<TrashRecord>) {
    && (forall j :: 0 <= j < |keyed| ==> keyed[j].trashName.Some?)
    && (forall i, j :: 0 <= i < j < |keyed| ==> keyed[i].trashName != keyed[j].trashName)
  }

  /** The trashNames the keyed array holds. */
  function Keys(keyed: seq<TrashRecord>): set<Option<string>> {
    set j | 0 <= j < |keyed| :: keyed[j].trashName
  }

  lemma KeyedStepKeeps(keyed: seq<TrashRecord>, rec: TrashRecord)
    requires UniqueKeys(keyed)
    ensures UniqueKeys(KeyedStep(keyed, rec))
    ensures Keys(KeyedStep(keyed, rec)) == Keys(keyed) + (if rec.trashName.Some? then {rec.trashName} else {})
    ensures rec.trashName.Some? ==> FirstRecord(KeyedStep(keyed, rec), rec.trashName.value).Some?
    ensures rec.trashName.Some? ==>
      var r := KeyedStep(keyed, rec);
      r[FirstRecord(r, rec.trashName.value).value] == rec
  {
    var r := KeyedStep(keyed, rec);
    if rec.trashName.Some? {
      var k := rec.trashName.value;
      match FirstRecord(keyed, k)
      case Some(j) =>
        assert r[j] == rec;
        assert Keys(r) == Keys(keyed) by {
          forall x | x in Keys(keyed) ensures x in Keys(r) {
            var m :| 0 <= m < |keyed| && keyed[m].trashName == x;
            assert r[m].trashName == x;
          }
        }
        FirstRecordIs(r, k, j);
      case None =>
        assert r[|keyed|] == rec;
        assert Keys(r) == Keys(keyed) + {rec.trashName} by {
          forall x | x in Keys(keyed) ensures x in Keys(r) {
            var m :| 0 <= m < |keyed| && keyed[m].trashName == x;
            assert r[m].trashName == x;
          }
        }
        FirstRecordIs(r, k, |keyed|);
    }
  }

  /** Loading the ledger keyed by trashName gives unique names, exactly the
      names the ledger holds. */
  lemma {:induction false} KeyedPrefixKeys(ledger: seq<TrashRecord>, n: nat)
    requires n <= |ledger|
    ensures UniqueKeys(KeyedPrefix(ledger, n))
    ensures Keys(KeyedPrefix(ledger, n)) == set j | 0 <= j < n && ledger[j].trashName.Some? :: ledger[j].trashName
  {
    if n > 0 {
      KeyedPrefixKeys(ledger, n - 1);
      KeyedStepKeeps(KeyedPrefix(ledger, n - 1), ledger[n - 1]);
    }
  }

  /** The loading loop of deleteTrashFiles. */
  method LoadKeyed(ledger: seq<TrashRecord>) returns (keyed: seq<TrashRecord>)
    ensures keyed == KeyedPrefix(ledger, |ledger|)
  {
    keyed := [];
    var i := 0;
    while i < |ledger|
      invariant i <= |ledger|
      invariant keyed == KeyedPrefix(ledger, i)
    {
      var item := ledger[i];
      if item.trashName.Some? {
        var found := FindRecord(keyed, item.trashName.value);
        if found.Some? {
          keyed := keyed[found.value := item];
        } else {
          keyed := keyed + [item];
        }
      }
      i := i + 1;
    }
  }

  /** What the purge loop carries. */
  datatype PurgeAcc = PurgeAcc(trash: map<string, Node>, keyed: seq<TrashRecord>, deleted: seq<string>,
                               problems: seq<Problem>)

  /** One round of the purge loop, for the i-th trimmed trash name: a file
      that is missing only loses its record; `unlink` fails on a directory. */
  function PurgeStep(env: Env, acc: PurgeAcc, i: nat, t: string): PurgeAcc {
    if !FileNameOk(t) then acc.(problems := acc.problems + [Problem(InvalidName, t)])
    else match FirstRecord(acc.keyed, t)
      case None => acc.(problems := acc.problems + [Problem(NoRecord, t)])
      case Some(k) =>
        if t in acc.trash || DirectoryAlias(t) then
          if i in env.failing || DirectoryAlias(t) || acc.trash[t].Dir? then
            acc.(problems := acc.problems + [Problem(IoFailed, t)])
          else PurgeAcc(acc.trash - {t}, RemoveAt(acc.keyed, k), acc.deleted + [t], acc.problems)
        else acc.(keyed := RemoveAt(acc.keyed, k), deleted := acc.deleted + [t])
  }

  function PurgePrefix(env: Env, init: PurgeAcc, names: seq<string>, n: nat): PurgeAcc
    requires n <= |names|
  {
    if n == 0 then init else PurgeStep(env, PurgePrefix(env, init, names, n - 1), n - 1, names[n - 1])
  }

  /** No record of `keyed` is named `t`. */
  predicate Unrecorded(keyed: seq<TrashRecord>, t: string) {
    forall j :: 0 <= j < |keyed| ==> keyed[j].trashName != Some(t)
  }

  lemma RemoveAtKeepsUnique(keyed: seq<TrashRecord>, k: nat)
    requires UniqueKeys(keyed) && k < |keyed|
    ensures UniqueKeys(RemoveAt(keyed, k))
    ensures Keys(RemoveAt(keyed, k)) == Keys(keyed) - {keyed[k].trashName}
  {
    var r := RemoveAt(keyed, k);
    forall i, j | 0 <= i < j < |r| ensures r[i].trashName != r[j].trashName {
      var i', j' := if i < k then i else i + 1, if j < k then j else j + 1;
      assert r[i] == keyed[i'] && r[j] == keyed[j'];
    }
    forall x | x in Keys(keyed) - {keyed[k].trashName} ensures x in Keys(r) {
      var m :| 0 <= m < |keyed| && keyed[m].trashName == x;
      if m < k { assert r[m] == keyed[m]; } else { assert r[m - 1] == keyed[m]; }
    }
    forall x | x in Keys(r) ensures x in Keys(keyed) - {keyed[k].trashName} {
      var m :| 0 <= m < |r| && r[m].trashName == x;
      if m < k { assert r[m] == keyed[m]; } else { assert r[m] == keyed[m + 1]; }
    }
  }

  /** The purge invariant: unique trash names, and every name reported as
      deleted has neither a record nor a trash file. */
  predicate Cleared(a: PurgeAcc) {
    && UniqueKeys(a.keyed)
    && forall x :: x in a.deleted ==> Unrecorded(a.keyed, x) && x !in a.trash
  }

  /** `a`, reached from `acc` in `k` rounds, keeps the invariant, has only
      names `acc` had, and has consumed one record per deletion and one
      round per deletion or problem. */
  predicate PurgeKept(acc: PurgeAcc, a: PurgeAcc, k: nat) {
    && Cleared(a)
    && Keys(a.keyed) <= Keys(acc.keyed)
    && a.trash.Keys <= acc.trash.Keys
    && |a.keyed| + |a.deleted| == |acc.keyed| + |acc.deleted|
    && |a.deleted| + |a.problems| == |acc.deleted| + |acc.problems| + k
  }

  lemma PurgeKeptChain(x: PurgeAcc, y: PurgeAcc, z: PurgeAcc, m: nat, k: nat)
    requires PurgeKept(x, y, m) && PurgeKept(y, z, k)
    ensures PurgeKept(x, z, m + k)
  {
  }

  /** A purge round keeps the keys unique, removes one record exactly when
      it reports a deleted name, and a deleted name is left with neither a
      record nor a trash file. */
  lemma PurgeStepClears(env: Env, acc: PurgeAcc, i: nat, t: string)
    requires Cleared(acc)
    ensures PurgeKept(acc, PurgeStep(env, acc, i, t), 1)
  {
    var a := PurgeStep(env, acc, i, t);
    if FileNameOk(t) && FirstRecord(acc.keyed, t).Some? {
      var k := FirstRecord(acc.keyed, t).value;
      RemoveAtKeepsUnique(acc.keyed, k);
      if |a.deleted| > |acc.deleted| {
        forall x | x in a.deleted ensures Unrecorded(a.keyed, x) && x !in a.trash {
          forall j | 0 <= j < |a.keyed| ensures a.keyed[j].trashName != Some(x) {
            assert a.keyed[j].trashName in Keys(a.keyed);
            if x != t {
              assert x in acc.deleted;
              if j < k { assert a.keyed[j] == acc.keyed[j]; } else { assert a.keyed[j] == acc.keyed[j + 1]; }
            }
          }
        }
      }
    }
  }

  lemma PurgePrefixUnfold(env: Env, init: PurgeAcc, names: seq<string>, n: nat)
    requires 0 < n <= |names|
    ensures PurgePrefix(env, init, names, n) == PurgeStep(env, PurgePrefix(env, init, names, n - 1), n - 1, names[n - 1])
  {
  }

  /** Over the whole loop: the invariant holds after every round, and each
      requested name is either deleted (one record fewer) or a problem. */
  lemma {:induction false} PurgePrefixClears(env: Env, init: PurgeAcc, names: seq<string>, n: nat)
    requires n <= |names|
    requires Cleared(init)
    ensures PurgeKept(init, PurgePrefix(env, init, names, n), n)
  {
    if n == 0 {
      assert PurgePrefix(env, init, names, 0) == init;
    } else {
      var prev := PurgePrefix(env, init, names, n - 1);
      PurgePrefixClears(env, init, names, n - 1);
      PurgeStepClears(env, prev, n - 1, names[n - 1]);
      PurgePrefixUnfold(env, init, names, n);
      PurgeKeptChain(init, prev, PurgePrefix(env, init, names, n), n - 1, 1);
    }
  }

  /** The purge loop of deleteTrashFiles. */
  method PurgeLoop(env: Env, init: PurgeAcc, names: seq<string>) returns (acc: PurgeAcc)
    ensures acc == PurgePrefix(env, init, names, |names|)
  {
    acc := init;
    var i := 0;
    while i < |names|
      invariant i <= |names|
      invariant acc == PurgePrefix(env, init, names, i)
    {
      var t := names[i];
      if !FileNameOk(t) {
        acc := acc.(problems := acc.problems + [Problem(InvalidName, t)]);
      } else {
        var found := FindRecord(acc.keyed, t);
        if found.None? {
          acc := acc.(problems := acc.problems + [Problem(NoRecord, t)]);
        } else if t in acc.trash || DirectoryAlias(t) {
          if i in env.failing || DirectoryAlias(t) || acc.trash[t].Dir? {
            acc := acc.(problems := acc.problems + [Problem(IoFailed, t)]);
          } else {
            acc := PurgeAcc(acc.trash - {t}, RemoveAt(acc.keyed, found.value), acc.deleted + [t], acc.problems);
          }
        } else {
          acc := acc.(keyed := RemoveAt(acc.keyed, found.value), deleted := acc.deleted + [t]);
        }
      }
      i := i + 1;
    }
  }

  /** What `deleteTrashFiles` leaves behind: the ledger is rewritten in its
      keyed form (failure ignored) even when nothing is deleted. */
  function PurgeOutcome(s: State, env: Env, filesToDelete: seq<string>): (State, seq<string>, seq<Problem>) {
    var a := PurgePrefix(env, PurgeAcc(s.trash, KeyedPrefix(s.ledger, |s.ledger|), [], []),
                         TrimNames(filesToDelete), |filesToDelete|);
    (s.(trash := a.trash, ledger := if TrashDoc in env.unwritable then s.ledger else a.keyed), a.deleted, a.problems)
  }

  /** `deleteTrashFiles`: remove the named trash files and their records. */
  method DeleteTrashFiles(s: State, env: Env, filesToDelete: seq<string>)
    returns (s': State, deleted: seq<string>, problems: seq<Problem>)
    ensures (s', deleted, problems) == PurgeOutcome(s, env, filesToDelete)
  {
    var keyed := LoadKeyed(s.ledger);
    var a := PurgeLoop(env, PurgeAcc(s.trash, keyed, [], []), TrimNames(filesToDelete));
    s' := s.(trash := a.trash);
    if TrashDoc !in env.unwritable {
      s' := s'.(ledger := a.keyed);
    }
    deleted, problems := a.deleted, a.problems;
  }

  /** After deleteTrashFiles the written ledger has unique trash names, all
      of them names the old ledger had; every deleted name has neither a
      record nor a trash file; and only the trash and the ledger change. */
  lemma DeleteTrashFilesClears(s: State, env: Env, filesToDelete: seq<string>)
    requires TrashDoc !in env.unwritable
    ensures var (s', deleted, problems) := PurgeOutcome(s, env, filesToDelete);
      && UniqueKeys(s'.ledger)
      && (forall j :: 0 <= j < |s'.ledger| ==> exists m :: 0 <= m < |s.ledger| && s.ledger[m].trashName == s'.ledger[j].trashName)
      && s'.trash.Keys <= s.trash.Keys
      && |deleted| + |problems| == |filesToDelete|
      && (forall x :: x in deleted ==> Unrecorded(s'.ledger, x) && x !in s'.trash)
      && s'.tree == s.tree && s'.docs == s.docs && s'.shares == s.shares && s'.globalTags == s.globalTags
  {
    var keyed := KeyedPrefix(s.ledger, |s.ledger|);
    KeyedPrefixKeys(s.ledger, |s.ledger|);
    var init := PurgeAcc(s.trash, keyed, [], []);
    PurgePrefixClears(env, init, TrimNames(filesToDelete), |filesToDelete|);
    var a := PurgePrefix(env, init, TrimNames(filesToDelete), |filesToDelete|);
    forall j | 0 <= j < |a.keyed|
      ensures exists m :: 0 <= m < |s.ledger| && s.ledger[m].trashName == a.keyed[j].trashName
    {
      assert a.keyed[j].trashName in Keys(a.keyed);
    }
  }
}
