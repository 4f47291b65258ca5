// getFileList: the regular, visible, validly named files directly inside a
// folder, each with its metadata (or defaults) and its size unit, plus the
// global tag list.

module Listing {
  import opened PhpStrings
  import opened Validators
  import opened Store
  import opened FileOps
  import Bootstrap

  /** The unit getFileList shows a size in. */
  datatype SizeUnit = Gigabytes | Megabytes | Kilobytes | Bytes

  /** The first of 1073741824, 1048576 and 1024 that the size reaches
      picks the unit; smaller sizes are shown in bytes. */
  function UnitOf(bytes: nat): SizeUnit {
    if bytes >= 1073741824 then Gigabytes
    else if bytes >= 1048576 then Megabytes
    else if bytes >= 1024 then Kilobytes
    else Bytes
  }

  /** What a size is divided by before it is shown in a unit. */
  function Divisor(u: SizeUnit): (d: nat)
    ensures d >= 1
  {
    match u
    case Gigabytes => Bootstrap.GiB
    case Megabytes => Bootstrap.MiB
    case Kilobytes => Bootstrap.KiB
    case Bytes => 1
  }

  function Rank(u: SizeUnit): nat {
    match u
    case Bytes => 0
    case Kilobytes => 1
    case Megabytes => 2
    case Gigabytes => 3
  }

  /** The figure shown has a whole part of at least 1, and below 1024 in
      every unit but gigabytes: the unit is the largest one that fits. */
  lemma UnitFits(bytes: nat)
    ensures var u := UnitOf(bytes);
      && (u != Bytes ==> bytes / Divisor(u) >= 1)
      && (u != Gigabytes ==> bytes / Divisor(u) < 1024)
  {
  }

  /** A larger file is never shown in a smaller unit. */
  lemma UnitMonotone(a: nat, b: nat)
    requires a <= b
    ensures Rank(UnitOf(a)) <= Rank(UnitOf(b))
  {
  }

  /** One listed file. */
  datatype Entry = Entry(name: string, uploaded: string, uploader: string, size: nat, unit: SizeUnit,
                         tags: seq<Tag>)

  /** The result: the files and the global tags. */
  datatype FileList = FileList(files: seq<Entry>, globalTags: seq<Tag>)

  /** A directory entry getFileList keeps: not hidden, a regular file, and
      accepted by the file-name pattern. */
  predicate Listed(tree: map<Path, Node>, dir: Path, name: string) {
    |name| > 0 && name[0] != '.' && IsFile(tree, dir + [name]) && FileNameOk(name)
  }

  /** The names directly inside `dir`. */
  function Children(tree: map<Path, Node>, dir: Path): (r: set<string>)
    ensures forall n :: n in r <==> dir + [n] in tree
  {
    var r := set p | p in tree.Keys && |p| == |dir| + 1 && p[..|dir|] == dir :: p[|dir|];
    assert forall n :: dir + [n] in tree ==> (dir + [n])[..|dir|] == dir && (dir + [n])[|dir|] == n;
    assert forall p :: p in tree.Keys && |p| == |dir| + 1 && p[..|dir|] == dir ==> p == dir + [p[|dir|]];
    r
  }

  /** The entry of a listed file: uploaded date and uploader from the
      metadata document or "Unknown", tags or none. */
  function EntryOf(meta: Doc, name: string, size: nat): (e: Entry)
    ensures e.name == name && e.size == size && e.unit == UnitOf(size)
    ensures e.uploaded == (if name in meta && meta[name].uploaded.Some? then meta[name].uploaded.value else "Unknown")
    ensures e.uploader == (if name in meta && meta[name].uploader.Some? then meta[name].uploader.value else "Unknown")
    ensures e.tags == (if name in meta && meta[name].tags.Some? then meta[name].tags.value else [])
  {
    var m := if name in meta then meta[name] else Meta(None, None, None, None);
    Entry(name,
          if m.uploaded.Some? then m.uploaded.value else "Unknown",
          if m.uploader.Some? then m.uploader.value else "Unknown",
          size, UnitOf(size),
          if m.tags.Some? then m.tags.value else [])
  }

  /** `e` is the entry of a listed name of `dir`. */
  predicate Good(tree: map<Path, Node>, dir: Path, meta: Doc, e: Entry) {
    Listed(tree, dir, e.name) && e == EntryOf(meta, e.name, tree[dir + [e.name]].size)
  }

  /** Some entry of `files` carries `name`. */
  ghost predicate Named(files: seq<Entry>, name: string) {
    exists i :: 0 <= i < |files| && files[i].name == name
  }

  /** No name occurs twice in `files`. */
  predicate DistinctNames(files: seq<Entry>) {
    forall i, j :: 0 <= i < j < |files| ==> files[i].name != files[j].name
  }

  /** The entries of `files` are exactly the listed names of `dir`, once
      each, each built from the metadata document. */
  ghost predicate ListsDir(tree: map<Path, Node>, dir: Path, meta: Doc, files: seq<Entry>) {
    && (forall i :: 0 <= i < |files| ==> Good(tree, dir, meta, files[i]))
    && (forall n :: Listed(tree, dir, n) ==> Named(files, n))
    && DistinctNames(files)
  }

  /** Appending an entry with a new name keeps the names distinct and
      every name present. */
  lemma AppendEntry(files: seq<Entry>, e: Entry)
    requires DistinctNames(files)
    requires forall i :: 0 <= i < |files| ==> files[i].name != e.name
    ensures DistinctNames(files + [e])
    ensures Named(files + [e], e.name)
    ensures forall n :: Named(files, n) ==> Named(files + [e], n)
    ensures forall i :: 0 <= i < |files| ==> (files + [e])[i] == files[i]
  {
    assert (files + [e])[|files|] == e;
    forall n | Named(files, n)
      ensures Named(files + [e], n)
    {
      var i :| 0 <= i < |files| && files[i].name == n;
      assert (files + [e])[i] == files[i];
    }
  }

  /** The scan of the directory. */
  method ListEntries(tree: map<Path, Node>, dir: Path, meta: Doc) returns (files: seq<Entry>)
    ensures ListsDir(tree, dir, meta, files)
  {
    var all := Children(tree, dir);
    var todo := all;
    files := [];
    while todo != {}
      invariant todo <= all
      invariant forall i :: 0 <= i < |files| ==> files[i].name in all - todo && Good(tree, dir, meta, files[i])
      invariant forall n :: n in all - todo && Listed(tree, dir, n) ==> Named(files, n)
      invariant DistinctNames(files)
      decreases |todo|
    {
      var name :| name in todo;
      if |name| > 0 && name[0] != '.' && tree[dir + [name]].File? && FileNameOk(name) {
        var e := EntryOf(meta, name, tree[dir + [name]].size);
        AppendEntry(files, e);
        files := files + [e];
      }
      todo := todo - {name};
    }
  }

  /** The directory of a defaulted folder: the uploads directory for 'root'
      in any letter case, otherwise the folder below it. */
  function ListDir(f: string): Path {
    if IsRootAnyCase(f) then [] else Segments(f)
  }

  /** `getFileList`. */
  method GetFileList(s: State, folder: string) returns (r: Result<FileList>)
    ensures var f := DefaultedFolder(folder);
      r.Err? <==> (!IsRootAnyCase(f) && !FolderNameOk(f)) || !IsDir(s.tree, ListDir(f))
    ensures var f := DefaultedFolder(folder);
      r.Err? ==> r.problem.kind == (if !IsRootAnyCase(f) && !FolderNameOk(f) then InvalidFolder else FolderNotFound)
    ensures var f := DefaultedFolder(folder);
      r.Ok? ==> ListsDir(s.tree, ListDir(f), DocOf(s, DocName(f)), r.value.files) && r.value.globalTags == s.globalTags
  {
    var f := DefaultedFolder(folder);
    var dir := ListDir(f);
    if !IsRootAnyCase(f) && !FolderNameOk(f) {
      return Err(Problem(InvalidFolder, f));
    }
    var meta := DocOf(s, DocName(f));
    if !IsDir(s.tree, dir) {
      return Err(Problem(FolderNotFound, f));
    }
    var files := ListEntries(s.tree, dir, meta);
    r := Ok(FileList(files, s.globalTags));
  }

  /** Hidden names, directories and names the pattern rejects are never
      listed, whatever the metadata says. */
  lemma NeverListed(s: State, dir: Path, meta: Doc, files: seq<Entry>, name: string)
    requires ListsDir(s.tree, dir, meta, files)
    requires (|name| > 0 && name[0] == '.') || IsDir(s.tree, dir + [name]) || !FileNameOk(name)
    ensures forall i :: 0 <= i < |files| ==> files[i].name != name
  {
  }
}
