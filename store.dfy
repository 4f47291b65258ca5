// The state FileModel works on, as one value: the uploads tree, the trash
// directory, the per-folder metadata documents, the trash ledger
// (trash.json), the share links (share_links.json) and the global tag list
// (createdTags.json). Everything the operations learn from the outside world
// (the clock, the session, which OS calls fail, where symlinks lead) is an
// `Env` handed in by the caller.

module Store {
  import opened PhpStrings

  datatype Option<T> = None | Some(value: T)

  /** A path below the uploads directory, as its segments. */
  type Path = seq<string>

  /** What sits at a path: a regular file of some size, or a directory. */
  datatype Node = File(size: nat) | Dir

  /** A tag: `['name' => ..., 'color' => ...]`. */
  datatype Tag = Tag(name: string, color: string)

  /** One entry of a folder metadata document; a key that is absent in the
      JSON is `None`. */
  datatype Meta = Meta(uploaded: Option<string>, modified: Option<string>,
                       uploader: Option<string>, tags: Option<seq<Tag>>)

  /** A folder metadata document, keyed by file name. */
  type Doc = map<string, Meta>

  /** One record of trash.json. Every field may be missing from the JSON. */
  datatype TrashRecord = TrashRecord(
    kind: Option<string>, originalFolder: Option<string>, originalName: Option<string>,
    trashName: Option<string>, trashedAt: Option<int>, uploaded: Option<string>,
    uploader: Option<string>, deletedBy: Option<string>)

  /** The password field of a share link: "" or a password hash. The hash
      function itself is outside the model; `Hashed` stands for its output. */
  datatype Password = NoPassword | Hashed(secret: string)

  datatype Share = Share(folder: string, file: string, expires: int, password: Password)

  /** The stored state. A document name absent from `docs` is a metadata file
      that does not exist. */
  datatype State = State(
    tree: map<Path, Node>,
    trash: map<string, Node>,
    docs: map<string, Doc>,
    ledger: seq<TrashRecord>,
    shares: map<string, Share>,
    globalTags: seq<Tag>)

  /** The outside world as the operations see it.
      `uploadsDir`: what the path resolver returns for 'uploads';
      `now`/`date`: `time()` and `date(DATE_TIME_FORMAT)`;
      `sessionUser`: `$_SESSION['username']`;
      `failing`: positions in a batch (0 for a single operation) at which the
        copy, rename, unlink or file write fails;
      `unwritable`: document names whose `file_put_contents` fails;
      `mkdirFails`: directories `mkdir` cannot create;
      `escaping`: paths whose `realpath` lies outside the uploads directory;
      `archives`: the entry names of each path that opens as a ZIP archive;
      `zipCreateOk`: whether a new archive can be created;
      `token`: the random share token. */
  datatype Env = Env(
    uploadsDir: string, now: int, date: string, sessionUser: Option<string>,
    failing: set<nat>, unwritable: set<string>, mkdirFails: set<Path>,
    escaping: set<Path>, archives: map<Path, seq<string>>, zipCreateOk: bool,
    token: string)

  /** Why an item or an operation failed, and the name it concerns. */
  datatype Kind =
    | InvalidName | InvalidFolder | InvalidPath | Missing | Collision
    | IoFailed | StreamOpenFailed | FolderCreateFailed | FolderNotFound
    | MetadataWriteFailed | NoRecord | IncompleteRecord | NotAnArchive
    | NothingToZip | ZipCreateFailed | AccessForbidden

  datatype Problem = Problem(kind: Kind, subject: string)

  datatype Result<T> = Ok(value: T) | Err(problem: Problem)

  const TrashDoc: string := "trash.json"
  const SharesDoc: string := "share_links.json"
  const TagsDoc: string := "createdTags.json"
  const RootDoc: string := "root_metadata.json"
  const MetaSuffix: string := "_metadata.json"

  // ------------------------------------------------------------ paths

  predicate Exists(tree: map<Path, Node>, p: Path) {
    p == [] || p in tree
  }

  predicate IsDir(tree: map<Path, Node>, p: Path) {
    p == [] || (p in tree && tree[p].Dir?)
  }

  predicate IsFile(tree: map<Path, Node>, p: Path) {
    p in tree && tree[p].File?
  }

  /** Names that, appended to a directory path, denote a directory: the
      directory itself ("" and ".") or its parent (".."). */
  predicate DirectoryAlias(name: string) {
    name == "" || name == "." || name == ".."
  }

  /** PHP's `file_exists` on a directory path followed by a name: the path is
      in the tree, or the name is an alias and the directory exists. */
  predicate FileExists(tree: map<Path, Node>, dir: Path, name: string) {
    dir + [name] in tree || (DirectoryAlias(name) && IsDir(tree, dir))
  }

  /** The directory of `$base . DIRECTORY_SEPARATOR . trim($folder, "/\\ ")`
      that copy, move, delete and rename build when the folder is not the
      exact string 'root'. */
  function FolderDir(folder: string): (p: Path)
    ensures folder == "root" ==> p == []
  {
    if folder == "root" then [] else Segments(TrimSet(folder, SlashSpaceSet))
  }

  /** The physical folder string deleteFiles records as `originalFolder`. */
  function UploadDirString(env: Env, folder: string): string {
    var base := RTrim(env.uploadsDir, SlashSet);
    if folder == "root" then base + "/" else base + "/" + TrimSet(folder, SlashSpaceSet) + "/"
  }

  /** `mkdir($dir, mode, true)` succeeds unless it is made to fail or some
      ancestor is a regular file. */
  predicate MkdirOk(tree: map<Path, Node>, env: Env, p: Path) {
    p !in env.mkdirFails && forall i :: 1 <= i <= |p| ==> !IsFile(tree, p[..i])
  }

  /** The tree after a recursive `mkdir`: every missing ancestor of `p`, and
      `p` itself, becomes a directory. */
  function Mkdir(tree: map<Path, Node>, p: Path): (r: map<Path, Node>)
    ensures IsDir(r, p) || IsFile(tree, p)
    ensures forall q :: q in tree ==> q in r && r[q] == tree[q]
    ensures forall q :: q in r && q !in tree ==> r[q] == Dir && |q| <= |p| && q == p[..|q|]
  {
    var added := set i | 1 <= i <= |p| :: p[..i];
    assert p[..|p|] == p;
    assert p != [] ==> p in added;
    map q | q in tree.Keys + added :: if q in tree then tree[q] else Dir
  }

  // -------------------------------------------------------- documents

  /** `getMetadataFilePath`: 'root' in any letter case, or a blank folder,
      uses root_metadata.json; any other folder is trimmed, has '/', '\' and
      ' ' replaced by '-', and gets "_metadata.json" appended. */
  function DocName(folder: string): (name: string)
    ensures EndsWith(name, MetaSuffix)
    ensures forall i :: 0 <= i < |name| ==> name[i] !in SlashSpaceSet
  {
    if IsRootAnyCase(folder) || Trim(folder) == "" then RootDoc
    else FlatDocName(Trim(folder))
  }

  /** The document name renameFile, saveFile and createFile build by hand:
      `str_replace(['/', '\\', ' '], '-', $key) . '_metadata.json'`. */
  function FlatDocName(key: string): (name: string)
    ensures EndsWith(name, MetaSuffix)
    ensures forall i :: 0 <= i < |name| ==> name[i] !in SlashSpaceSet
  {
    var d := DashSeparators(key);
    assert (d + MetaSuffix)[|d + MetaSuffix| - |MetaSuffix|..] == MetaSuffix;
    SuffixIsFlat();
    d + MetaSuffix
  }

  lemma SuffixIsFlat()
    ensures forall i :: 0 <= i < |MetaSuffix| ==> MetaSuffix[i] !in SlashSpaceSet
  {
  }

  /** A metadata document as read: `[]` when the file does not exist. */
  function DocOf(s: State, name: string): Doc {
    if name in s.docs then s.docs[name] else map[]
  }

  /** `file_put_contents` of a metadata document, and whether it succeeded. */
  function WriteDoc(s: State, env: Env, name: string, d: Doc): (r: (State, bool))
    ensures r.1 <==> name !in env.unwritable
    ensures r.1 ==> r.0 == s.(docs := s.docs[name := d])
    ensures !r.1 ==> r.0 == s
  {
    if name in env.unwritable then (s, false) else (s.(docs := s.docs[name := d]), true)
  }

  lemma TrimUnchanged(s: string)
    requires |s| >= 1 && s[0] !in DefaultTrimSet && s[|s| - 1] !in DefaultTrimSet
    ensures Trim(s) == s
  {
    assert LeadCount(s, DefaultTrimSet) == 0;
    assert LTrim(s, DefaultTrimSet) == s;
    assert TailCount(s, DefaultTrimSet) == 0;
  }

  /** getMetadataFilePath on every folder string: 'root' in any letter case
      or a blank folder gives root_metadata.json, any other folder its
      trimmed text with separators dashed and the suffix appended. */
  lemma {:induction false} DocNameCases(folder: string)
    ensures IsRootAnyCase(folder) || Trim(folder) == "" ==> DocName(folder) == RootDoc
    ensures !IsRootAnyCase(folder) && Trim(folder) != "" ==>
      && DocName(folder) == DashSeparators(Trim(folder)) + MetaSuffix
      && |DocName(folder)| == |Trim(folder)| + |MetaSuffix|
      && forall i :: 0 <= i < |Trim(folder)| ==>
           DocName(folder)[i] == (if Trim(folder)[i] in SlashSpaceSet then '-' else Trim(folder)[i])
  {
    if !IsRootAnyCase(folder) && Trim(folder) != "" {
      var t := Trim(folder);
      var d := DashSeparators(t);
      assert DocName(folder) == d + MetaSuffix;
      forall i | 0 <= i < |t|
        ensures DocName(folder)[i] == (if t[i] in SlashSpaceSet then '-' else t[i])
      {
        assert (d + MetaSuffix)[i] == d[i];
      }
    }
  }

  /** A folder string that `trim` leaves alone is dashed as it stands. */
  lemma DashedDocName(folder: string)
    requires PlainFolder(folder)
    ensures DocName(folder) == DashSeparators(folder) + MetaSuffix
  {
    TrimUnchanged(folder);
    assert DocName(folder) == FlatDocName(folder);
  }

  /** A folder string that `trim` leaves alone and that is not "root" in
      any letter case: the case DashedDocName covers. */
  predicate PlainFolder(folder: string) {
    |folder| >= 1 && folder[0] !in DefaultTrimSet && folder[|folder| - 1] !in DefaultTrimSet &&
    !IsRootAnyCase(folder)
  }

  /** Two folder strings that differ only in which of '/', '\', ' ' and '-'
      sit at each position. */
  predicate SameUpToSeparators(f: string, g: string) {
    |f| == |g| &&
    forall i :: 0 <= i < |f| ==> f[i] == g[i] || (f[i] in SlashSpaceSet + {'-'} && g[i] in SlashSpaceSet + {'-'})
  }

  /** Distinct folders can share a metadata document: separators and spaces
      are all flattened to '-', so "a/b", "a b", "a\b" and "a-b" write to
      the same "a-b_metadata.json". */
  lemma SeparatorsShareDocument(f: string, g: string)
    requires PlainFolder(f) && PlainFolder(g) && SameUpToSeparators(f, g)
    ensures DocName(f) == DocName(g)
  {
    DashedDocName(f);
    DashedDocName(g);
    DashSeparatorsAgree(f, g);
  }

  lemma DashSeparatorsAgree(f: string, g: string)
    requires SameUpToSeparators(f, g)
    ensures DashSeparators(f) == DashSeparators(g)
  {
    var df, dg := DashSeparators(f), DashSeparators(g);
    assert forall i :: 0 <= i < |df| ==> df[i] == dg[i];
  }

  lemma BlankIsEmptyAfterTrim()
    ensures Trim("  ") == ""
  {
    assert LeadCount("  ", DefaultTrimSet) == 2 by {
      assert "  "[1..] == " " && " "[1..] == "";
    }
  }

  lemma TrimRootSpelling()
    ensures TrimSet("Root", SlashSpaceSet) == "Root"
  {
    assert LeadCount("Root", SlashSpaceSet) == 0;
    assert LTrim("Root", SlashSpaceSet) == "Root";
    assert TailCount("Root", SlashSpaceSet) == 0;
  }

  lemma RootFolderDir()
    ensures FolderDir("Root") == ["Root"]
  {
    TrimRootSpelling();
    assert Explode("Root", '/') == ["Root"] by {
      assert !HasAny("Root", {'/'});
    }
  }

  /** "Root" shares the root document although its directory is uploads/Root;
      a blank folder uses the root document too. */
  lemma RootSpellingsShareDocument()
    ensures DocName("Root") == DocName("root") == DocName("  ") == RootDoc
    ensures FolderDir("Root") == ["Root"] && FolderDir("root") == []
  {
    RootAnyCaseExamples();
    BlankIsEmptyAfterTrim();
    RootFolderDir();
  }

  lemma SharedNamesLackSuffix()
    ensures !EndsWith(SharesDoc, MetaSuffix) && !EndsWith(TagsDoc, MetaSuffix) && !EndsWith(TrashDoc, MetaSuffix)
  {
    assert SharesDoc[2..][0] != MetaSuffix[0];
    assert TagsDoc[2..][0] != MetaSuffix[0];
  }

  /** A folder document name never clashes with the shared documents. */
  lemma DocNameIsNotShared(folder: string)
    ensures DocName(folder) != SharesDoc && DocName(folder) != TagsDoc && DocName(folder) != TrashDoc
  {
    SharedNamesLackSuffix();
  }
}
