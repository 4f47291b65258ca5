// Tags: saveFileTag sets the tags of one file's metadata entry and then
// updates the global tag list (createdTags.json), either removing one tag
// name or merging the file's tags in; getFileTags reads that list.

module Tags {
  import opened PhpStrings
  import opened Store
  import opened FileOps

  /** `strtolower($a) === strtolower($b)`: names equal up to ASCII case. */
  predicate SameName(a: string, b: string) {
    ToLower(a) == ToLower(b)
  }

  // ---------------------------------------------------- the file's entry

  /** The document saveFileTag writes: root_metadata.json for 'root' in any
      letter case, otherwise the dashed folder name. */
  function TagDocName(folder: string): string {
    var f := DefaultedFolder(folder);
    if IsRootAnyCase(f) then RootDoc else FlatDocName(Trim(f))
  }

  /** The document with the file's `tags` set: a missing entry starts empty,
      an existing one keeps its other fields. */
  function WithTags(d: Doc, file: string, tags: seq<Tag>): (r: Doc)
    ensures file in r && r[file].tags == Some(tags)
    ensures file in d ==> r[file].(tags := d[file].tags) == d[file]
    ensures file !in d ==> r[file] == Meta(None, None, None, Some(tags))
    ensures forall k :: k != file ==> (k in r <==> k in d) && (k in d ==> r[k] == d[k])
  {
    var entry := if file in d then d[file] else Meta(None, None, None, None);
    d[file := entry.(tags := Some(tags))]
  }

  // ------------------------------------------------------- delete mode

  /** `t` is `g` with some elements left out, the rest in their order. */
  predicate Subsequence(t: seq<Tag>, g: seq<Tag>)
    decreases |g|
  {
    if t == [] then true
    else if g == [] then false
    else (t[0] == g[0] && Subsequence(t[1..], g[1..])) || Subsequence(t, g[1..])
  }

  /** The `array_filter` of delete mode: drop every tag named `name` up to case. */
  function WithoutTag(g: seq<Tag>, name: string): (r: seq<Tag>)
    ensures Subsequence(r, g)
    ensures forall i :: 0 <= i < |r| ==> !SameName(r[i].name, name)
    ensures forall i :: 0 <= i < |g| && !SameName(g[i].name, name) ==> g[i] in r
  {
    if g == [] then []
    else
      var rest := WithoutTag(g[1..], name);
      assert forall i :: 1 <= i < |g| ==> g[i] == g[1..][i - 1];
      if SameName(g[0].name, name) then rest else [g[0]] + rest
  }

  // -------------------------------------------------------- merge mode

  /** Index of the first global tag whose name matches `name` up to case. */
  function FindTag(g: seq<Tag>, name: string): (k: Option<nat>)
    ensures k.Some? ==> k.value < |g| && SameName(g[k.value].name, name)
    ensures k.Some? ==> forall j :: 0 <= j < k.value ==> !SameName(g[j].name, name)
    ensures k.None? ==> forall j :: 0 <= j < |g| ==> !SameName(g[j].name, name)
  {
    if g == [] then None
    else if SameName(g[0].name, name) then Some(0)
    else match FindTag(g[1..], name)
      case None => None
      case Some(j) => Some(j + 1)
  }

  /** One tag merged: the first global tag of the same name takes its
      colour and keeps its own spelling; otherwise the tag is appended. */
  function MergeTag(g: seq<Tag>, tag: Tag): seq<Tag> {
    match FindTag(g, tag.name)
    case Some(j) => g[j := g[j].(color := tag.color)]
    case None => g + [tag]
  }

  /** The merge after the first n tags of the file. */
  function MergePrefix(g: seq<Tag>, tags: seq<Tag>, n: nat): seq<Tag>
    requires n <= |tags|
  {
    if n == 0 then g else MergeTag(MergePrefix(g, tags, n - 1), tags[n - 1])
  }

  /** The search loop that merge mode runs for one tag. */
  method FindTagLoop(g: seq<Tag>, name: string) returns (k: Option<nat>)
    ensures k == FindTag(g, name)
  {
    var j := 0;
    while j < |g|
      invariant j <= |g|
      invariant forall m :: 0 <= m < j ==> !SameName(g[m].name, name)
    {
      if ToLower(g[j].name) == ToLower(name) {
        FindTagIs(g, name, j);
        return Some(j);
      }
      j := j + 1;
    }
    FindTagIs(g, name, j);
    return None;
  }

  /** The first match is the one before which nothing matches. */
  lemma {:induction false} FindTagIs(g: seq<Tag>, name: string, j: nat)
    requires j <= |g|
    requires forall m :: 0 <= m < j ==> !SameName(g[m].name, name)
    requires j < |g| ==> SameName(g[j].name, name)
    ensures FindTag(g, name) == if j < |g| then Some(j) else None
  {
    if g != [] && j > 0 {
      FindTagIs(g[1..], name, j - 1);
    }
  }

  /** The merge loop of saveFileTag, with its inner search loop. */
  method MergeTags(g: seq<Tag>, tags: seq<Tag>) returns (r: seq<Tag>)
    ensures r == MergePrefix(g, tags, |tags|)
  {
    r := g;
    var i := 0;
    while i < |tags|
      invariant i <= |tags|
      invariant r == MergePrefix(g, tags, i)
    {
      var tag := tags[i];
      var found := FindTagLoop(r, tag.name);
      if found.Some? {
        r := r[found.value := r[found.value].(color := tag.color)];
      } else {
        r := r + [tag];
      }
      i := i + 1;
    }
  }

  /** No two global tags share a name up to case. */
  predicate DistinctNames(g: seq<Tag>) {
    forall i, j :: 0 <= i < j < |g| ==> !SameName(g[i].name, g[j].name)
  }

  /** A merge keeps the existing tags in place with their names, changes
      only the colour of the first match, and appends the tag exactly when
      nothing matches. */
  lemma MergeTagShape(g: seq<Tag>, tag: Tag)
    ensures var r := MergeTag(g, tag);
      && |g| <= |r| <= |g| + 1
      && (|r| == |g| + 1 <==> FindTag(g, tag.name).None?)
      && (forall j :: 0 <= j < |g| ==> r[j].name == g[j].name)
      && (forall j :: 0 <= j < |g| && Some(j) != FindTag(g, tag.name) ==> r[j] == g[j])
      && (FindTag(g, tag.name).Some? ==> r[FindTag(g, tag.name).value] == g[FindTag(g, tag.name).value].(color := tag.color))
      && (forall j :: |g| <= j < |r| ==> r[j] == tag)
  {
  }

  /** A tag of `r` in a position where `r` has the names of `g`, and that
      is not the first match in `g`, keeps its value through a merge. */
  lemma MergeTagUntouched(g: seq<Tag>, r: seq<Tag>, tag: Tag, j: nat)
    requires |g| <= |r| && j < |g|
    requires forall m :: 0 <= m < |g| ==> r[m].name == g[m].name
    requires FindTag(g, tag.name) != Some(j)
    ensures j < |MergeTag(r, tag)| && MergeTag(r, tag)[j] == r[j]
  {
    if FindTag(r, tag.name) == Some(j) {
      FindTagSameNames(g, r, tag.name, j);
    }
    MergeTagShape(r, tag);
  }

  /** A first match among positions whose names are unchanged is the same
      first match in the list before. */
  lemma {:induction false} FindTagSameNames(g: seq<Tag>, r: seq<Tag>, name: string, j: nat)
    requires |g| <= |r| && j < |g|
    requires forall m :: 0 <= m < |g| ==> r[m].name == g[m].name
    requires FindTag(r, name) == Some(j)
    ensures FindTag(g, name) == Some(j)
  {
    FindTagIs(g, name, j);
  }

  /** After a merge the tag's name is found, with the tag's colour at the
      first match. */
  lemma MergeTagSetsColour(g: seq<Tag>, tag: Tag)
    ensures var r := MergeTag(g, tag);
      FindTag(r, tag.name).Some? && r[FindTag(r, tag.name).value].color == tag.color
  {
    var r := MergeTag(g, tag);
    match FindTag(g, tag.name)
    case Some(j) =>
      FindTagIs(r, tag.name, j);
    case None =>
      FindTagIs(r, tag.name, |g|);
  }

  /** A merge introduces no duplicate name. */
  lemma MergeTagDistinct(g: seq<Tag>, tag: Tag)
    requires DistinctNames(g)
    ensures DistinctNames(MergeTag(g, tag))
  {
    var r := MergeTag(g, tag);
    match FindTag(g, tag.name)
    case Some(j) =>
      assert forall i :: 0 <= i < |r| ==> r[i].name == g[i].name;
    case None =>
      assert forall i :: 0 <= i < |g| ==> r[i] == g[i];
  }

  /** Over the whole merge: every existing tag keeps its place and name,
      and each later position carries the name of one of the file's tags. */
  lemma {:induction false} MergePrefixShape(g: seq<Tag>, tags: seq<Tag>, n: nat)
    requires n <= |tags|
    ensures var r := MergePrefix(g, tags, n);
      && |g| <= |r| <= |g| + n
      && (forall j :: 0 <= j < |g| ==> r[j].name == g[j].name)
      && (forall j :: |g| <= j < |r| ==> exists i :: 0 <= i < n && r[j].name == tags[i].name)
  {
    if n > 0 {
      var prev := MergePrefix(g, tags, n - 1);
      MergePrefixShape(g, tags, n - 1);
      MergeTagShape(prev, tags[n - 1]);
      var r := MergePrefix(g, tags, n);
      forall j | |g| <= j < |r| ensures exists i :: 0 <= i < n && r[j].name == tags[i].name {
        if j < |prev| {
          var i :| 0 <= i < n - 1 && prev[j].name == tags[i].name;
          assert r[j].name == tags[i].name;
        } else {
          assert r[j].name == tags[n - 1].name;
        }
      }
    }
  }

  /** Over the whole merge the existing tags keep their places and names. */
  lemma {:induction false} MergePrefixKeepsNames(g: seq<Tag>, tags: seq<Tag>, n: nat)
    requires n <= |tags|
    ensures |g| <= |MergePrefix(g, tags, n)|
    ensures forall m :: 0 <= m < |g| ==> MergePrefix(g, tags, n)[m].name == g[m].name
  {
    if n > 0 {
      MergePrefixKeepsNames(g, tags, n - 1);
      MergeTagShape(MergePrefix(g, tags, n - 1), tags[n - 1]);
    }
  }

  /** An old tag that is the first match of none of the file's tags comes
      out of the whole merge untouched. */
  lemma {:induction false} MergePrefixFrame(g: seq<Tag>, tags: seq<Tag>, n: nat, j: nat)
    requires n <= |tags| && j < |g|
    requires forall i :: 0 <= i < n ==> FindTag(g, tags[i].name) != Some(j)
    ensures j < |MergePrefix(g, tags, n)| && MergePrefix(g, tags, n)[j] == g[j]
  {
    if n > 0 {
      var prev := MergePrefix(g, tags, n - 1);
      var t := tags[n - 1];
      MergePrefixKeepsNames(g, tags, n - 1);
      MergeTagUntouched(g, prev, t, j);
      MergePrefixFrame(g, tags, n - 1, j);
      assert MergePrefix(g, tags, n) == MergeTag(prev, t);
    }
  }

  /** Some tag of `g` has the name `name` up to case. */
  predicate HasName(g: seq<Tag>, name: string) {
    exists j :: 0 <= j < |g| && SameName(g[j].name, name)
  }

  /** A merge keeps every present name and adds the merged tag's name. */
  lemma MergeTagHasNames(g: seq<Tag>, tag: Tag, name: string)
    ensures HasName(g, name) ==> HasName(MergeTag(g, tag), name)
    ensures HasName(MergeTag(g, tag), tag.name)
  {
    var r := MergeTag(g, tag);
    MergeTagShape(g, tag);
    if HasName(g, name) {
      var j :| 0 <= j < |g| && SameName(g[j].name, name);
      assert r[j].name == g[j].name;
    }
    MergeTagSetsColour(g, tag);
    var k := FindTag(r, tag.name).value;
    assert SameName(r[k].name, tag.name);
  }

  /** Over the whole merge, every one of the file's tag names is present. */
  lemma {:induction false} MergePrefixCovers(g: seq<Tag>, tags: seq<Tag>, n: nat)
    requires n <= |tags|
    ensures forall i :: 0 <= i < n ==> HasName(MergePrefix(g, tags, n), tags[i].name)
  {
    if n > 0 {
      var prev := MergePrefix(g, tags, n - 1);
      MergePrefixCovers(g, tags, n - 1);
      forall i | 0 <= i < n ensures HasName(MergeTag(prev, tags[n - 1]), tags[i].name) {
        MergeTagHasNames(prev, tags[n - 1], tags[i].name);
      }
    }
  }

  /** Lists with the same names in the same places have the same names. */
  lemma HasNameSameNames(g: seq<Tag>, r: seq<Tag>, name: string)
    requires |r| == |g| && forall m :: 0 <= m < |g| ==> r[m].name == g[m].name
    ensures HasName(r, name) <==> HasName(g, name)
  {
    if HasName(r, name) {
      var j :| 0 <= j < |r| && SameName(r[j].name, name);
      assert g[j].name == r[j].name;
    }
    if HasName(g, name) {
      var j :| 0 <= j < |g| && SameName(g[j].name, name);
      assert r[j].name == g[j].name;
    }
  }

  /** The search fails exactly when no tag has the name. */
  lemma FindTagNone(g: seq<Tag>, name: string)
    ensures FindTag(g, name).None? <==> !HasName(g, name)
  {
    if FindTag(g, name).Some? {
      assert SameName(g[FindTag(g, name).value].name, name);
    }
  }

  /** A merge into a list that extends `g` with the same names keeps its
      length at |g| exactly when nothing was added before and `g` has the
      merged tag's name. */
  lemma MergeTagGrows(g: seq<Tag>, r: seq<Tag>, tag: Tag)
    requires |g| <= |r| && forall m :: 0 <= m < |g| ==> r[m].name == g[m].name
    ensures |MergeTag(r, tag)| == |g| <==> |r| == |g| && HasName(g, tag.name)
  {
    MergeTagShape(r, tag);
    FindTagNone(r, tag.name);
    if |r| == |g| {
      HasNameSameNames(g, r, tag.name);
    }
  }

  /** The merge adds no tag exactly when every one of the file's tag names
      is already in the list. */
  lemma {:induction false} MergePrefixGrows(g: seq<Tag>, tags: seq<Tag>, n: nat)
    requires n <= |tags|
    ensures |MergePrefix(g, tags, n)| == |g| <==> forall i :: 0 <= i < n ==> HasName(g, tags[i].name)
  {
    if n > 0 {
      MergePrefixKeepsNames(g, tags, n - 1);
      MergeTagGrows(g, MergePrefix(g, tags, n - 1), tags[n - 1]);
      MergePrefixGrows(g, tags, n - 1);
      assert (forall i :: 0 <= i < n ==> HasName(g, tags[i].name)) <==>
             (forall i :: 0 <= i < n - 1 ==> HasName(g, tags[i].name)) && HasName(g, tags[n - 1].name);
    }
  }

  /** Over the whole merge, distinct names stay distinct. */
  lemma {:induction false} MergePrefixDistinct(g: seq<Tag>, tags: seq<Tag>, n: nat)
    requires n <= |tags| && DistinctNames(g)
    ensures DistinctNames(MergePrefix(g, tags, n))
  {
    if n > 0 {
      MergePrefixDistinct(g, tags, n - 1);
      MergeTagDistinct(MergePrefix(g, tags, n - 1), tags[n - 1]);
    }
  }

  // --------------------------------------------------------- saveFileTag

  /** Delete mode runs when asked for with a truthy tag name. */
  predicate DeleteMode(deleteGlobal: bool, tagToDelete: Option<string>) {
    deleteGlobal && tagToDelete.Some? && !Falsy(tagToDelete.value)
  }

  /** The global tag list saveFileTag computes. */
  function NewGlobalTags(g: seq<Tag>, tags: seq<Tag>, deleteGlobal: bool, tagToDelete: Option<string>): seq<Tag> {
    if DeleteMode(deleteGlobal, tagToDelete) then WithoutTag(g, tagToDelete.value)
    else MergePrefix(g, tags, |tags|)
  }

  /** What `saveFileTag` leaves behind and returns: the global tags. A
      failed metadata write stops before the global list; a failed global
      write keeps the metadata already written. */
  function SaveTagOutcome(s: State, env: Env, folder: string, file: string, tags: seq<Tag>,
                          deleteGlobal: bool, tagToDelete: Option<string>): (State, Result<seq<Tag>>)
  {
    var docName := TagDocName(folder);
    if docName in env.unwritable then (s, Err(Problem(MetadataWriteFailed, docName)))
    else
      var s1 := s.(docs := s.docs[docName := WithTags(DocOf(s, docName), file, tags)]);
      if TagsDoc in env.unwritable then (s1, Err(Problem(MetadataWriteFailed, TagsDoc)))
      else
        var g := NewGlobalTags(s.globalTags, tags, deleteGlobal, tagToDelete);
        (s1.(globalTags := g), Ok(g))
  }

  /** `saveFileTag`. */
  method SaveFileTag(s: State, env: Env, folder: string, file: string, tags: seq<Tag>,
                     deleteGlobal: bool, tagToDelete: Option<string>)
    returns (s': State, r: Result<seq<Tag>>)
    ensures (s', r) == SaveTagOutcome(s, env, folder, file, tags, deleteGlobal, tagToDelete)
  {
    var docName := TagDocName(folder);
    if docName in env.unwritable {
      return s, Err(Problem(MetadataWriteFailed, docName));
    }
    s' := s.(docs := s.docs[docName := WithTags(DocOf(s, docName), file, tags)]);
    var g;
    if DeleteMode(deleteGlobal, tagToDelete) {
      g := WithoutTag(s.globalTags, tagToDelete.value);
    } else {
      g := MergeTags(s.globalTags, tags);
    }
    if TagsDoc in env.unwritable {
      return s', Err(Problem(MetadataWriteFailed, TagsDoc));
    }
    s' := s'.(globalTags := g);
    r := Ok(g);
  }

  /** `getFileTags`: the global tag list. */
  function GetFileTags(s: State): seq<Tag> {
    s.globalTags
  }

  /** After a successful saveFileTag, the file's entry carries exactly the
      given tags with its other fields kept, no other entry or document
      changes, and getFileTags returns the list saveFileTag returned. */
  lemma SaveFileTagEffect(s: State, env: Env, folder: string, file: string, tags: seq<Tag>,
                          deleteGlobal: bool, tagToDelete: Option<string>)
    requires SaveTagOutcome(s, env, folder, file, tags, deleteGlobal, tagToDelete).1.Ok?
    ensures var (s', r) := SaveTagOutcome(s, env, folder, file, tags, deleteGlobal, tagToDelete);
      var d := DocOf(s, TagDocName(folder));
      var d' := DocOf(s', TagDocName(folder));
      && file in d' && d'[file].tags == Some(tags)
      && (file in d ==> d'[file].uploaded == d[file].uploaded && d'[file].uploader == d[file].uploader
                        && d'[file].modified == d[file].modified)
      && (forall k :: k != file && k in d ==> k in d' && d'[k] == d[k])
      && (forall n :: n != TagDocName(folder) ==> DocOf(s', n) == DocOf(s, n))
      && GetFileTags(s') == r.value
      && s'.tree == s.tree && s'.ledger == s.ledger && s'.shares == s.shares
  {
  }

  /** In delete mode the returned list is the old one, in order, without
      any tag of that name in any letter case. */
  lemma SaveFileTagDeletes(s: State, env: Env, folder: string, file: string, tags: seq<Tag>, name: string)
    requires !Falsy(name)
    requires SaveTagOutcome(s, env, folder, file, tags, true, Some(name)).1.Ok?
    ensures var g := SaveTagOutcome(s, env, folder, file, tags, true, Some(name)).1.value;
      && Subsequence(g, s.globalTags)
      && (forall i :: 0 <= i < |g| ==> !SameName(g[i].name, name))
      && (forall i :: 0 <= i < |s.globalTags| && !SameName(s.globalTags[i].name, name) ==> s.globalTags[i] in g)
  {
  }

  /** In merge mode every old tag keeps its place and name, an old tag that
      is the first match of none of the file's tags is untouched, the list
      grows exactly when some name was new, each of the file's tag names
      ends up in the list, and a list without duplicate names stays so. */
  lemma SaveFileTagMerges(s: State, env: Env, folder: string, file: string, tags: seq<Tag>,
                          deleteGlobal: bool, tagToDelete: Option<string>)
    requires !DeleteMode(deleteGlobal, tagToDelete)
    requires SaveTagOutcome(s, env, folder, file, tags, deleteGlobal, tagToDelete).1.Ok?
    ensures var g := SaveTagOutcome(s, env, folder, file, tags, deleteGlobal, tagToDelete).1.value;
      && |s.globalTags| <= |g| <= |s.globalTags| + |tags|
      && (forall j :: 0 <= j < |s.globalTags| ==> g[j].name == s.globalTags[j].name)
      && (forall j :: 0 <= j < |s.globalTags| && (forall i :: 0 <= i < |tags| ==> FindTag(s.globalTags, tags[i].name) != Some(j))
            ==> g[j] == s.globalTags[j])
      && (|g| == |s.globalTags| <==> forall i :: 0 <= i < |tags| ==> HasName(s.globalTags, tags[i].name))
      && (forall i :: 0 <= i < |tags| ==> HasName(g, tags[i].name))
      && (DistinctNames(s.globalTags) ==> DistinctNames(g))
  {
    var g0 := s.globalTags;
    assert SaveTagOutcome(s, env, folder, file, tags, deleteGlobal, tagToDelete).1.value == MergePrefix(g0, tags, |tags|);
    MergeAll(g0, tags);
  }

  /** Merging every given tag into the global list, as one statement. */
  lemma MergeAll(g0: seq<Tag>, tags: seq<Tag>)
    ensures var g := MergePrefix(g0, tags, |tags|);
      && |g0| <= |g| <= |g0| + |tags|
      && (forall j :: 0 <= j < |g0| ==> g[j].name == g0[j].name)
      && (forall j :: 0 <= j < |g0| && (forall i :: 0 <= i < |tags| ==> FindTag(g0, tags[i].name) != Some(j))
            ==> g[j] == g0[j])
      && (|g| == |g0| <==> forall i :: 0 <= i < |tags| ==> HasName(g0, tags[i].name))
      && (forall i :: 0 <= i < |tags| ==> HasName(g, tags[i].name))
      && (DistinctNames(g0) ==> DistinctNames(g))
  {
    var g := MergePrefix(g0, tags, |tags|);
    assert |g0| <= |g| <= |g0| + |tags| && forall j :: 0 <= j < |g0| ==> g[j].name == g0[j].name by {
      MergePrefixShape(g0, tags, |tags|);
    }
    assert |g| == |g0| <==> forall i :: 0 <= i < |tags| ==> HasName(g0, tags[i].name) by {
      MergePrefixGrows(g0, tags, |tags|);
    }
    forall j | 0 <= j < |g0| && (forall i :: 0 <= i < |tags| ==> FindTag(g0, tags[i].name) != Some(j))
      ensures g[j] == g0[j]
    {
      MergePrefixFrame(g0, tags, |tags|, j);
    }
    assert forall i :: 0 <= i < |tags| ==> HasName(g, tags[i].name) by {
      MergePrefixCovers(g0, tags, |tags|);
    }
    if DistinctNames(g0) {
      MergePrefixDistinct(g0, tags, |tags|);
    }
  }

  /** A last tag's colour is what the list shows for that name afterwards. */
  lemma MergeLastColourWins(g: seq<Tag>, tags: seq<Tag>)
    requires |tags| >= 1
    ensures var r := MergePrefix(g, tags, |tags|);
      var last := tags[|tags| - 1];
      FindTag(r, last.name).Some? && r[FindTag(r, last.name).value].color == last.color
  {
    MergeTagSetsColour(MergePrefix(g, tags, |tags| - 1), tags[|tags| - 1]);
  }
}
