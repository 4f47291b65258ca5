// The trash round trip: a file deleteFiles moved to the trash, once
// restoreFiles restores the record deleteFiles wrote for it, is back at the
// path it was deleted from.

module TrashRoundTrip {
  import opened PhpStrings
  import opened Validators
  import opened Store
  import opened Trash

  /** When a restore round restored something, the trash entry `t` was
      moved to `dir + [name]`, a path that was free before. */
  predicate ReturnedTo(acc: RestoreAcc, a: RestoreAcc, dir: Path, name: string, t: string) {
    |a.restored| > |acc.restored| ==>
      && t in acc.st.trash && dir + [name] !in acc.st.tree
      && dir + [name] in a.st.tree
      && a.st.tree[dir + [name]] == acc.st.trash[t]
      && t !in a.st.trash
  }

  lemma FileRecordReturns(env: Env, acc: RestoreAcc, i: nat, t: string, k: nat, dir: Path, docName: string,
                          name: string)
    requires k < |acc.ledger|
    ensures ReturnedTo(acc, RestoreFileRecord(env, acc, i, t, k, dir, docName, name), dir, name, t)
  {
    if |RestoreFileRecord(env, acc, i, t, k, dir, docName, name).restored| > |acc.restored| {
      RestoreFileRecordPlaces(env, acc, i, t, k, dir, docName, name);
    }
  }

  /** The trash round trip: when restoreFiles restores the record that
      deleteFiles wrote for a file (DeletionRecordIsFileRecord), the trash
      file's node lands back at the path the file was deleted from. Only a
      valid trash name is ever restored (RestoredNameIsValid). */
  lemma DeletedFileReturnsHome(env: Env, acc: RestoreAcc, i: nat, t: string, k: nat, folder: string, name: string)
    requires UploadsNormal(env.uploadsDir)
    requires folder == "root" || !IsRootAnyCase(TrimSet(folder, SlashSpaceSet))
    requires FirstRecord(acc.ledger, t) == Some(k) && FileRecordOf(acc.ledger[k], env, folder, name)
    requires FileNameOk(t)
    ensures ReturnedTo(acc, RestoreStep(env, acc, i, t), FolderDir(folder), name, t)
  {
    FileRecordRestoresAsFile(env, acc, i, t, k, folder, name);
    var docName :| RestoreStep(env, acc, i, t) == RestoreFileRecord(env, acc, i, t, k, FolderDir(folder), docName, name);
    FileRecordReturns(env, acc, i, t, k, FolderDir(folder), docName, name);
  }
}
