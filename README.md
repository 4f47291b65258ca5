# FileRise file store, modelled in Dafny

FileRise is a self-hosted file manager. Its storage engine, the static class
`FileModel`, works on three things:

- an uploads directory tree;
- per-folder JSON metadata documents (`<folder>_metadata.json`, mapping a
  file name to its upload date, uploader, modification date and tags);
- three global documents: the trash ledger `trash.json`, the share links
  `share_links.json` and the global tag list `createdTags.json`.

This project models that engine together with the three validation patterns
of `config/config.php` (file name, folder name, user name) and the
memory-limit conversion of the shared-hosting bootstrap.

The world is a value, `Store.State`:

- the uploads tree, a `map<Path, Node>` where a path is a sequence of
  segments and a node is a file (with its size) or a directory;
- the trash directory, a map from trash name to node;
- the metadata documents, a map from document name to `map<file name, Meta>`,
  where an absent key means the file does not exist;
- the trash ledger, a sequence of records;
- the share links, a map from token to link;
- the global tags, a sequence.

Everything the code asks of the outside world is the parameter `Store.Env`:

- the clock and the formatted date;
- the session user;
- the random share token;
- which `copy`/`rename`/`unlink` calls fail, by position in the batch;
- which documents cannot be written and which directories cannot be created;
- which paths `realpath` resolves outside the uploads directory;
- whether the zip file can be created.

Every batch operation (`copyFiles`, `moveFiles`, `deleteFiles`,
`restoreFiles`, `deleteTrashFiles`, `extractZipArchive`, the selection of
`createZipArchive`, the merge of `saveFileTag`) is built the same way:

- the loop is a `method` with a `while` loop and its invariants;
- it is proved equal to a left fold (`…Prefix`) of a one-item step function;
- the operation itself is a method proved equal to an `…Outcome` function;
- the properties the code promises are lemmas about the step, the fold and
  the outcome.

The expiry purge of `createShareLink` is a loop over the set of tokens,
proved equal to a map comprehension (`Shares.PurgeExpired`).

`getUniqueFileName` is a do-while loop proved equal to the function
`Naming.UniqueName`. The name validators are predicates, and every operation
calls them where the code applies the patterns.

Modules: `PhpStrings` (the PHP string functions the code relies on),
`Store`, `Validators`, `Naming`, `Bootstrap`, `FileOps` (copy, move, rename,
save, create, download), `Trash`, `TrashRoundTrip`, `Archive`, `Listing`,
`Shares`, `Tags`.

Places where the code behaves differently from what its own comments and
naming suggest, all modelled as written:

- `deleteFiles` compares the folder with `'root'` exactly. `restoreFiles`
  compares the folder it reads back from the record case-insensitively. A
  file trashed from the sub-folder `Root` (the directory `uploads/Root`) is
  therefore restored into the uploads directory itself
  (`Trash.RootSpellingRestoresElsewhere`).
- `getMetadataFilePath` maps `Root` to the root document, although `Root`
  names the directory `uploads/Root` (`Store.RootSpellingsShareDocument`).
- `getMetadataFilePath` flattens `/`, `\` and space to `-`, so distinct
  folders such as `a/b`, `a b` and `a-b` share one metadata document
  (`Store.SeparatorsShareDocument`).
- The folder pattern admits `..` as any segment but the last
  (`Validators.DotDotSegmentAdmitted`); only the callers' separate `..`
  checks block traversal. `getFileList` has no such check, and `createFile`
  does not validate its folder at all, so a folder such as "../x" reaches
  outside the uploads directory in both; the model keeps such a segment as
  an ordinary name inside the tree (see "## Left out").
- `extractZipArchive` does not confine archive entries: it reports
  `../../evil.txt` as `evil.txt` (`Archive.EntryPathsAreFlattened`).
- `convertToBytes` of an empty or blank string is 0. PHP warns on the
  out-of-range index and reads `""`, which no case of the switch matches.
- `convertToBytes` reads its number the way PHP 8 casts a leading-numeric
  string: "1.5G" is 1 GiB and "0.5G" is 0 (`Bootstrap.FractionalGigabyte`,
  `Bootstrap.HalfGigabyteIsZero`), "1e3M" is 1000 MiB
  (`Bootstrap.ExponentMegabytes`). A value beyond the 64-bit range saturates
  in the cast; a product beyond it becomes a float, which the `int` return
  type refuses, and the bootstrap stops with a fatal error
  (`Bootstrap.MemoryFixGuaranteesDesired`).
- `getMetadataFilePath` checks for 'root' before trimming, so " root" is
  trimmed to "root" and also lands in root_metadata.json.
- Renaming a file to its own name does not fail: it yields `name (1)`
  (`FileOps.RenameToSelfNumbers`).
- "." and ".." pass the file-name pattern, and `file_exists` finds them in
  every directory. Renaming a file to "." therefore yields " (1)", and to
  ".." yields ". (1)" (`FileOps.RenameToDots`, `Naming.CandidateOfDots`).
  Copying or moving "." or ".." passes the existence test and then fails
  (`FileOps.CopyDotsFail`, `FileOps.MoveDotsFail`). `getDownloadInfo`
  resolves them with `realpath`: ".." in a subfolder sends the parent
  directory, and "." sends the folder itself (`FileOps.DownloadAliases`).
- Two files of the same name trashed in the same second get the same trash
  name, and the second overwrites the first in the trash
  (`Trash.SameSecondSameTrashName`).

## Model

| member | source | states |
|---|---|---|
| Validators.FileNameTrailingNewline | config/config.php:15 | The file-name pattern's `$` lets exactly one trailing newline through: an accepted name plus "\n" is accepted, plus "\n\n" is not |
| Validators.TrimmedFileName | config/config.php:15 | A trimmed name is accepted exactly when it has 1 to 255 code points, none of them a control character, '/' or '\' |
| Validators.DotNamesAreFileNames | config/config.php:15 | "." and ".." pass the file-name pattern |
| Validators.BodyMatchesSegments | config/config.php:13 | The folder pattern's body, read as a run followed by separator-run repeats, matches exactly when every piece between '/' and '\' is a valid 1..255-character segment |
| Validators.SegmentsImplyBody | config/config.php:13 | One direction of the above, by induction on the segments |
| Validators.BodyImpliesSegments | config/config.php:13 | The other direction, by induction on the runs |
| Validators.FolderRejectsEmptySegment | config/config.php:13 | A leading, trailing or doubled separator (an empty piece) makes a folder name rejected |
| Validators.LeadingSeparatorRejected | config/config.php:13 | A folder name starting with '/' or '\' is rejected |
| Validators.FolderRejectsTrailingDotOrSpace | config/config.php:13 | A folder name whose last character is '.' or ' ' is rejected, also before one final newline |
| Validators.ReservedNamesRefused | config/config.php:13 | CON, LPT7 and "NUL\n" are rejected as whole folder names |
| Validators.ReservedNamesOnlyWhole | config/config.php:13 | The device-name check is whole-string and case-sensitive: "con", "CON/x" and "COM10" pass |
| Validators.DotDotSegmentAdmitted | config/config.php:13 | "../x" and "a/../b" pass the folder pattern; ".." and "x/.." do not (trailing dot) |
| Validators.OneSegment | config/config.php:13 | A single valid segment that is no device name and does not end in '.' or ' ' is an accepted folder name |
| Validators.TwoSegments | config/config.php:13 | Two valid segments joined by one separator form an accepted folder name when the last does not end in '.' or ' ' |
| Validators.UserNameHasNoPathCharacters | config/config.php:16 | An accepted user name contains no '/', '\', '.' or ':' and no control character except one final newline |
| Validators.ShortUserNameIsFileName | config/config.php:16 | Every accepted user name of at most 255 characters without a final newline is also an accepted file name |
| Store.FolderDir | src/models/FileModel.php:21-26 | The exact folder 'root' is the uploads directory itself |
| Store.Mkdir | src/models/FileModel.php:252-256 | A recursive mkdir keeps every existing entry and adds only directories on the way to the target, which ends up a directory unless it is a file |
| Store.DocName | src/models/FileModel.php:91-97 | Every metadata document name ends in "_metadata.json" and contains no '/', '\' or space |
| Store.FlatDocName | src/models/FileModel.php:372-373 | The document name renameFile, saveFile and createFile build by hand has the same two properties |
| Store.WriteDoc | src/models/FileModel.php:74-76 | Writing a document succeeds exactly when it is writable; success replaces only that document, failure changes nothing |
| Store.DocNameCases | src/models/FileModel.php:91-97 | For every folder string: 'root' in any case or a blank folder gives root_metadata.json; any other gives its trimmed text, position by position, with '/', '\' and ' ' turned into '-', followed by "_metadata.json" |
| Store.DashedDocName | src/models/FileModel.php:91-97 | A folder that trim leaves alone and that is not 'root' in any case maps to its own text with '/', '\' and ' ' turned into '-', plus "_metadata.json" |
| Store.SeparatorsShareDocument | src/models/FileModel.php:91-97 | Folder names that differ only in which of '/', '\', ' ', '-' sit at each position share one metadata document |
| Store.RootSpellingsShareDocument | src/models/FileModel.php:91-97 | "Root", "root" and a blank folder all use root_metadata.json, while "Root" is the directory uploads/Root and "root" the uploads directory |
| Store.DocNameIsNotShared | src/models/FileModel.php:91-97 | No folder's metadata document is ever the share, tag or trash document |
| Naming.StemDotExtension | src/models/FileModel.php:113-114 | A dotted name is its stem, a dot and its extension |
| Naming.CandidateInjective | src/models/FileModel.php:115-121 | Different counters give different candidate names |
| Naming.CandidatePathsDistinct | src/models/FileModel.php:115-121 | No two rounds of the do-while try the same path |
| Naming.TakenRoundsBounded | src/models/FileModel.php:115-121 | While rounds 1..n are all taken, n is at most the number of entries in the tree, so the loop ends |
| Naming.FirstFree | src/models/FileModel.php:115-121 | The round chosen is free and every earlier round is taken |
| Naming.UniqueName | src/models/FileModel.php:106-122 | The name chosen does not exist in the directory: it is no entry, and it is not "." or ".." of an existing directory. It is the requested name itself when that does not exist |
| Naming.GetUniqueFileName | src/models/FileModel.php:106-122 | The do-while loop returns the name UniqueName specifies, a name that does not exist in the directory |
| Naming.UniqueNameFirstFreeRound | src/models/FileModel.php:106-122 | A name that exists (an entry, or "." or ".." of an existing directory) becomes the candidate of the smallest counter n ≥ 1 whose name is free |
| Naming.UniqueNameFirstRound | src/models/FileModel.php:106-122 | A name that exists becomes its first candidate when that one is free |
| Naming.TakenNameChanges | src/models/FileModel.php:106-122 | A name that exists is never returned unchanged |
| Naming.CandidateKeepsExtension | src/models/FileModel.php:113-117 | A truthy extension survives numbering |
| Naming.CandidateOfDotted | src/models/FileModel.php:113-117 | "stem.ext" becomes "stem (n).ext" |
| Naming.CandidateDropsZeroExtension | src/models/FileModel.php:113-117 | The falsy extension "0" is dropped: "x.0" becomes "x (n)" |
| Naming.CandidateWithoutDot | src/models/FileModel.php:113-117 | A name without a dot becomes "name (n)" |
| Naming.CandidateOfDots | src/models/FileModel.php:113-117 | "." has an empty stem and no extension, so it becomes " (n)"; ".." has the stem ".", so it becomes ". (n)" |
| FileOps.CleanName | src/models/FileModel.php:40 | A cleaned name never contains '/' |
| FileOps.CleanNames | src/models/FileModel.php:38-40 | Each requested name is trimmed and reduced to its base name, one for one |
| FileOps.CopyStepConserves | src/models/FileModel.php:38-72 | A copy round never overwrites or removes a path, and adds exactly one path or reports exactly one problem |
| FileOps.CopyPrefixConserves | src/models/FileModel.php:38-72 | Over the whole loop, nothing is overwritten and every requested name yields one new path or one problem |
| FileOps.CopyDotsFail | src/models/FileModel.php:50-66 | In an existing source directory, "." and ".." pass the existence test, and the copy round then reports a copy failure under the destination name and changes nothing else |
| FileOps.CopyStepSucceeds | src/models/FileModel.php:47-71 | A successful copy round puts the source node under a free (unique-ified) name and gives that name the source's metadata entry |
| FileOps.CopyLoop | src/models/FileModel.php:38-72 | The loop computes the fold of copy rounds |
| FileOps.CopyFiles | src/models/FileModel.php:16-83 | copyFiles leaves the state and messages CopyOutcome describes |
| FileOps.CopyFilesConserves | src/models/FileModel.php:16-83 | copyFiles keeps every existing path, adds one path per name it does not report, and changes no document but the destination's (never the source's) |
| FileOps.MoveStepConserves | src/models/FileModel.php:275-313 | A move round keeps the number of paths and every path outside the two folders, and moves one name or reports one problem |
| FileOps.MovePrefixConserves | src/models/FileModel.php:275-313 | The same over the whole loop; a bad name never aborts the batch |
| FileOps.MoveDotsFail | src/models/FileModel.php:289-305 | In an existing source directory, "." and ".." pass the existence test, and the move round then reports a move failure under the destination name and changes nothing else |
| FileOps.MoveStepSucceeds | src/models/FileModel.php:286-312 | A successful move puts the node under a free name in the destination, removes it from the source, and moves its metadata entry to that key |
| FileOps.MoveLoop | src/models/FileModel.php:275-313 | The loop computes the fold of move rounds |
| FileOps.MoveFiles | src/models/FileModel.php:239-328 | moveFiles leaves the state and messages MoveOutcome describes |
| FileOps.MoveAndWriteConserves | src/models/FileModel.php:275-321 | The loop and the two document writes keep the number of paths and every path outside the two folders, and change no other document |
| FileOps.MoveFilesConserves | src/models/FileModel.php:239-328 | moveFiles into an existing folder keeps the number of paths and everything outside the two folders |
| FileOps.RenameIn | src/models/FileModel.php:349-385 | The rename succeeds exactly when both names are valid, the old name is an entry and neither "." nor "..", and the rename works. An error changes nothing and says which check failed: an old name that does not exist is missing, and "." or ".." fail in `rename`. Success moves the node to a name that did not exist (the wanted one when it did not exist) and moves an existing metadata entry to that key |
| FileOps.RenameOntoTaken | src/models/FileModel.php:358-361 | Renaming onto a name that exists gives its first numbered variant when that is free |
| FileOps.RenameToDots | src/models/FileModel.php:354-361 | "." and ".." as the new name exist in the folder, so the file gets the first numbered variant of them |
| FileOps.RenameRoundTrip | src/models/FileModel.php:338-386 | Renaming a file and renaming it back restores the tree |
| FileOps.RenameFileOfCleanNames | src/models/FileModel.php:338-347 | renameFile on names the clean-up leaves alone is the resolved rename |
| FileOps.RenameToSelfNumbers | src/models/FileModel.php:358-361 | Renaming a file onto its own name succeeds with a numbered variant |
| FileOps.SavedEntry | src/models/FileModel.php:459-468 | A saved entry gets the new modification date and uploader; an existing entry keeps its upload date and tags; a new one gets both dates set to now |
| FileOps.SaveIn | src/models/FileModel.php:407-474 | saveFile succeeds exactly when the directory exists inside the uploads directory, the name is not a directory and both writes work; on success the file holds the content and its entry is SavedEntry; a failed metadata write leaves the file written and the documents as they were; any other error changes nothing |
| FileOps.SaveIdempotent | src/models/FileModel.php:397-475 | Saving the same content twice at the same moment gives the state of one save |
| FileOps.SaveKeepsUploadAndTags | src/models/FileModel.php:459-468 | Saving over an existing entry keeps its upload date and tags |
| FileOps.SaveFileValidatesFolder | src/models/FileModel.php:399-405 | A defaulted folder that is not 'root' and fails the folder pattern is refused and nothing changes |
| FileOps.CreateOutcomes | src/models/FileModel.php:1297-1348 | createFile answers 400 exactly when the name fails the pattern or, the folder being there or creatable, the path is taken; 500 exactly when the folder cannot be made, or the path is free and the empty file or the metadata cannot be written; success in every other case |
| FileOps.CreateIn | src/models/FileModel.php:1305-1347 | createFile never overwrites or removes a path: on success the path was free and now holds an empty file whose entry is exactly the upload date and uploader; an invalid name or an uncreatable folder changes nothing; a collision means something is already there |
| FileOps.CreateTwiceCollides | src/models/FileModel.php:1318-1320 | Creating the same file twice: the second attempt reports a collision and changes nothing |
| FileOps.DownloadDir | src/models/FileModel.php:499-512 | A resolved download folder other than the root contains no "..", exists and lies inside the uploads directory |
| FileOps.DownloadIn | src/models/FileModel.php:514-523 | What is sent exists in an existing directory and resolves inside the uploads directory. An ordinary name is sent exactly when that entry exists and resolves inside. "" and "." send the directory itself. ".." sends its parent, and is refused in the uploads directory itself, whose parent lies outside |
| FileOps.DownloadDotDot | src/models/FileModel.php:514-519 | ".." is refused in the uploads directory itself and, in a first-level folder, sends the uploads directory |
| FileOps.DotNamesClean | src/models/FileModel.php:486-490 | "." and ".." survive the name clean-up and pass the file-name pattern |
| FileOps.DownloadAliases | src/models/FileModel.php:485-531 | In a resolved subfolder, ".." sends the subfolder's parent and "." the subfolder itself |
| FileOps.DownloadAliasesOfDocs | src/models/FileModel.php:485-531 | In folder "docs", ".." sends the uploads directory and "." sends uploads/docs |
| FileOps.GetDownloadInfo | src/models/FileModel.php:485-531 | What is sent has a valid cleaned name, exists and resolves inside the uploads directory. For any name but "." and "..", it is that entry of the folder |
| Trash.FirstRecord | src/models/FileModel.php:884-890 | The index found is the first record with that trash name; none means no record has it |
| Trash.DeletionRecordIsFileRecord | src/models/FileModel.php:186-197 | The record deleteFiles writes names the file, its folder's physical path, and the trash name "name_time" |
| Trash.SameSecondSameTrashName | src/models/FileModel.php:181-197 | Two same-named files deleted in the same second get the same trash name; the ledger names it twice and the trash keeps only the second |
| Trash.DeleteStepConserves | src/models/FileModel.php:167-206 | A delete round keeps every path outside the folder, only appends to the ledger, removes a path exactly when it adds a record, and accounts for its name once |
| Trash.DeletePrefixConserves | src/models/FileModel.php:167-206 | The same over the whole loop, and every new record names a file present in the trash |
| Trash.DeleteStepMoves | src/models/FileModel.php:178-199 | A round that moves a file puts its node into the trash as "name_time" and appends its DeletionRecord |
| Trash.DeleteLoop | src/models/FileModel.php:167-206 | The loop computes the fold of delete rounds |
| Trash.RemoveKeys | src/models/FileModel.php:212-222 | The document loses exactly the entries of the given names |
| Trash.DeleteFiles | src/models/FileModel.php:132-229 | deleteFiles leaves the state and reports DeleteOutcome describes |
| Trash.DeleteAndRecordConserves | src/models/FileModel.php:167-222 | deleteFiles keeps every path outside the folder and every trash entry; with the ledger written, one record per removed path, each naming a trash file; every name reported moved (also one absent on disk) loses its metadata entry |
| Trash.Enriched | src/models/FileModel.php:810-833 | Every listed record has non-empty deletedBy, uploaded and uploader; a non-empty deletedBy is kept; uploaded and uploader are kept when both are non-empty (if either is empty, both are looked up again); no other field changes |
| Trash.GetTrashItems | src/models/FileModel.php:796-837 | getTrashItems returns the ledger, record for record, each enriched |
| Trash.RelativeFolder | src/models/FileModel.php:905-912 | The folder read back from a record is never empty |
| Trash.PlanRestore | src/models/FileModel.php:875-919 | A restore plan always points at an existing ledger record |
| Trash.RestoreStepConserves | src/models/FileModel.php:875-977 | A restore round never removes or overwrites a path, only takes entries out of the trash, removes a record exactly when it restores, and accounts for its name once |
| Trash.RestorePrefixConserves | src/models/FileModel.php:875-977 | The same over the whole loop |
| Trash.RestoreFileRecordPlaces | src/models/FileModel.php:937-977 | A restored file lands at its free original place, leaves the trash, its entry becomes exactly the record's upload date and uploader (tags dropped), and its record is removed |
| Trash.RestoreLoop | src/models/FileModel.php:875-977 | The loop computes the fold of restore rounds |
| Trash.Plan | src/models/FileModel.php:875-919 | The head of each round, with its search loop, decides what PlanRestore says |
| Trash.FindRecord | src/models/FileModel.php:884-890 | The linear search finds the first matching record |
| Trash.RestoreFiles | src/models/FileModel.php:846-988 | restoreFiles leaves the state and reports RestoreOutcome describes |
| Trash.RestoreFilesConserves | src/models/FileModel.php:846-988 | restoreFiles keeps every path, only shrinks the trash, accounts for every name, and removes one ledger record per restored item |
| Trash.RestoreDirOfDeletion | src/models/FileModel.php:905-917 | A file deleted from a folder is restored into the directory it was deleted from, unless the trimmed folder spells 'root' in another case |
| Trash.RootSpellingRestoresElsewhere | src/models/FileModel.php:905-917 | A file deleted from folder "Root" (uploads/Root) is restored into the uploads directory itself |
| Trash.RestoredNameIsValid | src/models/FileModel.php:876-881 | Only a trash name accepted by the file-name pattern is ever restored |
| Trash.FileRecordRestoresAsFile | src/models/FileModel.php:884-977 | A record deleteFiles wrote is restored as a file into the folder it came from |
| Trash.KeyedStepKeeps | src/models/FileModel.php:1010-1014 | Loading one record keeps trash names unique: a repeated name replaces the earlier record, a new one is added |
| Trash.KeyedPrefixKeys | src/models/FileModel.php:1005-1016 | The keyed ledger has unique trash names, exactly those the ledger holds |
| Trash.LoadKeyed | src/models/FileModel.php:1005-1016 | The loading loop computes that keyed ledger |
| Trash.PurgeStepClears | src/models/FileModel.php:1025-1049 | A purge round keeps trash names unique, removes one record exactly when it reports a name deleted, and a name reported deleted has neither record nor trash file |
| Trash.PurgePrefixClears | src/models/FileModel.php:1025-1049 | The same over the whole loop; each name is deleted or reported |
| Trash.PurgeLoop | src/models/FileModel.php:1025-1049 | The loop computes the fold of purge rounds |
| Trash.DeleteTrashFiles | src/models/FileModel.php:996-1059 | deleteTrashFiles leaves the state and reports PurgeOutcome describes |
| Trash.DeleteTrashFilesClears | src/models/FileModel.php:996-1059 | The written ledger has unique trash names, all from the old ledger; a deleted name has neither record nor trash file, also when the file was already gone; only the trash and the ledger change |
| TrashRoundTrip.FileRecordReturns | src/models/FileModel.php:937-977 | A restore of a file record that restored something moved the trash node to the free path |
| TrashRoundTrip.DeletedFileReturnsHome | src/models/FileModel.php:167-206 | A file deleted and then restored through the record deleteFiles wrote returns to the path it was deleted from |
| Archive.ZipDir | src/models/FileModel.php:542-559 | The folder zipped is the root or an existing folder without ".." inside the uploads directory; errors are an invalid or missing folder |
| Archive.SelectionMembers | src/models/FileModel.php:562-576 | A name is packed exactly when it was requested, passes the file-name pattern and exists in the folder |
| Archive.SelectForZip | src/models/FileModel.php:562-576 | The selection loop computes that selection |
| Archive.CreateZipArchive | src/models/FileModel.php:540-593 | createZipArchive fails on a bad folder, on an empty selection and when the zip cannot be created; otherwise its entries are exactly the requested zippable names, never none |
| Archive.ExtractDir | src/models/FileModel.php:614-630 | The folder extracted into has no "." or ".." segment, exists and lies inside the uploads directory; errors are an invalid or missing folder |
| Archive.EntryNames | src/models/FileModel.php:678-684 | Reported entry names are base names: no '/', never "" or "0" |
| Archive.Stamp | src/models/FileModel.php:686-695 | Every extracted name gets the archive's metadata entry; other entries are kept |
| Archive.CollectEntries | src/models/FileModel.php:678-684 | The inner loop collects exactly EntryNames |
| Archive.StampNames | src/models/FileModel.php:686-695 | The inner loop stamps exactly as Stamp says |
| Archive.ExtractLoop | src/models/FileModel.php:646-698 | The loop computes the fold of extraction rounds |
| Archive.ExtractZipArchive | src/models/FileModel.php:603-711 | extractZipArchive leaves the state and result ExtractOutcome describes |
| Archive.ExtractPrefixShape | src/models/FileModel.php:646-698 | Over the whole loop, the reported names are flat base names and the document changes only at reported names |
| Archive.ExtractTouchesOnlyItsDocument | src/models/FileModel.php:603-711 | In the modelled state, extractZipArchive changes nothing but the metadata documents, and among them at most the folder's. The tree is not modelled as changing |
| Archive.ExtractReport | src/models/FileModel.php:603-711 | On success the names reported are flat base names, the document changed only at them, and every entry it holds is one the folder's document held before (an archive's entry copied to its extracted names) |
| Archive.ExtractStepStamps | src/models/FileModel.php:677-695 | A round that unpacks an archive reports its entries' base names and, when the archive has a metadata entry, gives each of them exactly that entry; without one the document is unchanged; a skipped or refused name reports nothing and changes nothing |
| Archive.ExtractPrefixEntriesFrom | src/models/FileModel.php:646-698 | Over the whole loop, every entry of the document being built is the entry some name had in the folder's original document |
| Archive.ExtractInEntries | src/models/FileModel.php:686-705 | On success every entry of the written document is one the folder's document held before |
| Archive.NoZipNoChange | src/models/FileModel.php:649-651 | A request without a ".zip" name extracts nothing |
| Archive.EntryPathsAreFlattened | src/models/FileModel.php:678-684 | The entry "../../evil.txt" is reported as "evil.txt": entries are not confined, only reported by base name |
| Listing.UnitFits | src/models/FileModel.php:1228-1237 | The size shown has a whole part of at least 1, and below 1024 except in GB |
| Listing.UnitMonotone | src/models/FileModel.php:1228-1237 | A larger file is never shown in a smaller unit |
| Listing.EntryOf | src/models/FileModel.php:1224-1246 | A listed entry takes upload date and uploader from the metadata or "Unknown", and tags or [] |
| Listing.ListEntries | src/models/FileModel.php:1210-1255 | The scan lists exactly the non-hidden regular files with valid names, each once, with its entry |
| Listing.GetFileList | src/models/FileModel.php:1174-1262 | getFileList fails exactly on an invalid or missing folder, with that reason; otherwise it lists the folder and returns the global tags |
| Listing.NeverListed | src/models/FileModel.php:1211-1221 | Hidden names, directories and names the pattern rejects are never listed |
| Shares.PurgeExpired | src/models/FileModel.php:768-773 | The clean-up keeps exactly the links not expired at now |
| Shares.CreateShareLink | src/models/FileModel.php:741-789 | A link is created exactly for a valid folder and a writable ledger; then the token maps to the new link with expiry now + seconds, every other kept link is old and unexpired, and every unexpired old link is kept; errors change nothing |
| Shares.GetShareRecord | src/models/FileModel.php:719-729 | A record is found exactly when the token is stored, and it is the stored one |
| Shares.GetAllShareLinks | src/models/FileModel.php:1264-1272 | The links listed are exactly those getShareRecord finds |
| Shares.DeleteShareLink | src/models/FileModel.php:1274-1287 | The answer is true exactly when the token existed; only that key is removed |
| Shares.CreatedLinkResolves | src/models/FileModel.php:776-781 | A created link is found by its token with its folder, file and expiry, and has no password exactly when the password given was falsy |
| Shares.ExpiredLinkPurgedByNextCreate | src/models/FileModel.php:768-773 | A link created already expired is gone after the next successful creation |
| Shares.DeleteThenResolve | src/models/FileModel.php:1274-1287 | A deleted link cannot be found, and deleting it again answers false |
| Shares.DeleteKeepsOtherLinks | src/models/FileModel.php:1274-1287 | Deleting one token leaves every other lookup as it was |
| Tags.WithTags | src/models/FileModel.php:1118-1122 | The file's entry gets exactly the given tags, its other fields and all other entries kept |
| Tags.WithoutTag | src/models/FileModel.php:1139-1143 | Delete mode keeps the other global tags in order and drops every tag of the name, in any case |
| Tags.FindTag | src/models/FileModel.php:1147-1154 | The index found is the first tag of the same name up to case |
| Tags.FindTagLoop | src/models/FileModel.php:1147-1154 | The search loop finds that index |
| Tags.MergeTags | src/models/FileModel.php:1146-1158 | The merge loop computes the fold of merges |
| Tags.MergeTagShape | src/models/FileModel.php:1146-1158 | One merge keeps every old tag in place with its name, changes only the colour of the first match, leaves every other tag as it was, and appends the tag exactly when no tag has its name |
| Tags.FindTagSameNames | src/models/FileModel.php:1147-1154 | A first match among positions whose names are unchanged was the first match before |
| Tags.MergeTagSetsColour | src/models/FileModel.php:1146-1158 | After a merge the tag's name is found with the tag's colour |
| Tags.MergeTagDistinct | src/models/FileModel.php:1146-1158 | A merge adds no duplicate name |
| Tags.MergePrefixShape | src/models/FileModel.php:1146-1158 | Over the whole merge every old tag keeps its place and name, at most one tag is added per merged tag, and every added tag carries one of the file's tag names |
| Tags.MergePrefixKeepsNames | src/models/FileModel.php:1146-1158 | Over the whole merge the list never shrinks and old positions keep their names |
| Tags.MergePrefixFrame | src/models/FileModel.php:1146-1158 | An old tag that is the first match of none of the file's tags comes out of the whole merge untouched |
| Tags.MergePrefixGrows | src/models/FileModel.php:1146-1158 | The merge leaves the list's length unchanged exactly when every one of the file's tag names is already present |
| Tags.MergePrefixCovers | src/models/FileModel.php:1146-1158 | After the merge every one of the file's tag names is present |
| Tags.MergePrefixDistinct | src/models/FileModel.php:1146-1158 | Distinct names stay distinct over the whole merge |
| Tags.MergeAll | src/models/FileModel.php:1146-1158 | Merging all the file's tags keeps old places and names, leaves untouched every old tag that is no tag's first match, grows the list exactly when some name was new, makes every name present and keeps names distinct |
| Tags.SaveFileTag | src/models/FileModel.php:1101-1166 | saveFileTag leaves the state and result SaveTagOutcome describes |
| Tags.SaveFileTagEffect | src/models/FileModel.php:1101-1166 | After success the entry has exactly the given tags and its other fields, nothing else changes, and getFileTags returns the list returned |
| Tags.SaveFileTagDeletes | src/models/FileModel.php:1139-1143 | In delete mode the list is the old one in order without any tag of that name |
| Tags.SaveFileTagMerges | src/models/FileModel.php:1146-1158 | In merge mode old tags keep place and name, an old tag no file tag matches first is untouched, the list grows exactly when some name was new, all the file's names appear, and no duplicate names arise |
| Tags.MergeLastColourWins | src/models/FileModel.php:1146-1158 | The last tag's colour is the one shown for its name afterwards |
| Bootstrap.ReadPlain | src/SharedHosting/bootstrap.php:211 | Digits not followed by a point, a digit or an exponent are read as an integer numeral of exactly that length |
| Bootstrap.ReadDecimal | src/SharedHosting/bootstrap.php:211 | Digits, a point and digits are read as one numeral with that fraction |
| Bootstrap.ReadScientific | src/SharedHosting/bootstrap.php:211 | Digits, "e" and digits are read as one numeral with that exponent |
| Bootstrap.ReadSigned | src/SharedHosting/bootstrap.php:211 | A leading '-' negates the numeral and adds one to its length |
| Bootstrap.ReadSkipsSpace | src/SharedHosting/bootstrap.php:211 | Leading blanks are skipped and counted in the numeral's length |
| Bootstrap.LeadingIntOfDigits | src/SharedHosting/bootstrap.php:211 | The integer cast of digits followed by something other than a digit, a point or an exponent is the digits' value, saturated at PHP_INT_MAX |
| Bootstrap.LeadingIntOfDecimal | src/SharedHosting/bootstrap.php:211 | The integer cast of a decimal drops the fraction, saturated at PHP_INT_MAX |
| Bootstrap.LeadingIntOfScientific | src/SharedHosting/bootstrap.php:211 | The integer cast of digits with an exponent is the digits times the power of ten, saturated at PHP_INT_MAX |
| Bootstrap.LeadingIntNegative | src/SharedHosting/bootstrap.php:211 | A '-' negates the cast value; a saturated value saturates at PHP_INT_MIN or its negation |
| Bootstrap.LeadingIntSkipsSpace | src/SharedHosting/bootstrap.php:211 | Leading blanks do not change the cast value |
| Bootstrap.ScaleByUnitFactors | src/SharedHosting/bootstrap.php:213-220 | The fall-through multiplies by 1024³ for g, 1024² for m, 1024 for k, and not at all otherwise |
| Bootstrap.ConvertToBytesUnits | src/SharedHosting/bootstrap.php:208-223 | Digits followed by K, M or G in either case are the number times 1024, 1024² or 1024³ when that fits in 64 bits, and a return-type error otherwise |
| Bootstrap.ConvertToBytesPlainNumber | src/SharedHosting/bootstrap.php:208-223 | A string of digits converts to its value, saturated at PHP_INT_MAX |
| Bootstrap.ConvertToBytesRoundingEdge | src/SharedHosting/bootstrap.php:211-223 | "-9007199254740993k" converts to PHP_INT_MIN: the product overflows to a float that rounds back to exactly -2^63 |
| Bootstrap.ConvertToBytesIgnoresWhitespace | src/SharedHosting/bootstrap.php:209 | Surrounding whitespace does not change the result |
| Bootstrap.ConvertWithUnit | src/SharedHosting/bootstrap.php:208-223 | A value starting with a digit and ending in K, M or G converts to its cast number times the unit whenever that fits in 64 bits |
| Bootstrap.FractionalGigabyte | src/SharedHosting/bootstrap.php:208-223 | "1.5G" converts to exactly 1 GiB |
| Bootstrap.HalfGigabyteIsZero | src/SharedHosting/bootstrap.php:208-223 | "0.5G" converts to 0 |
| Bootstrap.ExponentMegabytes | src/SharedHosting/bootstrap.php:208-223 | "1e3M" converts to 1000 MiB |
| Bootstrap.NotMinusOneOfInteger | src/SharedHosting/bootstrap.php:107 | "-" and digits equals '-1' under PHP 8's numeric comparison exactly when the digits' value is 1 |
| Bootstrap.MinusOneInteger | src/SharedHosting/bootstrap.php:107 | "-1" and "-01" equal '-1' under PHP 8's numeric comparison |
| Bootstrap.MinusOneSpellings | src/SharedHosting/bootstrap.php:107 | "-1", "-01", "-1.0" and "-1e0" all equal '-1'; "-1M" does not |
| Bootstrap.UnitValueNotNumeric | src/SharedHosting/bootstrap.php:107 | A number with a unit letter, signed or not, is not a numeric string |
| Bootstrap.DesiredLimitReading | src/SharedHosting/bootstrap.php:109 | "128M" is exactly 128 MiB |
| Bootstrap.MemoryFixGuaranteesDesired | src/SharedHosting/bootstrap.php:106-114 | The limit stays, becomes "128M" or the bootstrap stops; it stops exactly when a set limit other than -1 overflows the conversion; with ini_set available, a set limit other than -1 that survives is 128 MiB or more |
| Bootstrap.MemoryFixForUnitValue | src/SharedHosting/bootstrap.php:106-114 | A limit of digits and a unit stops the bootstrap when the product overflows, is raised to "128M" when below 128 MiB and ini_set exists, and is kept otherwise |
| Bootstrap.UnlimitedKept | src/SharedHosting/bootstrap.php:106-114 | An empty limit or one equal to -1 is left alone |
| Bootstrap.SmallLimitRaised | src/SharedHosting/bootstrap.php:106-114 | "64M" is raised exactly when ini_set exists |
| Bootstrap.SufficientLimitsKept | src/SharedHosting/bootstrap.php:106-114 | "128M", "1G", "-1", "-1.0" and "" are left alone |

## Left out

- Filesystem I/O (`copy`, `rename`, `unlink`, `mkdir`, `scandir`, `file_put_contents`, `filesize`): the tree is a map and each primitive's failure is a parameter.
- JSON encoding and decoding: documents are maps and sequences; a missing or undecodable document reads as empty.
- `realpath` and symbolic links: the prefix checks are an oracle, the set `Env.escaping` of paths that resolve outside the uploads directory.
- ZipArchive: opening, adding and `extractTo` are a foreign library. `createZipArchive` is modelled up to the entry list and does not return a temporary path. `extractZipArchive` models the metadata and the report, not the files written.
- `password_hash`, `random_bytes`, `tempnam` and `mime_content_type`: the hash is an opaque `Hashed` value and the token is `Env.token`.
- `time()` and `date()`: they are `Env.now` and `Env.date`.
- `filemtime`, the `%.1f` size text and the text-file content in `getFileList`: only the size unit is modelled.
- `scandir` order: a directory's children are a set, so the listing order is unconstrained.
- `error_log` calls and message texts: errors are `Problem` kinds with the name concerned.
- The "uploads directory not configured" and server-misconfiguration paths: the uploads directory is always given.
- Concurrency: no locking exists, and interleaved requests are not modelled.
- src/SharedHosting/PathResolver.php is not part of this model; nor is the rest of the bootstrap (sessions, encryption, autoloading, `.htaccess` writing).
- Validators.UserNameOk: `\p{L}` and `\p{N}` are classified only for U+0000..U+00FF; letters and digits above U+00FF are rejected by the model but accepted by the pattern.
- Naming.GetUniqueFileName: directory paths are compared as segment sequences; "." and ".." segments inside the directory path and symbolic links are not resolved; only a final name "." or ".." is, and it exists whenever the directory does.
- Bootstrap.LeadingInt: a point or an exponent is read exactly, while PHP converts through a double, so rounding beyond about 15 significant digits is not modelled; a prefix beyond the 64-bit range is saturated, and PHP's handling of an infinite double is not modelled.
- Bootstrap.NotMinusOne: the comparison with '-1' is exact, not through a double, so a numeral within double rounding of -1 (such as "-1.0000000000000001") is not treated as -1.
- FileOps.MoveStepConserves: a moved directory is a single node; its contents do not move with it, so paths below it count as kept, and moving a directory into its own subdirectory is not refused as `rename` refuses it.
- FileOps.MovePrefixConserves: a moved directory is a single node; its contents do not move with it, so paths below it count as kept, and moving a directory into its own subdirectory is not refused as `rename` refuses it.
- FileOps.MoveAndWriteConserves: a moved directory is a single node; its contents do not move with it, so paths below it count as kept, and moving a directory into its own subdirectory is not refused as `rename` refuses it.
- FileOps.MoveFilesConserves: a moved directory is a single node; its contents do not move with it, so paths below it count as kept, and moving a directory into its own subdirectory is not refused as `rename` refuses it.
- FileOps.MoveFiles: a moved directory is a single node; its contents do not move with it, so paths below it count as kept, and moving a directory into its own subdirectory is not refused as `rename` refuses it.
- FileOps.RenameIn: renaming a directory moves the single node, not the paths below it.
- Trash.DeleteStepConserves: a directory moved to the trash is a single node; its contents are not carried along, so paths below it count as kept.
- Trash.DeletePrefixConserves: a directory moved to the trash is a single node; its contents are not carried along, so paths below it count as kept.
- Trash.DeleteAndRecordConserves: a directory moved to the trash is a single node; its contents are not carried along, so paths below it count as kept.
- Trash.DeleteFiles: a directory moved to the trash is a single node; its contents are not carried along, so paths below it count as kept.
- Trash.DeleteFiles: one clock reading `Env.now` is used for the whole batch, while the code calls `time()` once per file, so trash names within one batch share a timestamp.
- FileOps.DownloadDir: "." segments in the folder are ordinary names, while `realpath` drops them; ".." is refused by the code before that.
- Listing.GetFileList: a folder with a ".." segment, such as "../x", passes the folder pattern and the code lists `uploads/../x`, a directory outside the uploads directory; the model (through Listing.ListDir) keeps ".." as an ordinary segment, so it looks for a directory named ".." inside the tree instead.
- FileOps.CreateFile: the folder is not validated, so "../x" makes the code create and write `uploads/../x/a.txt` outside the uploads directory; the model keeps ".." as an ordinary segment and creates the directories `[".."]` and `["..", "x"]` inside the tree.
- Trash.RestoreFiles: the destination built from a ledger record's folder (Trash.RestoreDir) keeps "." and ".." segments as ordinary names, while the code's path would resolve them, possibly outside the uploads directory.
- Store.FolderDir: "." and ".." segments in the folder arguments of copy, move, delete and rename are ordinary names; these operations do not check for ".." and the model does not resolve it.
- Tags.MergePrefixShape: states only places, names and what is added; that every other tag keeps its colour and that a tag is appended exactly when its name is new are stated by Tags.MergePrefixFrame, Tags.MergePrefixGrows and Tags.MergeAll.
- Archive.ExtractTouchesOnlyItsDocument: the files `extractTo` writes into the folder are not modelled, so the tree is left unchanged; only the metadata document is stated.
- Archive.ExtractReport: which archive's metadata entry an extracted name ends up with, when several archives report the same name, is not stated; Archive.ExtractStepStamps states it round by round and Archive.ExtractInEntries only that the entry is one the document held.
