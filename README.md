# Fireli file-system storage engine, modelled in Dafny

Fireli stores uploaded files in named repositories. This project models the
file-system implementation of that engine (`Fireli/src/FSImpl.cs`). Each repository
is a directory below the manager's root folder. Each folder of a repository keeps a
sidecar XML ledger. The ledger has one record per file (a guid, the stored name
`vpath`, and the original file name) plus the repository's quota attributes. Folders
carry no identifier: their guid is `Guid.Empty`.

The model is split into modules:

- `Common` (common.dfy): the vocabulary.
  - Optional values, results, the error kinds the engine lets escape.
  - Guids, decimal text as `ToString()` writes it.
  - `String.Split` and its inverse.
- `DirInfo` (dirinfo.dfy): `XmlFileInfo` and `XmlDirInfo`.
  - The sidecar document is the value `Doc`: a sequence of `Record`s plus three optional quota attributes.
  - `XmlDirInfo` is a class over that document. It has the in-memory document `doc` and the last saved copy `saved`.
  - Its methods update `doc` and `saved` as the C# methods update the `XmlDocument` and the file.
- `FileEntry` (entry.dfy): the path algebra of `FileEntryImpl`.
  - An entry is the chain of names from the repository down to the entry.
  - It gives `Name`, `Parent`, `VirtualPath`, `FullPath` and `Repository`.
- `Repository` (repository.dfy): `FSRepository`.
  - `MapPath`, `RealPath` and the two-level quota override `GetEffectiveQuotasLimit`.
- `Tree` (tree.dfy): the physical state.
  - A repository is a directory tree `Dir`. Each directory holds its files (name to bytes), its subdirectories in listing order, and its ledger.
  - It gives the size of an entry and the recursive total size.
- `Names` (names.dfy): the names `AddFile` tries in `ChangeName` mode (`stem-i.ext`). It shows that the loop ends on the least free counter.
- `FolderLookup` (folder_lookup.dfy): the read-only operations of `FolderImpl`.
  - `GetBy(Guid, recursive)`, `GetBy(virtual path)` and `GetTotalSize`.
- `FolderUpdate` (folder_update.dfy): the operations of `FolderImpl` that change the repository.
  - `AddFile`, `Delete` and `Rename`.
  - Each takes the tree and returns the new tree, with the ledger changes made through an `XmlDirInfo`.
  - The failures the file system may report are boolean parameters, or a predicate over retry attempts.

Two invariants of the physical tree are stated and preserved:

- `Physical`: names of subdirectories are unique, and no name is both a file and a directory.
- `Keyed`: within each ledger, guids are unique and so are the stored names.

Every updating operation proves the following:

- It replaces only the folder it acts on. Other folders are unchanged (`SameElsewhere`), and each folder above keeps its own files and ledger, including the repository's quota attributes (`Tree.ReplaceKeepsAbove`).
- It keeps `Physical`.
- It keeps `Keyed` (for `AddFile`, given a fresh guid).

Where the code and the engine's documented behaviour differ, the model follows the
code:

- The quota gate refuses a file only when the repository's total size is strictly greater than the effective limit. A repository exactly at its limit still accepts one more file.
- Only `AddFile` on the ledger, and loading the sidecar, retry an `IOException`. The quota setters, `Rename` and `Delete` save once.
- A malformed limit attribute reads as 0, but one outside the 64-bit range makes the getter throw (`Overflow`).
- A sidecar that is not well-formed XML makes loading throw. It is not read as an empty ledger. That path is listed under "## Left out".

## Model

| member | source | states |
|---|---|---|
| DirInfo.RecordOf | Fireli/src/FSImpl.cs:43-47 | CopyTo writes all three attributes, so reading the written record back gives the same file info. |
| DirInfo.IndexOfGuid | Fireli/src/FSImpl.cs:149-154 | The position of the first record with that guid. It is None exactly when no record has it. |
| DirInfo.IndexOfName | Fireli/src/FSImpl.cs:156-161 | The position of the first record with that vpath. It is None exactly when no record has it. |
| DirInfo.RemoveGuidKeepsOthers | Fireli/src/FSImpl.cs:182-187 | Delete removes exactly the first record with the guid and keeps the order of all others. A missing guid leaves the ledger unchanged. |
| DirInfo.RemoveGuidWellKeyed | Fireli/src/FSImpl.cs:182-187 | In a well-keyed ledger (unique guids, unique names), no record with the guid is left after Delete, and the ledger stays well keyed. |
| DirInfo.RenameGuidKeepsOthers | Fireli/src/FSImpl.cs:141-147 | Rename changes only the first record with the guid, setting vpath and original name to the new name. That record is then found by the new name, and a well-keyed ledger stays well keyed. |
| DirInfo.AppendWellKeyed | Fireli/src/FSImpl.cs:119-125 | Appending a record whose guid and name are not in a well-keyed ledger keeps it well keyed. |
| DirInfo.BoolAttribute | Fireli/src/FSImpl.cs:68-78 | A boolean quota attribute reads true exactly when it is present and case-insensitively "true". Missing, empty or malformed reads false. |
| DirInfo.LongAttribute | Fireli/src/FSImpl.cs:102-112 | The limit reads 0 when missing, empty or malformed. It reads as a 64-bit value otherwise, and overflows when out of range. |
| DirInfo.BoolAttributeRoundTrip | Fireli/src/FSImpl.cs:79-82 | What a boolean setter writes (`True`/`False`), the getter reads back. |
| DirInfo.LongAttributeRoundTrip | Fireli/src/FSImpl.cs:113-116 | What the limit setter writes (`ToString()` of a 64-bit value), the getter reads back. |
| DirInfo.XmlDirInfo.constructor | Fireli/src/FSImpl.cs:54-66 | The in-memory ledger is the stored one. |
| DirInfo.XmlDirInfo.Retry | Fireli/src/FSImpl.cs:189-203 | It makes at most four attempts and stops at the first that succeeds. Every earlier attempt failed. It fails only after four failures. |
| DirInfo.XmlDirInfo.SetQuotasCustomSettings | Fireli/src/FSImpl.cs:79-82 | It writes the attribute, the getter then returns the value, and it saves once. |
| DirInfo.XmlDirInfo.SetQuotasEnabled | Fireli/src/FSImpl.cs:96-99 | It writes the attribute, the getter then returns the value, and it saves once. |
| DirInfo.XmlDirInfo.SetQuotasLimit | Fireli/src/FSImpl.cs:113-116 | It writes the attribute, the getter then returns the value, and it saves once. |
| DirInfo.XmlDirInfo.IndexByGuid | Fireli/src/FSImpl.cs:149-154 | The loop over the ledger's elements finds the first record with the guid. |
| DirInfo.XmlDirInfo.IndexByName | Fireli/src/FSImpl.cs:156-161 | The loop over the ledger's elements finds the first record with the vpath. |
| DirInfo.XmlDirInfo.GetFileByGuid | Fireli/src/FSImpl.cs:163-166 | null exactly when no record has the guid. Otherwise the first such record's file info. |
| DirInfo.XmlDirInfo.GetFileByName | Fireli/src/FSImpl.cs:168-171 | null exactly when no record has the name. Otherwise the first such record's file info. |
| DirInfo.XmlDirInfo.GetAll | Fireli/src/FSImpl.cs:173-180 | The file info of every record, in ledger order. |
| DirInfo.XmlDirInfo.AddFile | Fireli/src/FSImpl.cs:119-125 | It appends the record at the end and saves with retry. The file holds the new ledger exactly when some attempt succeeds. |
| DirInfo.XmlDirInfo.AddFileNamed | Fireli/src/FSImpl.cs:127-129 | It appends a record whose original name is its vpath. |
| DirInfo.XmlDirInfo.AssertCanRename | Fireli/src/FSImpl.cs:131-139 | A taken new name is refused first. Then an unknown guid is refused. Otherwise it passes. |
| DirInfo.XmlDirInfo.Rename | Fireli/src/FSImpl.cs:141-147 | Refusals as AssertCanRename. A record without `originalFilename` throws after vpath was changed in memory and is not saved. Otherwise the record is renamed and saved once. |
| DirInfo.XmlDirInfo.Delete | Fireli/src/FSImpl.cs:182-187 | It drops the first record with the guid, if any, and always saves once. |
| FileEntry.FullPathIsRepositoryThenVirtualPath | Fireli/src/FSImpl.cs:430-444 | An entry's full path is its repository's name followed by its virtual path. |
| FileEntry.VirtualPathIsJoin | Fireli/src/FSImpl.cs:438-444 | Below the repository, the virtual path is "/" followed by the names below the repository joined with "/". |
| FileEntry.ChainNames | Fireli/src/FSImpl.cs:438-444 | For an entry whose names the folders accepted, every name below the repository is free of '/', and the virtual path is "/" followed by them joined with "/", the last being the entry's name. |
| FileEntry.Repository | Fireli/src/FSImpl.cs:382-391 | Walking up the parents ends at the entry's repository. |
| Repository.EffectiveQuotasLimit | Fireli/src/FSImpl.cs:360-365 | With custom settings on, the result is the repository's limit attribute when its quotas are enabled, and 0 otherwise. With them off, it is the manager's limit when the manager's quotas are enabled, and 0 otherwise. The only failure is an overflowing limit attribute. |
| Repository.EffectiveQuotasLimitOfSettings | Fireli/src/FSImpl.cs:333-365 | After the setters have written custom, enabled and limit, the effective limit is: custom ? (enabled ? limit : 0) : (manager enabled ? manager limit : 0). |
| Repository.RealPathIsChain | Fireli/src/FSImpl.cs:290-301 | MapPath of an entry's virtual path places it at the root folder followed by the repository's name and the names down to the entry. |
| Tree.FileSizeIsSize | Fireli/src/FSImpl.cs:409-420 | The size a folder adds up for a ledger file is that entry's Size: 0 for a directory, the length for a file, and -1 when nothing of that name exists. |
| Tree.TotalSizeNonNegative | Fireli/src/FSImpl.cs:640-647 | When every ledger record has its file, the total size is not negative. |
| Tree.FilesTotalCountsMissing | Fireli/src/FSImpl.cs:640-647 | A ledger record with neither a file nor a directory of its name lowers the running total by exactly one. A record that has one does not lower it. So the total is never below minus the number of missing records, and a folder whose records all miss totals minus its record count. |
| Tree.ReplaceKeepsAbove | Fireli/src/FSImpl.cs:649-656 | Writing a folder's new state back changes no folder above it: each keeps its own files and ledger. |
| Names.StemExt | Fireli/src/FSImpl.cs:522 | The stem and the extension make up the name again, less a trailing '.'. |
| Names.CandidateInjective | Fireli/src/FSImpl.cs:522 | Different counters give different candidate names. |
| Names.CandidatesCount | Fireli/src/FSImpl.cs:520-526 | The first n candidates are n distinct names, so the do-while loop ends within one more step than there are files. |
| Names.FreeIndex | Fireli/src/FSImpl.cs:520-526 | The least counter from 1 whose candidate is not an existing file. |
| Names.ChooseFreeName | Fireli/src/FSImpl.cs:520-526 | The loop returns the least free counter and its candidate name, and every smaller counter's name is taken. |
| Names.FirstCandidate | Fireli/src/FSImpl.cs:520-526 | With "report.txt" taken, the file is stored as "report-1.txt". |
| FolderLookup.GetByGuid | Fireli/src/FSImpl.cs:551-565 | The folder's own ledger is searched first. Unless recursive, it finds exactly the guids of that ledger. When recursive, it finds exactly the guids held anywhere below. A match below is reported under the first subfolder, in listing order, whose tree holds the guid. In a well-formed tree, what it returns is where the path it reports leads. |
| FolderLookup.SearchSubdirs | Fireli/src/FSImpl.cs:556-562 | The foreach over the subfolders finds a file exactly when some later subfolder holds it. It reports the file under the first such subfolder's name; every subfolder before that one holds nothing with the guid. |
| FolderLookup.GetByGuidDepthFirst | Fireli/src/FSImpl.cs:551-565 | The recursive search is depth-first. A guid missing from the folder's own ledger is returned as the first subfolder holding it returns it from its own recursive search, which checks that subfolder's ledger first and then its subfolders in order. The result's path is that subfolder's name followed by the path the subfolder reports. |
| FolderLookup.SearchSubdirsDepthFirst | Fireli/src/FSImpl.cs:556-562 | From subfolder i on, the loop returns the result of the first subfolder whose own recursive GetBy finds the guid, prefixed with that subfolder's name. Every subfolder before it finds nothing. |
| FolderLookup.GetByPath | Fireli/src/FSImpl.cs:567-599 | The loop over the path elements returns what the element-by-element walk as written defines. The empty path gives the folder itself. |
| FolderLookup.RejectsEmptyElement | Fireli/src/FSImpl.cs:578-579 | An empty element reached by the walk makes the lookup throw an ArgumentException. |
| FolderLookup.RejectsMissingFolder | Fireli/src/FSImpl.cs:581-584 | A non-final element that is not a directory makes the lookup fail. |
| FolderLookup.ResolveFindsEntry | Fireli/src/FSImpl.cs:567-599 | Looking up an entry's own virtual path as intended gives one of three results. A directory here gives that folder. Otherwise the first ledger record of that name in the entry's own folder gives that file. With neither, the result is null. |
| FolderLookup.ResolveAsWrittenReadsRepositoryLedger | Fireli/src/FSImpl.cs:572-593 | As written, the file part of an entry's virtual path is looked up only in the repository's own ledger, whatever folder the walk reached. |
| FolderLookup.ResolveAsWrittenMissesNestedFile | Fireli/src/FSImpl.cs:591-593 | A file b.txt in folder a is not found as written by its own virtual path "/a/b.txt", but is found as intended. |
| FolderLookup.GetTotalSize | Fireli/src/FSImpl.cs:634-647 | The two loops add the subfolders' totals and then the ledger files' sizes. The result is the recursive total size. |
| FolderUpdate.StoredNameIsFree | Fireli/src/FSImpl.cs:516-526 | In ChangeName mode a clashing file gets a name that neither it nor any file has. Otherwise the requested name is kept. |
| FolderUpdate.AddFile | Fireli/src/FSImpl.cs:500-545 | The error checks come in source order: invalid name, overflowing limit, quota reached (strictly over), folder of that name, missing folder, Throw on an existing file, directory under the chosen name, write failure. On that last failure the tree is unchanged. Otherwise the content is written. An existing ledger record of the stored name returns its guid. Otherwise a record is appended with the fresh guid and saved with retry, and a failed save leaves the written file without a record. A success leaves the file and its record in the folder. Nothing outside the folder changes, and both tree invariants are kept. |
| FolderUpdate.Store | Fireli/src/FSImpl.cs:528-544 | The content is written under the stored name, and the ledger result is as in AddFile. |
| FolderUpdate.RemovedKeeps | Fireli/src/FSImpl.cs:605-610 | Physical deletion goes by what is on disk. A directory of that name is removed with all it holds. Otherwise the file of that name is removed, and nothing happens when there is none. The ledger and both tree invariants are kept, and in a well-formed folder nothing of that name is left. |
| FolderUpdate.Delete | Fireli/src/FSImpl.cs:601-616 | A missing folder fails. An UnauthorizedAccessException from the deletion always escapes, with nothing changed. An IOException escapes unchanged unless ignoreErrors. Otherwise the entry is removed from disk as the disk holds it: a directory, or a file, whatever the entry's kind. Then the first record with the entry's guid is dropped and the ledger is saved once, even when the physical deletion failed. After a success, no record with the guid is left in a well-keyed ledger. |
| FolderUpdate.Forget | Fireli/src/FSImpl.cs:615 | The ledger half of Delete: drop the first record with the guid and save once. |
| FolderUpdate.MovedKeeps | Fireli/src/FSImpl.cs:626-630 | Moving a file or directory to a name nothing has keeps both tree invariants. A moved directory keeps its content. |
| FolderUpdate.Relabel | Fireli/src/FSImpl.cs:627 | The ledger half of a file rename. A record without `originalFilename` throws with the ledger unsaved. Otherwise the record is renamed, saved once, and found by its new name. |
| FolderUpdate.Rename | Fireli/src/FSImpl.cs:618-632 | An empty name, or one with '/', is refused. For a file, the ledger's checks (new name taken, guid unknown) come before the move. A failed move (file system failure, missing file, name taken) changes nothing. A record without `originalFilename` leaves the file moved and the ledger as it was. Otherwise the record is renamed and saved once, and afterwards the new name holds the same content and its record. For a folder, only the directory moves, and it keeps its content. A missing entry or a taken name fails with nothing changed. Nothing outside the folder changes, and both tree invariants are kept. |

## Left out

- Loading the sidecar file and its retry are not modelled. A folder's ledger is the parsed document the tree holds.
  - A sidecar that is not well-formed XML (the `XmlException` escapes) is not modelled.
  - A sidecar whose root element is not `root` (it is replaced by an empty ledger) is not modelled.
- The lazily cached `XmlDirInfo` of `FolderImpl` (lines 649-656) is not modelled. Every operation reads the ledger the tree holds. So after a failed save, the in-memory record a cached instance still shows is not modelled (`saved` is what the tree keeps).
- A record without a `guid` or `vpath` attribute makes `XmlFileInfo` throw. Records always carry both in the model.
- Guids are compared as numbers. Their text form, and parsing it, are not modelled.
- File names are compared exactly.
  - Case-insensitive file systems are not modelled.
  - The element names "." and ".." are not modelled.
  - A name containing '\\' or ':', on which `Path.GetExtension` stops, is not modelled.
  - Rooted names that `Path.Combine` would not append are not modelled.
- The sidecar file is not one of a folder's files. Adding a file named like it is not modelled.
- The 8192-byte copy loop is one write of the whole content. `writeFails` says whether the `FileStream` cannot be created or written. A partly written file is not modelled.
- `Convert.ToBoolean` and `Convert.ToInt64` are modelled on ASCII text. Their trimming of white space and culture rules are not modelled.
- FolderLookup.GetTotalSize: does not model the wrap-around of the 64-bit `long` sum, because any real repository's total is far below 2^63 bytes. Totals are unbounded integers.
- Delete and Rename take an entry of the folder itself (a name and, for a file, its guid). The `"This ain't mine"` type check and entries of other folders are not modelled. When the folder itself is missing on disk, Delete is one `IOFailure`, whether the deletion or the ledger's save throws.
- FolderUpdate.Rename: after `Directory.Move`, the renamed directory keeps its place in the folder's listing. The order a real directory listing yields afterwards is not modelled.
- `MkDir` (lines 547-549), `FileImpl.GetInputStream`, `FSRepository.Import`, `EnsureRepositoryFolder` and `Delete`, `FSRepMan`, the configurator and the database implementation (`DBImpl.cs`) are not part of this model. `GetFiles` and `GetFolders` are covered by `XmlDirInfo.GetAll` and the tree's listing of subdirectories.
- Other external effects become parameters:
  - `Guid.NewGuid` is the parameter `freshGuid`.
  - `Thread.Sleep` between retries is dropped.
  - The file system's failures are parameters.
- Tree.FileSize and FolderUpdate.Delete: a ledger record whose vpath is empty or contains '/' is read as one name in the folder. AddFile and Rename only write valid names, so only a hand-edited sidecar holds such a record. The source maps the vpath through `MapPath` (lines 290-295, 395). An empty vpath is then the folder itself: Size is 0 and Delete removes the folder. A vpath "x/y" is then a nested path. The model gives -1 for the size of such a record, and Delete removes nothing.
- FolderUpdate.Delete: a recursive `Directory.Delete` that throws part way through leaves part of the directory deleted. The model treats a failed deletion as having removed nothing.
- Concurrent access by several processes is not modelled.

## Findings

| source | as written | input that shows it | evidently intended | confidence | as-written member | corrected member |
|---|---|---|---|---|---|---|
| Fireli/src/FSImpl.cs:591 | The final path element's file is looked up in `XmlDirInfo`, the ledger of the folder the lookup started from (the repository, for a path starting with "/"), not in `current.XmlDirInfo` | a repository whose folder `a` holds `b.txt` with its record in `a`'s ledger; `GetBy("/a/b.txt")` returns null | the file is looked up in the ledger of the folder the walk reached, so `GetBy(entry.VirtualPath)` returns the entry | not executed | FolderLookup.ResolveAsWrittenMissesNestedFile | FolderLookup.ResolveFindsEntry |
