/** The operations of FolderImpl that change the repository: AddFile, Delete and
    Rename. Each takes the directory tree and returns the new one; the failures the
    file system may report are parameters. */
module FolderUpdate {
  import opened Common
  import opened DirInfo
  import opened Tree
  import opened Repository
  import opened Names
  import FolderLookup

  // ---------------------------------------------------------------------------
  // AddFile
  // ---------------------------------------------------------------------------

  /** What AddFile does when a file of that name exists. */
  datatype AddFileMode = Overwrite | Throw | ChangeName

  /** AddFile's quota gate: a limit is in force when it is positive, and it is
      reached only once the repository's total size exceeds it. */
  predicate QuotaReached(root: Dir, m: ManagerQuotas) {
    var eff := EffectiveQuotasLimit(root.ledger, m);
    eff.Ok? && eff.value > 0 && TotalSize(root) > eff.value
  }

  /** The name passes validation and the quota gate lets the call through. */
  predicate Admitted(root: Dir, m: ManagerQuotas, name: string) {
    ValidName(name) && EffectiveQuotasLimit(root.ledger, m).Ok? && !QuotaReached(root, m)
  }

  /** The name the content is stored under in the folder d. */
  function StoredName(d: Dir, name: string, mode: AddFileMode): string {
    if name in d.files && mode == ChangeName then Candidate(name, FreeIndex(d.files.Keys, name))
    else name
  }

  /** ChangeName stores a clashing file under a name that is neither the requested
      one nor that of any existing file; otherwise the requested name is kept. */
  lemma StoredNameIsFree(d: Dir, name: string, mode: AddFileMode)
    ensures name in d.files && mode == ChangeName ==>
      StoredName(d, name, mode) !in d.files && StoredName(d, name, mode) != name
    ensures !(name in d.files && mode == ChangeName) ==> StoredName(d, name, mode) == name
  {
  }

  /** The folder after the content has been written under v. */
  function Written(d: Dir, v: string, content: seq<byte>): Dir {
    d.(files := d.files[v := content])
  }

  /** Writing a file under a name no subdirectory has keeps the folder's guarantees. */
  lemma WrittenKeeps(d: Dir, v: string, content: seq<byte>, ledger: Doc)
    requires !IsSubdir(d, v)
    ensures Physical(d) ==> Physical(Written(d, v, content))
    ensures Physical(d) ==> Physical(Written(d, v, content).(ledger := ledger))
    ensures Keyed(d) ==> Keyed(Written(d, v, content))
    ensures Keyed(d) && WellKeyed(ledger.records) ==> Keyed(Written(d, v, content).(ledger := ledger))
  {
  }

  /** AddFile(Name, stream, mode) on the folder at. The repository's quota settings
      live in the ledger of the tree's root; the manager's are m. freshGuid is the
      identifier Guid.NewGuid hands out, writeFails says whether creating or writing
      the file throws an IOException, and saveFailing(i) whether the i-th attempt to
      save the ledger does. */
  method AddFile(root: Dir, m: ManagerQuotas, at: seq<string>, name: string, content: seq<byte>,
                 mode: AddFileMode, freshGuid: Guid, writeFails: bool, saveFailing: nat -> bool)
    returns (r: Result<Guid>, root': Dir)
    ensures !ValidName(name) ==> r == Err(InvalidArgument) && root' == root
    ensures ValidName(name) && EffectiveQuotasLimit(root.ledger, m).Err? ==>
      r == Err(Overflow) && root' == root
    ensures ValidName(name) && QuotaReached(root, m) ==> r == Err(QuotaExceeded) && root' == root
    ensures Admitted(root, m, name) && IsDirAt(root, at + [name]) ==>
      r == Err(FolderExists) && root' == root
    ensures Admitted(root, m, name) && !IsDirAt(root, at) ==> r == Err(IOFailure) && root' == root
    ensures Admitted(root, m, name) && IsDirAt(root, at) && !IsDirAt(root, at + [name]) ==>
      var d := Lookup(root, at).value;
      var v := StoredName(d, name, mode);
      var rs := d.ledger.records;
      if name in d.files && mode == Throw then r == Err(FileExists) && root' == root
      else if IsSubdir(d, v) then r == Err(AccessDenied) && root' == root
      else if writeFails then r == Err(IOFailure) && root' == root
      else if HasName(rs, v) then
        r == Ok(rs[IndexOfName(rs, v).value].guid) && root' == Replace(root, at, Written(d, v, content))
      else if RetrySucceeds(saveFailing) then
        r == Ok(freshGuid) &&
        root' == Replace(root, at, Written(d, v, content).(ledger := d.ledger.(records := rs + [Record(freshGuid, v, Some(name))])))
      else
        r == Err(IOFailure) && root' == Replace(root, at, Written(d, v, content))
    ensures r.Err? && r.error != IOFailure ==> root' == root
    ensures r.Ok? ==> IsDirAt(root, at) && IsDirAt(root', at)
    ensures r.Ok? ==>
      var v := StoredName(Lookup(root, at).value, name, mode);
      var d' := Lookup(root', at).value;
      && v in d'.files && d'.files[v] == content
      && HasName(d'.ledger.records, v)
      && d'.ledger.records[IndexOfName(d'.ledger.records, v).value].guid == r.value
    ensures SameElsewhere(root, root', at)
    ensures Physical(root) ==> Physical(root')
    ensures Keyed(root) && !HasGuid(LedgerAt(root, at), freshGuid) ==> Keyed(root')
  {
    root' := root;
    if name == "" || '/' in name {
      return Err(InvalidArgument), root;
    }
    var eff := EffectiveQuotasLimit(root.ledger, m);
    if eff.Err? {
      return Err(eff.error), root;
    }
    var total := FolderLookup.GetTotalSize(root);
    if eff.value > 0 && total > eff.value {
      return Err(QuotaExceeded), root;
    }
    LookupAppend(root, at, name);
    if IsDirAt(root, at + [name]) {
      return Err(FolderExists), root;
    }
    var folder := Lookup(root, at);
    if folder.None? {
      return Err(IOFailure), root;
    }
    var d := folder.value;
    var fexists := name in d.files;
    if fexists && mode == Throw {
      return Err(FileExists), root;
    }
    var vpath := name;
    if fexists && mode == ChangeName {
      var i;
      i, vpath := ChooseFreeName(d.files.Keys, name);
    }
    assert vpath == StoredName(d, name, mode);
    if IsSubdir(d, vpath) {
      return Err(AccessDenied), root;
    }
    if writeFails {
      return Err(IOFailure), root;
    }
    r, root' := Store(root, at, name, vpath, content, freshGuid, saveFailing);
  }

  /** AddFile once the content is written to the file v of the folder at: answer with
      the identifier of the ledger's first record named v if there is one, else add a
      record with a fresh identifier and save the ledger with retry. */
  method Store(root: Dir, at: seq<string>, name: string, v: string, content: seq<byte>,
               freshGuid: Guid, saveFailing: nat -> bool)
    returns (r: Result<Guid>, root': Dir)
    requires IsDirAt(root, at) && !IsSubdir(Lookup(root, at).value, v)
    ensures
      var d := Lookup(root, at).value;
      var rs := d.ledger.records;
      if HasName(rs, v) then
        r == Ok(rs[IndexOfName(rs, v).value].guid) && root' == Replace(root, at, Written(d, v, content))
      else if RetrySucceeds(saveFailing) then
        r == Ok(freshGuid) &&
        root' == Replace(root, at, Written(d, v, content).(ledger := d.ledger.(records := rs + [Record(freshGuid, v, Some(name))])))
      else
        r == Err(IOFailure) && root' == Replace(root, at, Written(d, v, content))
    ensures IsDirAt(root', at)
    ensures r.Ok? ==>
      var d' := Lookup(root', at).value;
      && v in d'.files && d'.files[v] == content
      && HasName(d'.ledger.records, v)
      && d'.ledger.records[IndexOfName(d'.ledger.records, v).value].guid == r.value
    ensures SameElsewhere(root, root', at)
    ensures Physical(root) ==> Physical(root')
    ensures Keyed(root) && !HasGuid(LedgerAt(root, at), freshGuid) ==> Keyed(root')
  {
    var d := Lookup(root, at).value;
    var written := Written(d, v, content);
    LookupKeeps(root, at);
    var info := new XmlDirInfo(d.ledger);
    var xfi := info.GetFileByName(v);
    if xfi.Some? {
      root' := Replace(root, at, written);
      WrittenKeeps(d, v, content, d.ledger);
      ReplaceFolder(root, at, written);
      r := Ok(xfi.value.guid);
    } else {
      var ok := info.AddFile(FileInfo(freshGuid, v, name), saveFailing);
      var d' := written.(ledger := info.saved);
      root' := Replace(root, at, d');
      var rec := Record(freshGuid, v, Some(name));
      assert (d.ledger.records + [rec])[|d.ledger.records|] == rec;
      if ok && Keyed(d) && !HasGuid(d.ledger.records, freshGuid) {
        AppendWellKeyed(d.ledger.records, rec);
      }
      WrittenKeeps(d, v, content, info.saved);
      ReplaceFolder(root, at, d');
      r := if ok then Ok(freshGuid) else Err(IOFailure);
    }
  }

  // ---------------------------------------------------------------------------
  // Delete and Rename
  // ---------------------------------------------------------------------------

  /** An entry of the folder, as Delete and Rename receive it: a file with its name
      and identifier, or a folder with its name. */
  datatype Target = FileTarget(name: string, guid: Guid) | FolderTarget(name: string)

  /** IFileEntry.Guid: a folder's identifier is Guid.Empty. */
  function Id(t: Target): Guid {
    if t.FileTarget? then t.guid else EmptyGuid
  }

  /** A file or a directory of that name is in the folder. */
  predicate Taken(d: Dir, n: string) {
    IsSubdir(d, n) || n in d.files
  }

  /** The folder after the physical deletion of the entry named n. FileEntryImpl.IsFolder
      asks the file system, not the entry: when n is a directory, Directory.Delete(path,
      true) removes it with all it holds; otherwise File.Delete removes the file of that
      name, and does nothing when there is none. */
  function Removed(d: Dir, n: string): Dir {
    match SubIndex(d.subdirs, n)
    case Some(i) => d.(subdirs := d.subdirs[..i] + d.subdirs[i + 1..])
    case None => d.(files := d.files - {n})
  }

  /** Physical deletion keeps the folder's guarantees and its ledger, and the entry is
      gone afterwards. */
  lemma RemovedKeeps(d: Dir, n: string)
    ensures Removed(d, n).ledger == d.ledger
    ensures Physical(d) ==> Physical(Removed(d, n))
    ensures Keyed(d) ==> Keyed(Removed(d, n))
    ensures !IsSubdir(d, n) ==> Removed(d, n).files == d.files - {n} && Removed(d, n).subdirs == d.subdirs
    ensures IsSubdir(d, n) ==> Removed(d, n).files == d.files && |Removed(d, n).subdirs| == |d.subdirs| - 1
    ensures Physical(d) ==> n !in Removed(d, n).files && !IsSubdir(Removed(d, n), n)
  {
    match SubIndex(d.subdirs, n) {
      case None =>
      case Some(i) => WithoutSubdirKeeps(d, i);
    }
  }

  /** Dropping the i-th subdirectory keeps the folder's guarantees; when names are
      unique, no subdirectory of that name is left. */
  lemma WithoutSubdirKeeps(d: Dir, i: nat)
    requires i < |d.subdirs|
    ensures var e := d.(subdirs := d.subdirs[..i] + d.subdirs[i + 1..]);
      && (Physical(d) ==> Physical(e) && !IsSubdir(e, d.subdirs[i].name))
      && (Keyed(d) ==> Keyed(e))
  {
    var s := d.subdirs[..i] + d.subdirs[i + 1..];
    assert forall k :: 0 <= k < |s| ==> s[k] == d.subdirs[if k < i then k else k + 1];
  }

  /** Delete(fe, ignoreErrors) on the folder at, for an entry of that folder. The
      physical deletion comes first. An IOException from it escapes unless ignoreErrors;
      an UnauthorizedAccessException (a read-only file, say) always escapes. Unless one
      escaped, the ledger then drops the first record with the entry's identifier and is
      saved once, whether or not the physical deletion succeeded. physFails, denied and
      saveFails say whether the deletion throws an IOException, whether it throws an
      UnauthorizedAccessException, and whether the save throws an IOException. */
  method Delete(root: Dir, at: seq<string>, t: Target, ignoreErrors: bool, physFails: bool, denied: bool,
                saveFails: bool)
    returns (o: Outcome, root': Dir)
    ensures !IsDirAt(root, at) ==> o == Failed(IOFailure) && root' == root
    ensures IsDirAt(root, at) && denied ==> o == Failed(AccessDenied) && root' == root
    ensures IsDirAt(root, at) && !denied ==>
      var d := Lookup(root, at).value;
      var d1 := if physFails then d else Removed(d, t.name);
      if physFails && !ignoreErrors then o == Failed(IOFailure) && root' == root
      else
        && o == (if saveFails then Failed(IOFailure) else Done)
        && root' == Replace(root, at,
             if saveFails then d1 else d1.(ledger := d.ledger.(records := RemoveGuid(d.ledger.records, Id(t)))))
    ensures o == Done ==> IsDirAt(root, at) && IsDirAt(root', at)
    ensures o == Done && Keyed(root) ==> !HasGuid(LedgerAt(root', at), Id(t))
    ensures o == Done && !physFails && !IsSubdir(Lookup(root, at).value, t.name) ==>
      t.name !in Lookup(root', at).value.files
    ensures o == Done && !physFails && Physical(root) ==>
      t.name !in Lookup(root', at).value.files && !IsDirAt(root', at + [t.name])
    ensures SameElsewhere(root, root', at)
    ensures Physical(root) ==> Physical(root')
    ensures Keyed(root) ==> Keyed(root')
  {
    root' := root;
    var folder := Lookup(root, at);
    if folder.None? {
      return Failed(IOFailure), root;
    }
    var d := folder.value;
    if denied {
      return Failed(AccessDenied), root;
    }
    var d1 := d;
    if physFails {
      if !ignoreErrors {
        return Failed(IOFailure), root;
      }
    } else {
      d1 := Removed(d, t.name);
    }
    LookupKeeps(root, at);
    RemovedKeeps(d, t.name);
    o, root' := Forget(root, at, d1, Id(t), saveFails);
    LookupAppend(root', at, t.name);
  }

  /** The ledger half of Delete: the folder at now holds d1 on disk; drop the first
      record with g from its ledger and save once. */
  method Forget(root: Dir, at: seq<string>, d1: Dir, g: Guid, saveFails: bool)
    returns (o: Outcome, root': Dir)
    requires IsDirAt(root, at) && d1.ledger == Lookup(root, at).value.ledger
    ensures o == (if saveFails then Failed(IOFailure) else Done)
    ensures root' == Replace(root, at,
      if saveFails then d1 else d1.(ledger := d1.ledger.(records := RemoveGuid(d1.ledger.records, g))))
    ensures Lookup(root', at).Some?
    ensures o == Done && Keyed(root) ==> !HasGuid(LedgerAt(root', at), g)
    ensures Lookup(root', at).value.files == d1.files && Lookup(root', at).value.subdirs == d1.subdirs
    ensures SameElsewhere(root, root', at)
    ensures Physical(root) && Physical(d1) ==> Physical(root')
    ensures Keyed(root) && Keyed(d1) ==> Keyed(root')
  {
    LookupKeeps(root, at);
    var info := new XmlDirInfo(d1.ledger);
    o := info.Delete(g, saveFails);
    var d' := d1.(ledger := info.saved);
    root' := Replace(root, at, d');
    if Keyed(Lookup(root, at).value) {
      RemoveGuidWellKeyed(d1.ledger.records, g);
    }
    ReplaceFolder(root, at, d');
  }

  /** The folder after File.Move (or Directory.Move of a file) from n to newName. */
  function MovedFile(d: Dir, n: string, newName: string): Dir
    requires n in d.files
  {
    d.(files := (d.files - {n})[newName := d.files[n]])
  }

  /** The folder after Directory.Move of its subdirectory n to newName. */
  function MovedDir(d: Dir, n: string, newName: string): Dir
    requires IsSubdir(d, n)
  {
    var i := SubIndex(d.subdirs, n).value;
    d.(subdirs := d.subdirs[i := Sub(newName, d.subdirs[i].dir)])
  }

  /** Moving to a name nothing has keeps the folder's guarantees. */
  lemma MovedKeeps(d: Dir, n: string, newName: string, ledger: Doc)
    requires !Taken(d, newName)
    ensures n in d.files && Physical(d) ==> Physical(MovedFile(d, n, newName).(ledger := ledger))
    ensures n in d.files && Keyed(d) && WellKeyed(ledger.records) ==>
      Keyed(MovedFile(d, n, newName).(ledger := ledger))
    ensures IsSubdir(d, n) && Physical(d) ==> Physical(MovedDir(d, n, newName))
    ensures IsSubdir(d, n) && Keyed(d) ==> Keyed(MovedDir(d, n, newName))
    ensures IsSubdir(d, n) && Physical(d) ==>
      Child(MovedDir(d, n, newName), newName) == Child(d, n)
  {
    if IsSubdir(d, n) {
      var i := SubIndex(d.subdirs, n).value;
      var e := MovedDir(d, n, newName);
      assert e.subdirs[i].name == newName;
      assert forall k :: 0 <= k < |e.subdirs| && k != i ==> e.subdirs[k] == d.subdirs[k];
      if Physical(d) {
        assert SubIndex(e.subdirs, newName) == Some(i);
      }
    }
  }

  /** The ledger half of Rename for a file: the folder at now holds moved on disk;
      give the first record with g the name newName in the ledger and save once. */
  method Relabel(root: Dir, at: seq<string>, moved: Dir, g: Guid, newName: string, saveFails: bool)
    returns (o: Outcome, root': Dir)
    requires IsDirAt(root, at) && moved.ledger == Lookup(root, at).value.ledger
    requires HasGuid(moved.ledger.records, g) && !HasName(moved.ledger.records, newName)
    ensures
      var rs := moved.ledger.records;
      var r := rs[IndexOfGuid(rs, g).value];
      if r.originalFilename.None? then o == Failed(MissingAttribute) && root' == Replace(root, at, moved)
      else
        && o == (if saveFails then Failed(IOFailure) else Done)
        && root' == Replace(root, at,
             if saveFails then moved else moved.(ledger := moved.ledger.(records := RenameGuid(rs, g, newName))))
    ensures Lookup(root', at).Some?
    ensures Lookup(root', at).value.files == moved.files
    ensures o == Done ==>
      var rs' := Lookup(root', at).value.ledger.records;
      HasName(rs', newName) && InfoOf(rs'[IndexOfName(rs', newName).value]) == FileInfo(g, newName, newName)
    ensures SameElsewhere(root, root', at)
    ensures Physical(root) && Physical(moved) ==> Physical(root')
    ensures Keyed(root) && Keyed(moved) ==> Keyed(root')
  {
    var info := new XmlDirInfo(moved.ledger);
    o := info.Rename(g, newName, saveFails);
    var d' := moved.(ledger := info.saved);
    root' := Replace(root, at, d');
    RenameGuidKeepsOthers(moved.ledger.records, g, newName);
    ReplaceFolder(root, at, d');
  }

  /** Directory.Move inside the folder at, seen from the whole tree. */
  lemma MovedEntry(root: Dir, at: seq<string>, n: string, newName: string)
    requires IsDirAt(root, at)
    requires Taken(Lookup(root, at).value, n) && !Taken(Lookup(root, at).value, newName)
    ensures var d := Lookup(root, at).value;
      var root' := Replace(root, at, if IsSubdir(d, n) then MovedDir(d, n, newName) else MovedFile(d, n, newName));
      && IsDirAt(root', at)
      && SameElsewhere(root, root', at)
      && (Physical(root) ==> Physical(root'))
      && (Keyed(root) ==> Keyed(root'))
      && (Physical(root) && IsDirAt(root, at + [n]) ==> Lookup(root', at + [newName]) == Lookup(root, at + [n]))
  {
    var d := Lookup(root, at).value;
    var d' := if IsSubdir(d, n) then MovedDir(d, n, newName) else MovedFile(d, n, newName);
    LookupKeeps(root, at);
    MovedKeeps(d, n, newName, d.ledger);
    ReplaceFolder(root, at, d');
    LookupAppend(root, at, n);
    LookupAppend(Replace(root, at, d'), at, newName);
  }

  /** Rename(fe, NewName) on the folder at, for an entry of that folder. A file is
      checked against the ledger first (the new name must be free and the identifier
      known), then moved, then renamed in the ledger, which is saved once. A folder is
      only moved. physFails and saveFails say whether the move and the save throw an
      IOException; a move also throws when its source is missing or its destination
      taken. */
  method Rename(root: Dir, at: seq<string>, t: Target, newName: string, physFails: bool, saveFails: bool)
    returns (o: Outcome, root': Dir)
    ensures !ValidName(newName) ==> o == Failed(InvalidArgument) && root' == root
    ensures ValidName(newName) && t.FileTarget? ==>
      var rs := LedgerAt(root, at);
      if HasName(rs, newName) then o == Failed(NameTaken) && root' == root
      else if !HasGuid(rs, t.guid) then o == Failed(GuidNotFound) && root' == root
      else
        && IsDirAt(root, at)
        && var d := Lookup(root, at).value;
           if physFails || t.name !in d.files || Taken(d, newName) then o == Failed(IOFailure) && root' == root
           else
             var r := rs[IndexOfGuid(rs, t.guid).value];
             var moved := MovedFile(d, t.name, newName);
             if r.originalFilename.None? then o == Failed(MissingAttribute) && root' == Replace(root, at, moved)
             else
               && o == (if saveFails then Failed(IOFailure) else Done)
               && root' == Replace(root, at,
                    if saveFails then moved else moved.(ledger := d.ledger.(records := RenameGuid(rs, t.guid, newName))))
    ensures ValidName(newName) && t.FolderTarget? ==>
      if !IsDirAt(root, at) then o == Failed(IOFailure) && root' == root
      else
        var d := Lookup(root, at).value;
        if physFails || !Taken(d, t.name) || Taken(d, newName) then o == Failed(IOFailure) && root' == root
        else
          && o == Done
          && root' == Replace(root, at,
               if IsSubdir(d, t.name) then MovedDir(d, t.name, newName) else MovedFile(d, t.name, newName))
    ensures o == Done ==> IsDirAt(root, at) && IsDirAt(root', at)
    ensures o == Done && t.FileTarget? ==>
      var d, d' := Lookup(root, at).value, Lookup(root', at).value;
      var rs' := d'.ledger.records;
      && HasName(rs', newName)
      && InfoOf(rs'[IndexOfName(rs', newName).value]) == FileInfo(t.guid, newName, newName)
      && t.name in d.files && t.name !in d'.files && newName in d'.files
      && d'.files[newName] == d.files[t.name]
    ensures o == Done && t.FolderTarget? && Physical(root) && IsDirAt(root, at + [t.name]) ==>
      Lookup(root', at + [newName]) == Lookup(root, at + [t.name])
    ensures SameElsewhere(root, root', at)
    ensures Physical(root) ==> Physical(root')
    ensures Keyed(root) ==> Keyed(root')
  {
    root' := root;
    if newName == "" || '/' in newName {
      return Failed(InvalidArgument), root;
    }
    var folder := Lookup(root, at);
    match t {
      case FileTarget(n, g) =>
        var info := new XmlDirInfo(DocAt(root, at));
        o := info.AssertCanRename(g, newName);
        if o.Failed? {
          return o, root;
        }
        var d := folder.value;
        LookupKeeps(root, at);
        if physFails || n !in d.files || Taken(d, newName) {
          return Failed(IOFailure), root;
        }
        var moved := MovedFile(d, n, newName);
        MovedKeeps(d, n, newName, d.ledger);
        o, root' := Relabel(root, at, moved, g, newName, saveFails);
      case FolderTarget(n) =>
        if folder.None? {
          return Failed(IOFailure), root;
        }
        var d := folder.value;
        LookupKeeps(root, at);
        if physFails || !Taken(d, n) || Taken(d, newName) {
          return Failed(IOFailure), root;
        }
        root' := Replace(root, at, if IsSubdir(d, n) then MovedDir(d, n, newName) else MovedFile(d, n, newName));
        MovedEntry(root, at, n, newName);
        o := Done;
    }
  }
}
