/** The read-only operations of FolderImpl: GetBy(Guid, recursive), GetBy(virtual
    path) and GetTotalSize, over the directory tree of one repository. */
module FolderLookup {
  import opened Common
  import opened DirInfo
  import opened FileEntry
  import opened Tree

  // ---------------------------------------------------------------------------
  // GetBy(Guid, recursive)
  // ---------------------------------------------------------------------------

  /** A file GetBy(Guid) returned: the folder holding it, as a path below the folder
      searched, and the ledger's view of it. */
  datatype Located = Located(folder: seq<string>, info: FileInfo)

  /** Some ledger of the tree rooted at d has a record with identifier g. */
  predicate Holds(d: Dir, g: Guid)
    decreases d
  {
    || HasGuid(d.ledger.records, g)
    || exists i :: 0 <= i < |d.subdirs| && Holds(d.subdirs[i].dir, g)
  }

  /** l's folder exists below d, and l's record is the first one with g in its ledger. */
  predicate FoundAt(d: Dir, l: Located, g: Guid) {
    match Lookup(d, l.folder)
    case None => false
    case Some(f) =>
      HasGuid(f.ledger.records, g) &&
      l.info == InfoOf(f.ledger.records[IndexOfGuid(f.ledger.records, g).value])
  }

  /** The j-th subdirectory is the first from i on whose tree holds g, and l was found
      under its name. */
  predicate FirstHolder(d: Dir, g: Guid, i: nat, j: nat, l: Located) {
    && i <= j < |d.subdirs|
    && Holds(d.subdirs[j].dir, g)
    && (forall k :: i <= k < j ==> !Holds(d.subdirs[k].dir, g))
    && |l.folder| >= 1 && l.folder[0] == d.subdirs[j].name
  }

  /** A file found in a subdirectory is found under that subdirectory's name, when
      names of subdirectories are unique. */
  lemma FoundInSubdir(d: Dir, i: nat, l: Located, g: Guid)
    requires i < |d.subdirs|
    ensures Physical(d) && FoundAt(d.subdirs[i].dir, l, g) ==>
      FoundAt(d, Located([d.subdirs[i].name] + l.folder, l.info), g)
  {
    if Physical(d) && FoundAt(d.subdirs[i].dir, l, g) {
      var p := [d.subdirs[i].name] + l.folder;
      assert p[0] == d.subdirs[i].name && p[1..] == l.folder;
      assert SubIndex(d.subdirs, p[0]) == Some(i);
    }
  }

  /** GetBy(Guid, recursive): the first record with g in the folder's own ledger;
      failing that, and only when recursive, a depth-first search of the
      subdirectories in listing order. */
  function GetByGuid(d: Dir, g: Guid, recursive: bool): (r: Option<Located>)
    ensures HasGuid(d.ledger.records, g) ==>
      r == Some(Located([], InfoOf(d.ledger.records[IndexOfGuid(d.ledger.records, g).value])))
    ensures !recursive ==> (r.Some? <==> HasGuid(d.ledger.records, g))
    ensures recursive ==> (r.Some? <==> Holds(d, g))
    ensures r.Some? && Physical(d) ==> FoundAt(d, r.value, g)
    ensures recursive && r.Some? && !HasGuid(d.ledger.records, g) ==>
      exists j :: 0 <= j < |d.subdirs| && FirstHolder(d, g, 0, j, r.value)
    decreases d, |d.subdirs| + 1
  {
    match IndexOfGuid(d.ledger.records, g)
    case Some(k) => Some(Located([], InfoOf(d.ledger.records[k])))
    case None => if recursive then SearchSubdirs(d, g, 0) else None
  }

  /** The foreach over GetFolders() from the i-th subdirectory on: the first
      subdirectory whose search finds g wins. */
  function SearchSubdirs(d: Dir, g: Guid, i: nat): (r: Option<Located>)
    requires i <= |d.subdirs|
    ensures r.Some? <==> exists j :: i <= j < |d.subdirs| && Holds(d.subdirs[j].dir, g)
    ensures r.Some? && Physical(d) ==> FoundAt(d, r.value, g)
    ensures r.Some? ==> exists j :: i <= j < |d.subdirs| && FirstHolder(d, g, i, j, r.value)
    decreases d, |d.subdirs| - i
  {
    if i == |d.subdirs| then None
    else match GetByGuid(d.subdirs[i].dir, g, true)
      case Some(l) =>
        FoundInSubdir(d, i, l, g);
        var r := Located([d.subdirs[i].name] + l.folder, l.info);
        assert FirstHolder(d, g, i, i, r);
        Some(r)
      case None =>
        var r := SearchSubdirs(d, g, i + 1);
        assert r.Some? ==> exists j :: i <= j < |d.subdirs| && FirstHolder(d, g, i, j, r.value) by {
          if r.Some? {
            var j :| i + 1 <= j < |d.subdirs| && FirstHolder(d, g, i + 1, j, r.value);
            assert FirstHolder(d, g, i, j, r.value);
          }
        }
        r
  }

  /** What the subdirectory's own search returned, under its name. */
  predicate SubdirGave(d: Dir, g: Guid, j: nat, l: Located)
    requires j < |d.subdirs|
  {
    |l.folder| >= 1 && GetByGuid(d.subdirs[j].dir, g, true) == Some(Located(l.folder[1..], l.info))
  }

  /** The search is depth-first: a file not in the folder's own ledger is what the
      first subdirectory holding g returns from its own recursive search (its own
      ledger first, then its subdirectories in order), under that subdirectory's
      name. */
  lemma GetByGuidDepthFirst(d: Dir, g: Guid)
    ensures var r := GetByGuid(d, g, true);
      r.Some? && !HasGuid(d.ledger.records, g) ==>
        exists j :: 0 <= j < |d.subdirs| && FirstHolder(d, g, 0, j, r.value) && SubdirGave(d, g, j, r.value)
  {
    if !HasGuid(d.ledger.records, g) {
      SearchSubdirsDepthFirst(d, g, 0);
    }
  }

  /** SearchSubdirs from i on returns the result of the first subdirectory, from i
      on, whose own search finds g. */
  lemma {:induction false} SearchSubdirsDepthFirst(d: Dir, g: Guid, i: nat)
    requires i <= |d.subdirs|
    ensures var r := SearchSubdirs(d, g, i);
      r.Some? ==>
        exists j :: i <= j < |d.subdirs| && FirstHolder(d, g, i, j, r.value) && SubdirGave(d, g, j, r.value)
    decreases |d.subdirs| - i
  {
    if i < |d.subdirs| {
      var r := SearchSubdirs(d, g, i);
      var sub := GetByGuid(d.subdirs[i].dir, g, true);
      if sub.Some? {
        var v := Located([d.subdirs[i].name] + sub.value.folder, sub.value.info);
        assert r == Some(v);
        assert v.folder[1..] == sub.value.folder;
        assert FirstHolder(d, g, i, i, v) && SubdirGave(d, g, i, v);
      } else {
        SearchSubdirsDepthFirst(d, g, i + 1);
        if r.Some? {
          var j :| i + 1 <= j < |d.subdirs| && FirstHolder(d, g, i + 1, j, r.value) && SubdirGave(d, g, j, r.value);
          assert FirstHolder(d, g, i, j, r.value);
        }
      }
    }
  }


  // ---------------------------------------------------------------------------
  // GetBy(virtual path)
  // ---------------------------------------------------------------------------

  /** What GetBy(string) returns: a folder, a file with the ledger's view of it, or
      null (None). Paths are below the repository's directory. */
  datatype Entry = Folder(path: seq<string>) | File(folder: seq<string>, info: FileInfo)

  /** The final element s, under the folder current: a directory of that name wins,
      else the first record named s in the ledger rs, else null. */
  function FinalStep(root: Dir, current: seq<string>, s: string, rs: seq<Record>): (r: Result<Option<Entry>>)
    ensures IsDirAt(root, current + [s]) ==> r == Ok(Some(Folder(current + [s])))
    ensures !IsDirAt(root, current + [s]) && HasName(rs, s) ==>
      r == Ok(Some(File(current, InfoOf(rs[IndexOfName(rs, s).value]))))
    ensures !IsDirAt(root, current + [s]) && !HasName(rs, s) ==> r == Ok(None)
  {
    if IsDirAt(root, current + [s]) then Ok(Some(Folder(current + [s])))
    else match IndexOfName(rs, s)
      case None => Ok(None)
      case Some(k) => Ok(Some(File(current, InfoOf(rs[k]))))
  }

  /** The element-by-element walk from current over parts. An empty element is invalid
      and every element but the last must be an existing directory. The last element's
      file is looked up in the ledger of the folder the walk started from (start) when
      asWritten holds, and in the ledger of current otherwise. */
  function Walk(root: Dir, start: seq<string>, current: seq<string>, parts: seq<string>, asWritten: bool): Result<Option<Entry>>
    requires |parts| >= 1
    decreases |parts|
  {
    var s := parts[0];
    if s == "" then Err(InvalidArgument)
    else if |parts| > 1 then
      (if IsDirAt(root, current + [s]) then Walk(root, start, current + [s], parts[1..], asWritten)
       else Err(PathNotFound))
    else FinalStep(root, current, s, LedgerAt(root, if asWritten then start else current))
  }

  /** GetBy(string) from the folder at: the folder itself for the empty path, the same
      lookup from the repository for a path that starts with "/", else the walk over
      the path split at "/". */
  function ResolveWith(root: Dir, at: seq<string>, vp: string, asWritten: bool): Result<Option<Entry>>
    decreases |vp|
  {
    if vp == "" then Ok(Some(Folder(at)))
    else if vp[0] == '/' then ResolveWith(root, [], vp[1..], asWritten)
    else Walk(root, at, at, Split(vp, '/'), asWritten)
  }

  /** GetBy(string) as the source writes it (the file is looked up in the starting
      folder's ledger). */
  function ResolveAsWritten(root: Dir, at: seq<string>, vp: string): Result<Option<Entry>> {
    ResolveWith(root, at, vp, true)
  }

  /** GetBy(string) as evidently intended (the file is looked up in the ledger of the
      folder the walk reached). */
  function Resolve(root: Dir, at: seq<string>, vp: string): Result<Option<Entry>> {
    ResolveWith(root, at, vp, false)
  }

  /** GetBy(string), with the loop over the path elements. */
  method GetByPath(root: Dir, at: seq<string>, vp: string) returns (r: Result<Option<Entry>>)
    ensures vp == "" ==> r == Ok(Some(Folder(at)))
    ensures r == ResolveAsWritten(root, at, vp)
    decreases |vp|
  {
    if vp == "" {
      return Ok(Some(Folder(at)));
    }
    if vp[0] == '/' {
      r := GetByPath(root, [], vp[1..]);
      return;
    }
    var parts := Split(vp, '/');
    var current := at;
    var i := 0;
    while i < |parts| - 1
      invariant 0 <= i < |parts|
      invariant Walk(root, at, current, parts[i..], true) == ResolveAsWritten(root, at, vp)
    {
      var s := parts[i];
      assert parts[i..][0] == s && parts[i..][1..] == parts[i + 1..];
      if s == "" {
        return Err(InvalidArgument);
      }
      if !IsDirAt(root, current + [s]) {
        return Err(PathNotFound);
      }
      current := current + [s];
      i := i + 1;
    }
    var s := parts[i];
    assert parts[i..] == [s];
    if s == "" {
      return Err(InvalidArgument);
    }
    if IsDirAt(root, current + [s]) {
      return Ok(Some(Folder(current + [s])));
    }
    var info := new XmlDirInfo(DocAt(root, at));
    var xfi := info.GetFileByName(s);
    if xfi.None? {
      return Ok(None);
    }
    return Ok(Some(File(current, xfi.value)));
  }

  /** The first k elements of parts are non-empty and name directories below cur. */
  predicate Walkable(root: Dir, cur: seq<string>, parts: seq<string>, k: nat)
    requires k <= |parts|
  {
    forall j :: 0 <= j < k ==> parts[j] != "" && IsDirAt(root, cur + parts[..j + 1])
  }

  /** The walk passes over a prefix of non-empty elements that are all directories. */
  lemma {:induction false} WalkSkips(root: Dir, start: seq<string>, cur: seq<string>, parts: seq<string>, k: nat, asWritten: bool)
    requires k < |parts|
    requires Walkable(root, cur, parts, k)
    ensures Walk(root, start, cur, parts, asWritten) == Walk(root, start, cur + parts[..k], parts[k..], asWritten)
    decreases k
  {
    if k == 0 {
      assert cur + parts[..0] == cur && parts[0..] == parts;
    } else {
      WalkSkips(root, start, cur, parts, k - 1, asWritten);
      var c := cur + parts[..k - 1];
      var rest := parts[k - 1..];
      assert rest[0] == parts[k - 1] && rest[1..] == parts[k..];
      assert c + [parts[k - 1]] == cur + parts[..k];
    }
  }

  /** An empty element fails the lookup once every element before it was a directory. */
  lemma RejectsEmptyElement(root: Dir, at: seq<string>, vp: string, k: nat, asWritten: bool)
    requires vp != "" && vp[0] != '/'
    requires k < |Split(vp, '/')| && Split(vp, '/')[k] == ""
    requires Walkable(root, at, Split(vp, '/'), k)
    ensures ResolveWith(root, at, vp, asWritten) == Err(InvalidArgument)
  {
    WalkSkips(root, at, at, Split(vp, '/'), k, asWritten);
  }

  /** A non-final element that is not a directory fails the lookup. */
  lemma RejectsMissingFolder(root: Dir, at: seq<string>, vp: string, k: nat, asWritten: bool)
    requires vp != "" && vp[0] != '/'
    requires k < |Split(vp, '/')| - 1
    requires Walkable(root, at, Split(vp, '/'), k)
    requires Split(vp, '/')[k] != "" && !IsDirAt(root, at + Split(vp, '/')[..k + 1])
    ensures ResolveWith(root, at, vp, asWritten) == Err(PathNotFound)
  {
    var parts := Split(vp, '/');
    WalkSkips(root, at, at, parts, k, asWritten);
    assert parts[k..][0] == parts[k] && |parts[k..]| > 1;
    assert at + parts[..k] + [parts[k]] == at + parts[..k + 1];
  }

  /** A path of valid names, written with a leading "/", is looked up from the
      repository by walking exactly those names. */
  lemma AbsolutePathWalks(root: Dir, at: seq<string>, p: seq<string>, asWritten: bool)
    requires |p| >= 1 && ValidNames(p)
    ensures ResolveWith(root, at, "/" + Join(p, '/'), asWritten) == Walk(root, [], [], p, asWritten)
  {
    assert NoSep(p, '/') by {
      forall i | 0 <= i < |p| ensures '/' !in p[i] {
        assert ValidName(p[i]);
      }
    }
    SplitJoin(p, '/');
    var j := Join(p, '/');
    assert ValidName(p[0]);
    assert j[..|p[0]|] == p[0] by {
      if |p| > 1 {
        assert j == p[0] + ([ '/' ] + Join(p[1..], '/'));
      }
    }
    assert j != "" && j[0] == p[0][0];
    assert ("/" + j)[1..] == j;
  }

  /** Every proper prefix of the path of an existing folder names an existing
      folder. */
  lemma WalkableToFolder(root: Dir, p: seq<string>)
    requires |p| >= 1 && ValidNames(p) && IsDirAt(root, p[..|p| - 1])
    ensures Walkable(root, [], p, |p| - 1)
  {
    var k := |p| - 1;
    var pre := p[..k];
    forall j | 0 <= j < k
      ensures p[j] != "" && IsDirAt(root, [] + p[..j + 1])
    {
      assert ValidName(p[j]);
      assert pre == pre[..j + 1] + pre[j + 1..];
      assert pre[..j + 1] == p[..j + 1];
      LookupPrefix(root, p[..j + 1], pre[j + 1..]);
      assert [] + p[..j + 1] == p[..j + 1];
    }
  }

  /** Walking the names of an existing folder from the repository reaches that folder
      and ends with the final step on the last name. */
  lemma WalkToFolder(root: Dir, p: seq<string>, asWritten: bool)
    requires |p| >= 1 && ValidNames(p) && IsDirAt(root, p[..|p| - 1])
    ensures Walk(root, [], [], p, asWritten) ==
      FinalStep(root, p[..|p| - 1], p[|p| - 1], LedgerAt(root, if asWritten then [] else p[..|p| - 1]))
  {
    var k := |p| - 1;
    WalkableToFolder(root, p);
    WalkSkips(root, [], [], p, k, asWritten);
    assert [] + p[..k] == p[..k];
    assert p[k..] == [p[k]];
    assert ValidName(p[k]);
  }

  /** GetBy(entry's virtual path), as intended, returns the entry: the folder when a
      directory holds that name, else the first ledger record of that name in the
      entry's own folder, else null. */
  lemma ResolveFindsEntry(root: Dir, at: seq<string>, chain: seq<string>)
    requires ValidChain(chain) && |chain| >= 2
    requires IsDirAt(root, chain[1..|chain| - 1])
    ensures var folder, n := chain[1..|chain| - 1], Name(chain);
      var rs := LedgerAt(root, folder);
      && (IsDirAt(root, chain[1..]) ==>
            Resolve(root, at, VirtualPath(chain)) == Ok(Some(Folder(chain[1..]))))
      && (!IsDirAt(root, chain[1..]) && HasName(rs, n) ==>
            Resolve(root, at, VirtualPath(chain)) ==
              Ok(Some(File(folder, InfoOf(rs[IndexOfName(rs, n).value])))))
      && (!IsDirAt(root, chain[1..]) && !HasName(rs, n) ==>
            Resolve(root, at, VirtualPath(chain)) == Ok(None))
  {
    var folder, n := chain[1..|chain| - 1], Name(chain);
    ChainResolvesToFinalStep(root, at, chain, false);
    ChainNames(chain);
    assert folder + [n] == chain[1..];
  }

  /** GetBy(entry's virtual path) as written: the leading "/" restarts the lookup at the
      repository, so a file is only ever looked up in the repository's own ledger. */
  lemma ResolveAsWrittenReadsRepositoryLedger(root: Dir, at: seq<string>, chain: seq<string>)
    requires ValidChain(chain) && |chain| >= 2
    requires IsDirAt(root, chain[1..|chain| - 1])
    requires !IsDirAt(root, chain[1..])
    ensures var folder, n := chain[1..|chain| - 1], Name(chain);
      var rs := LedgerAt(root, []);
      && (HasName(rs, n) ==>
            ResolveAsWritten(root, at, VirtualPath(chain)) ==
              Ok(Some(File(folder, InfoOf(rs[IndexOfName(rs, n).value])))))
      && (!HasName(rs, n) ==> ResolveAsWritten(root, at, VirtualPath(chain)) == Ok(None))
  {
    var folder, n := chain[1..|chain| - 1], Name(chain);
    ChainResolvesToFinalStep(root, at, chain, true);
    ChainNames(chain);
    assert folder + [n] == chain[1..];
  }

  /** Looking up an entry's virtual path walks its folder names and ends with the
      final step on its own name. */
  lemma ChainResolvesToFinalStep(root: Dir, at: seq<string>, chain: seq<string>, asWritten: bool)
    requires ValidChain(chain) && |chain| >= 2
    requires IsDirAt(root, chain[1..|chain| - 1])
    ensures var folder := chain[1..|chain| - 1];
      ResolveWith(root, at, VirtualPath(chain), asWritten) ==
        FinalStep(root, folder, Name(chain), LedgerAt(root, if asWritten then [] else folder))
  {
    var p := chain[1..];
    ChainNames(chain);
    AbsolutePathWalks(root, at, p, asWritten);
    WalkToFolder(root, p, asWritten);
  }

  /** A repository whose only file, b.txt, lies in its folder a: looking the file up
      by its own virtual path "/a/b.txt" as written returns null, where the intended
      lookup returns the file. */
  lemma ResolveAsWrittenMissesNestedFile()
    ensures var chain := ["files", "a", "b.txt"];
      var rec := Record(7, "b.txt", Some("b.txt"));
      var a := Dir(map["b.txt" := []], [], Doc([rec], None, None, None));
      var root := Dir(map[], [Sub("a", a)], EmptyDoc);
      && VirtualPath(chain) == "/a/b.txt"
      && ResolveAsWritten(root, [], VirtualPath(chain)) == Ok(None)
      && Resolve(root, [], VirtualPath(chain)) == Ok(Some(File(["a"], FileInfo(7, "b.txt", "b.txt"))))
  {
    var chain := ["files", "a", "b.txt"];
    var rec := Record(7, "b.txt", Some("b.txt"));
    var a := Dir(map["b.txt" := []], [], Doc([rec], None, None, None));
    var root := Dir(map[], [Sub("a", a)], EmptyDoc);
    assert chain[1..|chain| - 1] == ["a"] && chain[1..] == ["a", "b.txt"];
    assert Lookup(root, ["a"]) == Some(a) by {
      assert SubIndex(root.subdirs, "a") == Some(0);
    }
    assert !IsDirAt(root, ["a", "b.txt"]) by {
      LookupAppend(root, ["a"], "b.txt");
      assert ["a"] + ["b.txt"] == ["a", "b.txt"];
    }
    assert IndexOfName(a.ledger.records, "b.txt") == Some(0);
    ResolveFindsEntry(root, [], chain);
    ResolveAsWrittenReadsRepositoryLedger(root, [], chain);
  }

  // ---------------------------------------------------------------------------
  // GetTotalSize
  // ---------------------------------------------------------------------------

  /** GetTotalSize: add up the subfolders' totals, then the Size of every file of the
      folder's ledger. */
  method GetTotalSize(d: Dir) returns (total: int)
    ensures total == TotalSize(d)
    decreases d
  {
    total := 0;
    var i := 0;
    while i < |d.subdirs|
      invariant 0 <= i <= |d.subdirs|
      invariant total == SubdirsTotal(d, i)
    {
      var t := GetTotalSize(d.subdirs[i].dir);
      total := total + t;
      i := i + 1;
    }
    var j := 0;
    while j < |d.ledger.records|
      invariant 0 <= j <= |d.ledger.records|
      invariant total == SubdirsTotal(d, |d.subdirs|) + FilesTotal(d, j)
    {
      total := total + FileSize(d, d.ledger.records[j].vpath);
      j := j + 1;
    }
  }
}
