/** The physical side of the storage engine, as an abstract state: a repository's
    directory tree. Each directory holds its files (name to bytes), its
    subdirectories in the order the directory listing yields them, and the ledger its
    sidecar file holds. Paths are lists of folder names below the repository's own
    directory, which is the path []. */
module Tree {
  import opened Common
  import opened DirInfo

  datatype Dir = Dir(files: map<string, seq<byte>>, subdirs: seq<Sub>, ledger: Doc)

  datatype Sub = Sub(name: string, dir: Dir)

  /** Directory.Exists(Path.Combine(path of d, n)). */
  predicate IsSubdir(d: Dir, n: string) {
    exists i :: 0 <= i < |d.subdirs| && d.subdirs[i].name == n
  }

  /** The position of the first subdirectory named n. */
  function SubIndex(subs: seq<Sub>, n: string): (r: Option<nat>)
    ensures r.None? <==> forall i :: 0 <= i < |subs| ==> subs[i].name != n
    ensures r.Some? ==> r.value < |subs| && subs[r.value].name == n
    ensures r.Some? ==> forall j :: 0 <= j < r.value ==> subs[j].name != n
    decreases |subs|
  {
    if subs == [] then None
    else if subs[0].name == n then Some(0)
    else match SubIndex(subs[1..], n)
      case None => None
      case Some(i) => Some(i + 1)
  }

  function Child(d: Dir, n: string): Option<Dir> {
    match SubIndex(d.subdirs, n)
    case None => None
    case Some(i) => Some(d.subdirs[i].dir)
  }

  /** The directory at path p below root, if it exists. */
  function Lookup(root: Dir, p: seq<string>): Option<Dir>
    decreases |p|
  {
    if p == [] then Some(root)
    else match Child(root, p[0])
      case None => None
      case Some(c) => Lookup(c, p[1..])
  }

  predicate IsDirAt(root: Dir, p: seq<string>) {
    Lookup(root, p).Some?
  }

  /** The ledger of the folder at p. A folder whose directory does not exist has no
      sidecar file, and a missing sidecar file reads as an empty ledger. */
  function DocAt(root: Dir, p: seq<string>): Doc {
    match Lookup(root, p)
    case None => EmptyDoc
    case Some(d) => d.ledger
  }

  function LedgerAt(root: Dir, p: seq<string>): seq<Record> {
    DocAt(root, p).records
  }

  /** root with the directory at p replaced by d; root itself when p does not exist. */
  function Replace(root: Dir, p: seq<string>, d: Dir): Dir
    decreases |p|
  {
    if p == [] then d
    else match SubIndex(root.subdirs, p[0])
      case None => root
      case Some(i) =>
        root.(subdirs := root.subdirs[i := Sub(p[0], Replace(root.subdirs[i].dir, p[1..], d))])
  }

  predicate IsPrefix(a: seq<string>, b: seq<string>) {
    |a| <= |b| && b[..|a|] == a
  }

  /** What the file system guarantees of every directory: no two subdirectories share
      a name, and no name is both a file and a subdirectory. */
  predicate Physical(d: Dir)
    decreases d
  {
    && (forall i, j :: 0 <= i < j < |d.subdirs| ==> d.subdirs[i].name != d.subdirs[j].name)
    && (forall i :: 0 <= i < |d.subdirs| ==> d.subdirs[i].name !in d.files)
    && (forall i :: 0 <= i < |d.subdirs| ==> Physical(d.subdirs[i].dir))
  }

  /** Every ledger of the tree is well keyed. */
  predicate Keyed(d: Dir)
    decreases d
  {
    && WellKeyed(d.ledger.records)
    && (forall i :: 0 <= i < |d.subdirs| ==> Keyed(d.subdirs[i].dir))
  }

  // ---------------------------------------------------------------------------
  // Walking and replacing
  // ---------------------------------------------------------------------------

  /** Renaming nothing and replacing a subdirectory's content keeps every first match by name. */
  lemma SubIndexUpdate(subs: seq<Sub>, i: nat, x: Sub, n: string)
    requires i < |subs| && x.name == subs[i].name
    ensures SubIndex(subs[i := x], n) == SubIndex(subs, n)
  {
    var s := subs[i := x];
    assert forall j :: 0 <= j < |s| ==> s[j].name == subs[j].name;
  }

  /** One more step down: the directory at p + [n] is the child n of the one at p. */
  lemma {:induction false} LookupAppend(root: Dir, p: seq<string>, n: string)
    ensures Lookup(root, p + [n]) ==
      (if Lookup(root, p).Some? then Child(Lookup(root, p).value, n) else None)
    decreases |p|
  {
    if p == [] {
      assert [] + [n] == [n];
    } else {
      assert (p + [n])[0] == p[0];
      assert (p + [n])[1..] == p[1..] + [n];
      match Child(root, p[0]) {
        case None =>
        case Some(c) => LookupAppend(c, p[1..], n);
      }
    }
  }

  /** Only existing directories have existing subdirectories. */
  lemma {:induction false} LookupPrefix(root: Dir, p: seq<string>, q: seq<string>)
    requires IsDirAt(root, p + q)
    ensures IsDirAt(root, p)
    decreases |p|
  {
    if p != [] {
      assert (p + q)[0] == p[0];
      assert (p + q)[1..] == p[1..] + q;
      LookupPrefix(Child(root, p[0]).value, p[1..], q);
    }
  }

  /** After Replace, the replaced path holds the new directory. */
  lemma {:induction false} LookupReplace(root: Dir, p: seq<string>, d: Dir)
    requires IsDirAt(root, p)
    ensures Lookup(Replace(root, p, d), p) == Some(d)
    decreases |p|
  {
    if p != [] {
      var i := SubIndex(root.subdirs, p[0]).value;
      var c := root.subdirs[i].dir;
      var x := Sub(p[0], Replace(c, p[1..], d));
      SubIndexUpdate(root.subdirs, i, x, p[0]);
      LookupReplace(c, p[1..], d);
    }
  }

  /** Two paths with the same first name: one is a prefix of the other exactly when
      their tails are. */
  lemma PrefixTail(p: seq<string>, q: seq<string>)
    requires p != [] && q != [] && p[0] == q[0]
    ensures IsPrefix(p, q) <==> IsPrefix(p[1..], q[1..])
  {
    if |p| <= |q| {
      assert q[..|p|] == [q[0]] + q[1..][..|p| - 1];
    }
  }

  /** Replace changes nothing at a path that neither lies below nor above the replaced one. */
  lemma {:induction false} LookupReplaceElsewhere(root: Dir, p: seq<string>, q: seq<string>, d: Dir)
    requires IsDirAt(root, p)
    requires !IsPrefix(p, q) && !IsPrefix(q, p)
    ensures Lookup(Replace(root, p, d), q) == Lookup(root, q)
    decreases |p|
  {
    assert p != [] && q != [];
    var i := SubIndex(root.subdirs, p[0]).value;
    var c := root.subdirs[i].dir;
    var x := Sub(p[0], Replace(c, p[1..], d));
    SubIndexUpdate(root.subdirs, i, x, q[0]);
    if p[0] == q[0] {
      PrefixTail(p, q);
      PrefixTail(q, p);
      LookupReplaceElsewhere(c, p[1..], q[1..], d);
    }
  }

  /** Replacing a directory with one the file system could hold keeps the file
      system's guarantees. */
  lemma {:induction false} ReplacePhysical(root: Dir, p: seq<string>, d: Dir)
    requires Physical(root) && Physical(d)
    ensures Physical(Replace(root, p, d))
    decreases |p|
  {
    if p != [] {
      match SubIndex(root.subdirs, p[0]) {
        case None =>
        case Some(i) =>
          var c := root.subdirs[i].dir;
          ReplacePhysical(c, p[1..], d);
          var r := Replace(root, p, d);
          assert forall j :: 0 <= j < |r.subdirs| ==> r.subdirs[j].name == root.subdirs[j].name;
          assert forall j :: 0 <= j < |r.subdirs| && j != i ==> r.subdirs[j] == root.subdirs[j];
      }
    }
  }

  /** Replacing a directory with a well-keyed one keeps every ledger well keyed. */
  lemma {:induction false} ReplaceKeyed(root: Dir, p: seq<string>, d: Dir)
    requires Keyed(root) && Keyed(d)
    ensures Keyed(Replace(root, p, d))
    decreases |p|
  {
    if p != [] {
      match SubIndex(root.subdirs, p[0]) {
        case None =>
        case Some(i) =>
          ReplaceKeyed(root.subdirs[i].dir, p[1..], d);
          var r := Replace(root, p, d);
          assert forall j :: 0 <= j < |r.subdirs| && j != i ==> r.subdirs[j] == root.subdirs[j];
      }
    }
  }

  /** A directory inside the tree inherits the file system's guarantees and the
      ledgers' keys. */
  lemma {:induction false} LookupKeeps(root: Dir, p: seq<string>)
    requires IsDirAt(root, p)
    ensures Physical(root) ==> Physical(Lookup(root, p).value)
    ensures Keyed(root) ==> Keyed(Lookup(root, p).value)
    decreases |p|
  {
    if p != [] {
      var i := SubIndex(root.subdirs, p[0]).value;
      LookupKeeps(root.subdirs[i].dir, p[1..]);
    }
  }

  /** Every directory neither above nor below p is the same in both trees. */
  ghost predicate SameElsewhere(root: Dir, root': Dir, p: seq<string>) {
    forall q :: !IsPrefix(p, q) && !IsPrefix(q, p) ==> Lookup(root', q) == Lookup(root, q)
  }

  lemma ReplaceElsewhere(root: Dir, p: seq<string>, d: Dir)
    requires IsDirAt(root, p)
    ensures SameElsewhere(root, Replace(root, p, d), p)
  {
    forall q | !IsPrefix(p, q) && !IsPrefix(q, p)
      ensures Lookup(Replace(root, p, d), q) == Lookup(root, q)
    {
      LookupReplaceElsewhere(root, p, q, d);
    }
  }

  /** Replacing an existing folder: the new folder is found there, nothing beside it
      changes, and the tree keeps its guarantees when the new folder has them. */
  lemma ReplaceFolder(root: Dir, p: seq<string>, d: Dir)
    requires IsDirAt(root, p)
    ensures Lookup(Replace(root, p, d), p) == Some(d)
    ensures SameElsewhere(root, Replace(root, p, d), p)
    ensures Physical(root) && Physical(d) ==> Physical(Replace(root, p, d))
    ensures Keyed(root) && Keyed(d) ==> Keyed(Replace(root, p, d))
  {
    LookupReplace(root, p, d);
    ReplaceElsewhere(root, p, d);
    if Physical(root) && Physical(d) {
      ReplacePhysical(root, p, d);
    }
    if Keyed(root) && Keyed(d) {
      ReplaceKeyed(root, p, d);
    }
  }

  /** Replace leaves every folder above the replaced one with its own files and its
      own ledger (the repository's quota attributes among them). */
  lemma {:induction false} ReplaceKeepsAbove(root: Dir, p: seq<string>, k: nat, d: Dir)
    requires IsDirAt(root, p) && k < |p|
    ensures IsDirAt(root, p[..k]) && IsDirAt(Replace(root, p, d), p[..k])
    ensures Lookup(Replace(root, p, d), p[..k]).value.files == Lookup(root, p[..k]).value.files
    ensures Lookup(Replace(root, p, d), p[..k]).value.ledger == Lookup(root, p[..k]).value.ledger
    decreases k
  {
    if k > 0 {
      var i := SubIndex(root.subdirs, p[0]).value;
      var c := root.subdirs[i].dir;
      var x := Sub(p[0], Replace(c, p[1..], d));
      SubIndexUpdate(root.subdirs, i, x, p[0]);
      assert p[..k][0] == p[0] && p[..k][1..] == p[1..][..k - 1];
      ReplaceKeepsAbove(c, p[1..], k - 1, d);
    }
  }

  // ---------------------------------------------------------------------------
  // Sizes
  // ---------------------------------------------------------------------------

  /** FileEntryImpl.Size of the entry named n in the folder d: 0 when n is a
      directory, the byte length when it is a file, and -1 when neither exists (the
      FileNotFoundException is caught). */
  function FileSize(d: Dir, n: string): int {
    if IsSubdir(d, n) then 0
    else if n in d.files then |d.files[n]|
    else -1
  }

  /** FileEntryImpl.Size of the entry at path p (p not empty). */
  function Size(root: Dir, p: seq<string>): int
    requires |p| >= 1
  {
    if IsDirAt(root, p) then 0
    else match Lookup(root, p[..|p| - 1])
      case None => -1
      case Some(d) => if p[|p| - 1] in d.files then |d.files[p[|p| - 1]]| else -1
  }

  /** The size a folder reports for a file of its ledger is that entry's own Size. */
  lemma FileSizeIsSize(root: Dir, p: seq<string>, n: string)
    requires IsDirAt(root, p)
    ensures FileSize(Lookup(root, p).value, n) == Size(root, p + [n])
  {
    LookupAppend(root, p, n);
    assert (p + [n])[..|p|] == p;
    var d := Lookup(root, p).value;
    if IsSubdir(d, n) {
      assert Child(d, n).Some?;
    } else {
      assert Child(d, n).None?;
    }
  }

  /** GetTotalSizeResursice: the totals of the subdirectories plus the sizes of the
      ledger's files. */
  function TotalSize(d: Dir): int
    decreases d, |d.subdirs| + 1
  {
    SubdirsTotal(d, |d.subdirs|) + FilesTotal(d, |d.ledger.records|)
  }

  /** The totals of the first n subdirectories. */
  function SubdirsTotal(d: Dir, n: nat): int
    requires n <= |d.subdirs|
    decreases d, n
  {
    if n == 0 then 0 else SubdirsTotal(d, n - 1) + TotalSize(d.subdirs[n - 1].dir)
  }

  /** The sizes of the files of the first n ledger records. */
  function FilesTotal(d: Dir, n: nat): int
    requires n <= |d.ledger.records|
  {
    if n == 0 then 0 else FilesTotal(d, n - 1) + FileSize(d, d.ledger.records[n - 1].vpath)
  }

  /** Every ledger record of every directory has its file (or at least a directory of
      that name): the ledger and the physical tree agree. */
  predicate Backed(d: Dir)
    decreases d
  {
    && (forall k :: 0 <= k < |d.ledger.records| ==>
          d.ledger.records[k].vpath in d.files || IsSubdir(d, d.ledger.records[k].vpath))
    && (forall i :: 0 <= i < |d.subdirs| ==> Backed(d.subdirs[i].dir))
  }

  /** When the ledgers agree with the files, no -1 enters the sum and the total is
      not negative. */
  lemma {:induction false} TotalSizeNonNegative(d: Dir)
    requires Backed(d)
    ensures TotalSize(d) >= 0
    decreases d, |d.subdirs| + 1
  {
    SubdirsTotalNonNegative(d, |d.subdirs|);
    FilesTotalNonNegative(d, |d.ledger.records|);
  }

  lemma {:induction false} SubdirsTotalNonNegative(d: Dir, n: nat)
    requires Backed(d) && n <= |d.subdirs|
    ensures SubdirsTotal(d, n) >= 0
    decreases d, n
  {
    if n > 0 {
      SubdirsTotalNonNegative(d, n - 1);
      TotalSizeNonNegative(d.subdirs[n - 1].dir);
    }
  }

  lemma {:induction false} FilesTotalNonNegative(d: Dir, n: nat)
    requires Backed(d) && n <= |d.ledger.records|
    ensures FilesTotal(d, n) >= 0
    decreases n
  {
    if n > 0 {
      FilesTotalNonNegative(d, n - 1);
    }
  }

  /** The k-th ledger record has neither a file nor a directory of its name. */
  predicate MissingRecord(d: Dir, k: nat)
    requires k < |d.ledger.records|
  {
    d.ledger.records[k].vpath !in d.files && !IsSubdir(d, d.ledger.records[k].vpath)
  }

  /** How many of the first n ledger records are missing. */
  function MissingCount(d: Dir, n: nat): nat
    requires n <= |d.ledger.records|
  {
    if n == 0 then 0 else MissingCount(d, n - 1) + (if MissingRecord(d, n - 1) then 1 else 0)
  }

  /** Each ledger record whose file is missing lowers the total by one: the total is
      never below minus the number of missing records, and a folder none of whose
      records has a file totals exactly minus its record count. */
  lemma {:induction false} FilesTotalCountsMissing(d: Dir, n: nat)
    requires n <= |d.ledger.records|
    ensures n > 0 && MissingRecord(d, n - 1) ==> FilesTotal(d, n) == FilesTotal(d, n - 1) - 1
    ensures n > 0 && !MissingRecord(d, n - 1) ==> FilesTotal(d, n) >= FilesTotal(d, n - 1)
    ensures FilesTotal(d, n) >= -(MissingCount(d, n) as int)
    ensures (forall k :: 0 <= k < n ==> MissingRecord(d, k)) ==> FilesTotal(d, n) == -(n as int)
    decreases n
  {
    if n > 0 {
      FilesTotalCountsMissing(d, n - 1);
    }
  }
}
