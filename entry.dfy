/** The path algebra of FileEntryImpl. An entry is a view defined by its chain of
    parents: the repository is the entry without a parent, and every other entry
    names its parent folder. The model writes that chain as the list of names from
    the repository down to the entry: chain[0] is the repository's name and the
    last element the entry's own name. */
module FileEntry {
  import opened Common

  predicate IsChain(chain: seq<string>) {
    |chain| >= 1
  }

  /** Every name below the repository is one FolderImpl would accept. */
  predicate ValidChain(chain: seq<string>) {
    |chain| >= 1 && forall k :: 1 <= k < |chain| ==> ValidName(chain[k])
  }

  /** The entry's own name. */
  function Name(chain: seq<string>): string
    requires IsChain(chain)
  {
    chain[|chain| - 1]
  }

  /** The entry's parent; the repository has none. */
  function Parent(chain: seq<string>): seq<string>
    requires |chain| >= 2
  {
    chain[..|chain| - 1]
  }

  /** VirtualPath: empty for the repository, else the parent's plus "/" and the name. */
  function VirtualPath(chain: seq<string>): string
    requires IsChain(chain)
    decreases |chain|
  {
    if |chain| == 1 then "" else VirtualPath(Parent(chain)) + "/" + Name(chain)
  }

  /** FullPath: the repository's name, else the parent's plus "/" and the name. */
  function FullPath(chain: seq<string>): string
    requires IsChain(chain)
    decreases |chain|
  {
    if |chain| == 1 then chain[0] else FullPath(Parent(chain)) + "/" + Name(chain)
  }

  /** The full path is the repository's name followed by the virtual path. */
  lemma {:induction false} FullPathIsRepositoryThenVirtualPath(chain: seq<string>)
    requires IsChain(chain)
    ensures FullPath(chain) == chain[0] + VirtualPath(chain)
    decreases |chain|
  {
    if |chain| > 1 {
      FullPathIsRepositoryThenVirtualPath(Parent(chain));
      assert Parent(chain)[0] == chain[0];
    }
  }

  /** Below the repository, the virtual path is "/" followed by the names below the
      repository joined with "/". */
  lemma {:induction false} VirtualPathIsJoin(chain: seq<string>)
    requires |chain| >= 2
    ensures VirtualPath(chain) == "/" + Join(chain[1..], '/')
    decreases |chain|
  {
    if |chain| == 2 {
      assert chain[1..] == [chain[1]];
    } else {
      var p := Parent(chain);
      VirtualPathIsJoin(p);
      assert chain[1..] == p[1..] + [Name(chain)];
      JoinSnoc(p[1..], Name(chain), '/');
    }
  }

  /** Repository: the entry itself if it is the repository, else walk up the parents
      until the entry without a parent. */
  method Repository(chain: seq<string>) returns (root: seq<string>)
    requires IsChain(chain)
    ensures root == [chain[0]]
  {
    if |chain| == 1 {
      return chain;
    }
    var f := Parent(chain);
    while |f| > 1
      invariant 1 <= |f| <= |chain|
      invariant f == chain[..|f|]
      decreases |f|
    {
      f := Parent(f);
    }
    root := f;
  }

  /** Every name is one FolderImpl accepts. */
  predicate ValidNames(p: seq<string>) {
    forall i :: 0 <= i < |p| ==> ValidName(p[i])
  }

  /** The names below the repository of an entry whose chain FolderImpl accepts. */
  lemma ChainNames(chain: seq<string>)
    requires ValidChain(chain) && |chain| >= 2
    ensures ValidNames(chain[1..]) && VirtualPath(chain) == "/" + Join(chain[1..], '/')
    ensures chain[1..][..|chain| - 2] == chain[1..|chain| - 1]
    ensures chain[1..|chain| - 1] + [Name(chain)] == chain[1..]
    ensures chain[1..][|chain| - 2] == Name(chain)
  {
    NamesBelowRepository(chain);
    VirtualPathIsJoin(chain);
    ParentNames(chain);
  }

  lemma ParentNames(chain: seq<string>)
    requires |chain| >= 2
    ensures chain[1..][..|chain| - 2] == chain[1..|chain| - 1]
    ensures chain[1..|chain| - 1] + [Name(chain)] == chain[1..]
    ensures chain[1..][|chain| - 2] == Name(chain)
  {
  }

  lemma NamesBelowRepository(chain: seq<string>)
    requires ValidChain(chain)
    ensures ValidNames(chain[1..])
  {
    var p := chain[1..];
    forall i | 0 <= i < |p| ensures ValidName(p[i]) {
      assert p[i] == chain[i + 1];
    }
  }
}
