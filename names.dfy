/** The names AddFile stores a file under when it must not overwrite: the stem, a
    dash, a counter and the extension, with the counter starting at 1 and the first
    name no file carries taken. */
module Names {
  import opened Common

  /** The position of the last '.' in s. */
  function LastDot(s: string): (r: Option<nat>)
    ensures r.None? ==> '.' !in s
    ensures r.Some? ==> r.value < |s| && s[r.value] == '.'
    ensures r.Some? ==> forall k :: r.value < k < |s| ==> s[k] != '.'
    decreases |s|
  {
    if s == [] then None
    else if s[|s| - 1] == '.' then Some(|s| - 1)
    else LastDot(s[..|s| - 1])
  }

  /** Path.GetFileNameWithoutExtension of a name without directory part: everything
      before the last '.', or the whole name when it has none. */
  function Stem(name: string): string {
    match LastDot(name)
    case None => name
    case Some(i) => name[..i]
  }

  /** Path.GetExtension of a name without directory part: from the last '.' on, or
      empty when there is no '.' or the '.' is the last character. */
  function Ext(name: string): string {
    match LastDot(name)
    case None => ""
    case Some(i) => if i == |name| - 1 then "" else name[i..]
  }

  /** The stem and the extension are the whole name, less a trailing '.'. */
  lemma StemExt(name: string)
    ensures Stem(name) + Ext(name) == name ||
      (|name| >= 1 && name[|name| - 1] == '.' && Stem(name) + Ext(name) == name[..|name| - 1])
  {
    match LastDot(name) {
      case None =>
      case Some(i) =>
        if i < |name| - 1 {
          assert name[..i] + name[i..] == name;
        }
    }
  }

  /** The i-th name ChangeName tries. */
  function Candidate(name: string, i: nat): string {
    Stem(name) + "-" + NatToString(i) + Ext(name)
  }

  /** Different counters give different names. */
  lemma CandidateInjective(name: string, i: nat, j: nat)
    requires Candidate(name, i) == Candidate(name, j)
    ensures i == j
  {
    var a, c := Stem(name) + "-", Ext(name);
    var si, sj := NatToString(i), NatToString(j);
    var x := Candidate(name, i);
    assert x == a + si + c && x == a + sj + c;
    assert |si| == |sj|;
    assert si == x[|a|..|a| + |si|];
    assert sj == x[|a|..|a| + |sj|];
    NatToStringInjective(i, j);
  }

  /** The first n names ChangeName tries are n distinct names. */
  lemma {:induction false} CandidatesCount(name: string, n: nat)
    ensures |set j | 1 <= j <= n :: Candidate(name, j)| == n
    decreases n
  {
    if n > 0 {
      var before := set j | 1 <= j <= n - 1 :: Candidate(name, j);
      CandidatesCount(name, n - 1);
      assert (set j | 1 <= j <= n :: Candidate(name, j)) == before + {Candidate(name, n)};
      forall j | 1 <= j <= n - 1
        ensures Candidate(name, j) != Candidate(name, n)
      {
        if Candidate(name, j) == Candidate(name, n) {
          CandidateInjective(name, j, n);
        }
      }
      assert Candidate(name, n) !in before;
    }
  }

  /** A set of n names contains no more than n of the names ChangeName tries. */
  lemma CandidatesBound(files: set<string>, name: string, n: nat)
    requires forall j :: 1 <= j <= n ==> Candidate(name, j) in files
    ensures n <= |files|
  {
    var cs := set j | 1 <= j <= n :: Candidate(name, j);
    CandidatesCount(name, n);
    assert cs <= files;
    SubsetCard(cs, files);
  }

  lemma {:induction false} SubsetCard(a: set<string>, b: set<string>)
    requires a <= b
    ensures |a| <= |b|
    decreases |a|
  {
    if a != {} {
      var x :| x in a;
      SubsetCard(a - {x}, b - {x});
    }
  }

  /** The first counter from i on whose name is not taken, given that every counter
      from 1 up to i is taken. */
  function FreeIndexFrom(files: set<string>, name: string, i: nat): (r: nat)
    requires i >= 1
    requires forall j :: 1 <= j < i ==> Candidate(name, j) in files
    ensures r >= i && Candidate(name, r) !in files
    ensures forall j :: 1 <= j < r ==> Candidate(name, j) in files
    decreases |files| + 1 - i
  {
    if Candidate(name, i) !in files then i
    else
      CandidatesBound(files, name, i);
      FreeIndexFrom(files, name, i + 1)
  }

  /** The counter ChangeName settles on: the least one, from 1, whose name is not taken. */
  function FreeIndex(files: set<string>, name: string): (r: nat)
    ensures r >= 1 && Candidate(name, r) !in files
    ensures forall j :: 1 <= j < r ==> Candidate(name, j) in files
  {
    FreeIndexFrom(files, name, 1)
  }

  /** The do-while loop of AddFile in ChangeName mode: count up from 1 until the
      candidate name is not the name of a file. */
  method ChooseFreeName(files: set<string>, name: string) returns (i: nat, vpath: string)
    ensures i >= 1 && vpath == Candidate(name, i) && vpath !in files
    ensures forall j :: 1 <= j < i ==> Candidate(name, j) in files
    ensures i == FreeIndex(files, name)
  {
    i := 0;
    while true
      invariant forall j :: 1 <= j <= i ==> Candidate(name, j) in files
      invariant FreeIndex(files, name) == FreeIndexFrom(files, name, i + 1)
      decreases |files| - i
    {
      CandidatesBound(files, name, i);
      i := i + 1;
      vpath := Candidate(name, i);
      if vpath !in files {
        return;
      }
    }
  }

  /** "report.txt" taken, the file is stored as "report-1.txt". */
  lemma FirstCandidate()
    ensures Candidate("report.txt", 1) == "report-1.txt"
    ensures FreeIndex({"report.txt"}, "report.txt") == 1
  {
    assert LastDot("report.txt") == Some(6);
    assert Stem("report.txt") == "report" && Ext("report.txt") == ".txt";
    assert NatToString(1) == "1";
  }
}
