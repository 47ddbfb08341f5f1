/** The per-directory sidecar ledger, `.dirinfo.xml`: a root element whose `file`
    children record, in document order, the identifier, the logical name (attribute
    vpath) and the name the file was uploaded under (attribute originalFilename) of
    each file of the directory, and whose own attributes hold the quota settings. */
module DirInfo {
  import opened Common

  /** One `file` element. Older ledgers may lack the originalFilename attribute. */
  datatype Record = Record(guid: Guid, vpath: string, originalFilename: Option<string>)

  /** XmlFileInfo: a record as the rest of the engine sees it. */
  datatype FileInfo = FileInfo(guid: Guid, name: string, originalName: string)

  /** The document: the `file` elements in order, and the root element's
      quotas-custom-settings, quotas-enabled and quotas-limit attributes. */
  datatype Doc = Doc(
    records: seq<Record>,
    customSettings: Option<string>,
    enabled: Option<string>,
    limit: Option<string>)

  /** What a directory without a sidecar file (or with one whose root element is not
      named "root") is read as. */
  const EmptyDoc: Doc := Doc([], None, None, None)

  /** XmlFileInfo(XmlElement): OriginalName falls back to vpath when the element has
      no originalFilename attribute. */
  function InfoOf(r: Record): (fi: FileInfo)
    ensures fi.guid == r.guid && fi.name == r.vpath
    ensures fi.originalName == (if r.originalFilename.Some? then r.originalFilename.value else r.vpath)
  {
    FileInfo(r.guid, r.vpath, match r.originalFilename case Some(o) => o case None => r.vpath)
  }

  /** XmlFileInfo.CopyTo: the element written for a new record carries all three attributes. */
  function RecordOf(fi: FileInfo): (r: Record)
    ensures InfoOf(r) == fi
  {
    Record(fi.guid, fi.name, Some(fi.originalName))
  }

  // ---------------------------------------------------------------------------
  // First-match lookups over the records
  // ---------------------------------------------------------------------------

  predicate HasGuid(rs: seq<Record>, g: Guid) {
    exists j :: 0 <= j < |rs| && rs[j].guid == g
  }

  predicate HasName(rs: seq<Record>, n: string) {
    exists j :: 0 <= j < |rs| && rs[j].vpath == n
  }

  /** The position of the first record with identifier g. */
  function IndexOfGuid(rs: seq<Record>, g: Guid): (r: Option<nat>)
    ensures r.None? <==> !HasGuid(rs, g)
    ensures r.Some? ==> r.value < |rs| && rs[r.value].guid == g
    ensures r.Some? ==> forall j :: 0 <= j < r.value ==> rs[j].guid != g
    decreases |rs|
  {
    if rs == [] then None
    else if rs[0].guid == g then Some(0)
    else match IndexOfGuid(rs[1..], g)
      case None => None
      case Some(i) => Some(i + 1)
  }

  /** The position of the first record whose logical name is n. */
  function IndexOfName(rs: seq<Record>, n: string): (r: Option<nat>)
    ensures r.None? <==> !HasName(rs, n)
    ensures r.Some? ==> r.value < |rs| && rs[r.value].vpath == n
    ensures r.Some? ==> forall j :: 0 <= j < r.value ==> rs[j].vpath != n
    decreases |rs|
  {
    if rs == [] then None
    else if rs[0].vpath == n then Some(0)
    else match IndexOfName(rs[1..], n)
      case None => None
      case Some(i) => Some(i + 1)
  }

  /** The records after XmlDirInfo.Delete(g): the first record with identifier g is cut
      out, or nothing happens when there is none. */
  function RemoveGuid(rs: seq<Record>, g: Guid): seq<Record> {
    match IndexOfGuid(rs, g)
    case None => rs
    case Some(i) => rs[..i] + rs[i + 1..]
  }

  /** The records after a successful XmlDirInfo.Rename(g, n). */
  function RenameGuid(rs: seq<Record>, g: Guid, n: string): seq<Record>
    requires HasGuid(rs, g)
  {
    var i := IndexOfGuid(rs, g).value;
    rs[i := Record(g, n, Some(n))]
  }

  /** The ledger's stated invariant: identifiers and logical names are unique. The
      ledger does not enforce it itself; its callers check before they add or rename. */
  predicate WellKeyed(rs: seq<Record>) {
    && (forall i, j :: 0 <= i < j < |rs| ==> rs[i].guid != rs[j].guid)
    && (forall i, j :: 0 <= i < j < |rs| ==> rs[i].vpath != rs[j].vpath)
  }

  /** Delete removes exactly one record when the identifier is present, keeping the
      order of the others, and nothing otherwise. */
  lemma RemoveGuidKeepsOthers(rs: seq<Record>, g: Guid)
    ensures !HasGuid(rs, g) ==> RemoveGuid(rs, g) == rs
    ensures HasGuid(rs, g) ==> |RemoveGuid(rs, g)| == |rs| - 1
    ensures HasGuid(rs, g) ==>
      var i := IndexOfGuid(rs, g).value;
      && (forall j :: 0 <= j < i ==> RemoveGuid(rs, g)[j] == rs[j])
      && (forall j :: i <= j < |rs| - 1 ==> RemoveGuid(rs, g)[j] == rs[j + 1])
  {
    if HasGuid(rs, g) {
      var i := IndexOfGuid(rs, g).value;
      CutKeepsOthers(rs, i, RemoveGuid(rs, g));
    }
  }

  /** Cutting out the i-th record shifts every later one down by one. */
  lemma CutKeepsOthers(rs: seq<Record>, i: nat, cut: seq<Record>)
    requires i < |rs| && cut == rs[..i] + rs[i + 1..]
    ensures |cut| == |rs| - 1
    ensures forall j :: 0 <= j < i ==> cut[j] == rs[j]
    ensures forall j :: i <= j < |cut| ==> cut[j] == rs[j + 1]
  {
  }

  /** On a well-keyed ledger, after Delete(g) no record with g remains and the
      ledger stays well keyed. */
  lemma RemoveGuidWellKeyed(rs: seq<Record>, g: Guid)
    requires WellKeyed(rs)
    ensures WellKeyed(RemoveGuid(rs, g))
    ensures !HasGuid(RemoveGuid(rs, g), g)
  {
    var r := RemoveGuid(rs, g);
    RemoveGuidKeepsOthers(rs, g);
    if HasGuid(rs, g) {
      var i := IndexOfGuid(rs, g).value;
      forall j | 0 <= j < |r|
        ensures r[j].guid != g
      {
        if j >= i {
          assert r[j] == rs[j + 1] && rs[j + 1].guid != rs[i].guid;
        }
      }
      forall a, b | 0 <= a < b < |r|
        ensures r[a].guid != r[b].guid && r[a].vpath != r[b].vpath
      {
        var a' := if a < i then a else a + 1;
        var b' := if b < i then b else b + 1;
        assert r[a] == rs[a'] && r[b] == rs[b'] && a' < b';
      }
    }
  }

  /** A successful rename changes only the renamed record, and keeps a well-keyed ledger
      well keyed because the new name was free. */
  lemma RenameGuidKeepsOthers(rs: seq<Record>, g: Guid, n: string)
    requires HasGuid(rs, g) && !HasName(rs, n)
    ensures |RenameGuid(rs, g, n)| == |rs|
    ensures forall j :: 0 <= j < |rs| && j != IndexOfGuid(rs, g).value ==> RenameGuid(rs, g, n)[j] == rs[j]
    ensures IndexOfName(RenameGuid(rs, g, n), n) == IndexOfGuid(rs, g)
    ensures InfoOf(RenameGuid(rs, g, n)[IndexOfGuid(rs, g).value]) == FileInfo(g, n, n)
    ensures WellKeyed(rs) ==> WellKeyed(RenameGuid(rs, g, n))
  {
    var i := IndexOfGuid(rs, g).value;
    var r := RenameGuid(rs, g, n);
    forall j | 0 <= j < |r| && j != i
      ensures r[j].vpath != n
    {
      assert r[j] == rs[j];
    }
    assert r[i].vpath == n;
    assert HasName(r, n);
  }

  /** Appending a record with a free name and a fresh identifier keeps the ledger well keyed. */
  lemma AppendWellKeyed(rs: seq<Record>, r: Record)
    requires WellKeyed(rs) && !HasGuid(rs, r.guid) && !HasName(rs, r.vpath)
    ensures WellKeyed(rs + [r])
  {
    var s := rs + [r];
    forall i, j | 0 <= i < j < |s|
      ensures s[i].guid != s[j].guid && s[i].vpath != s[j].vpath
    {
      if j == |rs| {
        assert s[i] == rs[i];
      }
    }
  }

  // ---------------------------------------------------------------------------
  // Quota attributes: Convert.ToBoolean / Convert.ToInt64 and value.ToString()
  // ---------------------------------------------------------------------------

  function LowerAscii(c: char): char {
    if 'A' <= c <= 'Z' then ((c as int) + 32) as char else c
  }

  function Lower(s: string): (t: string)
    ensures |t| == |s|
    ensures forall i :: 0 <= i < |s| ==> t[i] == LowerAscii(s[i])
  {
    seq(|s|, i requires 0 <= i < |s| => LowerAscii(s[i]))
  }

  /** Boolean.Parse: "True" or "False" in any letter case; anything else is a format error. */
  function ParseBool(s: string): Option<bool> {
    var t := Lower(s);
    if t == "true" then Some(true) else if t == "false" then Some(false) else None
  }

  /** Boolean.ToString(). */
  function BoolToString(b: bool): string {
    if b then "True" else "False"
  }

  datatype Parsed = Value(v: int) | BadFormat | OutOfRange

  /** Int64.Parse: an optional sign and at least one decimal digit; a number outside
      the 64-bit range is an overflow, not a format error. */
  function ParseInt64(s: string): Parsed {
    var signed := |s| > 0 && (s[0] == '-' || s[0] == '+');
    var digits := if signed then s[1..] else s;
    if digits == [] || !AllDigits(digits) then BadFormat
    else
      var v: int := if |s| > 0 && s[0] == '-' then -(DigitsValue(digits) as int) else DigitsValue(digits);
      if IsInt64(v) then Value(v) else OutOfRange
  }

  /** The boolean getters: a missing or empty attribute, or one that is not a boolean,
      reads as false. */
  function BoolAttribute(a: Option<string>): (b: bool)
    ensures b <==> a.Some? && Lower(a.value) == "true"
  {
    if a.None? || a.value == "" then false
    else match ParseBool(a.value)
      case Some(v) => v
      case None => false
  }

  /** The QuotasLimit getter: a missing or empty attribute, or one that is not a
      number, reads as 0; a number out of the 64-bit range makes the getter throw. */
  function LongAttribute(a: Option<string>): (r: Result<int>)
    ensures r.Ok? ==> IsInt64(r.value)
    ensures r == Err(Overflow) || r.Ok?
    ensures a.None? || a == Some("") ==> r == Ok(0)
    ensures a.Some? && ParseInt64(a.value) == BadFormat ==> r == Ok(0)
    ensures a.Some? && ParseInt64(a.value).Value? ==> r == Ok(ParseInt64(a.value).v)
    ensures a.Some? && a.value != "" && ParseInt64(a.value) == OutOfRange ==> r == Err(Overflow)
  {
    if a.None? || a.value == "" then Ok(0)
    else match ParseInt64(a.value)
      case Value(v) => Ok(v)
      case BadFormat => Ok(0)
      case OutOfRange => Err(Overflow)
  }

  /** What a boolean setter writes, the getter reads back. */
  lemma BoolAttributeRoundTrip(b: bool)
    ensures BoolAttribute(Some(BoolToString(b))) == b
  {
    if b {
      assert Lower("True") == "true";
    } else {
      assert Lower("False") == "false";
      assert Lower("False") != "true";
    }
  }

  /** What the QuotasLimit setter writes, the getter reads back. */
  lemma {:induction false} LongAttributeRoundTrip(x: int)
    requires IsInt64(x)
    ensures LongAttribute(Some(IntToString(x))) == Ok(x)
  {
    var s := IntToString(x);
    if x < 0 {
      DigitsValueOfNatToString(-x);
      var t := NatToString(-x);
      assert s[0] == '-' && s[1..] == t;
    } else {
      DigitsValueOfNatToString(x);
      assert IsDigit(s[0]);
    }
  }

  // ---------------------------------------------------------------------------
  // XmlDirInfo
  // ---------------------------------------------------------------------------

  /** Attempts Retry makes before it lets an IOException escape. */
  const MaxAttempts: nat := 4

  /** Whether an action whose i-th attempt throws an IOException exactly when
      failing(i) gets through within the retry budget. */
  predicate RetrySucceeds(failing: nat -> bool) {
    exists i :: 0 <= i < MaxAttempts && !failing(i)
  }

  class XmlDirInfo {
    /** The loaded XmlDocument: what lookups read and updates edit. */
    var doc: Doc
    /** The content of the sidecar file as last written. */
    var saved: Doc

    /** Loading an existing sidecar file (the loading retry is not modelled). */
    constructor (stored: Doc)
      ensures doc == stored && saved == stored
    {
      doc := stored;
      saved := stored;
    }

    /** Retry: call the action; on an IOException wait and call it again, at most
        MaxAttempts times in all, then let the exception escape. Returns whether an
        attempt succeeded and how many attempts were made. */
    static method Retry(failing: nat -> bool) returns (ok: bool, attempts: nat)
      ensures 1 <= attempts <= MaxAttempts
      ensures ok <==> RetrySucceeds(failing)
      ensures ok ==> !failing(attempts - 1)
      ensures forall i :: 0 <= i < attempts - 1 ==> failing(i)
      ensures !ok ==> attempts == MaxAttempts
    {
      var i: nat := 0;
      while true
        invariant i < MaxAttempts
        invariant forall j :: 0 <= j < i ==> failing(j)
        decreases MaxAttempts - i
      {
        if !failing(i) {
          return true, i + 1;
        }
        if i >= MaxAttempts - 1 {
          assert forall j :: 0 <= j < MaxAttempts ==> failing(j);
          return false, i + 1;
        }
        i := i + 1;
      }
    }

    function QuotasCustomSettings(): bool
      reads this
    {
      BoolAttribute(doc.customSettings)
    }

    function QuotasEnabled(): bool
      reads this
    {
      BoolAttribute(doc.enabled)
    }

    function QuotasLimit(): Result<int>
      reads this
    {
      LongAttribute(doc.limit)
    }

    /** The setters write value.ToString() on the root element and save once, with no retry. */
    method SetQuotasCustomSettings(value: bool, saveFails: bool) returns (o: Outcome)
      modifies this
      ensures doc == old(doc).(customSettings := Some(BoolToString(value)))
      ensures QuotasCustomSettings() == value
      ensures o == (if saveFails then Failed(IOFailure) else Done)
      ensures saved == (if saveFails then old(saved) else doc)
    {
      doc := doc.(customSettings := Some(BoolToString(value)));
      BoolAttributeRoundTrip(value);
      o := Save(saveFails);
    }

    method SetQuotasEnabled(value: bool, saveFails: bool) returns (o: Outcome)
      modifies this
      ensures doc == old(doc).(enabled := Some(BoolToString(value)))
      ensures QuotasEnabled() == value
      ensures o == (if saveFails then Failed(IOFailure) else Done)
      ensures saved == (if saveFails then old(saved) else doc)
    {
      doc := doc.(enabled := Some(BoolToString(value)));
      BoolAttributeRoundTrip(value);
      o := Save(saveFails);
    }

    method SetQuotasLimit(value: int, saveFails: bool) returns (o: Outcome)
      requires IsInt64(value)
      modifies this
      ensures doc == old(doc).(limit := Some(IntToString(value)))
      ensures QuotasLimit() == Ok(value)
      ensures o == (if saveFails then Failed(IOFailure) else Done)
      ensures saved == (if saveFails then old(saved) else doc)
    {
      doc := doc.(limit := Some(IntToString(value)));
      LongAttributeRoundTrip(value);
      o := Save(saveFails);
    }

    /** doc.Save(filename) without retry. */
    method Save(fails: bool) returns (o: Outcome)
      modifies this
      ensures doc == old(doc)
      ensures o == (if fails then Failed(IOFailure) else Done)
      ensures saved == (if fails then old(saved) else doc)
    {
      if fails {
        o := Failed(IOFailure);
      } else {
        saved := doc;
        o := Done;
      }
    }

    /** GetFileXmlElement(Guid): scan the elements in order for the identifier. */
    method IndexByGuid(g: Guid) returns (k: Option<nat>)
      ensures k == IndexOfGuid(doc.records, g)
    {
      var rs := doc.records;
      var i := 0;
      while i < |rs|
        invariant 0 <= i <= |rs|
        invariant forall j :: 0 <= j < i ==> rs[j].guid != g
      {
        if rs[i].guid == g {
          return Some(i);
        }
        i := i + 1;
      }
      return None;
    }

    /** GetFileXmlElement(string): scan the elements in order for the logical name. */
    method IndexByName(n: string) returns (k: Option<nat>)
      ensures k == IndexOfName(doc.records, n)
    {
      var rs := doc.records;
      var i := 0;
      while i < |rs|
        invariant 0 <= i <= |rs|
        invariant forall j :: 0 <= j < i ==> rs[j].vpath != n
      {
        if rs[i].vpath == n {
          return Some(i);
        }
        i := i + 1;
      }
      return None;
    }

    /** GetFile(Guid): the first record with the identifier, or null. */
    method GetFileByGuid(g: Guid) returns (fi: Option<FileInfo>)
      ensures fi.None? <==> !HasGuid(doc.records, g)
      ensures fi.Some? ==> fi.value == InfoOf(doc.records[IndexOfGuid(doc.records, g).value])
    {
      var k := IndexByGuid(g);
      fi := if k.Some? then Some(InfoOf(doc.records[k.value])) else None;
    }

    /** GetFile(string): the first record with the logical name, or null. */
    method GetFileByName(n: string) returns (fi: Option<FileInfo>)
      ensures fi.None? <==> !HasName(doc.records, n)
      ensures fi.Some? ==> fi.value == InfoOf(doc.records[IndexOfName(doc.records, n).value])
    {
      var k := IndexByName(n);
      fi := if k.Some? then Some(InfoOf(doc.records[k.value])) else None;
    }

    /** GetAll: every record, in document order. */
    method GetAll() returns (all: seq<FileInfo>)
      ensures |all| == |doc.records|
      ensures forall i :: 0 <= i < |all| ==> all[i] == InfoOf(doc.records[i])
    {
      all := [];
      var i := 0;
      while i < |doc.records|
        invariant 0 <= i <= |doc.records|
        invariant |all| == i
        invariant forall j :: 0 <= j < i ==> all[j] == InfoOf(doc.records[j])
      {
        all := all + [InfoOf(doc.records[i])];
        i := i + 1;
      }
    }

    /** AddFile(XmlFileInfo): append an element and save, with retry. The ledger does
        not check that the name or the identifier is new. */
    method AddFile(fi: FileInfo, failing: nat -> bool) returns (ok: bool)
      modifies this
      ensures doc == old(doc).(records := old(doc).records + [RecordOf(fi)])
      ensures ok <==> RetrySucceeds(failing)
      ensures saved == (if ok then doc else old(saved))
    {
      doc := doc.(records := doc.records + [RecordOf(fi)]);
      var attempts;
      ok, attempts := Retry(failing);
      if ok {
        saved := doc;
      }
    }

    /** AddFile(Guid, string): a record whose original name is its logical name. */
    method AddFileNamed(g: Guid, vpath: string, failing: nat -> bool) returns (ok: bool)
      modifies this
      ensures doc == old(doc).(records := old(doc).records + [Record(g, vpath, Some(vpath))])
      ensures ok <==> RetrySucceeds(failing)
      ensures saved == (if ok then doc else old(saved))
    {
      ok := AddFile(FileInfo(g, vpath, vpath), failing);
    }

    /** AssertCanRename: the new name must be free (even the renamed record's own name
        counts as taken), then the identifier must be present. */
    method AssertCanRename(g: Guid, newName: string) returns (o: Outcome)
      ensures HasName(doc.records, newName) ==> o == Failed(NameTaken)
      ensures !HasName(doc.records, newName) && !HasGuid(doc.records, g) ==> o == Failed(GuidNotFound)
      ensures !HasName(doc.records, newName) && HasGuid(doc.records, g) ==> o == Done
    {
      var byName := IndexByName(newName);
      if byName.Some? {
        return Failed(NameTaken);
      }
      var byGuid := IndexByGuid(g);
      if byGuid.None? {
        return Failed(GuidNotFound);
      }
      return Done;
    }

    /** Rename: check, then set vpath and originalFilename of the first record with
        the identifier and save once. The vpath attribute is set first, so a record
        without an originalFilename attribute is left half renamed in memory. */
    method Rename(g: Guid, newName: string, saveFails: bool) returns (o: Outcome)
      modifies this
      ensures HasName(old(doc.records), newName) ==>
        o == Failed(NameTaken) && doc == old(doc) && saved == old(saved)
      ensures !HasName(old(doc.records), newName) && !HasGuid(old(doc.records), g) ==>
        o == Failed(GuidNotFound) && doc == old(doc) && saved == old(saved)
      ensures !HasName(old(doc.records), newName) && HasGuid(old(doc.records), g) ==>
        var i := IndexOfGuid(old(doc.records), g).value;
        var r := old(doc.records)[i];
        if r.originalFilename.None? then
          && doc == old(doc).(records := old(doc.records)[i := r.(vpath := newName)])
          && o == Failed(MissingAttribute) && saved == old(saved)
        else
          && doc == old(doc).(records := RenameGuid(old(doc.records), g, newName))
          && o == (if saveFails then Failed(IOFailure) else Done)
          && saved == (if saveFails then old(saved) else doc)
    {
      o := AssertCanRename(g, newName);
      if o.Failed? {
        return;
      }
      var k := IndexByGuid(g);
      var i := k.value;
      var r := doc.records[i];
      doc := doc.(records := doc.records[i := r.(vpath := newName)]);
      if r.originalFilename.None? {
        return Failed(MissingAttribute);
      }
      doc := doc.(records := doc.records[i := Record(g, newName, Some(newName))]);
      o := Save(saveFails);
    }

    /** Delete: remove the first record with the identifier if there is one, then save
        once in either case. */
    method Delete(g: Guid, saveFails: bool) returns (o: Outcome)
      modifies this
      ensures doc == old(doc).(records := RemoveGuid(old(doc.records), g))
      ensures o == (if saveFails then Failed(IOFailure) else Done)
      ensures saved == (if saveFails then old(saved) else doc)
    {
      var k := IndexByGuid(g);
      if k.Some? {
        var i := k.value;
        doc := doc.(records := doc.records[..i] + doc.records[i + 1..]);
      }
      o := Save(saveFails);
    }
  }
}
