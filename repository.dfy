/** FSRepository: the root folder of one namespace, its place under the manager's root
    directory, and its quota settings. */
module Repository {
  import opened Common
  import opened DirInfo
  import opened FileEntry

  /** FSRepMan's process-wide quota defaults. */
  datatype ManagerQuotas = ManagerQuotas(enabled: bool, limit: int)

  /** GetEffectiveQuotasLimit: with custom settings on, the repository's own limit if
      its quotas are enabled and 0 otherwise; with them off, the manager's limit if
      the manager's quotas are enabled and 0 otherwise. The repository's attributes are
      read from the sidecar ledger of its root directory; its limit is only read when
      it is used, and an out-of-range limit makes the call throw. */
  function EffectiveQuotasLimit(root: Doc, m: ManagerQuotas): (r: Result<int>)
    ensures r.Err? ==> r.error == Overflow
    ensures BoolAttribute(root.customSettings) && BoolAttribute(root.enabled) ==> r == LongAttribute(root.limit)
    ensures BoolAttribute(root.customSettings) && !BoolAttribute(root.enabled) ==> r == Ok(0)
    ensures !BoolAttribute(root.customSettings) ==> r == Ok(if m.enabled then m.limit else 0)
    ensures r.Ok? && r.value != 0 ==>
      if BoolAttribute(root.customSettings) then BoolAttribute(root.enabled) else m.enabled && r.value == m.limit
  {
    if BoolAttribute(root.customSettings) then
      (if BoolAttribute(root.enabled) then LongAttribute(root.limit) else Ok(0))
    else
      Ok(if m.enabled then m.limit else 0)
  }

  /** The ledger after the three repository setters have written their values. */
  function WithQuotas(root: Doc, custom: bool, enabled: bool, limit: int): Doc {
    root.(customSettings := Some(BoolToString(custom)),
          enabled := Some(BoolToString(enabled)),
          limit := Some(IntToString(limit)))
  }

  /** The two-level override, stated over the values the setters wrote. */
  lemma EffectiveQuotasLimitOfSettings(root: Doc, m: ManagerQuotas, custom: bool, enabled: bool, limit: int)
    requires IsInt64(limit)
    ensures EffectiveQuotasLimit(WithQuotas(root, custom, enabled, limit), m) ==
      Ok(if custom then (if enabled then limit else 0) else (if m.enabled then m.limit else 0))
  {
    BoolAttributeRoundTrip(custom);
    BoolAttributeRoundTrip(enabled);
    LongAttributeRoundTrip(limit);
  }

  /** MapPath: drop one leading "/", then read the rest as folder names separated by
      "/" below the repository's own directory (Path.Combine is segment append). */
  function MapPath(repositoryDir: seq<string>, virtualPath: string): seq<string> {
    var rel := if |virtualPath| > 0 && virtualPath[0] == '/' then virtualPath[1..] else virtualPath;
    if rel == "" then repositoryDir else repositoryDir + Split(rel, '/')
  }

  /** RealPath: the repository's directory is its name below the manager's root
      folder; any other entry's is its virtual path mapped below that directory. */
  function RealPath(rootFolder: seq<string>, chain: seq<string>): seq<string>
    requires IsChain(chain)
  {
    if |chain| == 1 then rootFolder + [chain[0]]
    else MapPath(rootFolder + [chain[0]], VirtualPath(chain))
  }

  /** An entry's physical location is the root folder followed by its chain. */
  lemma RealPathIsChain(rootFolder: seq<string>, chain: seq<string>)
    requires ValidChain(chain)
    ensures RealPath(rootFolder, chain) == rootFolder + chain
  {
    if |chain| > 1 {
      ChainNames(chain);
      var parts := chain[1..];
      var rel := Join(parts, '/');
      assert NoSep(parts, '/');
      SplitJoin(parts, '/');
      assert ("/" + rel)[1..] == rel;
      assert rel != "" by {
        assert Split(rel, '/')[0] == parts[0] != "";
      }
      assert [chain[0]] + parts == chain;
    }
  }
}
