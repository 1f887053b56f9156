/**
 * The older tree builder: it takes the first row of the depth-sorted copy
 * as the root without checking for other rows at that depth, attaches the
 * rest with the split/pop/join parent-path helper, and sets no flags.
 */
module LegacyProgramTree {
  import opened Wrappers
  import opened ProgramPaths
  import opened Programs
  import opened ProgramTree

  /**
   * No rows gives no tree; otherwise the first shallowest row is the root
   * and the other rows are attached exactly as the newer builder attaches
   * them; no node is flagged.
   */
  method BuildLegacyProgramTree(records: seq<ProgramInfo>) returns (result: Option<seq<TreeNode>>)
    ensures result.None? <==> records == []
    ensures result.Some? ==>
      && records != []
      && WellBuilt(SortByDepth(records), result.value)
      && result.value[0].record == Shallowest(records)[0]
      && Unflagged(result.value)
  {
    if records == [] {
      return None;
    }
    var programData := SortByDepth(records);
    SortedHeadIsFirstShallowest(records);
    var nodes, _ := AttachRecords(programData, true);
    return Some(nodes);
  }

  /**
   * Where the newer builder refuses several shallowest rows, the older one
   * keeps the first and silently leaves out every other row of that depth
   * (unless the root's path is "", in which case depth-one rows hang under it).
   */
  lemma {:induction false} LegacyDropsOtherRoots(records: seq<ProgramInfo>)
    requires records != []
    ensures var s := SortByDepth(records);
      |Shallowest(records)| > 1 <==> exists j :: 1 <= j < |s| && Depth(s[j].path) == Depth(s[0].path)
    ensures var s := SortByDepth(records);
      s[0].path != "" ==>
        forall j :: 1 <= j < |s| && Depth(s[j].path) == Depth(s[0].path) ==> !Attached(s, j)
  {
    var s := SortByDepth(records);
    SortedHeadIsFirstShallowest(records);
    if exists j :: 1 <= j < |s| && Depth(s[j].path) == Depth(s[0].path) {
      var j :| 1 <= j < |s| && Depth(s[j].path) == Depth(s[0].path);
      assert Depth(s[0].path) <= Depth(s[1].path) <= Depth(s[j].path);
    }
    if s[0].path != "" {
      forall j | 1 <= j < |s| && Depth(s[j].path) == Depth(s[0].path) ensures !Attached(s, j) {
        OtherRootDropped(s, j);
      }
    }
  }

  lemma OtherRootDropped(s: seq<ProgramInfo>, j: nat)
    requires SortedByDepth(s) && 1 <= j < |s| && s[0].path != ""
    requires Depth(s[j].path) == Depth(s[0].path)
    ensures !Attached(s, j)
  {
    var q := ParentPath(s[j].path);
    if '.' in s[j].path {
      ParentPathDepth(s[j].path);
    }
  }
}
