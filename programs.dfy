/**
 * Program catalog rows (one version of one program) and the stable
 * sort by path depth that both tree builders apply to their working copy.
 */
module Programs {
  import opened ProgramPaths

  /**
   * One version row of a program: `key` is the storage key, in the order
   * the database keeps rows, and `keyText` the same primary key in the text
   * form a query on `id` compares with (a uuid's text, not a number);
   * `programId` is the business key shared by all versions of a program and
   * `expects` the "expect software effort" flag. Other descriptive metadata
   * is not modelled.
   */
  datatype ProgramInfo = ProgramInfo(
    key: nat,
    keyText: string,
    programId: string,
    path: Path,
    name: string,
    date: int,
    active: bool,
    expects: bool)

  /** Ascending depth, equal depths in any order. */
  ghost predicate SortedByDepth(s: seq<ProgramInfo>)
  {
    forall i, j :: 0 <= i < j < |s| ==> Depth(s[i].path) <= Depth(s[j].path)
  }

  /** The rows of `s` whose path has depth `d`, in their order in `s`. */
  function AtDepth(s: seq<ProgramInfo>, d: nat): (r: seq<ProgramInfo>)
    ensures |r| <= |s|
    ensures forall x :: x in r ==> x in s && Depth(x.path) == d
    ensures (exists i :: 0 <= i < |s| && Depth(s[i].path) == d) <==> |r| > 0
  {
    if s == [] then []
    else
      var rest := AtDepth(s[1..], d);
      assert forall i :: 1 <= i < |s| ==> s[i] == s[1..][i - 1];
      if Depth(s[0].path) == d then [s[0]] + rest else rest
  }

  /**
   * Places `x` before the first row of the sorted `t` that is at least as
   * deep: `x` stays ahead of the rows of its own depth that followed it.
   */
  function InsertByDepth(x: ProgramInfo, t: seq<ProgramInfo>): (r: seq<ProgramInfo>)
    requires SortedByDepth(t)
    ensures SortedByDepth(r)
    ensures multiset(r) == multiset(t) + multiset{x}
  {
    if t == [] || Depth(x.path) <= Depth(t[0].path) then [x] + t
    else
      SortedTail(t);
      var tail := InsertByDepth(x, t[1..]);
      ConsMultiset(t, x, tail);
      HeadBound(t, x, tail);
      ConsSorted(t[0], tail);
      [t[0]] + tail
  }

  /** Putting the head back in front of the tail with `x` inserted adds `x` to the rows. */
  lemma ConsMultiset(t: seq<ProgramInfo>, x: ProgramInfo, tail: seq<ProgramInfo>)
    requires t != [] && multiset(tail) == multiset(t[1..]) + multiset{x}
    ensures multiset([t[0]] + tail) == multiset(t) + multiset{x}
  {
    assert t == [t[0]] + t[1..];
  }

  /** The rows after the first of a sorted sequence are sorted. */
  lemma SortedTail(t: seq<ProgramInfo>)
    requires SortedByDepth(t) && t != []
    ensures SortedByDepth(t[1..])
  {
    var u := t[1..];
    forall i, j | 0 <= i < j < |u| ensures Depth(u[i].path) <= Depth(u[j].path) {
      assert u[i] == t[i + 1] && u[j] == t[j + 1];
    }
  }

  /** Every row of a sorted sequence after the first, and any deeper `x`, is no shallower than the first. */
  lemma HeadBound(t: seq<ProgramInfo>, x: ProgramInfo, tail: seq<ProgramInfo>)
    requires SortedByDepth(t) && t != [] && Depth(t[0].path) <= Depth(x.path)
    requires multiset(tail) == multiset(t[1..]) + multiset{x}
    ensures forall k :: 0 <= k < |tail| ==> Depth(t[0].path) <= Depth(tail[k].path)
  {
    forall k | 0 <= k < |tail| ensures Depth(t[0].path) <= Depth(tail[k].path) {
      var y := tail[k];
      assert y in multiset(tail);
      if y != x {
        assert y in multiset(t[1..]);
        var m :| 0 <= m < |t[1..]| && t[1..][m] == y;
        assert t[m + 1] == y;
      }
    }
  }

  lemma ConsSorted(h: ProgramInfo, tail: seq<ProgramInfo>)
    requires SortedByDepth(tail)
    requires forall k :: 0 <= k < |tail| ==> Depth(h.path) <= Depth(tail[k].path)
    ensures SortedByDepth([h] + tail)
  {
    var r := [h] + tail;
    forall i, j | 0 <= i < j < |r| ensures Depth(r[i].path) <= Depth(r[j].path) {
      assert r[j] == tail[j - 1];
      if i > 0 { assert r[i] == tail[i - 1]; }
    }
  }

  /**
   * The working copy after Python's stable `list.sort` keyed by depth
   * (an insertion sort that keeps earlier rows ahead of later rows of
   * the same depth).
   */
  function SortByDepth(s: seq<ProgramInfo>): (r: seq<ProgramInfo>)
    ensures SortedByDepth(r)
    ensures multiset(r) == multiset(s)
  {
    if s == [] then []
    else
      assert s == [s[0]] + s[1..];
      InsertByDepth(s[0], SortByDepth(s[1..]))
  }

  /** Inserting keeps the rows of every depth in their previous order. */
  lemma {:induction false} InsertByDepthAtDepth(x: ProgramInfo, t: seq<ProgramInfo>, d: nat)
    requires SortedByDepth(t)
    ensures AtDepth(InsertByDepth(x, t), d)
         == (if Depth(x.path) == d then [x] else []) + AtDepth(t, d)
  {
    if t == [] || Depth(x.path) <= Depth(t[0].path) {
      assert InsertByDepth(x, t) == [x] + t;
      AtDepthCons(x, t, d);
    } else {
      SortedTail(t);
      var tail := InsertByDepth(x, t[1..]);
      var headPart := if Depth(t[0].path) == d then [t[0]] else [];
      var xPart := if Depth(x.path) == d then [x] else [];
      var rest := AtDepth(t[1..], d);
      assert InsertByDepth(x, t) == [t[0]] + tail;
      InsertByDepthAtDepth(x, t[1..], d);
      AtDepthCons(t[0], tail, d);
      assert AtDepth(InsertByDepth(x, t), d) == headPart + (xPart + rest);
      assert AtDepth(t, d) == headPart + rest;
      SwapParts(headPart, xPart, rest);
    }
  }

  /** Two parts of which at most one is non-empty can be swapped. */
  lemma SwapParts(p: seq<ProgramInfo>, q: seq<ProgramInfo>, rest: seq<ProgramInfo>)
    requires p == [] || q == []
    ensures p + (q + rest) == q + (p + rest)
  {
    if p == [] {
      assert p + (q + rest) == q + rest == q + (p + rest);
    } else {
      assert p + (q + rest) == p + rest == q + (p + rest);
    }
  }

  /** The rows of depth `d` in `[h] + t`: `h` when it has that depth, then those of `t`. */
  lemma AtDepthCons(h: ProgramInfo, t: seq<ProgramInfo>, d: nat)
    ensures AtDepth([h] + t, d) == (if Depth(h.path) == d then [h] else []) + AtDepth(t, d)
  {
    assert ([h] + t)[1..] == t;
  }

  /**
   * Stability: for every depth, the sorted copy lists the rows of that depth
   * in exactly their original order. With sortedness and permutation this
   * pins the result down completely.
   */
  lemma {:induction false} SortByDepthIsStable(s: seq<ProgramInfo>, d: nat)
    ensures AtDepth(SortByDepth(s), d) == AtDepth(s, d)
  {
    if s != [] {
      SortByDepthIsStable(s[1..], d);
      InsertByDepthAtDepth(s[0], SortByDepth(s[1..]), d);
    }
  }

  /** The smallest depth among the rows. */
  function MinDepth(s: seq<ProgramInfo>): (m: nat)
    requires |s| > 0
    ensures forall i :: 0 <= i < |s| ==> m <= Depth(s[i].path)
    ensures exists i :: 0 <= i < |s| && Depth(s[i].path) == m
  {
    if |s| == 1 then Depth(s[0].path)
    else
      var m := MinDepth(s[1..]);
      assert forall i :: 1 <= i < |s| ==> s[i] == s[1..][i - 1];
      if Depth(s[0].path) <= m then Depth(s[0].path) else m
  }

  /** The rows at the minimum depth, in input order: the root candidates. */
  function Shallowest(s: seq<ProgramInfo>): (r: seq<ProgramInfo>)
    requires |s| > 0
    ensures |r| >= 1
  {
    AtDepth(s, MinDepth(s))
  }

  /** In a depth-sorted sequence, the rows of the first row's depth form a prefix. */
  lemma {:induction false} SortedAtFirstDepth(s: seq<ProgramInfo>)
    requires |s| > 0 && SortedByDepth(s)
    ensures AtDepth(s, Depth(s[0].path))[0] == s[0]
    ensures |AtDepth(s, Depth(s[0].path))| > 1 <==> |s| > 1 && Depth(s[1].path) == Depth(s[0].path)
  {
    var d := Depth(s[0].path);
    if |s| > 1 && Depth(s[1].path) == d {
      assert s[1..][0] == s[1];
    }
  }

  /**
   * The head of the sorted copy is the first row, in input order, of the
   * minimum depth, and there is more than one root candidate exactly when the
   * second row of the sorted copy has the same depth as the first.
   */
  lemma SortedHeadIsFirstShallowest(records: seq<ProgramInfo>)
    requires |records| > 0
    ensures var sorted := SortByDepth(records);
      && |sorted| == |records|
      && Depth(sorted[0].path) == MinDepth(records)
      && sorted[0] == Shallowest(records)[0]
      && (|Shallowest(records)| > 1 <==> |sorted| > 1 && Depth(sorted[1].path) == Depth(sorted[0].path))
  {
    var sorted := SortByDepth(records);
    SortedHeadDepth(records);
    SortByDepthIsStable(records, MinDepth(records));
    SortedAtFirstDepth(sorted);
  }

  /** The sorted copy has as many rows as the input, and its first row has the minimum depth. */
  lemma SortedHeadDepth(records: seq<ProgramInfo>)
    requires |records| > 0
    ensures |SortByDepth(records)| == |records|
    ensures Depth(SortByDepth(records)[0].path) == MinDepth(records)
  {
    var sorted := SortByDepth(records);
    var m := MinDepth(records);
    MultisetLength(sorted, records);
    var k := MultisetMember(sorted, records, 0);
    assert m <= Depth(records[k].path);
    var i :| 0 <= i < |records| && Depth(records[i].path) == m;
    var j := MultisetMember(records, sorted, i);
    assert Depth(sorted[0].path) <= Depth(sorted[j].path);
  }

  /** Sequences with the same rows have the same length. */
  lemma MultisetLength(a: seq<ProgramInfo>, b: seq<ProgramInfo>)
    requires multiset(a) == multiset(b)
    ensures |a| == |b|
  {
    assert |a| == |multiset(a)|;
    assert |b| == |multiset(b)|;
  }

  /** A row of `a` is found in every sequence with the same rows. */
  lemma MultisetMember(a: seq<ProgramInfo>, b: seq<ProgramInfo>, i: nat) returns (j: nat)
    requires multiset(a) == multiset(b) && i < |a|
    ensures j < |b| && b[j] == a[i]
  {
    assert a[i] in multiset(b);
    j :| 0 <= j < |b| && b[j] == a[i];
  }
}
