/**
 * Dot-separated program paths ("1", "1.2", "1.2.3"): the segment count that
 * orders the records and the parent path under which a record is attached.
 */
module ProgramPaths {

  type Path = string

  /** Python's `path.split(".")`, built from the back one character at a time. */
  function Split(p: Path): (parts: seq<string>)
    ensures |parts| >= 1
    decreases |p|
  {
    if |p| == 0 then [""]
    else
      var init := Split(p[..|p| - 1]);
      var c := p[|p| - 1];
      if c == '.' then init + [""]
      else init[..|init| - 1] + [init[|init| - 1] + [c]]
  }

  /** Python's `".".join(parts)`. */
  function Join(parts: seq<string>): (p: Path)
    decreases |parts|
  {
    if |parts| == 0 then ""
    else if |parts| == 1 then parts[0]
    else Join(parts[..|parts| - 1]) + "." + parts[|parts| - 1]
  }

  /** The depth of a path: the number of its dot-separated segments. */
  function Depth(p: Path): (d: nat)
    ensures d >= 1
  {
    |Split(p)|
  }

  /** Index of the last '.' in `p`; only asked when there is one. */
  function LastDot(p: Path): (i: nat)
    requires '.' in p
    ensures i < |p| && p[i] == '.'
    ensures forall j :: i < j < |p| ==> p[j] != '.'
    decreases |p|
  {
    if p[|p| - 1] == '.' then |p| - 1
    else
      assert '.' in p[..|p| - 1] by {
        var k :| 0 <= k < |p| && p[k] == '.';
        assert p[..|p| - 1][k] == '.';
      }
      LastDot(p[..|p| - 1])
  }

  /**
   * The parent path as the newer builder computes it: "" when the path has no
   * dot, otherwise everything before the last dot (`rsplit(".", 1)[0]`).
   */
  function ParentPath(p: Path): (q: Path)
    ensures |q| < |p| || (p == "" && q == "")
    ensures q <= p
  {
    if '.' !in p then "" else p[..LastDot(p)]
  }

  /** The parent path as the older builder computes it: split, drop the last part, join. */
  function LegacyParentPath(p: Path): (q: Path)
  {
    var parts := Split(p);
    Join(parts[..|parts| - 1])
  }

  /** How `ParentPath` behaves when one character is appended. */
  lemma ParentPathSnoc(s: Path, c: char)
    ensures ParentPath(s + [c]) == if c == '.' then s else ParentPath(s)
  {
    var p := s + [c];
    assert p[..|s|] == s;
    if c == '.' {
      assert LastDot(p) == |s|;
    } else if '.' in s {
      var k :| 0 <= k < |s| && s[k] == '.';
      assert p[k] == '.';
      assert p[..|p| - 1] == s;
      assert LastDot(p) == LastDot(s);
      assert p[..LastDot(s)] == s[..LastDot(s)];
    } else {
      assert '.' !in p by {
        forall k | 0 <= k < |p| ensures p[k] != '.' {
          if k < |s| { assert p[k] == s[k]; }
        }
      }
    }
  }

  /** Splitting and joining again gives the path back. */
  lemma {:induction false} JoinSplit(p: Path)
    ensures Join(Split(p)) == p
    decreases |p|
  {
    if |p| > 0 {
      var s := p[..|p| - 1];
      var c := p[|p| - 1];
      assert p == s + [c];
      var init := Split(s);
      JoinSplit(s);
      if c == '.' {
        assert (init + [""])[..|init|] == init;
      } else if |init| == 1 {
      } else {
        var front := init[..|init| - 1];
        var last := init[|init| - 1];
        var parts := front + [last + [c]];
        assert parts[..|parts| - 1] == front;
        assert init[..|init| - 1] == front;
        assert Join(init) == Join(front) + "." + last;
      }
    }
  }

  /**
   * The two builders' parent-path helpers agree on every input: split/pop/join
   * equals "" without a dot and the text before the last dot otherwise.
   */
  lemma {:induction false} LegacyParentPathIsParentPath(p: Path)
    ensures LegacyParentPath(p) == ParentPath(p)
    decreases |p|
  {
    if |p| == 0 {
      assert '.' !in p;
    } else {
      var s := p[..|p| - 1];
      var c := p[|p| - 1];
      assert p == s + [c];
      ParentPathSnoc(s, c);
      var init := Split(s);
      if c == '.' {
        assert Split(p) == init + [""];
        assert (init + [""])[..|init|] == init;
        JoinSplit(s);
      } else {
        LegacyParentPathIsParentPath(s);
        var parts := init[..|init| - 1] + [init[|init| - 1] + [c]];
        assert Split(p) == parts;
        assert parts[..|parts| - 1] == init[..|init| - 1];
      }
    }
  }

  /** Appending a dot adds a segment; any other character extends the last one. */
  lemma DepthSnoc(s: Path, c: char)
    ensures Depth(s + [c]) == if c == '.' then Depth(s) + 1 else Depth(s)
  {
    var p := s + [c];
    assert p[..|p| - 1] == s;
  }

  /** A path without a dot has exactly one segment. */
  lemma {:induction false} DepthWithoutDot(p: Path)
    requires '.' !in p
    ensures Depth(p) == 1
    decreases |p|
  {
    if |p| > 0 {
      var s := p[..|p| - 1];
      assert p == s + [p[|p| - 1]];
      assert '.' !in s by {
        forall k | 0 <= k < |s| ensures s[k] != '.' { assert s[k] == p[k]; }
      }
      DepthWithoutDot(s);
      DepthSnoc(s, p[|p| - 1]);
    }
  }

  /** A path that has a dot is one segment deeper than its parent path. */
  lemma {:induction false} ParentPathDepth(p: Path)
    requires '.' in p
    ensures Depth(ParentPath(p)) + 1 == Depth(p)
    decreases |p|
  {
    var s := p[..|p| - 1];
    var c := p[|p| - 1];
    assert p == s + [c];
    ParentPathSnoc(s, c);
    DepthSnoc(s, c);
    if c != '.' {
      assert '.' in s by {
        var k :| 0 <= k < |p| && p[k] == '.';
        assert k < |s| && s[k] == '.';
      }
      ParentPathDepth(s);
    }
  }

  /** Depth above one means there is a dot, so the parent path is one segment shallower. */
  lemma DeepPathHasDot(p: Path)
    requires Depth(p) > 1
    ensures '.' in p && Depth(ParentPath(p)) + 1 == Depth(p)
  {
    if '.' !in p { DepthWithoutDot(p); }
    ParentPathDepth(p);
  }

  /** The parent path of a one-segment path is "", itself a one-segment path. */
  lemma ShallowParentPath(p: Path)
    requires Depth(p) == 1
    ensures ParentPath(p) == ""
  {
    if '.' in p {
      ParentPathDepth(p);
    }
  }
}
