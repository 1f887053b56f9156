/**
 * Selection of the one "current" row per program: the active row with the
 * latest date, ties broken by the highest storage key.
 */
module VersionResolver {
  import opened Wrappers
  import opened Programs

  /** `a` sorts before `b` under `order_by("-date", "-id")`. */
  predicate Outranks(a: ProgramInfo, b: ProgramInfo)
  {
    a.date > b.date || (a.date == b.date && a.key > b.key)
  }

  /** Storage keys identify rows. */
  ghost predicate UniqueKeys(rows: seq<ProgramInfo>)
  {
    forall i, j :: 0 <= i < |rows| && 0 <= j < |rows| && rows[i].key == rows[j].key ==> i == j
  }

  /** The first row under `order_by("-date", "-id")` among the rows that `ok` admits. */
  function Top(rows: seq<ProgramInfo>, ok: ProgramInfo -> bool): (r: Option<ProgramInfo>)
    ensures r.Some? ==> r.value in rows && ok(r.value)
    ensures r.Some? ==> forall x :: x in rows && ok(x) ==> !Outranks(x, r.value)
    ensures r.None? ==> forall x :: x in rows ==> !ok(x)
  {
    if rows == [] then None
    else
      var rest := Top(rows[1..], ok);
      assert forall x :: x in rows ==> x == rows[0] || x in rows[1..];
      if !ok(rows[0]) then rest
      else if rest.None? || !Outranks(rest.value, rows[0]) then Some(rows[0])
      else rest
  }

  /** The active versions of program `pid`. */
  function ActiveVersionOf(pid: string): ProgramInfo -> bool
  {
    (r: ProgramInfo) => r.active && r.programId == pid
  }

  /** The current row of program `pid`, as intended: its top active version. */
  function Current(rows: seq<ProgramInfo>, pid: string): Option<ProgramInfo>
  {
    Top(rows, ActiveVersionOf(pid))
  }

  /**
   * The `latest_date` values of the grouped subquery: for each active
   * program, the date of its latest active version.
   */
  function LatestDates(rows: seq<ProgramInfo>): set<int>
  {
    set r | r in rows && r.active && Current(rows, r.programId).Some? :: Current(rows, r.programId).value.date
  }

  /**
   * The current row of `pid` as the query is written: the date filter is
   * `date__in` the latest dates of ALL programs, not of `pid` alone.
   */
  function CurrentAsQueried(rows: seq<ProgramInfo>, pid: string): Option<ProgramInfo>
  {
    var dates := LatestDates(rows);
    Top(rows, (r: ProgramInfo) => r.active && r.programId == pid && r.date in dates)
  }

  /**
   * The cross-program date filter never changes the selected row: a
   * program's own latest date is always among the dates admitted, and no
   * admitted version outranks the latest one.
   */
  lemma CurrentAsQueriedIsCurrent(rows: seq<ProgramInfo>, pid: string)
    requires UniqueKeys(rows)
    ensures CurrentAsQueried(rows, pid) == Current(rows, pid)
  {
    var want := Current(rows, pid);
    var got := CurrentAsQueried(rows, pid);
    var dates := LatestDates(rows);
    if want.Some? {
      var b := want.value;
      assert b.date in dates;
      assert got.Some?;
      var c := got.value;
      assert !Outranks(b, c) && !Outranks(c, b);
      var i :| 0 <= i < |rows| && rows[i] == b;
      var j :| 0 <= j < |rows| && rows[j] == c;
      assert b.key == c.key;
    } else {
      assert got.None?;
    }
  }

  /** A row survives the selection when it is the current row of its program. */
  predicate IsCurrentRow(rows: seq<ProgramInfo>, r: ProgramInfo)
  {
    Current(rows, r.programId) == Some(r)
  }

  /**
   * The de-duplicated list of current rows, in storage order (the ordering
   * by `program_id` is not modelled): one row per active program, and that
   * row outranks every other active version of its program.
   */
  function CurrentRows(rows: seq<ProgramInfo>): seq<ProgramInfo>
  {
    Select(rows, rows)
  }

  /**
   * With storage keys identifying rows, the current rows are active rows of
   * the table, one per active program, each outranking every other active
   * version of its program.
   */
  lemma CurrentRowsAreCurrent(rows: seq<ProgramInfo>)
    requires UniqueKeys(rows)
    ensures var r := CurrentRows(rows);
      && (forall x :: x in r ==> x in rows && x.active)
      && (forall x, y :: x in rows && y in r && x.active && x.programId == y.programId && x != y ==> Outranks(y, x))
      && (forall x :: x in rows && x.active ==> exists y :: y in r && y.programId == x.programId)
      && (forall i, j :: 0 <= i < j < |r| ==> r[i].programId != r[j].programId)
  {
    UniqueKeysDistinct(rows);
    SelectDistinct(rows, rows);
    SelectedOutrank(rows);
    SelectedCover(rows);
  }

  lemma UniqueKeysDistinct(rows: seq<ProgramInfo>)
    requires UniqueKeys(rows)
    ensures forall i, j :: 0 <= i < j < |rows| ==> rows[i] != rows[j]
  {
  }

  /** A selected row outranks every other active version of its program. */
  lemma SelectedOutrank(rows: seq<ProgramInfo>)
    requires UniqueKeys(rows)
    ensures forall x, y :: x in rows && y in Select(rows, rows) && x.active && x.programId == y.programId && x != y ==> Outranks(y, x)
  {
    forall x, y | x in rows && y in Select(rows, rows) && x.active && x.programId == y.programId && x != y
      ensures Outranks(y, x)
    {
      assert IsCurrentRow(rows, y);
      var i :| 0 <= i < |rows| && rows[i] == x;
      var j :| 0 <= j < |rows| && rows[j] == y;
    }
  }

  /** Every active program has a selected row. */
  lemma SelectedCover(rows: seq<ProgramInfo>)
    ensures forall x :: x in rows && x.active ==> exists y :: y in Select(rows, rows) && y.programId == x.programId
  {
    forall x | x in rows && x.active ensures exists y :: y in Select(rows, rows) && y.programId == x.programId {
      var y := Current(rows, x.programId).value;
      assert IsCurrentRow(rows, y);
    }
  }

  /** The rows of `s` that are current in `rows`, in order. */
  function Select(rows: seq<ProgramInfo>, s: seq<ProgramInfo>): (r: seq<ProgramInfo>)
    ensures forall x :: x in r ==> x in s && IsCurrentRow(rows, x)
    ensures forall x :: x in s && IsCurrentRow(rows, x) ==> x in r
    ensures forall i, j :: 0 <= i < j < |r| ==> r[i].programId != r[j].programId || r[i] == r[j]
  {
    if s == [] then []
    else
      var rest := Select(rows, s[1..]);
      assert forall x :: x in s ==> x == s[0] || x in s[1..];
      if IsCurrentRow(rows, s[0]) then
        var r := [s[0]] + rest;
        assert forall k :: 0 <= k < |r| ==> IsCurrentRow(rows, r[k]) by {
          forall k | 0 <= k < |r| ensures IsCurrentRow(rows, r[k]) {
            if k > 0 { assert r[k] == rest[k - 1]; }
          }
        }
        r
      else rest
  }

  /** Selecting from rows without repeats gives rows without repeats. */
  lemma {:induction false} SelectDistinct(rows: seq<ProgramInfo>, s: seq<ProgramInfo>)
    requires forall i, j :: 0 <= i < j < |s| ==> s[i] != s[j]
    ensures forall i, j :: 0 <= i < j < |Select(rows, s)| ==> Select(rows, s)[i] != Select(rows, s)[j]
  {
    if s != [] {
      var t := s[1..];
      assert forall i, j :: 0 <= i < j < |t| ==> t[i] != t[j] by {
        forall i, j | 0 <= i < j < |t| ensures t[i] != t[j] {
          assert t[i] == s[i + 1] && t[j] == s[j + 1];
        }
      }
      SelectDistinct(rows, t);
      var rest := Select(rows, t);
      if IsCurrentRow(rows, s[0]) {
        assert s[0] !in t by {
          forall k | 0 <= k < |t| ensures t[k] != s[0] {
            assert t[k] == s[k + 1];
          }
        }
        assert s[0] !in rest;
        var r := [s[0]] + rest;
        assert Select(rows, s) == r;
        forall i, j | 0 <= i < j < |r| ensures r[i] != r[j] {
          assert r[j] == rest[j - 1] && rest[j - 1] in rest;
          if i > 0 { assert r[i] == rest[i - 1]; }
        }
      } else {
        assert Select(rows, s) == rest;
      }
    }
  }
}
