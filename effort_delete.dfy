/**
 * Hard deletion of an effort by uuid: a malformed uuid or an unknown one
 * returns false with nothing changed; otherwise each local profile the
 * effort links is deleted, then the effort itself, and the result is true.
 */
module EffortDelete {
  import opened Wrappers
  import opened Efforts

  predicate IsHexChar(ch: char)
  {
    ('0' <= ch <= '9') || ('a' <= ch <= 'f') || ('A' <= ch <= 'F')
  }

  /** The text without its hyphens. */
  function WithoutHyphens(s: string): (r: string)
    ensures |r| <= |s| && '-' !in r
  {
    if s == [] then []
    else if s[0] == '-' then WithoutHyphens(s[1..])
    else [s[0]] + WithoutHyphens(s[1..])
  }

  /** The text with its leading and trailing braces removed. */
  function StripBraces(s: string): (r: string)
    ensures |r| <= |s|
    ensures r == [] || (r[0] != '{' && r[0] != '}' && r[|r| - 1] != '{' && r[|r| - 1] != '}')
  {
    if s != [] && (s[0] == '{' || s[0] == '}') then StripBraces(s[1..])
    else if s != [] && (s[|s| - 1] == '{' || s[|s| - 1] == '}') then StripBraces(s[..|s| - 1])
    else s
  }

  /**
   * A uuid as text: once surrounding braces and every hyphen are removed,
   * exactly 32 hexadecimal digits remain.
   */
  predicate WellFormedUuid(s: string)
  {
    var h := WithoutHyphens(StripBraces(s));
    |h| == 32 && forall k :: 0 <= k < |h| ==> IsHexChar(h[k])
  }

  datatype Deleted = Deleted(ok: bool, catalog: Catalog)

  /** Hard-deletes the row a local reference names, if any. */
  function DropRow(t: ProfileTable, reference: Option<nat>): (r: ProfileTable)
    ensures reference.Some? ==> r.rows == t.rows - {reference.value}
    ensures reference.None? ==> r == t
    ensures r.nextKey == t.nextKey
  {
    if reference.Some? then t.(rows := t.rows - {reference.value}) else t
  }

  /** The sequence without position `i`, the others kept in order. */
  function Without(s: seq<Effort>, i: nat): (r: seq<Effort>)
    requires i < |s|
    ensures |r| == |s| - 1
    ensures forall j :: 0 <= j < |r| ==> r[j] == s[if j < i then j else j + 1]
  {
    s[..i] + s[i + 1..]
  }

  /** The store without the effort at `i` and without its local profile rows. */
  function Remove(c: Catalog, i: nat): Catalog
    requires i < |c.efforts|
  {
    var local := c.efforts[i].local;
    c.(efforts := Without(c.efforts, i),
       profiles := PerAspect(
         DropRow(c.profiles.statementOfWork, local.statementOfWork),
         DropRow(c.profiles.technicalContacts, local.technicalContacts),
         DropRow(c.profiles.developerSetup, local.developerSetup),
         DropRow(c.profiles.workLocation, local.workLocation)))
  }

  /**
   * Delete by uuid. False, with the store unchanged, when the text is not a
   * well-formed uuid or no effort carries it; true otherwise.
   */
  function DeleteEffort(c: Catalog, text: string): (r: Deleted)
    ensures r.ok <==> WellFormedUuid(text) && exists j :: 0 <= j < |c.efforts| && c.efforts[j].uuid == text
    ensures !r.ok ==> r.catalog == c
  {
    if !WellFormedUuid(text) then Deleted(false, c)
    else match EffortWithUuid(c.efforts, text)
      case None => Deleted(false, c)
      case Some(i) => Deleted(true, Remove(c, i))
  }

  /**
   * A successful delete removes exactly the effort with that uuid, keeping
   * the others in order, and exactly its local profile rows, keeping every
   * other row as it was; no effort with the uuid remains.
   */
  lemma DeleteRemovesEffortAndProfiles(c: Catalog, text: string)
    requires UuidsDistinct(c.efforts) && DeleteEffort(c, text).ok
    ensures var i := EffortWithUuid(c.efforts, text).value;
      var r := DeleteEffort(c, text).catalog;
      && i < |c.efforts| && c.efforts[i].uuid == text
      && r.efforts == Without(c.efforts, i)
      && (forall j :: 0 <= j < |r.efforts| ==> r.efforts[j].uuid != text)
      && (forall a :: r.profiles.Get(a) == DropRow(c.profiles.Get(a), c.efforts[i].local.Get(a)))
      && r.programs == c.programs && r.nextEffortKey == c.nextEffortKey
  {
    var i := EffortWithUuid(c.efforts, text).value;
    var r := DeleteEffort(c, text).catalog;
    forall j | 0 <= j < |r.efforts| ensures r.efforts[j].uuid != text {
      if j < i {
        assert r.efforts[j] == c.efforts[j];
      } else {
        assert r.efforts[j] == c.efforts[j + 1];
      }
    }
  }

  /** Deleting keeps the store consistent. */
  lemma DeleteKeepsValid(c: Catalog, text: string)
    requires ValidCatalog(c)
    ensures ValidCatalog(DeleteEffort(c, text).catalog)
  {
    var d := DeleteEffort(c, text);
    if d.ok {
      var i := EffortWithUuid(c.efforts, text).value;
      RemoveKeepsValid(c, i);
    }
  }

  lemma RemoveKeepsValid(c: Catalog, i: nat)
    requires ValidCatalog(c) && i < |c.efforts|
    ensures ValidCatalog(Remove(c, i))
  {
    var r := Remove(c, i);
    WithoutKeepsIdentities(c.efforts, i, c.nextEffortKey, c.manyToMany);
    forall a ensures AspectConsistent(r.efforts, a, r.profiles.Get(a)) {
      assert AspectConsistent(c.efforts, a, c.profiles.Get(a));
      assert r.profiles.Get(a) == DropRow(c.profiles.Get(a), c.efforts[i].local.Get(a));
      WithoutKeepsAspect(c.efforts, i, a, c.profiles.Get(a));
    }
  }

  /** Dropping an effort keeps key order, key bound, uuid distinctness and link shape of the others. */
  lemma WithoutKeepsIdentities(efforts: seq<Effort>, i: nat, bound: nat, manyToMany: bool)
    requires i < |efforts| && KeysIncreasing(efforts) && UuidsDistinct(efforts)
    requires forall j :: 0 <= j < |efforts| ==> efforts[j].key < bound && efforts[j].links.LinkedEfforts? == manyToMany
    ensures var r := Without(efforts, i);
      && KeysIncreasing(r) && UuidsDistinct(r)
      && forall j :: 0 <= j < |r| ==> r[j].key < bound && r[j].links.LinkedEfforts? == manyToMany
  {
    var r := Without(efforts, i);
    forall j1, j2 | 0 <= j1 < j2 < |r| ensures r[j1].key < r[j2].key && r[j1].uuid != r[j2].uuid {
      var o1 := if j1 < i then j1 else j1 + 1;
      var o2 := if j2 < i then j2 else j2 + 1;
      assert r[j1] == efforts[o1] && r[j2] == efforts[o2] && o1 < o2;
    }
  }

  /** Removing an effort together with its row of an aspect keeps that aspect consistent. */
  lemma WithoutKeepsAspect(efforts: seq<Effort>, i: nat, a: Aspect, t: ProfileTable)
    requires AspectConsistent(efforts, a, t) && i < |efforts|
    ensures AspectConsistent(Without(efforts, i), a, DropRow(t, efforts[i].local.Get(a)))
  {
    WithoutReferencesResolve(efforts, i, a, t);
    WithoutExclusive(efforts, i, a, t);
    WithoutNoOrphans(efforts, i, a, t);
  }

  lemma WithoutReferencesResolve(efforts: seq<Effort>, i: nat, a: Aspect, t: ProfileTable)
    requires AspectConsistent(efforts, a, t) && i < |efforts|
    ensures var r := Without(efforts, i); var t' := DropRow(t, efforts[i].local.Get(a));
      forall j :: 0 <= j < |r| && r[j].local.Get(a).Some? ==> r[j].local.Get(a).value in t'.rows
  {
    var r := Without(efforts, i);
    var t' := DropRow(t, efforts[i].local.Get(a));
    forall j | 0 <= j < |r| && r[j].local.Get(a).Some?
      ensures r[j].local.Get(a).value in t'.rows
    {
      var o := if j < i then j else j + 1;
      assert r[j] == efforts[o];
      if o < i {
        assert efforts[o].local.Get(a) != efforts[i].local.Get(a);
      } else {
        assert efforts[i].local.Get(a) != efforts[o].local.Get(a) || efforts[i].local.Get(a).None?;
      }
    }
  }

  lemma WithoutExclusive(efforts: seq<Effort>, i: nat, a: Aspect, t: ProfileTable)
    requires AspectConsistent(efforts, a, t) && i < |efforts|
    ensures var r := Without(efforts, i);
      forall j1, j2 :: 0 <= j1 < j2 < |r| && r[j1].local.Get(a).Some? ==> r[j1].local.Get(a) != r[j2].local.Get(a)
  {
    var r := Without(efforts, i);
    forall j1, j2 | 0 <= j1 < j2 < |r| && r[j1].local.Get(a).Some?
      ensures r[j1].local.Get(a) != r[j2].local.Get(a)
    {
      var o1 := if j1 < i then j1 else j1 + 1;
      var o2 := if j2 < i then j2 else j2 + 1;
      assert r[j1] == efforts[o1] && r[j2] == efforts[o2] && o1 < o2;
    }
  }

  lemma WithoutNoOrphans(efforts: seq<Effort>, i: nat, a: Aspect, t: ProfileTable)
    requires AspectConsistent(efforts, a, t) && i < |efforts|
    ensures var r := Without(efforts, i); var t' := DropRow(t, efforts[i].local.Get(a));
      forall k :: k in t'.rows ==> OwnedBy(r, a, k)
  {
    var r := Without(efforts, i);
    var t' := DropRow(t, efforts[i].local.Get(a));
    forall k | k in t'.rows ensures OwnedBy(r, a, k) {
      var o :| 0 <= o < |efforts| && efforts[o].local.Get(a) == Some(k);
      var j := if o < i then o else o - 1;
      assert r[j] == efforts[o];
    }
  }
}
