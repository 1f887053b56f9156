/**
 * What a save guarantees: the store stays consistent, an update overwrites
 * exactly the payload's fields of the named effort, a create appends one
 * effort with a fresh identity, a repeated update changes nothing more, and
 * the older variant differs from the newer one only in its program lookup.
 */
module UpsertProperties {
  import opened Wrappers
  import opened Efforts
  import opened ProfileRule
  import opened LinkedEfforts
  import opened EffortUpsert

  // ---------------------------------------------------------------------
  // The store invariant is preserved

  lemma UpdateKeepsValid(c: Catalog, i: nat, program: nat, parent: Option<nat>, e: EffortPayload)
    requires ValidCatalog(c) && i < |c.efforts|
    ensures NextKeysFree(c) && ReferencesResolve(c, i) && ValidCatalog(UpdateEffort(c, i, program, parent, e))
  {
    ValidCatalogReady(c, i);
    var r := UpdateEffort(c, i, program, parent, e);
    UpdateKeepsIdentities(c, i, program, parent, e);
    forall a ensures AspectConsistent(r.efforts, a, r.profiles.Get(a)) {
      UpdateKeepsAspect(c, i, program, parent, e, a);
    }
    ValidWithSameIdentities(c, r);
  }

  /** A catalog whose efforts keep their keys, uuids and links, and whose aspects are consistent, is valid. */
  lemma ValidWithSameIdentities(c: Catalog, r: Catalog)
    requires ValidCatalog(c)
    requires r.programs == c.programs && r.nextEffortKey == c.nextEffortKey && r.manyToMany == c.manyToMany
    requires |r.efforts| == |c.efforts|
    requires forall j :: 0 <= j < |c.efforts| ==>
      r.efforts[j].key == c.efforts[j].key && r.efforts[j].uuid == c.efforts[j].uuid && r.efforts[j].links == c.efforts[j].links
    requires forall a :: AspectConsistent(r.efforts, a, r.profiles.Get(a))
    ensures ValidCatalog(r)
  {
    assert KeysIncreasing(r.efforts) by {
      forall i, j | 0 <= i < j < |r.efforts| ensures r.efforts[i].key < r.efforts[j].key {
        assert c.efforts[i].key < c.efforts[j].key;
      }
    }
    assert UuidsDistinct(r.efforts) by {
      forall i, j | 0 <= i < j < |r.efforts| ensures r.efforts[i].uuid != r.efforts[j].uuid {
        assert c.efforts[i].uuid != c.efforts[j].uuid;
      }
    }
  }

  /** An update keeps every effort's key, uuid and links, so key order, uuid distinctness and link shape survive. */
  lemma UpdateKeepsIdentities(c: Catalog, i: nat, program: nat, parent: Option<nat>, e: EffortPayload)
    requires ValidCatalog(c) && i < |c.efforts|
    ensures NextKeysFree(c) && ReferencesResolve(c, i)
    ensures var r := UpdateEffort(c, i, program, parent, e);
      && r.programs == c.programs && r.nextEffortKey == c.nextEffortKey && r.manyToMany == c.manyToMany
      && |r.efforts| == |c.efforts|
      && forall j :: 0 <= j < |c.efforts| ==>
        r.efforts[j].key == c.efforts[j].key && r.efforts[j].uuid == c.efforts[j].uuid && r.efforts[j].links == c.efforts[j].links
  {
    ValidCatalogReady(c, i);
  }

  /** An update keeps aspect `a` consistent. */
  lemma UpdateKeepsAspect(c: Catalog, i: nat, program: nat, parent: Option<nat>, e: EffortPayload, a: Aspect)
    requires ValidCatalog(c) && i < |c.efforts|
    ensures NextKeysFree(c) && ReferencesResolve(c, i)
    ensures var r := UpdateEffort(c, i, program, parent, e);
      AspectConsistent(r.efforts, a, r.profiles.Get(a))
  {
    ValidCatalogReady(c, i);
    var r := UpdateEffort(c, i, program, parent, e);
    assert AspectConsistent(c.efforts, a, c.profiles.Get(a));
    assert ExistingAt(c.efforts, i, a) == c.efforts[i].local.Get(a);
    ManageLocalProfileKeepsConsistency(c.efforts, r.efforts, i, a, c.profiles.Get(a), e.inherit.Get(a), e.data.Get(a));
  }

  lemma CreateKeepsValid(c: Catalog, program: nat, parent: Option<nat>, e: EffortPayload, freshUuid: string)
    requires ValidCatalog(c)
    requires forall j :: 0 <= j < |c.efforts| ==> c.efforts[j].uuid != freshUuid
    ensures NextKeysFree(c) && ValidCatalog(CreateEffort(c, program, parent, e, freshUuid))
  {
    ValidCatalogReady(c, 0);
    CreateKeepsIdentities(c, program, parent, e, freshUuid);
    forall a ensures AspectConsistent(CreateEffort(c, program, parent, e, freshUuid).efforts, a, CreateEffort(c, program, parent, e, freshUuid).profiles.Get(a)) {
      CreateKeepsAspect(c, program, parent, e, freshUuid, a);
    }
  }

  /** A create appends the next key and a fresh uuid, so key order and uuid distinctness survive. */
  lemma CreateKeepsIdentities(c: Catalog, program: nat, parent: Option<nat>, e: EffortPayload, freshUuid: string)
    requires NextKeysFree(c) && KeysIncreasing(c.efforts) && UuidsDistinct(c.efforts)
    requires forall j :: 0 <= j < |c.efforts| ==> c.efforts[j].key < c.nextEffortKey
    requires forall j :: 0 <= j < |c.efforts| ==> c.efforts[j].links.LinkedEfforts? == c.manyToMany
    requires forall j :: 0 <= j < |c.efforts| ==> c.efforts[j].uuid != freshUuid
    ensures var r := CreateEffort(c, program, parent, e, freshUuid);
      && r.programs == c.programs && r.manyToMany == c.manyToMany
      && KeysIncreasing(r.efforts) && UuidsDistinct(r.efforts)
      && (forall j :: 0 <= j < |r.efforts| ==> r.efforts[j].key < r.nextEffortKey)
      && (forall j :: 0 <= j < |r.efforts| ==> r.efforts[j].links.LinkedEfforts? == r.manyToMany)
  {
    var r := CreateEffort(c, program, parent, e, freshUuid);
    var n := |c.efforts|;
    var x := r.efforts[n];
    assert r.efforts == c.efforts + [x];
    assert x.key == c.nextEffortKey && x.uuid == freshUuid && x.links == NoLinks(c.manyToMany);
    AppendKeepsIdentities(c.efforts, x, c.nextEffortKey);
  }

  /** Appending an effort with a key above all others and an unused uuid keeps key order and uuid distinctness. */
  lemma AppendKeepsIdentities(efforts: seq<Effort>, x: Effort, bound: nat)
    requires KeysIncreasing(efforts) && UuidsDistinct(efforts)
    requires forall j :: 0 <= j < |efforts| ==> efforts[j].key < bound && efforts[j].uuid != x.uuid
    requires x.key == bound
    ensures KeysIncreasing(efforts + [x]) && UuidsDistinct(efforts + [x])
  {
    var s := efforts + [x];
    forall i, j | 0 <= i < j < |s| ensures s[i].key < s[j].key && s[i].uuid != s[j].uuid {
      if j < |efforts| {
        assert s[i] == efforts[i] && s[j] == efforts[j];
      } else {
        assert s[i] == efforts[i];
      }
    }
  }

  /** A create keeps aspect `a` consistent. */
  lemma CreateKeepsAspect(c: Catalog, program: nat, parent: Option<nat>, e: EffortPayload, freshUuid: string, a: Aspect)
    requires ValidCatalog(c)
    ensures NextKeysFree(c)
    ensures var r := CreateEffort(c, program, parent, e, freshUuid);
      AspectConsistent(r.efforts, a, r.profiles.Get(a))
  {
    ValidCatalogReady(c, 0);
    var r := CreateEffort(c, program, parent, e, freshUuid);
    var t := c.profiles.Get(a);
    assert AspectConsistent(c.efforts, a, t);
    CreateSlotStep(c, program, parent, e, freshUuid, a);
    ManageLocalProfileKeepsConsistency(c.efforts, r.efforts, |c.efforts|, a, t, e.inherit.Get(a), e.data.Get(a));
  }

  /** A create applies the rule to aspect `a` of a new effort appended with nothing linked. */
  lemma CreateSlotStep(c: Catalog, program: nat, parent: Option<nat>, e: EffortPayload, freshUuid: string, a: Aspect)
    requires NextKeysFree(c) && AspectConsistent(c.efforts, a, c.profiles.Get(a))
    ensures var r := CreateEffort(c, program, parent, e, freshUuid);
      && SlotStep(c.efforts, r.efforts, |c.efforts|, a, c.profiles.Get(a), e.inherit.Get(a), e.data.Get(a))
      && r.profiles.Get(a) == ManageLocalProfile(c.profiles.Get(a), ExistingAt(c.efforts, |c.efforts|, a), e.inherit.Get(a), e.data.Get(a)).table
  {
    var r := CreateEffort(c, program, parent, e, freshUuid);
    var n := |c.efforts|;
    assert forall j :: 0 <= j < n ==> r.efforts[j] == c.efforts[j];
    assert OthersUnchanged(c.efforts, r.efforts, n, a);
    CreatePathIsRule(c.profiles.Get(a), e.inherit.Get(a), e.data.Get(a));
    assert r.efforts[n].local.Get(a) == CreatedSlot(c, e, a).reference;
  }

  lemma ApplyLinksKeepsValid(c: Catalog, idx: nat, raw: seq<LinkItem>)
    requires ValidCatalog(c) && idx < |c.efforts|
    ensures ValidCatalog(ApplyLinks(c, idx, raw))
  {
    var r := ApplyLinks(c, idx, raw);
    forall a ensures AspectConsistent(r.efforts, a, r.profiles.Get(a)) {
      AspectConsistentTransfer(c.efforts, r.efforts, a, c.profiles.Get(a));
    }
  }

  /**
   * A save keeps the store consistent: keys ordered, uuids distinct, and
   * for every aspect no dangling, shared or orphaned profile row and no
   * local profile on an inheriting effort. The fresh uuid of a create is
   * taken to be unused, as a random uuid is.
   */
  lemma SaveKeepsValid(c: Catalog, id: string, payload: Option<EffortPayload>, freshUuid: string)
    requires ValidCatalog(c)
    requires forall j :: 0 <= j < |c.efforts| ==> c.efforts[j].uuid != freshUuid
    ensures ValidCatalog(SaveEffort(c, id, payload, freshUuid).catalog)
    ensures ValidCatalog(LegacySaveEffort(c, id, payload, freshUuid).catalog)
  {
    if payload.Some? {
      var p := ProgramWithId(c.programs, id);
      if p.Some? {
        SaveResolvedKeepsValid(c, c.programs[p.value].key, payload.value, freshUuid);
      }
      var q := LegacyProgramLookup(c.programs, id);
      if q.Some? {
        SaveResolvedKeepsValid(c, c.programs[q.value].key, payload.value, freshUuid);
      }
    }
  }

  lemma SaveResolvedKeepsValid(c: Catalog, program: nat, e: EffortPayload, freshUuid: string)
    requires ValidCatalog(c)
    requires forall j :: 0 <= j < |c.efforts| ==> c.efforts[j].uuid != freshUuid
    ensures ValidCatalog(SaveResolved(c, program, e, freshUuid).catalog)
  {
    var parent := ParentKey(c.efforts, e.parentUuid);
    var target := UpdateTarget(c.efforts, e.uuid);
    var idx := if target.Some? then target.value else |c.efforts|;
    var written :=
      if target.Some? then UpdateEffort(c, idx, program, parent, e)
      else CreateEffort(c, program, parent, e, freshUuid);
    if target.Some? {
      UpdateKeepsValid(c, idx, program, parent, e);
    } else {
      CreateKeepsValid(c, program, parent, e, freshUuid);
    }
    if e.linked.Some? {
      ApplyLinksKeepsValid(written, idx, e.linked.value);
    }
  }

  // ---------------------------------------------------------------------
  // What an update and a create write

  /**
   * An update writes only the named effort: its key and uuid stay, name,
   * program, parent and inherit flags come from the payload, each local
   * profile is what the reconciliation rule returns, and without a linked
   * list its links stay.
   */
  lemma SaveResolvedUpdate(c: Catalog, program: nat, e: EffortPayload, freshUuid: string)
    requires ValidCatalog(c) && UpdateTarget(c.efforts, e.uuid).Some?
    ensures var i := UpdateTarget(c.efforts, e.uuid).value;
      var s := SaveResolved(c, program, e, freshUuid);
      && NextKeysFree(c) && ReferencesResolve(c, i)
      && s.outcome == Updated(i)
      && |s.catalog.efforts| == |c.efforts|
      && s.catalog.programs == c.programs && s.catalog.nextEffortKey == c.nextEffortKey
      && (forall j :: 0 <= j < |c.efforts| && j != i ==> s.catalog.efforts[j] == c.efforts[j])
      && s.catalog.efforts[i].key == c.efforts[i].key && s.catalog.efforts[i].uuid == c.efforts[i].uuid
      && s.catalog.efforts[i].name == e.name && s.catalog.efforts[i].program == program
      && s.catalog.efforts[i].parent == ParentKey(c.efforts, e.parentUuid)
      && s.catalog.efforts[i].inherit == e.inherit
      && (forall a :: s.catalog.efforts[i].local.Get(a) == Reconciled(c, i, e, a).reference
                   && s.catalog.profiles.Get(a) == Reconciled(c, i, e, a).table)
      && (e.linked.None? ==> s.catalog.efforts[i].links == c.efforts[i].links)
  {
    ValidCatalogReady(c, UpdateTarget(c.efforts, e.uuid).value);
  }

  /**
   * A create appends one effort after the existing ones, with the next
   * storage key and the fresh uuid rather than the payload's; it has a local
   * profile for an aspect exactly when not inheriting with non-empty data,
   * that profile holds the data, and every existing profile row is kept.
   */
  lemma SaveResolvedCreate(c: Catalog, program: nat, e: EffortPayload, freshUuid: string)
    requires ValidCatalog(c) && UpdateTarget(c.efforts, e.uuid).None?
    ensures var n := |c.efforts|;
      var s := SaveResolved(c, program, e, freshUuid);
      && s.outcome == Created(n)
      && |s.catalog.efforts| == n + 1
      && s.catalog.programs == c.programs && s.catalog.nextEffortKey == c.nextEffortKey + 1
      && (forall j :: 0 <= j < n ==> s.catalog.efforts[j] == c.efforts[j])
      && s.catalog.efforts[n].key == c.nextEffortKey && s.catalog.efforts[n].uuid == freshUuid
      && s.catalog.efforts[n].name == e.name && s.catalog.efforts[n].program == program
      && s.catalog.efforts[n].parent == ParentKey(c.efforts, e.parentUuid)
      && s.catalog.efforts[n].inherit == e.inherit
      && (forall a :: s.catalog.efforts[n].local.Get(a).Some? <==>
            !e.inherit.Get(a) && e.data.Get(a).Some? && e.data.Get(a).value != map[])
      && (forall a :: s.catalog.efforts[n].local.Get(a).Some? ==>
            var k := s.catalog.efforts[n].local.Get(a).value;
            k == c.profiles.Get(a).nextKey && k in s.catalog.profiles.Get(a).rows && s.catalog.profiles.Get(a).rows[k] == e.data.Get(a).value)
      && (forall a, k :: k in c.profiles.Get(a).rows ==>
            k in s.catalog.profiles.Get(a).rows && s.catalog.profiles.Get(a).rows[k] == c.profiles.Get(a).rows[k])
      && (e.linked.None? ==> s.catalog.efforts[n].links == NoLinks(c.manyToMany))
  {
    var n := |c.efforts|;
    var s := SaveResolved(c, program, e, freshUuid);
    SaveResolvedIsCreate(c, program, e, freshUuid);
    var w := CreateEffort(c, program, ParentKey(c.efforts, e.parentUuid), e, freshUuid);
    CreateEffortContents(c, program, ParentKey(c.efforts, e.parentUuid), e, freshUuid);
    assert s.catalog.profiles == w.profiles;
    assert s.catalog.efforts[n].local == w.efforts[n].local;
  }

  /** With no effort named by the payload's uuid, the save is a create followed by the links step. */
  lemma SaveResolvedIsCreate(c: Catalog, program: nat, e: EffortPayload, freshUuid: string)
    requires ValidCatalog(c) && UpdateTarget(c.efforts, e.uuid).None?
    ensures NextKeysFree(c)
    ensures var s := SaveResolved(c, program, e, freshUuid);
      var w := CreateEffort(c, program, ParentKey(c.efforts, e.parentUuid), e, freshUuid);
      && s.outcome == Created(|c.efforts|)
      && s.catalog == if e.linked.Some? then ApplyLinks(w, |c.efforts|, e.linked.value) else w
  {
    ValidCatalogReady(c, |c.efforts|);
  }

  /** What a create writes: the appended effort and, per aspect, its profile. */
  lemma CreateEffortContents(c: Catalog, program: nat, parent: Option<nat>, e: EffortPayload, freshUuid: string)
    requires NextKeysFree(c)
    ensures var n := |c.efforts|;
      var r := CreateEffort(c, program, parent, e, freshUuid);
      && r.nextEffortKey == c.nextEffortKey + 1
      && (forall j :: 0 <= j < n ==> r.efforts[j] == c.efforts[j])
      && r.efforts[n].key == c.nextEffortKey && r.efforts[n].uuid == freshUuid
      && r.efforts[n].name == e.name && r.efforts[n].program == program
      && r.efforts[n].parent == parent && r.efforts[n].inherit == e.inherit
      && r.efforts[n].links == NoLinks(c.manyToMany)
      && (forall a :: r.efforts[n].local.Get(a).Some? <==>
            !e.inherit.Get(a) && e.data.Get(a).Some? && e.data.Get(a).value != map[])
      && (forall a :: r.efforts[n].local.Get(a).Some? ==>
            var k := r.efforts[n].local.Get(a).value;
            k == c.profiles.Get(a).nextKey && k in r.profiles.Get(a).rows && r.profiles.Get(a).rows[k] == e.data.Get(a).value)
      && (forall a, k :: k in c.profiles.Get(a).rows ==>
            k in r.profiles.Get(a).rows && r.profiles.Get(a).rows[k] == c.profiles.Get(a).rows[k])
  {
    var n := |c.efforts|;
    var r := CreateEffort(c, program, parent, e, freshUuid);
    forall a ensures
      && (r.efforts[n].local.Get(a).Some? <==> !e.inherit.Get(a) && e.data.Get(a).Some? && e.data.Get(a).value != map[])
      && (r.efforts[n].local.Get(a).Some? ==>
            var k := r.efforts[n].local.Get(a).value;
            k == c.profiles.Get(a).nextKey && k in r.profiles.Get(a).rows && r.profiles.Get(a).rows[k] == e.data.Get(a).value)
      && (forall k :: k in c.profiles.Get(a).rows ==>
            k in r.profiles.Get(a).rows && r.profiles.Get(a).rows[k] == c.profiles.Get(a).rows[k])
    {
      assert r.efforts[n].local.Get(a) == CreatedSlot(c, e, a).reference;
      assert r.profiles.Get(a) == CreatedSlot(c, e, a).table;
    }
  }

  /**
   * When a linked list is given, the saved effort's links are its
   * resolution against the efforts as saved (the effort itself included):
   * in many-to-many mode exactly the resolved efforts, otherwise one
   * identifier per raw item, resolved uuid or raw identifier.
   */
  lemma SaveResolvedLinks(c: Catalog, program: nat, e: EffortPayload, freshUuid: string)
    requires ValidCatalog(c) && e.linked.Some?
    ensures var s := SaveResolved(c, program, e, freshUuid);
      var raw := e.linked.value;
      && s.outcome.index < |s.catalog.efforts|
      && (c.manyToMany ==>
            && s.catalog.efforts[s.outcome.index].links.LinkedEfforts?
            && forall k :: k in s.catalog.efforts[s.outcome.index].links.targets <==> SomeItemResolvesTo(s.catalog.efforts, raw, k))
      && (!c.manyToMany ==>
            && s.catalog.efforts[s.outcome.index].links.LinkedIds?
            && |s.catalog.efforts[s.outcome.index].links.ids| == |raw|
            && forall p :: 0 <= p < |raw| ==> s.catalog.efforts[s.outcome.index].links.ids[p] == StoredId(s.catalog.efforts, raw[p]))
  {
    var parent := ParentKey(c.efforts, e.parentUuid);
    var target := UpdateTarget(c.efforts, e.uuid);
    if target.Some? {
      SaveResolvedIsUpdate(c, program, e, freshUuid);
      LinksResolvedAgainstResult(UpdateEffort(c, target.value, program, parent, e), target.value, e.linked.value);
    } else {
      SaveResolvedIsCreate(c, program, e, freshUuid);
      LinksResolvedAgainstResult(CreateEffort(c, program, parent, e, freshUuid), |c.efforts|, e.linked.value);
    }
  }

  /**
   * Storing the resolution of `raw` against `w` is the same as storing its
   * resolution against the result, since only links change.
   */
  lemma LinksResolvedAgainstResult(w: Catalog, idx: nat, raw: seq<LinkItem>)
    requires idx < |w.efforts|
    ensures var r := ApplyLinks(w, idx, raw);
      && (w.manyToMany ==>
            && r.efforts[idx].links.LinkedEfforts?
            && forall k :: k in r.efforts[idx].links.targets <==> SomeItemResolvesTo(r.efforts, raw, k))
      && (!w.manyToMany ==>
            && r.efforts[idx].links.LinkedIds?
            && |r.efforts[idx].links.ids| == |raw|
            && forall p :: 0 <= p < |raw| ==> r.efforts[idx].links.ids[p] == StoredId(r.efforts, raw[p]))
  {
    var r := ApplyLinks(w, idx, raw);
    ResolveLinksSameIdentities(w.efforts, r.efforts, raw);
    ResolveLinksTargets(w.efforts, raw);
    ResolveLinksTargets(r.efforts, raw);
  }

  // ---------------------------------------------------------------------
  // Saving again

  /** Two stores with the same efforts' uuids and keys, position by position. */
  ghost predicate SameIdentities(efforts: seq<Effort>, efforts': seq<Effort>)
  {
    |efforts'| == |efforts| &&
    forall j :: 0 <= j < |efforts| ==> efforts'[j].uuid == efforts[j].uuid && efforts'[j].key == efforts[j].key
  }

  lemma SameIdentitiesLookupsAgree(efforts: seq<Effort>, efforts': seq<Effort>, e: EffortPayload)
    requires SameIdentities(efforts, efforts')
    ensures ParentKey(efforts', e.parentUuid) == ParentKey(efforts, e.parentUuid)
    ensures UpdateTarget(efforts', e.uuid) == UpdateTarget(efforts, e.uuid)
  {
    if TruthyText(e.parentUuid) {
      SameIdentitiesLookups(efforts, efforts', e.parentUuid.value);
    }
    if TruthyText(e.uuid) {
      SameIdentitiesLookups(efforts, efforts', e.uuid.value);
    }
  }

  /** `w` with the links of effort `i` replaced by `l`. */
  function WithLinks(w: Catalog, i: nat, l: Links): Catalog
    requires i < |w.efforts|
  {
    w.(efforts := w.efforts[i := w.efforts[i].(links := l)])
  }

  /** Updating an effort a second time with the same payload writes what is already there. */
  lemma UpdateAfterUpdate(c: Catalog, i: nat, program: nat, parent: Option<nat>, e: EffortPayload, l: Links)
    requires ValidCatalog(c) && NextKeysFree(c) && ReferencesResolve(c, i)
    requires ValidCatalog(WithLinks(UpdateEffort(c, i, program, parent, e), i, l))
    ensures var c1 := WithLinks(UpdateEffort(c, i, program, parent, e), i, l);
      UpdateEffort(c1, i, program, parent, e) == c1
  {
    var c1 := WithLinks(UpdateEffort(c, i, program, parent, e), i, l);
    ValidCatalogReady(c1, i);
    forall a ensures Reconciled(c1, i, e, a) == Reconciled(c, i, e, a) {
      assert AspectConsistent(c.efforts, a, c.profiles.Get(a));
      ManageLocalProfileIdempotent(c.profiles.Get(a), c.efforts[i].local.Get(a), e.inherit.Get(a), e.data.Get(a));
    }
    UpdateEffortFields(c, i, program, parent, e);
    UpdateEffortFields(c1, i, program, parent, e);
  }

  /** Link resolution does not read the links it replaces. */
  lemma ApplyLinksIgnoresOldLinks(w: Catalog, i: nat, l: Links, raw: seq<LinkItem>)
    requires i < |w.efforts|
    ensures ApplyLinks(WithLinks(w, i, l), i, raw) == ApplyLinks(w, i, raw)
  {
    var w2 := WithLinks(w, i, l);
    assert SameIdentities(w.efforts, w2.efforts);
    ResolveLinksSameIdentities(w.efforts, w2.efforts, raw);
    assert ApplyLinks(w2, i, raw).efforts == ApplyLinks(w, i, raw).efforts;
  }

  /**
   * Saving the same payload a second time, when it names an existing
   * effort, changes nothing: the same effort is updated to the same values
   * and no profile row is created or removed.
   */
  lemma SaveUpdateIdempotent(c: Catalog, program: nat, e: EffortPayload, freshUuid: string, freshUuid': string)
    requires ValidCatalog(c) && UpdateTarget(c.efforts, e.uuid).Some?
    ensures ValidCatalog(SaveResolved(c, program, e, freshUuid).catalog)
    ensures var s := SaveResolved(c, program, e, freshUuid);
      SaveResolved(s.catalog, program, e, freshUuid') == s
  {
    var i := UpdateTarget(c.efforts, e.uuid).value;
    var parent := ParentKey(c.efforts, e.parentUuid);
    var s := SaveResolved(c, program, e, freshUuid);
    var c1 := s.catalog;
    var w1 := UpdateEffort(c, i, program, parent, e);
    SaveResolvedIsUpdate(c, program, e, freshUuid);
    UpdateSavedKeepsValid(c, program, e, freshUuid);
    var l := c1.efforts[i].links;
    if e.linked.Some? {
      ApplyLinksIsWithLinks(w1, i, e.linked.value);
    } else {
      WithOwnLinks(w1, i);
    }
    assert c1 == WithLinks(w1, i, l);
    UpdateWithLinksSameIdentities(c, i, program, parent, e, l);
    SameIdentitiesLookupsAgree(c.efforts, c1.efforts, e);
    UpdateAfterUpdate(c, i, program, parent, e, l);
    SaveResolvedIsUpdate(c1, program, e, freshUuid');
    if e.linked.Some? {
      ApplyLinksIgnoresOldLinks(w1, i, l, e.linked.value);
    }
  }

  /** With an effort named by the payload's uuid, the save is an update followed by the links step. */
  lemma SaveResolvedIsUpdate(c: Catalog, program: nat, e: EffortPayload, freshUuid: string)
    requires ValidCatalog(c) && UpdateTarget(c.efforts, e.uuid).Some?
    ensures var i := UpdateTarget(c.efforts, e.uuid).value;
      NextKeysFree(c) && ReferencesResolve(c, i)
    ensures var i := UpdateTarget(c.efforts, e.uuid).value;
      var s := SaveResolved(c, program, e, freshUuid);
      var w := UpdateEffort(c, i, program, ParentKey(c.efforts, e.parentUuid), e);
      && s.outcome == Updated(i)
      && s.catalog == if e.linked.Some? then ApplyLinks(w, i, e.linked.value) else w
  {
    ValidCatalogReady(c, UpdateTarget(c.efforts, e.uuid).value);
  }

  /** Storing a resolved list only replaces the effort's links. */
  lemma ApplyLinksIsWithLinks(w: Catalog, i: nat, raw: seq<LinkItem>)
    requires i < |w.efforts|
    ensures ApplyLinks(w, i, raw) == WithLinks(w, i, ApplyLinks(w, i, raw).efforts[i].links)
  {
    var r := ApplyLinks(w, i, raw);
    assert r.efforts == WithLinks(w, i, r.efforts[i].links).efforts;
  }

  lemma WithOwnLinks(w: Catalog, i: nat)
    requires i < |w.efforts|
    ensures WithLinks(w, i, w.efforts[i].links) == w
  {
    assert w.efforts[i := w.efforts[i].(links := w.efforts[i].links)] == w.efforts;
  }

  /** An update followed by a links change keeps every effort's key and uuid. */
  lemma UpdateWithLinksSameIdentities(c: Catalog, i: nat, program: nat, parent: Option<nat>, e: EffortPayload, l: Links)
    requires NextKeysFree(c) && ReferencesResolve(c, i)
    ensures SameIdentities(c.efforts, WithLinks(UpdateEffort(c, i, program, parent, e), i, l).efforts)
  {
    var w := UpdateEffort(c, i, program, parent, e);
    assert w.efforts == c.efforts[i := w.efforts[i]];
  }

  lemma UpdateSavedKeepsValid(c: Catalog, program: nat, e: EffortPayload, freshUuid: string)
    requires ValidCatalog(c) && UpdateTarget(c.efforts, e.uuid).Some?
    ensures ValidCatalog(SaveResolved(c, program, e, freshUuid).catalog)
  {
    var i := UpdateTarget(c.efforts, e.uuid).value;
    var w := UpdateEffort(c, i, program, ParentKey(c.efforts, e.parentUuid), e);
    UpdateKeepsValid(c, i, program, ParentKey(c.efforts, e.parentUuid), e);
    if e.linked.Some? {
      ApplyLinksKeepsValid(w, i, e.linked.value);
    }
  }

  /**
   * A payload whose uuid names no effort creates one under a fresh uuid,
   * so the same payload saved again still names no effort and creates a
   * second one.
   */
  lemma UnmatchedUuidCreatesAgain(c: Catalog, program: nat, e: EffortPayload, freshUuid: string, freshUuid': string)
    requires ValidCatalog(c) && TruthyText(e.uuid) && UpdateTarget(c.efforts, e.uuid).None?
    requires forall j :: 0 <= j < |c.efforts| ==> c.efforts[j].uuid != freshUuid
    requires freshUuid != e.uuid.value
    ensures ValidCatalog(SaveResolved(c, program, e, freshUuid).catalog)
    ensures var s := SaveResolved(c, program, e, freshUuid);
      && s.outcome == Created(|c.efforts|)
      && SaveResolved(s.catalog, program, e, freshUuid').outcome == Created(|c.efforts| + 1)
  {
    var s := SaveResolved(c, program, e, freshUuid);
    SaveResolvedKeepsValid(c, program, e, freshUuid);
    CreateKeepsUuidAbsent(c, program, e, freshUuid, e.uuid.value);
    assert UpdateTarget(s.catalog.efforts, e.uuid).None?;
    SaveResolvedIsCreate(s.catalog, program, e, freshUuid');
  }

  /** A create adds only the fresh uuid, so a uuid no effort carried is still carried by none. */
  lemma CreateKeepsUuidAbsent(c: Catalog, program: nat, e: EffortPayload, freshUuid: string, absent: string)
    requires ValidCatalog(c) && UpdateTarget(c.efforts, e.uuid).None?
    requires forall j :: 0 <= j < |c.efforts| ==> c.efforts[j].uuid != absent
    requires freshUuid != absent
    ensures var s := SaveResolved(c, program, e, freshUuid);
      && s.outcome == Created(|c.efforts|)
      && |s.catalog.efforts| == |c.efforts| + 1
      && forall j :: 0 <= j < |s.catalog.efforts| ==> s.catalog.efforts[j].uuid != absent
  {
    SaveResolvedIsCreate(c, program, e, freshUuid);
    var w := CreateEffort(c, program, ParentKey(c.efforts, e.parentUuid), e, freshUuid);
    CreateUuidAbsent(c, program, ParentKey(c.efforts, e.parentUuid), e, freshUuid, absent);
    if e.linked.Some? {
      LinksKeepUuidAbsent(w, |c.efforts|, e.linked.value, absent);
    }
  }

  lemma CreateUuidAbsent(c: Catalog, program: nat, parent: Option<nat>, e: EffortPayload, freshUuid: string, absent: string)
    requires NextKeysFree(c)
    requires forall j :: 0 <= j < |c.efforts| ==> c.efforts[j].uuid != absent
    requires freshUuid != absent
    ensures var w := CreateEffort(c, program, parent, e, freshUuid);
      forall j :: 0 <= j < |w.efforts| ==> w.efforts[j].uuid != absent
  {
    CreateEffortContents(c, program, parent, e, freshUuid);
  }

  lemma LinksKeepUuidAbsent(w: Catalog, idx: nat, raw: seq<LinkItem>, absent: string)
    requires idx < |w.efforts|
    requires forall j :: 0 <= j < |w.efforts| ==> w.efforts[j].uuid != absent
    ensures var r := ApplyLinks(w, idx, raw);
      forall j :: 0 <= j < |r.efforts| ==> r.efforts[j].uuid != absent
  {
    var r := ApplyLinks(w, idx, raw);
    assert r.efforts[idx].uuid == w.efforts[idx].uuid;
  }

  // ---------------------------------------------------------------------
  // The two variants

  /**
   * The newer save attaches the effort to the first program row with
   * business id `id`; the older one to the row whose primary key's text is `id`
   * when there is one, and only otherwise to that same business-id row.
   */
  lemma SavedProgram(c: Catalog, id: string, payload: Option<EffortPayload>, freshUuid: string)
    requires ValidCatalog(c)
    ensures var s := SaveEffort(c, id, payload, freshUuid);
      (s.outcome.Updated? || s.outcome.Created?) ==>
        && s.outcome.index < |s.catalog.efforts|
        && s.catalog.efforts[s.outcome.index].program == c.programs[ProgramWithId(c.programs, id).value].key
        && c.programs[ProgramWithId(c.programs, id).value].programId == id
    ensures var s := LegacySaveEffort(c, id, payload, freshUuid);
      (s.outcome.Updated? || s.outcome.Created?) ==>
        && s.outcome.index < |s.catalog.efforts|
        && (ProgramWithKey(c.programs, id).Some? ==>
              && c.programs[ProgramWithKey(c.programs, id).value].keyText == id
              && s.catalog.efforts[s.outcome.index].program == c.programs[ProgramWithKey(c.programs, id).value].key)
        && (ProgramWithKey(c.programs, id).None? ==>
              s.catalog.efforts[s.outcome.index].program == c.programs[ProgramWithId(c.programs, id).value].key)
  {
    if payload.Some? {
      var e := payload.value;
      var p := ProgramWithId(c.programs, id);
      if p.Some? {
        SavedProgramIs(c, c.programs[p.value].key, e, freshUuid);
      }
      var q := LegacyProgramLookup(c.programs, id);
      if q.Some? {
        SavedProgramIs(c, c.programs[q.value].key, e, freshUuid);
      }
    }
  }

  lemma SavedProgramIs(c: Catalog, program: nat, e: EffortPayload, freshUuid: string)
    requires ValidCatalog(c)
    ensures var s := SaveResolved(c, program, e, freshUuid);
      s.outcome.index < |s.catalog.efforts| && s.catalog.efforts[s.outcome.index].program == program
  {
    if UpdateTarget(c.efforts, e.uuid).Some? {
      SaveResolvedUpdate(c, program, e, freshUuid);
    } else {
      SaveResolvedCreate(c, program, e, freshUuid);
    }
  }

  /** When no program row has `id` as its storage key, the two variants save identically. */
  lemma LegacyAgreesWithoutKeyMatch(c: Catalog, id: string, payload: Option<EffortPayload>, freshUuid: string)
    requires ValidCatalog(c) && ProgramWithKey(c.programs, id).None?
    ensures LegacySaveEffort(c, id, payload, freshUuid) == SaveEffort(c, id, payload, freshUuid)
  {
  }
}
