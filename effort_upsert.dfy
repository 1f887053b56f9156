/**
 * Saving one effort for a program: guard on the payload, resolve the
 * program, resolve the parent, then update the effort named by the
 * payload's uuid or create a new one, reconciling the four local profiles,
 * and finally resolve the linked efforts when the payload carries a list.
 */
module EffortUpsert {
  import opened Wrappers
  import opened Programs
  import opened Efforts
  import opened ProfileRule
  import opened LinkedEfforts

  /** The effort payload; a missing payload is `None` at the call. */
  datatype EffortPayload = EffortPayload(
    uuid: Option<string>,
    name: string,
    parentUuid: Option<string>,
    inherit: PerAspect<bool>,
    data: PerAspect<Option<Attributes>>,
    linked: Option<seq<LinkItem>>)

  /** How a save ended: which early return, or which effort position was written. */
  datatype SaveOutcome = NoPayload | ProgramNotFound | Updated(index: nat) | Created(index: nat)

  datatype Saved = Saved(outcome: SaveOutcome, catalog: Catalog)

  // ---------------------------------------------------------------------
  // Lookups

  /** The first program row (in storage-key order) with the given business id. */
  function ProgramWithId(programs: seq<ProgramInfo>, id: string): (r: Option<nat>)
    ensures r.Some? ==>
      && r.value < |programs| && programs[r.value].programId == id
      && forall j :: 0 <= j < r.value ==> programs[j].programId != id
    ensures r.None? <==> forall p :: 0 <= p < |programs| ==> programs[p].programId != id
  {
    FirstMatch(programs, (p: ProgramInfo) => p.programId == id)
  }

  /** The first program row whose primary key, as text, is `id`. */
  function ProgramWithKey(programs: seq<ProgramInfo>, id: string): (r: Option<nat>)
    ensures r.Some? ==>
      && r.value < |programs| && programs[r.value].keyText == id
      && forall j :: 0 <= j < r.value ==> programs[j].keyText != id
    ensures r.None? <==> forall p :: 0 <= p < |programs| ==> programs[p].keyText != id
  {
    FirstMatch(programs, (p: ProgramInfo) => p.keyText == id)
  }

  /** The older lookup: by primary key first, falling back to the business id. */
  function LegacyProgramLookup(programs: seq<ProgramInfo>, id: string): (r: Option<nat>)
    ensures ProgramWithKey(programs, id).Some? ==> r == ProgramWithKey(programs, id)
    ensures ProgramWithKey(programs, id).None? ==> r == ProgramWithId(programs, id)
    ensures r.None? <==> ProgramWithKey(programs, id).None? && ProgramWithId(programs, id).None?
  {
    match ProgramWithKey(programs, id)
    case Some(p) => Some(p)
    case None => ProgramWithId(programs, id)
  }

  /**
   * The parent's storage key: none when no parent uuid is given or when no
   * effort carries it (the effort is then saved without a parent).
   */
  function ParentKey(efforts: seq<Effort>, parentUuid: Option<string>): (r: Option<nat>)
    ensures r.None? <==> !TruthyText(parentUuid) || forall j :: 0 <= j < |efforts| ==> efforts[j].uuid != parentUuid.value
    ensures r.Some? ==> exists j :: 0 <= j < |efforts| && efforts[j].uuid == parentUuid.value && efforts[j].key == r.value
  {
    if TruthyText(parentUuid) then
      match EffortWithUuid(efforts, parentUuid.value)
      case Some(j) => Some(efforts[j].key)
      case None => None
    else None
  }

  /** The effort the payload's uuid names, if the uuid is given and matches one. */
  function UpdateTarget(efforts: seq<Effort>, uuid: Option<string>): (r: Option<nat>)
    ensures r.Some? ==> r.value < |efforts| && TruthyText(uuid) && efforts[r.value].uuid == uuid.value
    ensures r.None? <==> !TruthyText(uuid) || forall j :: 0 <= j < |efforts| ==> efforts[j].uuid != uuid.value
  {
    if TruthyText(uuid) then EffortWithUuid(efforts, uuid.value) else None
  }

  // ---------------------------------------------------------------------
  // Update and create

  /** The rule applied to aspect `a` of the existing effort at position `i`. */
  function Reconciled(c: Catalog, i: nat, e: EffortPayload, a: Aspect): SlotOutcome
    requires NextKeysFree(c) && ReferencesResolve(c, i)
  {
    ManageLocalProfile(c.profiles.Get(a), c.efforts[i].local.Get(a), e.inherit.Get(a), e.data.Get(a))
  }

  /**
   * Update in place: name, program, parent and the four inherit flags are
   * overwritten from the payload, and each local profile is reconciled.
   */
  function UpdateEffort(c: Catalog, i: nat, program: nat, parent: Option<nat>, e: EffortPayload): (r: Catalog)
    requires NextKeysFree(c) && ReferencesResolve(c, i)
    ensures |r.efforts| == |c.efforts| && r.programs == c.programs
    ensures forall a :: r.profiles.Get(a) == Reconciled(c, i, e, a).table && r.efforts[i].local.Get(a) == Reconciled(c, i, e, a).reference
  {
    var sow := Reconciled(c, i, e, StatementOfWork);
    var contacts := Reconciled(c, i, e, TechnicalContacts);
    var setup := Reconciled(c, i, e, DeveloperSetup);
    var location := Reconciled(c, i, e, WorkLocation);
    var effort := c.efforts[i].(
      name := e.name,
      program := program,
      parent := parent,
      inherit := e.inherit,
      local := PerAspect(sow.reference, contacts.reference, setup.reference, location.reference));
    var r := c.(efforts := c.efforts[i := effort],
       profiles := PerAspect(sow.table, contacts.table, setup.table, location.table));
    assert r.efforts[i] == effort;
    assert forall a {:trigger r.profiles.Get(a)} :: a == StatementOfWork || a == TechnicalContacts || a == DeveloperSetup || a == WorkLocation;
    r
  }

  /** The catalog UpdateEffort builds, written field by field. */
  lemma UpdateEffortFields(c: Catalog, i: nat, program: nat, parent: Option<nat>, e: EffortPayload)
    requires NextKeysFree(c) && ReferencesResolve(c, i)
    ensures UpdateEffort(c, i, program, parent, e) == c.(
      efforts := c.efforts[i := c.efforts[i].(name := e.name, program := program, parent := parent, inherit := e.inherit,
        local := PerAspect(Reconciled(c, i, e, StatementOfWork).reference, Reconciled(c, i, e, TechnicalContacts).reference,
                           Reconciled(c, i, e, DeveloperSetup).reference, Reconciled(c, i, e, WorkLocation).reference))],
      profiles := PerAspect(Reconciled(c, i, e, StatementOfWork).table, Reconciled(c, i, e, TechnicalContacts).table,
                            Reconciled(c, i, e, DeveloperSetup).table, Reconciled(c, i, e, WorkLocation).table))
  {
  }

  /** The create path for aspect `a`: a profile only when not inheriting and data is supplied. */
  function CreatedSlot(c: Catalog, e: EffortPayload, a: Aspect): SlotOutcome
    requires NextKeysFree(c)
  {
    CreatePathProfile(c.profiles.Get(a), e.inherit.Get(a), e.data.Get(a))
  }

  /**
   * Create: a new effort with the next storage key and a fresh uuid (the
   * payload's uuid is not used), its profiles created as needed.
   */
  function CreateEffort(c: Catalog, program: nat, parent: Option<nat>, e: EffortPayload, freshUuid: string): (r: Catalog)
    requires NextKeysFree(c)
    ensures |r.efforts| == |c.efforts| + 1 && r.programs == c.programs
    ensures forall a :: r.profiles.Get(a) == CreatedSlot(c, e, a).table && r.efforts[|c.efforts|].local.Get(a) == CreatedSlot(c, e, a).reference
  {
    var sow := CreatedSlot(c, e, StatementOfWork);
    var contacts := CreatedSlot(c, e, TechnicalContacts);
    var setup := CreatedSlot(c, e, DeveloperSetup);
    var location := CreatedSlot(c, e, WorkLocation);
    var effort := Effort(
      c.nextEffortKey, freshUuid, e.name, program, parent, e.inherit,
      PerAspect(sow.reference, contacts.reference, setup.reference, location.reference),
      NoLinks(c.manyToMany));
    var r := c.(efforts := c.efforts + [effort],
       profiles := PerAspect(sow.table, contacts.table, setup.table, location.table),
       nextEffortKey := c.nextEffortKey + 1);
    assert r.efforts[|c.efforts|] == effort;
    assert forall a {:trigger r.profiles.Get(a)} :: a == StatementOfWork || a == TechnicalContacts || a == DeveloperSetup || a == WorkLocation;
    r
  }

  /** The catalog CreateEffort builds, written field by field. */
  lemma CreateEffortFields(c: Catalog, program: nat, parent: Option<nat>, e: EffortPayload, freshUuid: string)
    requires NextKeysFree(c)
    ensures CreateEffort(c, program, parent, e, freshUuid) == c.(
      efforts := c.efforts + [Effort(c.nextEffortKey, freshUuid, e.name, program, parent, e.inherit,
        PerAspect(CreatedSlot(c, e, StatementOfWork).reference, CreatedSlot(c, e, TechnicalContacts).reference,
                  CreatedSlot(c, e, DeveloperSetup).reference, CreatedSlot(c, e, WorkLocation).reference),
        NoLinks(c.manyToMany))],
      profiles := PerAspect(CreatedSlot(c, e, StatementOfWork).table, CreatedSlot(c, e, TechnicalContacts).table,
                            CreatedSlot(c, e, DeveloperSetup).table, CreatedSlot(c, e, WorkLocation).table),
      nextEffortKey := c.nextEffortKey + 1)
  {
  }

  /** The links value stored for a resolved list, in the relation's storage shape. */
  function StoredLinks(manyToMany: bool, res: Resolution): Links
  {
    if manyToMany then LinkedEfforts(set k | k in res.targets) else LinkedIds(res.ids)
  }

  /**
   * Replaces the links of the effort at `idx` by the resolution of `raw`
   * against the efforts as they now are: in many-to-many mode exactly the
   * resolved efforts, otherwise one identifier per raw item.
   */
  function ApplyLinks(c: Catalog, idx: nat, raw: seq<LinkItem>): (r: Catalog)
    requires idx < |c.efforts|
    ensures r.programs == c.programs && r.profiles == c.profiles && r.nextEffortKey == c.nextEffortKey
    ensures |r.efforts| == |c.efforts|
    ensures forall j :: 0 <= j < |c.efforts| && j != idx ==> r.efforts[j] == c.efforts[j]
    ensures r.efforts[idx] == c.efforts[idx].(links := r.efforts[idx].links)
    ensures c.manyToMany ==>
      && r.efforts[idx].links.LinkedEfforts?
      && forall k :: k in r.efforts[idx].links.targets <==> SomeItemResolvesTo(c.efforts, raw, k)
    ensures !c.manyToMany ==>
      && r.efforts[idx].links.LinkedIds?
      && |r.efforts[idx].links.ids| == |raw|
      && forall p :: 0 <= p < |raw| ==> r.efforts[idx].links.ids[p] == StoredId(c.efforts, raw[p])
  {
    ResolveLinksTargets(c.efforts, raw);
    var links := StoredLinks(c.manyToMany, ResolveLinks(c.efforts, raw));
    c.(efforts := c.efforts[idx := c.efforts[idx].(links := links)])
  }

  /** Everything after the guards, once the program row's key is known. */
  function SaveResolved(c: Catalog, program: nat, e: EffortPayload, freshUuid: string): (r: Saved)
    requires ValidCatalog(c)
    ensures r.outcome.Updated? || r.outcome.Created?
  {
    var parent := ParentKey(c.efforts, e.parentUuid);
    var target := UpdateTarget(c.efforts, e.uuid);
    var idx := if target.Some? then target.value else |c.efforts|;
    ValidCatalogReady(c, idx);
    var written :=
      if target.Some? then UpdateEffort(c, idx, program, parent, e)
      else CreateEffort(c, program, parent, e, freshUuid);
    var linked := if e.linked.Some? then ApplyLinks(written, idx, e.linked.value) else written;
    Saved(if target.Some? then Updated(idx) else Created(idx), linked)
  }

  /**
   * The newer save: no payload or no program with business id `id` returns
   * early with the store unchanged; otherwise an update when the payload's
   * uuid names an effort, else a create.
   */
  function SaveEffort(c: Catalog, id: string, payload: Option<EffortPayload>, freshUuid: string): (r: Saved)
    requires ValidCatalog(c)
    ensures r.outcome == NoPayload <==> payload.None?
    ensures r.outcome == ProgramNotFound <==> payload.Some? && ProgramWithId(c.programs, id).None?
    ensures r.outcome.NoPayload? || r.outcome.ProgramNotFound? ==> r.catalog == c
    ensures r.outcome.Updated? ==>
      && r.outcome.index < |c.efforts|
      && TruthyText(payload.value.uuid) && c.efforts[r.outcome.index].uuid == payload.value.uuid.value
    ensures r.outcome.Created? ==>
      && r.outcome.index == |c.efforts|
      && (!TruthyText(payload.value.uuid) || forall j :: 0 <= j < |c.efforts| ==> c.efforts[j].uuid != payload.value.uuid.value)
  {
    if payload.None? then Saved(NoPayload, c)
    else match ProgramWithId(c.programs, id)
      case None => Saved(ProgramNotFound, c)
      case Some(p) => SaveResolved(c, c.programs[p].key, payload.value, freshUuid)
  }

  /** The older save: the same, with the program looked up by primary key before business id. */
  function LegacySaveEffort(c: Catalog, id: string, payload: Option<EffortPayload>, freshUuid: string): (r: Saved)
    requires ValidCatalog(c)
    ensures r.outcome == NoPayload <==> payload.None?
    ensures r.outcome == ProgramNotFound <==> payload.Some? && LegacyProgramLookup(c.programs, id).None?
    ensures r.outcome.NoPayload? || r.outcome.ProgramNotFound? ==> r.catalog == c
  {
    if payload.None? then Saved(NoPayload, c)
    else match LegacyProgramLookup(c.programs, id)
      case None => Saved(ProgramNotFound, c)
      case Some(p) => SaveResolved(c, c.programs[p].key, payload.value, freshUuid)
  }
}
