/**
 * The service's store as mutable state: program rows, efforts, one profile
 * table per aspect and the effort key counter. Saving and deleting change
 * this state step by step, as the service does, and each operation is
 * proved to leave exactly the state its specification function describes.
 */
module CatalogStore {
  import opened Wrappers
  import opened Programs
  import opened Efforts
  import opened ProfileRule
  import opened LinkedEfforts
  import opened EffortUpsert
  import opened EffortDelete
  import opened UpsertProperties

  class Store {
    var programs: seq<ProgramInfo>
    var efforts: seq<Effort>
    var profiles: PerAspect<ProfileTable>
    var nextEffortKey: nat
    const manyToMany: bool

    /** The store's contents as a value. */
    function State(): Catalog
      reads this
    {
      Catalog(programs, efforts, profiles, nextEffortKey, manyToMany)
    }

    /** An empty store over the given program rows. */
    constructor (programs: seq<ProgramInfo>, manyToMany: bool)
      requires forall i, j :: 0 <= i < j < |programs| ==> programs[i].key < programs[j].key
      ensures State() == Catalog(programs, [], PerAspect(ProfileTable(map[], 0), ProfileTable(map[], 0), ProfileTable(map[], 0), ProfileTable(map[], 0)), 0, manyToMany)
      ensures ValidCatalog(State())
    {
      this.programs := programs;
      this.efforts := [];
      this.profiles := PerAspect(ProfileTable(map[], 0), ProfileTable(map[], 0), ProfileTable(map[], 0), ProfileTable(map[], 0));
      this.nextEffortKey := 0;
      this.manyToMany := manyToMany;
    }

    /** Creates a profile row of aspect `a` from non-empty data; nothing otherwise. */
    method CreateEffortRelation(a: Aspect, data: Option<Attributes>) returns (reference: Option<nat>)
      modifies this
      ensures reference == CreateRelation(old(profiles.Get(a)), data).reference
      ensures profiles == old(profiles).With(a, CreateRelation(old(profiles.Get(a)), data).table)
      ensures efforts == old(efforts) && programs == old(programs) && nextEffortKey == old(nextEffortKey)
    {
      reference := None;
      if data.Some? && data.value != map[] {
        var t := profiles.Get(a);
        reference := Some(t.nextKey);
        profiles := profiles.With(a, ProfileTable(t.rows[t.nextKey := data.value], t.nextKey + 1));
      }
    }

    /**
     * The reconciliation rule for aspect `a` of an effort whose current
     * reference is `existing`: hard-delete on inherit, keep without data,
     * update in place, or create.
     */
    method ManageLocalProfile(a: Aspect, existing: Option<nat>, inherit: bool, data: Option<Attributes>) returns (reference: Option<nat>)
      requires existing.Some? ==> existing.value in profiles.Get(a).rows
      requires profiles.Get(a).nextKey !in profiles.Get(a).rows
      modifies this
      ensures reference == ProfileRule.ManageLocalProfile(old(profiles.Get(a)), existing, inherit, data).reference
      ensures profiles == old(profiles).With(a, ProfileRule.ManageLocalProfile(old(profiles.Get(a)), existing, inherit, data).table)
      ensures efforts == old(efforts) && programs == old(programs) && nextEffortKey == old(nextEffortKey)
    {
      var t := profiles.Get(a);
      if inherit {
        if existing.Some? {
          profiles := profiles.With(a, t.(rows := t.rows - {existing.value}));
        }
        reference := None;
      } else if data.None? {
        reference := existing;
      } else if existing.Some? {
        profiles := profiles.With(a, t.(rows := t.rows[existing.value := t.rows[existing.value] + data.value]));
        reference := existing;
      } else {
        reference := CreateEffortRelation(a, data);
      }
    }

    /** The create path's profile for aspect `a`: created only when not inheriting and data is given. */
    method CreateProfile(a: Aspect, inherit: bool, data: Option<Attributes>) returns (reference: Option<nat>)
      requires profiles.Get(a).nextKey !in profiles.Get(a).rows
      modifies this
      ensures reference == CreatePathProfile(old(profiles.Get(a)), inherit, data).reference
      ensures profiles == old(profiles).With(a, CreatePathProfile(old(profiles.Get(a)), inherit, data).table)
      ensures efforts == old(efforts) && programs == old(programs) && nextEffortKey == old(nextEffortKey)
    {
      reference := None;
      if !inherit && data.Some? {
        reference := CreateEffortRelation(a, data);
      }
    }

    /** Update in place of the effort at `i`. */
    method UpdateAt(i: nat, program: nat, parent: Option<nat>, e: EffortPayload)
      requires NextKeysFree(State()) && ReferencesResolve(State(), i)
      modifies this
      ensures State() == UpdateEffort(old(State()), i, program, parent, e)
    {
      ghost var c := State();
      var effort := efforts[i].(name := e.name, program := program, inherit := e.inherit, parent := parent);
      var sow := ManageLocalProfile(StatementOfWork, effort.local.statementOfWork, e.inherit.statementOfWork, e.data.statementOfWork);
      assert SlotOutcome(sow, profiles.Get(StatementOfWork)) == Reconciled(c, i, e, StatementOfWork);
      var contacts := ManageLocalProfile(TechnicalContacts, effort.local.technicalContacts, e.inherit.technicalContacts, e.data.technicalContacts);
      assert SlotOutcome(contacts, profiles.Get(TechnicalContacts)) == Reconciled(c, i, e, TechnicalContacts);
      var setup := ManageLocalProfile(DeveloperSetup, effort.local.developerSetup, e.inherit.developerSetup, e.data.developerSetup);
      assert SlotOutcome(setup, profiles.Get(DeveloperSetup)) == Reconciled(c, i, e, DeveloperSetup);
      var location := ManageLocalProfile(WorkLocation, effort.local.workLocation, e.inherit.workLocation, e.data.workLocation);
      assert SlotOutcome(location, profiles.Get(WorkLocation)) == Reconciled(c, i, e, WorkLocation);
      effort := effort.(local := PerAspect(sow, contacts, setup, location));
      efforts := efforts[i := effort];
      UpdateEffortFields(c, i, program, parent, e);
    }

    /** Create of a new effort with the next key and the given fresh uuid. */
    method CreateNew(program: nat, parent: Option<nat>, e: EffortPayload, freshUuid: string)
      requires NextKeysFree(State())
      modifies this
      ensures State() == CreateEffort(old(State()), program, parent, e, freshUuid)
    {
      ghost var c := State();
      var sow := CreateProfile(StatementOfWork, e.inherit.statementOfWork, e.data.statementOfWork);
      var contacts := CreateProfile(TechnicalContacts, e.inherit.technicalContacts, e.data.technicalContacts);
      var setup := CreateProfile(DeveloperSetup, e.inherit.developerSetup, e.data.developerSetup);
      var location := CreateProfile(WorkLocation, e.inherit.workLocation, e.data.workLocation);
      efforts := efforts + [Effort(
        nextEffortKey, freshUuid, e.name, program, parent, e.inherit,
        PerAspect(sow, contacts, setup, location), NoLinks(manyToMany))];
      nextEffortKey := nextEffortKey + 1;
      CreateEffortFields(c, program, parent, e, freshUuid);
    }

    /** Resolves the linked list and stores it on the effort at `idx`. */
    method SetLinks(idx: nat, raw: seq<LinkItem>)
      requires idx < |efforts|
      modifies this
      ensures State() == ApplyLinks(old(State()), idx, raw)
    {
      var targets, ids := ResolveLinkedItems(efforts, raw);
      var links := if manyToMany then LinkedEfforts(set k | k in targets) else LinkedIds(ids);
      efforts := efforts[idx := efforts[idx].(links := links)];
    }

    /** Everything after the guards, once the program row's key is known. */
    method SaveForProgram(program: nat, e: EffortPayload, freshUuid: string) returns (outcome: SaveOutcome)
      requires ValidCatalog(State())
      modifies this
      ensures Saved(outcome, State()) == SaveResolved(old(State()), program, e, freshUuid)
    {
      var parent := ParentKey(efforts, e.parentUuid);
      var target := UpdateTarget(efforts, e.uuid);
      var idx: nat;
      ValidCatalogReady(State(), if target.Some? then target.value else |efforts|);
      if target.Some? {
        idx := target.value;
        UpdateAt(idx, program, parent, e);
        outcome := Updated(idx);
      } else {
        idx := |efforts|;
        CreateNew(program, parent, e, freshUuid);
        outcome := Created(idx);
      }
      if e.linked.Some? {
        SetLinks(idx, e.linked.value);
      }
    }

    /** The newer save: program looked up by business id. */
    method SaveEffortForProgram(id: string, payload: Option<EffortPayload>, freshUuid: string) returns (outcome: SaveOutcome)
      requires ValidCatalog(State())
      requires forall j :: 0 <= j < |efforts| ==> efforts[j].uuid != freshUuid
      modifies this
      ensures Saved(outcome, State()) == SaveEffort(old(State()), id, payload, freshUuid)
      ensures ValidCatalog(State())
    {
      SaveKeepsValid(State(), id, payload, freshUuid);
      if payload.None? {
        return NoPayload;
      }
      var p := ProgramWithId(programs, id);
      if p.None? {
        return ProgramNotFound;
      }
      outcome := SaveForProgram(programs[p.value].key, payload.value, freshUuid);
    }

    /** The older save: program looked up by primary key, then by business id. */
    method LegacySaveEffortForProgram(id: string, payload: Option<EffortPayload>, freshUuid: string) returns (outcome: SaveOutcome)
      requires ValidCatalog(State())
      requires forall j :: 0 <= j < |efforts| ==> efforts[j].uuid != freshUuid
      modifies this
      ensures Saved(outcome, State()) == LegacySaveEffort(old(State()), id, payload, freshUuid)
      ensures ValidCatalog(State())
    {
      SaveKeepsValid(State(), id, payload, freshUuid);
      if payload.None? {
        return NoPayload;
      }
      var p := ProgramWithKey(programs, id);
      if p.None? {
        p := ProgramWithId(programs, id);
      }
      if p.None? {
        return ProgramNotFound;
      }
      outcome := SaveForProgram(programs[p.value].key, payload.value, freshUuid);
    }

    /** Hard-deletes the row of aspect `a` that `reference` names, if any. */
    method HardDeleteProfile(a: Aspect, reference: Option<nat>)
      modifies this
      ensures profiles == old(profiles).With(a, DropRow(old(profiles.Get(a)), reference))
      ensures efforts == old(efforts) && programs == old(programs) && nextEffortKey == old(nextEffortKey)
    {
      if reference.Some? {
        var t := profiles.Get(a);
        profiles := profiles.With(a, t.(rows := t.rows - {reference.value}));
      }
    }

    /** Delete by uuid: each linked profile, then the effort. */
    method DeleteEffortByUuid(text: string) returns (deleted: bool)
      modifies this
      ensures Deleted(deleted, State()) == DeleteEffort(old(State()), text)
      ensures old(ValidCatalog(State())) ==> ValidCatalog(State())
    {
      if ValidCatalog(State()) {
        DeleteKeepsValid(State(), text);
      }
      if !WellFormedUuid(text) {
        return false;
      }
      var found := EffortWithUuid(efforts, text);
      if found.None? {
        return false;
      }
      var i := found.value;
      var local := efforts[i].local;
      HardDeleteProfile(StatementOfWork, local.statementOfWork);
      HardDeleteProfile(DeveloperSetup, local.developerSetup);
      HardDeleteProfile(TechnicalContacts, local.technicalContacts);
      HardDeleteProfile(WorkLocation, local.workLocation);
      efforts := Without(efforts, i);
      return true;
    }
  }
}
