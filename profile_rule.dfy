/**
 * The profile reconciliation rule applied to one aspect of one effort:
 * delete on inherit, keep when no data is supplied, update the linked row
 * in place, or create a row when none is linked.
 */
module ProfileRule {
  import opened Wrappers
  import opened Efforts

  /** The reference to store in the effort's slot, and the aspect's table afterwards. */
  datatype SlotOutcome = SlotOutcome(reference: Option<nat>, table: ProfileTable)

  /**
   * Creates a row from the dumped attributes, but only when the dump is
   * non-empty; the row gets the table's next key.
   */
  function CreateRelation(t: ProfileTable, data: Option<Attributes>): (r: SlotOutcome)
    ensures r.reference.Some? <==> data.Some? && data.value != map[]
    ensures r.reference.Some? ==>
      && r.reference.value == t.nextKey
      && r.table.rows == t.rows[t.nextKey := data.value]
      && r.table.nextKey == t.nextKey + 1
    ensures r.reference.None? ==> r.table == t
  {
    if data.Some? && data.value != map[] then
      SlotOutcome(Some(t.nextKey), ProfileTable(t.rows[t.nextKey := data.value], t.nextKey + 1))
    else
      SlotOutcome(None, t)
  }

  /**
   * The reconciliation rule. `existing` is the effort's current local
   * reference (a foreign key, so it names a row of the table), `inherit` the
   * payload's flag and `data` the payload's profile for this aspect.
   */
  function ManageLocalProfile(t: ProfileTable, existing: Option<nat>, inherit: bool, data: Option<Attributes>): SlotOutcome
    requires existing.Some? ==> existing.value in t.rows
    requires t.nextKey !in t.rows
  {
    if inherit then
      SlotOutcome(None, if existing.Some? then t.(rows := t.rows - {existing.value}) else t)
    else if data.None? then
      SlotOutcome(existing, t)
    else if existing.Some? then
      SlotOutcome(existing, t.(rows := t.rows[existing.value := t.rows[existing.value] + data.value]))
    else
      CreateRelation(t, data)
  }

  /**
   * What the rule does: inherit removes the linked row and clears the
   * reference, no data keeps everything, data updates the linked row in
   * place or creates one; no other row changes.
   */
  lemma ManageLocalProfileRule(t: ProfileTable, existing: Option<nat>, inherit: bool, data: Option<Attributes>)
    requires existing.Some? ==> existing.value in t.rows
    requires t.nextKey !in t.rows
    ensures var r := ManageLocalProfile(t, existing, inherit, data);
      && (r.reference.Some? ==> r.reference.value in r.table.rows)
      // inherit: no local profile, and the previously linked row is gone
      && (inherit ==> r.reference.None?)
      && (existing.Some? && r.reference.None? ==> existing.value !in r.table.rows)
      // not inheriting: a linked row stays linked (updated or untouched)
      && (!inherit && existing.Some? ==> r.reference == existing)
      && (!inherit && data.None? ==> r.reference == existing && r.table == t)
      // create: only with data, no linked row, and a non-empty dump; the row holds exactly the dump
      && (r.reference.Some? && r.reference != existing ==>
            && !inherit && existing.None? && data.Some? && data.value != map[]
            && r.reference.value == t.nextKey && r.table.rows[t.nextKey] == data.value)
      && (r.table.nextKey == t.nextKey || (r.table.nextKey == t.nextKey + 1 && r.reference == Some(t.nextKey)))
    // update in place: supplied fields take the new values, the others keep theirs
    ensures var r := ManageLocalProfile(t, existing, inherit, data);
      !inherit && data.Some? && existing.Some? ==>
        var row := r.table.rows[existing.value];
        && (forall f :: f in data.value ==> f in row && row[f] == data.value[f])
        && (forall f :: f in t.rows[existing.value] && f !in data.value ==> f in row && row[f] == t.rows[existing.value][f])
        && (forall f :: f in row ==> f in data.value || f in t.rows[existing.value])
    // every other row is untouched, and no other row appears
    ensures var r := ManageLocalProfile(t, existing, inherit, data);
      && (forall k :: k in t.rows && Some(k) != existing ==> k in r.table.rows && r.table.rows[k] == t.rows[k])
      && (forall k :: k in r.table.rows ==> k in t.rows || Some(k) == r.reference)
  {
  }

  /**
   * The create path as written: a profile is created only when the flag is
   * false and data is supplied; it is the rule applied with nothing linked.
   */
  function CreatePathProfile(t: ProfileTable, inherit: bool, data: Option<Attributes>): (r: SlotOutcome)
    requires t.nextKey !in t.rows
    ensures r.reference.Some? <==> !inherit && data.Some? && data.value != map[]
    ensures r.reference.Some? ==>
      && r.reference.value == t.nextKey
      && r.table == ProfileTable(t.rows[t.nextKey := data.value], t.nextKey + 1)
    ensures r.reference.None? ==> r.table == t
  {
    if !inherit && data.Some? then CreateRelation(t, data) else SlotOutcome(None, t)
  }

  /** The create path is the rule applied with no profile linked yet. */
  lemma CreatePathIsRule(t: ProfileTable, inherit: bool, data: Option<Attributes>)
    requires t.nextKey !in t.rows
    ensures CreatePathProfile(t, inherit, data) == ManageLocalProfile(t, None, inherit, data)
  {
  }

  /** Saving the same aspect twice with the same payload changes nothing the second time. */
  lemma ManageLocalProfileIdempotent(t: ProfileTable, existing: Option<nat>, inherit: bool, data: Option<Attributes>)
    requires existing.Some? ==> existing.value in t.rows
    requires forall k :: k in t.rows ==> k < t.nextKey
    ensures var r1 := ManageLocalProfile(t, existing, inherit, data);
      var r2 := ManageLocalProfile(r1.table, r1.reference, inherit, data);
      r2 == r1
  {
    var r1 := ManageLocalProfile(t, existing, inherit, data);
    if !inherit && data.Some? && r1.reference.Some? {
      var k := r1.reference.value;
      var row := r1.table.rows[k];
      assert row + data.value == row;
      assert r1.table.rows[k := row + data.value] == r1.table.rows;
    }
  }

  /** Every efforts' references to rows of `t`, other than at position `i`, are unchanged from `efforts` to `efforts'`. */
  ghost predicate OthersUnchanged(efforts: seq<Effort>, efforts': seq<Effort>, i: nat, a: Aspect)
  {
    forall j :: 0 <= j < |efforts| && j != i ==>
      j < |efforts'| && efforts'[j].local.Get(a) == efforts[j].local.Get(a) && efforts'[j].inherit.Get(a) == efforts[j].inherit.Get(a)
  }

  /** The existing reference of position `i`: none for a newly appended effort. */
  function ExistingAt(efforts: seq<Effort>, i: nat, a: Aspect): Option<nat>
  {
    if i < |efforts| then efforts[i].local.Get(a) else None
  }

  /**
   * `efforts'` is `efforts` with the rule applied to aspect `a` of effort
   * `i`, an existing effort or a new one appended with nothing linked.
   */
  ghost predicate SlotStep(
    efforts: seq<Effort>, efforts': seq<Effort>, i: nat, a: Aspect, t: ProfileTable, inherit: bool, data: Option<Attributes>)
  {
    && AspectConsistent(efforts, a, t)
    && ((|efforts'| == |efforts| && i < |efforts|) || (|efforts'| == |efforts| + 1 && i == |efforts|))
    && OthersUnchanged(efforts, efforts', i, a)
    && efforts'[i].local.Get(a) == ManageLocalProfile(t, ExistingAt(efforts, i, a), inherit, data).reference
    && efforts'[i].inherit.Get(a) == inherit
  }

  /**
   * Applying the rule to effort `i` keeps the aspect consistent: references
   * resolve, no row is shared or orphaned, and inherit implies no local.
   */
  lemma ManageLocalProfileKeepsConsistency(
    efforts: seq<Effort>, efforts': seq<Effort>, i: nat, a: Aspect, t: ProfileTable, inherit: bool, data: Option<Attributes>)
    requires SlotStep(efforts, efforts', i, a, t, inherit, data)
    ensures AspectConsistent(efforts', a, ManageLocalProfile(t, ExistingAt(efforts, i, a), inherit, data).table)
  {
    SlotStepReferencesResolve(efforts, efforts', i, a, t, inherit, data);
    SlotStepExclusive(efforts, efforts', i, a, t, inherit, data);
    SlotStepNoOrphans(efforts, efforts', i, a, t, inherit, data);
    SlotStepBounds(efforts, efforts', i, a, t, inherit, data);
  }

  lemma SlotStepBounds(
    efforts: seq<Effort>, efforts': seq<Effort>, i: nat, a: Aspect, t: ProfileTable, inherit: bool, data: Option<Attributes>)
    requires SlotStep(efforts, efforts', i, a, t, inherit, data)
    ensures var t' := ManageLocalProfile(t, ExistingAt(efforts, i, a), inherit, data).table;
      forall k :: k in t'.rows ==> k < t'.nextKey
    ensures forall j :: 0 <= j < |efforts'| && efforts'[j].inherit.Get(a) ==> efforts'[j].local.Get(a).None?
  {
    var existing := ExistingAt(efforts, i, a);
    ManageLocalProfileRule(t, existing, inherit, data);
    forall j | 0 <= j < |efforts'| && efforts'[j].inherit.Get(a) ensures efforts'[j].local.Get(a).None? {
      if j != i {
        assert efforts'[j].inherit.Get(a) == efforts[j].inherit.Get(a);
      }
    }
  }

  lemma SlotStepReferencesResolve(
    efforts: seq<Effort>, efforts': seq<Effort>, i: nat, a: Aspect, t: ProfileTable, inherit: bool, data: Option<Attributes>)
    requires SlotStep(efforts, efforts', i, a, t, inherit, data)
    ensures var t' := ManageLocalProfile(t, ExistingAt(efforts, i, a), inherit, data).table;
      forall j :: 0 <= j < |efforts'| && efforts'[j].local.Get(a).Some? ==> efforts'[j].local.Get(a).value in t'.rows
  {
    var existing := ExistingAt(efforts, i, a);
    var t' := ManageLocalProfile(t, existing, inherit, data).table;
    forall j | 0 <= j < |efforts'| && efforts'[j].local.Get(a).Some?
      ensures efforts'[j].local.Get(a).value in t'.rows
    {
      if j != i {
        var here := efforts[j].local.Get(a);
        assert efforts'[j].local.Get(a) == here;
        assert here != existing by {
          if i < |efforts| && existing.Some? {
            if j < i {
              assert efforts[j].local.Get(a) != efforts[i].local.Get(a);
            } else {
              assert efforts[i].local.Get(a) != efforts[j].local.Get(a);
            }
          }
        }
      }
    }
  }

  lemma SlotStepExclusive(
    efforts: seq<Effort>, efforts': seq<Effort>, i: nat, a: Aspect, t: ProfileTable, inherit: bool, data: Option<Attributes>)
    requires SlotStep(efforts, efforts', i, a, t, inherit, data)
    ensures forall j1, j2 :: 0 <= j1 < j2 < |efforts'| && efforts'[j1].local.Get(a).Some? ==>
      efforts'[j1].local.Get(a) != efforts'[j2].local.Get(a)
  {
    var existing := ExistingAt(efforts, i, a);
    forall j1, j2 | 0 <= j1 < j2 < |efforts'| && efforts'[j1].local.Get(a).Some?
      ensures efforts'[j1].local.Get(a) != efforts'[j2].local.Get(a)
    {
      if j1 != i && j2 != i {
        assert efforts'[j1].local.Get(a) == efforts[j1].local.Get(a);
      } else {
        var other := if j1 == i then j2 else j1;
        assert other < |efforts|;
        if efforts'[i].local.Get(a) != existing {
          // a freshly created row: every other reference names an older row
          if efforts'[other].local.Get(a).Some? {
            assert efforts[other].local.Get(a).value in t.rows;
          }
        } else if i < |efforts| {
          if j1 == i {
            assert efforts[i].local.Get(a) != efforts[j2].local.Get(a);
          } else {
            assert efforts[j1].local.Get(a) != efforts[i].local.Get(a);
          }
        }
      }
    }
  }

  lemma SlotStepNoOrphans(
    efforts: seq<Effort>, efforts': seq<Effort>, i: nat, a: Aspect, t: ProfileTable, inherit: bool, data: Option<Attributes>)
    requires SlotStep(efforts, efforts', i, a, t, inherit, data)
    ensures var t' := ManageLocalProfile(t, ExistingAt(efforts, i, a), inherit, data).table;
      forall k :: k in t'.rows ==> OwnedBy(efforts', a, k)
  {
    var existing := ExistingAt(efforts, i, a);
    var r := ManageLocalProfile(t, existing, inherit, data);
    forall k | k in r.table.rows ensures OwnedBy(efforts', a, k) {
      if Some(k) == r.reference {
        assert efforts'[i].local.Get(a) == Some(k);
      } else {
        assert k in t.rows && OwnedBy(efforts, a, k);
        var j :| 0 <= j < |efforts| && efforts[j].local.Get(a) == Some(k);
        assert efforts'[j].local.Get(a) == Some(k);
      }
    }
  }
}
