# Program catalog service — a Dafny model

This project models the core of `ProgramCatalogService`, a Django service that
keeps a catalog of software programs and the software efforts attached to
them. Two versions of the service are modelled side by side: the newer one in
`backend/service_temp.py` and the older one in `service_temp.py`.

What is modelled:

- **Current program rows.** Programs are versioned by date. The catalog shows,
  for each program whose active flag is set, its version with the latest
  date. Ties are broken by the highest storage key.
- **The program tree.** The current rows are sorted by path depth. The
  shallowest row becomes the root, and every other row hangs under the row
  whose path is its parent path; rows with no such parent are skipped as
  orphans. The newer builder refuses more than one shallowest row and marks
  every node that has a descendant expecting software effort. The older
  builder just takes the first row and sets no flags.
- **Saving an effort.** The save checks the payload and looks up the program.
  The newer version looks it up by business id; the older one tries the
  primary key first and then the business id. The parent is resolved by uuid.
  The effort is then updated (when the payload's uuid names one) or created.
- **Local profiles.** Each of the four local profiles (statement of work,
  technical contacts, developer setup, work location) is reconciled by the
  inherit/data rule of `manage_local_profile`.
- **Linked efforts.** The linked-efforts list is resolved item by item and
  stored as a many-to-many relation or as a list of identifiers.
- **Deleting an effort by uuid.** This hard-deletes the effort's local profiles
  and then the effort itself.

How the model is laid out:

- The store is `CatalogStore.Store`, a class whose methods change its fields
  step by step, as the service does.
- Each method is proved to leave exactly the state that a pure specification
  function on a `Catalog` value describes.
- The properties are lemmas about those functions.
- Efforts are kept in storage-key order, so Django's `.first()` is the first
  match in the sequence.
- Profile rows live in one table per aspect, keyed by storage id.
- The tree is an arena: `nodes[0]` is the root, and children are indices.

## Model

| member | source | states |
|---|---|---|
| ProgramPaths.LegacyParentPathIsParentPath | service_temp.py:435-438 | The older split/pop/join parent path equals the newer "rsplit once, '' without a dot" parent path for every path |
| ProgramPaths.JoinSplit | service_temp.py:435-438 | Joining the dot-split parts of a path gives the path back |
| ProgramPaths.ParentPathDepth | backend/service_temp.py:491-493 | A path with a dot has a parent path exactly one segment shallower |
| ProgramPaths.DepthWithoutDot | backend/service_temp.py:469 | A path with no dot has depth one (one segment under `split(".")`) |
| ProgramPaths.ShallowParentPath | backend/service_temp.py:491-493 | A one-segment path has parent path "" |
| ProgramPaths.DeepPathHasDot | backend/service_temp.py:491-493 | A path deeper than one segment contains a dot, and its parent path is one segment shallower |
| ProgramPaths.ParentPath | backend/service_temp.py:491-493 | "" for a path without a dot, otherwise the text before the last dot; the result is a prefix of the path and shorter unless the path is "" (with `ParentPathDepth`: one segment shallower) |
| ProgramPaths.LegacyParentPath | service_temp.py:435-438 | Split on dots, drop the last part, join again; `LegacyParentPathIsParentPath` proves it equals `ParentPath` on every path |
| Programs.SortByDepth | backend/service_temp.py:469 | The depth sort returns a depth-ordered permutation of its input |
| Programs.SortByDepthIsStable | backend/service_temp.py:469 | The sort is stable: the rows of any depth keep their relative order |
| Programs.SortedHeadIsFirstShallowest | service_temp.py:425-429 | After the sort, the first row is the first row of the minimum depth in the original order |
| Programs.SortedAtFirstDepth | backend/service_temp.py:499-505 | In a depth-sorted list, there is more than one row of the first depth iff the second row has the first row's depth |
| VersionResolver.Top | backend/service_temp.py:598-602 | The first row under descending date and then descending storage key, among the admitted rows: it is admitted, and no admitted row outranks it |
| VersionResolver.CurrentAsQueriedIsCurrent | backend/service_temp.py:88-101 | Filtering on `date__in` the latest dates of all programs still picks each program's own latest active version |
| VersionResolver.CurrentRowsAreCurrent | backend/service_temp.py:580-605 | One row per active program, each outranking every other active version of that program |
| VersionResolver.Select | backend/service_temp.py:598-602 | `distinct("program_id")` keeps exactly the current rows, at most one per program |
| VersionResolver.SelectDistinct | backend/service_temp.py:598-602 | Over distinct program ids, the selection never holds the same row twice |
| VersionResolver.CurrentAsQueried | backend/service_temp.py:593-597 | The version chosen among active rows of the program whose date is in the set of every program's latest date; `CurrentAsQueriedIsCurrent` proves it is the program's own latest version |
| VersionResolver.CurrentRows | backend/service_temp.py:579-605 | The de-duplicated current rows; `CurrentRowsAreCurrent` proves one row per active program, each its latest version |
| ProgramTree.CountRootCandidates | backend/service_temp.py:499-507 | The early-stopping count equals the number of rows at the first depth; it is 1 exactly when the root is the only shallowest row |
| ProgramTree.AttachRecords | backend/service_temp.py:536-555 | Every row after the root is attached under the node registered at its parent path, or skipped; the arena holds exactly the attached rows |
| ProgramTree.AttachRow | backend/service_temp.py:537-555 | One step of the attach loop keeps the loop's invariant: the arena's shape, its records, the path index and the depth bounds |
| ProgramTree.ParentPathFor | backend/service_temp.py:491-493 | Whichever builder's helper computes it, the parent path is the same ("rsplit once", "" without a dot) |
| ProgramTree.KeptAndDroppedPartition | backend/service_temp.py:536-555 | Every row after the root is either attached or skipped as an orphan, none lost and none counted twice |
| ProgramTree.ParentKnownIffAttached | backend/service_temp.py:537-547 | In depth order, the parent-path lookup succeeds exactly when the row's chain of parent paths reaches the root |
| ProgramTree.PropagateDescendantFlags | backend/service_temp.py:559-575 | After the reverse pass, a node is flagged iff its path is not "" and some proper descendant expects software effort |
| ProgramTree.SameShapeKeepsTree | backend/service_temp.py:559-575 | The reverse pass changes flags only, so the tree's shape and descendants are unchanged |
| ProgramTree.BuildProgramTree | backend/service_temp.py:450-577 | No rows gives no tree. Several shallowest rows are refused with their count. Otherwise the tree is rooted at the first shallowest row, holds exactly the attached rows, and is flagged as above |
| LegacyProgramTree.BuildLegacyProgramTree | service_temp.py:412-451 | No rows gives no tree. Otherwise the first shallowest row is the root, the rest are attached as in the newer builder, and no node is flagged |
| LegacyProgramTree.LegacyDropsOtherRoots | service_temp.py:427-429 | When there are several shallowest rows, the older builder silently drops every other row at the root's depth (unless the root's path is "") |
| ProfileRule.CreateRelation | backend/service_temp.py:159-167 | A profile row is created from the data exactly when the data is present and non-empty; otherwise the table is unchanged |
| ProfileRule.ManageLocalProfileRule | backend/service_temp.py:243-283 | Inherit removes the linked row and clears the reference. No data keeps everything. Data updates the supplied fields in place or creates a row. All other rows are untouched |
| ProfileRule.CreatePathProfile | backend/service_temp.py:369-383 | The create path creates a profile iff the effort does not inherit and the data is non-empty; the new row gets the next key and holds exactly the data; otherwise the table is unchanged |
| ProfileRule.CreatePathIsRule | backend/service_temp.py:369-383 | The create path agrees with the reconciliation rule applied with no existing profile |
| ProfileRule.ManageLocalProfileIdempotent | backend/service_temp.py:243-283 | Applying the rule again to its own result changes nothing |
| ProfileRule.ManageLocalProfileKeepsConsistency | backend/service_temp.py:243-283 | One reconciliation keeps each profile row owned by exactly one effort, and keeps every reference resolving |
| LinkedEfforts.ExtractIdentifier | backend/service_temp.py:420-429 | An object item gives the text of the first truthy value under uuid, id, pk, and nothing iff none is truthy. A scalar gives exactly `strip(str(v))` |
| LinkedEfforts.ResolveIdentifier | backend/service_temp.py:391-405 | An identifier resolves to the first effort with that uuid, else to the first with that all-digit storage key, else to nothing; an empty identifier resolves to nothing |
| LinkedEfforts.ResolveLinks | backend/service_temp.py:431-439 | One stored identifier per item: the resolved effort's uuid, or the raw identifier when nothing resolves |
| LinkedEfforts.ResolveLinksTargets | backend/service_temp.py:431-445 | An effort is among the link targets iff some item of the list resolves to it |
| LinkedEfforts.ResolveLinkedItems | backend/service_temp.py:418-440 | The item loop computes exactly the resolution of the whole list |
| LinkedEfforts.UnresolvedPassesThrough | backend/service_temp.py:436-439 | An item that resolves to nothing is stored as its extracted identifier |
| LinkedEfforts.NatTextRoundTrip | backend/service_temp.py:398-401 | Reading back the decimal text of a storage key gives the key |
| LinkedEfforts.StripEnds | backend/service_temp.py:429 | What `strip()` keeps neither starts nor ends with whitespace |
| LinkedEfforts.StripProperties | backend/service_temp.py:429 | What `strip()` keeps is the input's own text, character for character, from right after the leading whitespace |
| LinkedEfforts.StripDropsLeadingSpace | backend/service_temp.py:429 | Everything `strip()` drops before the kept text is whitespace |
| LinkedEfforts.StripDropsTrailingSpace | backend/service_temp.py:429 | Everything `strip()` drops after the kept text is whitespace |
| LinkedEfforts.StripIdempotent | backend/service_temp.py:429 | Stripping twice is the same as stripping once |
| LinkedEfforts.Strip | backend/service_temp.py:429 | `strip()` on ASCII whitespace; `StripEnds`, `StripProperties`, `StripDropsLeadingSpace`, `StripDropsTrailingSpace` and `StripIdempotent` state what it keeps and drops |
| LinkedEfforts.IsDigits | backend/service_temp.py:401 | `isdigit()`: a non-empty text of ASCII digits |
| LinkedEfforts.DigitsValue | backend/service_temp.py:402 | `int()` of a digit text; `NatTextRoundTrip` proves it reads back the decimal text of every storage key |
| EffortUpsert.ProgramWithId | backend/service_temp.py:205-210 | The first program row (lowest position, whatever its date) with the given business id, or nothing iff there is none |
| EffortUpsert.ProgramWithKey | service_temp.py:166 | The first row whose primary key, as text, is the id; nothing iff no row's primary key has that text |
| EffortUpsert.LegacyProgramLookup | service_temp.py:166-175 | Storage-id match first, business-id match as the fallback; nothing iff neither matches |
| EffortUpsert.ParentKey | backend/service_temp.py:218-232 | The parent is the first effort with the parent uuid; there is none when no uuid is given or none matches |
| EffortUpsert.UpdateTarget | backend/service_temp.py:236-240 | The effort to update is the first one with the payload's uuid; there is none when no uuid is given or none matches |
| EffortUpsert.UpdateEffort | backend/service_temp.py:286-335 | The update keeps the number of efforts and the programs. Each aspect's table and reference are what the profile rule gives |
| EffortUpsert.CreateEffort | backend/service_temp.py:337-383 | The create appends exactly one effort and leaves the programs alone. Each aspect's table and reference come from the create-path rule |
| EffortUpsert.ApplyLinks | backend/service_temp.py:387-445 | Only the saved effort's links change. Many-to-many mode links exactly the efforts some item resolves to; list mode stores one identifier per item |
| EffortUpsert.SaveEffort | backend/service_temp.py:169-445 | No payload, or no program with the id, returns early with nothing changed. Otherwise the effort the uuid names is updated, or a new one is created at the end |
| EffortUpsert.LegacySaveEffort | service_temp.py:130-407 | The same early returns, with the primary-key-then-business-id program lookup |
| UpsertProperties.SaveKeepsValid | backend/service_temp.py:169-445 | Both save versions keep the store consistent: keys ascending, uuids distinct, every profile row owned by exactly one effort |
| UpsertProperties.SaveResolvedUpdate | backend/service_temp.py:286-335 | An update rewrites the name, program, parent and inherit flags from the payload. It keeps key, uuid and, without a list, the links. It touches no other effort |
| UpsertProperties.SaveResolvedCreate | backend/service_temp.py:337-383 | A create appends an effort with the next key and a fresh uuid. A profile is created per aspect iff it does not inherit and data is non-empty. Existing profile rows are kept |
| UpsertProperties.SaveResolvedIsCreate | backend/service_temp.py:236-240 | When the payload's uuid names no effort, the save is a create followed by the links step |
| UpsertProperties.SaveResolvedIsUpdate | backend/service_temp.py:236-240 | When the payload's uuid names an effort, the save is an update of that effort followed by the links step, and the effort's references resolve |
| UpsertProperties.CreateEffortContents | backend/service_temp.py:337-383 | A create keeps every existing effort and row, gives the new effort the next key, the fresh uuid, the payload's fields and no links, and creates a profile per aspect iff not inheriting with non-empty data |
| UpsertProperties.SaveResolvedLinks | backend/service_temp.py:387-445 | Links are resolved against the efforts as saved, including the saved effort itself |
| UpsertProperties.LinksResolvedAgainstResult | backend/service_temp.py:387-445 | Resolving the list before or after storing it gives the same links, since storing changes only links |
| UpsertProperties.SaveUpdateIdempotent | backend/service_temp.py:286-445 | Saving the same payload again after an update changes nothing |
| UpsertProperties.UnmatchedUuidCreatesAgain | backend/service_temp.py:236-240 | A payload whose uuid names no effort creates a new effort each time it is saved, because the created effort gets a fresh uuid |
| UpsertProperties.CreateKeepsUuidAbsent | backend/service_temp.py:337-383 | A create appends one effort, and a uuid that no effort carried and that is not the fresh one is still carried by none |
| UpsertProperties.SavedProgram | service_temp.py:166-175 | The saved effort belongs to the program the lookup found: by business id in the newer version, by primary key first in the older |
| UpsertProperties.LegacyAgreesWithoutKeyMatch | service_temp.py:166-169 | When no row's primary key has the id as its text, the two save versions give the same outcome and store; in the service this holds only for uuid-shaped ids, since the older lookup raises on any other id |
| EffortDelete.DeleteEffort | backend/service_temp.py:43-86 | Delete succeeds iff the text is a well-formed uuid and some effort carries it; otherwise nothing changes |
| EffortDelete.DeleteRemovesEffortAndProfiles | backend/service_temp.py:72-86 | The effort is removed with the others kept in order, no effort with that uuid remains, and each aspect loses exactly the removed effort's profile row |
| EffortDelete.DeleteKeepsValid | backend/service_temp.py:72-86 | Delete keeps the store consistent: no profile row is left without its owner |
| EffortDelete.WellFormedUuid | backend/service_temp.py:57-63 | The well-formedness test applied before the lookup: with braces trimmed from both ends and hyphens removed, 32 hex digits remain (the core of what `uuid.UUID` accepts) |
| CatalogStore.Store.CreateEffortRelation | backend/service_temp.py:159-167 | The in-place create leaves the store as the specification of profile creation says |
| CatalogStore.Store.HardDeleteProfile | backend/service_temp.py:75-84 | Hard-deleting a linked profile removes exactly that row from its aspect's table, or nothing when no profile is linked; efforts, programs and the key counter are unchanged |
| CatalogStore.Store.CreateProfile | backend/service_temp.py:340-362 | The create path's guard: the in-place create leaves the profiles and reference `CreatePathProfile` describes, nothing else changed |
| CatalogStore.Store.ManageLocalProfile | backend/service_temp.py:243-283 | The in-place reconciliation leaves the profiles as the profile rule says and nothing else changed |
| CatalogStore.Store.UpdateAt | backend/service_temp.py:286-335 | The in-place update leaves exactly the state `UpdateEffort` describes |
| CatalogStore.Store.CreateNew | backend/service_temp.py:337-383 | The in-place create leaves exactly the state `CreateEffort` describes |
| CatalogStore.Store.SaveForProgram | backend/service_temp.py:236-383 | The update-or-create branch, step by step, ends with the outcome and state `SaveResolved` describes |
| CatalogStore.Store.SetLinks | backend/service_temp.py:387-445 | The in-place link update leaves exactly the state `ApplyLinks` describes |
| CatalogStore.Store.SaveEffortForProgram | backend/service_temp.py:169-445 | The newer save, step by step, ends with the outcome and state `SaveEffort` describes |
| CatalogStore.Store.LegacySaveEffortForProgram | service_temp.py:130-407 | The older save, step by step, ends with the outcome and state `LegacySaveEffort` describes |
| CatalogStore.Store.DeleteEffortByUuid | backend/service_temp.py:43-86 | Delete, profile by profile and then the effort, ends with the result and state `DeleteEffort` describes |

## Left out

- Database queries, SQL, `select_related`, and how Django turns a query into rows. Rows are sequences in storage-key order.
- The TTL caches on the program-list helpers. The copy the newer tree builder takes so that it does not mutate the cached list is implicit, because the model works on values.
- Transactions and rollback. Each operation is modelled as if it completes.
- Logging, DTO conversion and the descriptive program fields (description, status, location, leaders, type, value). The tree nodes carry the program row itself.
- `get_efforts_for_program`, `get_all_programs`, `get_program_by_uuid` and `get_program_by_id`: thin reads over the same current-row selection, left out.
- VersionResolver.CurrentRows: the ordering by `program_id` is not modelled, so the rows come in storage order. The older query orders by `program_id, -date` only, so which row it keeps among same-date versions is up to the database; the model uses the newer tie-break (highest storage key) for both versions.
- UpsertProperties.LegacyAgreesWithoutKeyMatch: the model's older lookup falls back to the business id on every id with no primary-key match. In the service, `filter(id=id)` raises on an id that is not uuid-shaped, so the older save aborts there and the agreement with the newer save holds only for uuid-shaped ids.
- EffortDelete.WellFormedUuid: accepts only what remains 32 hex digits after trimming braces and removing hyphens. Python's `uuid.UUID` also accepts `urn:` and `uuid:` prefixes, surrounding whitespace, and whatever `int(s, 16)` accepts (a leading `+`, `_` separators). The model rejects those texts, where the service would go on to the lookup.
- EffortDelete.DeleteEffort: a uuid is accepted when, with braces stripped and hyphens removed, it is 32 hex digits. The `urn:uuid:` prefix and other leniencies of Python's `uuid.UUID` are not modelled. Uuids are compared as text, not as 128-bit values.
- EffortDelete.DeleteRemovesEffortAndProfiles: what the database does to other efforts whose parent or links pointed at the deleted effort is not modelled. Those references are left unchanged, because the model definitions (on-delete behaviour) are not part of this model.
- Query errors. The effort model's definition is not part of this model, so the uuid column is compared as text. If the column is a UUID field, Django raises on a filter value that is not a uuid. The parent lookup catches that error. The effort lookup and the link lookups do not catch it, so in the service the save would abort. In the model each of these lookups simply finds no match.
- EffortUpsert.LegacyProgramLookup: for an id that is not a valid primary-key value, Django's `filter(id=id)` raises instead of matching nothing, so the older service aborts before its business-id fallback. The model treats this case as no primary-key match and falls back.
- Program primary key: the program row's primary key (a uuid, by the service's own comments) is modelled by two fields: `key`, a number that stands for it wherever rows are ordered or referenced, and `keyText`, the text a query on `id` compares with. The model does not require `keyText` to be a well-formed uuid or to differ between rows; a lookup takes the first row whose `keyText` matches.
- Program active flag: `active` is a field of each version row. In the service the flag belongs to the related program, so all versions of one `program_id` share it; the model allows them to differ. When all versions of a program carry the same flag, as in the service, the model selects the same rows.
- EffortUpsert.SaveEffort: the payload is checked before the program lookup, as the code does.
- EffortUpsert.CreateEffort: the new effort's uuid is a parameter (`freshUuid`), standing for the database default. The payload's uuid is not used. The new effort starts with no links until the linked list is applied.
- LinkedEfforts.ExtractIdentifier: only scalar values (text, numbers, booleans, none) are modelled inside a linked item. `str()` of other objects and of floats is not.
- LinkedEfforts.IsSpace: `strip()` and `isdigit()` are modelled on ASCII whitespace and ASCII digits only, not on the full Unicode classes.
- Profile rows are attribute maps. `model_dump()` and Pydantic validation are not modelled.
- Effort and program instances are positions in sequences and keys in maps, not shared objects.
