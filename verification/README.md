# Equipment inventory: a Dafny model

This project models the domain core of a telecom equipment inventory, a Django and DRF
service. It covers:

- **Equipment types**, each with a serial-number mask.
- **Serial-number validation.** A mask compiles to an anchored regular expression, which is
  applied with Python's `re.match`.
- **Equipment rows with soft delete.** A row carries an optional `deleted_at` stamp. Three
  managers give three views: active only, deleted only and all rows.
- **The uniqueness constraint** on (type, serial), which covers rows in every state.
- **The cascade** from a type to its rows.
- **All-or-nothing batch intake**: validate every serial, then bulk-insert them atomically.
- **The single-record create and update checks.**
- **The lifecycle endpoints**: destroy (a soft delete), restore, statistics, and the type
  list's filters.
- **The admin's bulk actions and list helpers.**
- **The test-data factories**, including the generator of serials that fit a mask.

## Modules

- `wrappers.dfy`: `Option` and `Result`.
- `serial_mask.dfy` (`SerialMask`): the mask compiler `get_regex_pattern` and the validator
  `validate_serial_number`. They are specified over an abstract sequence of character classes
  (`Compile`). The concrete pattern text is rendered from that sequence (`Render`,
  `PatternText`), and the rendering is proved injective.
- `models.dfy` (`Models`): the records, the managers as a `Visibility` parameter (`View`),
  `soft_delete`, `restore` and `is_deleted`, the `unique_together` constraint (`UniquePairs`)
  and the cascade. `EquipmentStore` is a class that holds the type table and the equipment
  table as maps. Its `Valid` keeps the uniqueness constraint and the foreign key.
- `serializers.dfy` (`Serializers`): the batch intake as the loop `ValidateSerials`, specified
  by the fold `Screen`, with its field checks. It also holds the atomic `Create`, both
  single-record validators, `get_equipment_count` and the type serializer's field limits.
- `views.dfy` (`Views`): the create view, `destroy`, `restore_equipment`, `equipment_stats`
  and the type list's `get_queryset`. Each one reduces to a choice between its outcome kinds.
- `admin.dfy` (`Admin`): `soft_delete_selected`, `restore_selected`, `note_preview`, the
  deletion flag and the admin queryset.
- `factories.dfy` (`Factories`): `generate_valid_serial_for_mask`, get-or-create of the
  default types, `create_multiple_for_type` and `create_test_dataset`.

Some inputs come from outside the program: the clock (`timezone.now`), the random draws
(`random.choice`, Faker) and the order of the type listing. The model takes all of these as
parameters: `now: Time`, `picks: seq<nat>`, `Draw` and `listing`.

Two properties of the code shape the model:

- **Duplicate pre-checks.** Every pre-check queries `Equipment.objects`, which sees only active
  rows: the batch intake, `EquipmentSerializer.validate` and `EquipmentUpdateSerializer.validate`.
  The `unique_together` constraint (equipment/models.py:152) covers every row. So a serial held
  only by a soft-deleted row of the type passes validation, and the bulk insert then fails on
  the constraint. The create view reports this as its generic "error while creating" outcome.
  `Serializers.CommitFailsOnlyOnDeletedHolder`,
  `Serializers.DeletedSerialPassesValidationFailsCommit` and `Views.CreateEquipment` state
  this behaviour exactly.
- **Statistics.** `total_active` is `total_equipment`, the active-manager count
  (equipment/views.py:158-175). `Views.StatsAreConsistent` proves that this count plus
  `total_deleted` is the number of all rows.

## Model

| member | source | states |
|---|---|---|
| SerialMask.ValidateSerialNumber | equipment/models.py:61-72 | A validated serial has the mask's length, or one more for a trailing newline. Its meaning is given by `ValidateIffFits`, `TrailingNewlineAccepted` and `ValidatedIsFitPlusOptionalNewline`. |
| SerialMask.GetRegexPattern | equipment/models.py:35-59 | The loop appends one unit per mask character, in mask order (N→`[0-9]`, A→`[A-Z]`, a→`[a-z]`, X→`[A-Z0-9]`, Z→`[-_@]`, any other character escaped). The result is that text between `^` and `$`. |
| SerialMask.Escape | equipment/models.py:57-58 | `re.escape` of one character is the character itself, or a backslash followed by it. Either way it ends with the character. |
| SerialMask.FirstUnitDecodes | equipment/models.py:45-58 | The text of each unit can be read back from the start of any string it begins, so unit texts form a prefix code. |
| SerialMask.UnitTextPrefixFree | equipment/models.py:45-58 | If two unit texts, each followed by a remainder, give the same string, the units and the remainders are equal. |
| SerialMask.RenderInjective | equipment/models.py:45-58 | Two class sequences that render to the same pattern text are equal. |
| SerialMask.PatternTextDeterminesClasses | equipment/models.py:35-59 | Two masks produce the same pattern text exactly when they compile to the same classes. |
| SerialMask.ValidateIffFits | equipment/models.py:61-72 | Unless the serial is one character longer than the mask and ends in a newline, validation holds exactly when the lengths agree and every position lies in its mask character's class. Too short and too long both fail. |
| SerialMask.TrailingNewlineAccepted | equipment/models.py:59-72 | Python's `$` quirk: a serial that fits the mask still validates with one `\n` appended, although it no longer fits. |
| SerialMask.WrongLengthRejected | equipment/models.py:61-72 | A serial of any other length fails, unless its only extra character is one trailing newline. |
| SerialMask.ValidatedIsFitPlusOptionalNewline | equipment/models.py:61-72 | A serial that validates is a fitting serial, possibly followed by one newline. |
| SerialMask.ClassesAreCaseSensitive | equipment/models.py:47-56 | In a validated serial: an `A` position holds an uppercase letter, never a lowercase one. An `a` position holds the reverse, an `N` position a digit, an `X` position no lowercase letter, and a `Z` position only `-`, `_` or `@`. |
| SerialMask.LiteralMatchesOnlyItself | equipment/models.py:57-58 | A literal mask character, regex-special or not, matches only itself. |
| SerialMask.PatternTextDigits | equipment/tests/test_models.py:26-30 | The mask `NNN` compiles to `^[0-9][0-9][0-9]$`. |
| SerialMask.PatternTextMixed | equipment/tests/test_models.py:56-60 | The mask `NXAaZ` compiles to `^[0-9][A-Z0-9][A-Z][a-z][-_@]$`. |
| SerialMask.PatternTextLiterals | equipment/tests/test_models.py:62-66 | The mask `AA-BB.CC` compiles to `^[A-Z][A-Z]\-BB\.CC$`. |
| SerialMask.ValidSerialExamples | equipment/tests/test_models.py:68-78 | `1ABCDEF2GH`, `AABCDEF1IJ` and `9ZYXWVU8KL` pass the mask `XXAAAAAXAA`. |
| SerialMask.InvalidSerialExamples | equipment/tests/test_models.py:80-92 | `aaBCDEF2GH`, `1ABCDEF2g`, `1ABCDEF2`, `1ABCDEF2GHI` and `1abcdef2GH` fail the mask `XXAAAAAXAA`. |
| SerialMask.SpecialCharExamples | equipment/tests/test_models.py:94-105 | Under the mask `AAZAA`, `AA-AA`, `AA_AA` and `AA@AA` pass and `AA#AA`, `AA*AA` and `AA AA` fail. |
| Models.IsDeleted | equipment/models.py:178-186 | A row is deleted exactly when it carries a stamp. It has no contract of its own. `ViewsPartition` and `Admin.AdminDeletedFlag` state what it separates. |
| Models.View | equipment/models.py:75-108 | A manager's view holds only ids of the table, and the all view holds every id. `ViewsPartition` and `PairExistsByState` state how the three views relate. |
| Models.ViewsPartition | equipment/models.py:75-108 | The active view holds exactly the rows with no stamp and the deleted view exactly the stamped rows. They are disjoint, their union is the all view, and their sizes add up to the number of rows. |
| Models.PairExistsByState | equipment/models.py:80-108 | Some row holds a pair exactly when an active row or a deleted row holds it. |
| Models.DeletedHolderExcludesActive | equipment/models.py:152 | Under the uniqueness constraint, a pair held by a deleted row is held by no active row, yet it is still taken in the all view. |
| Models.SoftDeleted | equipment/models.py:163-169 | `soft_delete` stamps the row with the current time, so it becomes deleted. Type, serial and note are unchanged. |
| Models.Restored | equipment/models.py:171-176 | `restore` clears the stamp, so the row becomes active. Type, serial and note are unchanged. |
| Models.SoftDeleteRestoreRoundTrip | equipment/models.py:163-176 | Restoring a soft-deleted active row gives back exactly the original row. |
| Models.Cascade | equipment/models.py:118-123 | After deleting a type, the surviving rows are exactly the rows of other types, unchanged. |
| Models.CascadeRemovesAllStates | equipment/models.py:118-123 | After the cascade no view holds any pair of the deleted type, and the uniqueness constraint is kept. |
| Models.AppendedAt | equipment/serializers.py:187 | A bulk insert puts record i under id start + i, adds no other ids and keeps every existing row. |
| Models.AppendedKeepsUnique | equipment/models.py:152 | Appending records that do not conflict keeps the uniqueness constraint. |
| Models.EquipmentStore.CreateType | equipment/models.py:6-22 | Creating a type adds it under a fresh id and leaves the equipment rows as they were. |
| Models.EquipmentStore.DeleteType | equipment/models.py:118-123 | Deleting a type removes the type and cascades to its rows. |
| Models.EquipmentStore.Insert | equipment/models.py:152 | A save fails with an integrity error exactly when the type is missing or any row, deleted or not, holds the pair. On failure nothing changes; on success the row sits under a fresh id. |
| Models.EquipmentStore.BulkInsert | equipment/serializers.py:187 | A bulk insert fails exactly when some record's type is missing or the batch conflicts. On failure nothing changes. On success the records land under fresh, increasing ids, in order. |
| Models.EquipmentStore.SoftDelete | equipment/models.py:163-169 | Soft-deleting a row replaces only that row with its stamped version. |
| Models.EquipmentStore.Restore | equipment/models.py:171-176 | Restoring a row replaces only that row with its unstamped version. |
| Serializers.ValidateSerials | equipment/serializers.py:134-158 | The validation loop builds exactly the error list and the accepted list of the fold `Screen`. |
| Serializers.ScreenPartitionsInput | equipment/serializers.py:152-158 | Every input serial lands in exactly one list. Error serials plus accepted serials equal the input as a multiset, and the error count plus the accepted count equals the input length. |
| Serializers.ScreenStep | equipment/serializers.py:152-158 | Each serial adds exactly one entry, to one of the two lists. |
| Serializers.ScreenAcceptsOnlyClean | equipment/serializers.py:137-158 | Accepted serials match the mask, are held by no active row and are pairwise distinct. |
| Serializers.ScreenReasonsAreExact | equipment/serializers.py:137-150 | Each error entry has at least one reason, in the fixed order mask, database, request. "Mask" and "database" appear exactly when they apply. "Duplicate" appears only for a serial that is in the accepted list. |
| Serializers.ScreenAllOrNothing | equipment/serializers.py:160-167 | There are no errors exactly when the accepted list is the whole input, in order. |
| Serializers.CleanSerialAccepted | equipment/serializers.py:137-158 | A serial that matches the mask and is held by no active row is accepted. |
| Serializers.CleanSerialAcceptedOnce | equipment/serializers.py:149-158 | A clean serial is accepted exactly once, and every other occurrence is reported as an error, counted with repetition. |
| Serializers.ScreenAcceptsFromInput | equipment/serializers.py:137-158 | Every accepted serial comes from the input. |
| Serializers.ScreenPrefix | equipment/serializers.py:137-158 | Screening a prefix of the input gives a prefix of the error report and a prefix of the accepted list, so entries are made in input order and never revised. |
| Serializers.FirstCleanOccurrenceAccepted | equipment/serializers.py:149-158 | When the pass reaches the first occurrence of a clean serial, it appends that serial to the accepted list and leaves the report as it was. |
| Serializers.LaterCleanOccurrenceReported | equipment/serializers.py:137-158 | When the pass reaches a later occurrence of a clean serial, it appends an error entry whose only reason is "duplicate in request", and leaves the accepted list as it was. |
| Serializers.CleanDistinctInputAccepted | equipment/serializers.py:137-158 | A clean input without repeats is accepted whole, in order, with an empty report. |
| Serializers.RejectedSerialReportedPerOccurrence | equipment/serializers.py:137-156 | A serial that fails the mask or is held by an active row is reported once per occurrence, never as a duplicate. |
| Serializers.TooLongIndices | equipment/serializers.py:116-118 | The positions of serials longer than 100 characters, in increasing order. |
| Serializers.CheckSerialList | equipment/serializers.py:116-120 | The field passes exactly when the list is nonempty and every serial has at most 100 characters. The "empty" error is given exactly for the empty list. |
| Serializers.ValidateIntake | equipment/serializers.py:127-167 | Field errors come first, then the validation pass. The result is the verdict `IntakeVerdict` defines. |
| Serializers.IntakeVerdictMeaning | equipment/serializers.py:127-167 | An accepted request yields the input itself: nonempty, in order, distinct, within the limit, matching the mask and held by no active row. A report lists between 1 and n entries for n serials. Conversely, a nonempty, distinct, in-limit and clean input for an existing type yields exactly itself. |
| Serializers.NewRecords | equipment/serializers.py:174-185 | One unsaved active record per accepted serial, in order, all with the request's type and note. |
| Serializers.Create | equipment/serializers.py:169-188 | Inserts one active record per serial with the note or `''`. It fails exactly when the batch conflicts (or the type is gone), and then nothing is saved. |
| Serializers.CommitFailsOnlyOnDeletedHolder | equipment/serializers.py:143-146 | After a request passes validation, the insert fails exactly when a soft-deleted row of the type holds one of its serials. |
| Serializers.DeletedSerialPassesValidationFailsCommit | equipment/serializers.py:143-146 | A serial held only by a deleted row, and matching the mask, passes validation, yet its insert conflicts. |
| Serializers.ValidateEquipment | equipment/serializers.py:70-103 | Checks run only when the type and a nonempty serial are given, and the mask comes first. On create, a pair held by an active row is rejected. On update, the pair is checked only if it changed, and the record itself is excluded. |
| Serializers.UnchangedPairHeldByNoOther | equipment/serializers.py:91-94 | Under the constraint, a record's unchanged pair is held by no other row, so skipping the check loses nothing. |
| Serializers.ValidateUpdate | equipment/serializers.py:200-219 | Missing fields come from the record. It rejects a mask mismatch exactly when one exists. It reports "taken" exactly when the pair matches the mask and another active row holds it. |
| Serializers.UpdateAgreesWithEquipmentSerializer | equipment/serializers.py:191-219 | With both fields given, the update validator reaches the same verdict as the general validator on update. |
| Serializers.EquipmentCount | equipment/serializers.py:27-31 | The number of active rows of the type, read through the default manager. It has no contract of its own. `EquipmentCountAfterSoftDelete` and `Views.SumCountsOfTypes` state its properties. |
| Serializers.EquipmentCountAfterSoftDelete | equipment/serializers.py:27-31 | Soft-deleting an active row lowers its type's count by one and leaves every other type's count unchanged. |
| Serializers.TypeFieldErrors | equipment/models.py:13-22 | A type's name is too long exactly above 255 characters, and its mask exactly above 50. |
| Serializers.MaskLimitBoundsSerials | equipment/models.py:18-22 | A mask within its limit accepts only serials of at most 51 characters, within the serial limit of 100. |
| Views.CreateEquipment | equipment/views.py:44-68 | Rejected exactly when validation fails. The save fails exactly when a soft-deleted row holds an accepted serial, and then nothing is saved. Otherwise every serial is saved, in order. |
| Views.Lookup | equipment/views.py:95 | A lookup finds a row exactly when the id is in the queryset's view, and returns that row. |
| Views.DestroyDecision | equipment/views.py:91-100 | The decision is never "already deleted", and a deletion is stamped with `now` for an id of the table. `DestroyOutcomes` states when each outcome happens. |
| Views.DestroyOutcomes | equipment/views.py:91-100 | An absent id and a soft-deleted id both give not-found. "Already deleted" is never reached. An active row is deleted now. |
| Views.Destroy | equipment/views.py:91-107 | Follows that decision. On success only the target row changes, stamped with `now`, and the stamp is returned. Otherwise nothing changes. |
| Views.RestoreEquipment | equipment/views.py:180-205 | An absent id is not found, an active row is not deleted, and a deleted row is restored and returned unchanged in content. Only the restore changes the table. |
| Views.DestroyThenRestore | equipment/views.py:91-205 | Restoring a row right after destroying it gives back the original table. |
| Views.EquipmentStats | equipment/views.py:149-177 | `total_equipment` is the active count, `total_deleted` the deleted count, `total_active` equals `total_equipment`, and `total_types` is the number of types. There is one entry per type, in listing order, with its active count. |
| Views.SumCountsOfTypes | equipment/views.py:162-169 | The per-type counts of distinct types add up to the active rows of those types. |
| Views.StatsAreConsistent | equipment/views.py:158-177 | Active plus deleted is every row, and the per-type counts add up to the active total. |
| Views.TypeQuerySet | equipment/views.py:132-146 | The filtered list holds only types of the table. `TypeQuerySetMembers` and `TypeQuerySetCombines` state exactly which. |
| Views.TypeQuerySetMembers | equipment/views.py:132-146 | A type is listed exactly when it matches every given nonempty parameter. The filters combine with AND. |
| Views.TypeQuerySetCombines | equipment/views.py:136-146 | Absent or empty parameters list every type, and the two-parameter result is the intersection of the name-only and mask-only results. |
| Admin.AdminQuerySet | equipment/admin.py:80-84 | The admin lists every row, deleted or not. |
| Admin.AdminDeletedFlag | equipment/admin.py:71-75 | The admin flag is set exactly when the row has a stamp, which is exactly when the deleted-only view holds it. |
| Admin.NotePreview | equipment/admin.py:61-67 | `-` for no note or an empty one, the note itself up to 50 characters, and otherwise its first 50 characters followed by `...`. |
| Admin.NotePreviewIsShortPrefix | equipment/admin.py:61-67 | A preview is at most 53 characters and starts like the note. |
| Admin.AfterSoftDelete | equipment/admin.py:88-98 | After the action, the table has the same ids and every selected row is deleted. |
| Admin.AfterRestore | equipment/admin.py:102-112 | After the action, the table has the same ids and every selected row is active. |
| Admin.SoftDeleteSelected | equipment/admin.py:88-98 | Stamps each selected active row, leaves rows already deleted with their old stamp, and touches nothing else. The count is the number of selected active rows. |
| Admin.RestoreSelected | equipment/admin.py:102-112 | Restores each selected deleted row and leaves active rows as they are. The count is the number of selected deleted rows. |
| Admin.SoftDeleteSelectedMovesCount | equipment/admin.py:88-98 | The deleted view grows, and the active view shrinks, by exactly the counted rows. |
| Admin.RestoreSelectedMovesCount | equipment/admin.py:102-112 | The active view grows, and the deleted view shrinks, by exactly the counted rows. |
| Admin.SoftDeleteThenRestoreSelected | equipment/admin.py:88-112 | On a selection of active rows, soft-deleting and then restoring gives back the original table. |
| Factories.GeneratedCharInClass | tests/factories.py:84-96 | Whatever is drawn, the emitted character lies in its mask character's class, and a literal is copied. |
| Factories.GeneratedCharCoversClass | tests/factories.py:84-96 | Every character of a mask character's class can be drawn. |
| Factories.UpperOrDigitCovered | tests/factories.py:91-92 | The `X` alphabet (uppercase, then digits) contains every uppercase letter and digit. |
| Factories.GenerateValidSerialForMask | tests/factories.py:80-98 | The serial has the mask's length and draws each position from its class, copying literals. It always passes `validate_serial_number`. |
| Factories.GeneratedSerialValidates | tests/factories.py:80-98 | Round trip: for every stream of draws, the generated serial fits the mask and validates. |
| Factories.GeneratorReachesEveryFit | tests/factories.py:84-96 | Every serial that fits the mask is produced by some stream of draws. |
| Factories.MatchingAfterAdd | tests/factories.py:139-141 | Creating one default type leaves the `get` matches of every other default as they were, so the defaults are handled independently. |
| Factories.GetOrCreateType | tests/factories.py:140 | Two or more matches give MultipleObjectsReturned. One match is returned without change. No match creates the type. |
| Factories.CreateDefaultTypes | tests/factories.py:125-143 | On success the five defaults are returned in order, each present exactly once. When each already was, the type table is unchanged, so a second call creates nothing. Old types are kept. Every added type is a default, and on success every added type is among those returned. |
| Factories.FactoryRow | tests/factories.py:101-118 | A factory row has its type, its drawn note and its stamp, and its serial validates against the mask. |
| Factories.FactoryCreate | tests/factories.py:101-118 | Saving a factory row fails exactly when any row already holds its generated serial. |
| Factories.CollisionWithBatch | tests/factories.py:154-156 | During a batch, a serial is taken exactly when the table held it before the batch or an earlier row of the batch has it. |
| Factories.CreateMultipleForType | tests/factories.py:149-158 | Fails exactly when the batch conflicts with the table or with itself. Earlier rows are kept. On success there is one active factory row per draw. |
| Factories.FilterByStateMembers | tests/factories.py:184-185 | The filtered list holds exactly the listed rows in the requested state. |
| Factories.FilterByStatePartitions | tests/factories.py:184-185 | The active part and the deleted part together equal the whole list as a multiset. |
| Factories.FilterByStateAppend | tests/factories.py:184-185 | Filtering a concatenation filters each part. |
| Factories.FilterByStateUniform | tests/factories.py:184-185 | A list whose rows are all in one state filters to itself for that state and to nothing for the other. |
| Factories.CreateActiveRows | tests/factories.py:166-172 | Creates three active rows per default type, built from the draws in order. Existing rows are kept, and on success every new row is among those returned. |
| Factories.CreateDeletedRows | tests/factories.py:174-179 | Creates two deleted rows, of the first and the second type, with their stamps. Existing rows are kept, and on success every new row is among those returned. |
| Factories.DatasetSplit | tests/factories.py:179-185 | Splitting active rows followed by deleted rows gives back the two parts. |
| Factories.CreateTestDataset | tests/factories.py:160-185 | The default types, fifteen active rows, then two deleted rows. The active and deleted lists are exactly the two parts of the equipment list. Old rows and types are kept. Every added type is a default, and on success every added row and type is among those returned. |
| Factories.DatasetPartitions | tests/factories.py:160-185 | A dataset has 15 active rows, 3 per type, and 2 deleted rows of the first two types. The two lists partition the 17 rows. |

## Left out

- JWT authentication, the permission classes, the browser UI, URL routing, search,
  ordering, pagination and the management command are not part of this model. They are
  configuration of Django, DRF and django-filter, or I/O.
- HTTP status codes, JSON bodies and message texts are not modelled. Only the outcome
  kinds are kept, and the reason strings become `Reason` constructors.
- `created_at`, `updated_at` and every `ordering` are not modelled. `equipment_stats` takes the
  order of its type listing as the parameter `listing`.
- The regular-expression engine is replaced by `PyMatch`, which is what the compiled pattern
  decides. `re.escape` is modelled for Python's special set since 3.7.
- DRF field processing is not modelled. `CharField` trims whitespace and rejects blank entries
  before `validate` runs. The model starts after that step. It keeps only the list's
  `min_length` and the 100-character limit on each serial.
- Not modelled for the single-record serializers: DRF's own uniqueness validator for
  `unique_together`, the serial's field length check, and the update's save path. Only their
  `validate` methods are modelled.
- Concurrent writers and transaction internals are out of scope. Atomicity is "the table
  is unchanged unless the whole bulk insert succeeds".
- `Admin.SoftDeleteSelected`: every row stamped by one action gets the same `now`. The source
  reads the clock once per row.
- `Admin.SoftDeleteSelected` and `Admin.RestoreSelected` take the selection as distinct ids of
  rows in the table, which is what an admin queryset is.
- `Factories.GenerateValidSerialForMask`: `random.choice` becomes the draw `k`, which picks
  `alphabet[k % |alphabet|]`. A stream shorter than the mask draws 0 from then on.
- Factories: Faker's note text and deletion date are parameters (`Draw.note` and `stamps`).
  `UserFactory`, `SuperUserFactory` and the iterator defaults of `EquipmentTypeFactory` are not
  modelled.
- `Factories.CreateMultipleForType`: the row count is the number of draws passed.
  `Factories.CreateTestDataset` needs 17 draws and 2 stamps, one per row it creates.
- `Serializers.ValidateEquipment` and `Serializers.ValidateUpdate` take the type and the record
  as ids already present in the store. DRF resolves them to instances before `validate` runs.
- `__str__` of both models, the admin's `message_user` (the count is returned instead) and the
  admin's `equipment_count` column are not modelled. That column is the same count as
  `get_equipment_count`.
