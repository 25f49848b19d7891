/**
  The API endpoints over the store, each as a decision between its outcomes: the batch
  create, the soft-deleting destroy, the restore endpoint, the statistics endpoint and the
  type list's query filters. Only the outcome kinds are kept, not the HTTP responses.
*/
module Views {
  import opened Wrappers
  import opened Models
  import opened Serializers

  // ---------------------------------------------------------------------------
  // EquipmentListCreateView.create
  // ---------------------------------------------------------------------------

  datatype CreateOutcome =
    | Created(ids: seq<RowId>)     // 201, with the new rows
    | Rejected(error: IntakeError) // 400 from `is_valid(raise_exception=True)`
    | SaveFailed(failure: StoreError) // 400 "error while creating", from the caught exception

  /**
    `EquipmentListCreateView.create`: validate the request, then save it; a failure of the
    save is caught and reported, and the atomic insert leaves no row behind.
  */
  method CreateEquipment(store: EquipmentStore, t: TypeId, serials: seq<string>, note: Option<string>)
    returns (outcome: CreateOutcome)
    requires store.Valid()
    modifies store
    ensures store.Valid() && store.types == old(store.types)
    ensures outcome.Rejected? <==> IntakeVerdict(old(store.types), old(store.rows), t, serials).Err?
    ensures outcome.Rejected? ==> outcome.error == IntakeVerdict(old(store.types), old(store.rows), t, serials).error
    ensures outcome.SaveFailed? <==>
      IntakeVerdict(old(store.types), old(store.rows), t, serials).Ok? &&
      exists i :: 0 <= i < |serials| && PairExists(old(store.rows), t, serials[i], DeletedOnly)
    ensures !outcome.Created? ==> store.rows == old(store.rows)
    ensures outcome.Created? ==>
      && |outcome.ids| == |serials|
      && store.rows == Appended(old(store.rows), old(store.nextRowId), NewRecords(t, serials, NoteOrDefault(note)))
      && forall i :: 0 <= i < |serials| ==>
           outcome.ids[i] !in old(store.rows) && outcome.ids[i] in store.rows &&
           store.rows[outcome.ids[i]] == Equipment(t, serials[i], Some(NoteOrDefault(note)), None)
  {
    var verdict := ValidateIntake(store, t, serials);
    if verdict.Err? {
      return Rejected(verdict.error);
    }
    IntakeVerdictMeaning(store.types, store.rows, t, serials);
    CommitFailsOnlyOnDeletedHolder(store.types[t].serialMask, store.rows, t, serials, NoteOrDefault(note));
    ScreenAllOrNothing(store.types[t].serialMask, store.rows, t, serials);
    var saved := Create(store, t, verdict.value, note);
    match saved {
      case Ok(ids) => outcome := Created(ids);
      case Err(e) => outcome := SaveFailed(e);
    }
  }

  // ---------------------------------------------------------------------------
  // EquipmentDetailView.destroy
  // ---------------------------------------------------------------------------

  /** `get_object` on a queryset of the given visibility: the row, or None for a 404. */
  function Lookup(rows: map<RowId, Equipment>, id: RowId, v: Visibility): (r: Option<Equipment>)
    ensures r.Some? <==> id in View(rows, v)
    ensures r.Some? ==> r.value == rows[id]
  {
    if id in rows && Visible(rows[id], v) then Some(rows[id]) else None
  }

  datatype DestroyOutcome =
    | DestroyNotFound          // 404 from `get_object`
    | AlreadyDeleted           // 400 "already deleted"
    | Destroyed(deletedAt: Time) // 200, with the new stamp

  /**
    The decision of `destroy`: the row is looked up through the detail view's queryset,
    which is `Equipment.objects`, so only active rows are found.
  */
  function DestroyDecision(rows: map<RowId, Equipment>, id: RowId, now: Time): (r: DestroyOutcome)
    ensures r != AlreadyDeleted
    ensures r.Destroyed? ==> r.deletedAt == now && id in rows
  {
    match Lookup(rows, id, ActiveOnly)
    case None => DestroyNotFound
    case Some(instance) => if IsDeleted(instance) then AlreadyDeleted else Destroyed(now)
  }

  /**
    An absent id and a soft-deleted id both give not-found; "already deleted" is never
    reached, since the lookup cannot return a deleted row; an active row is deleted now.
  */
  lemma DestroyOutcomes(rows: map<RowId, Equipment>, id: RowId, now: Time)
    ensures DestroyDecision(rows, id, now) != AlreadyDeleted
    ensures DestroyDecision(rows, id, now) == DestroyNotFound <==> id !in rows || IsDeleted(rows[id])
    ensures DestroyDecision(rows, id, now) == Destroyed(now) <==> id in rows && !IsDeleted(rows[id])
  {
  }

  /** `EquipmentDetailView.destroy`: soft-deletes an active row and changes nothing else. */
  method Destroy(store: EquipmentStore, id: RowId, now: Time) returns (outcome: DestroyOutcome)
    requires store.Valid()
    modifies store
    ensures store.Valid() && store.types == old(store.types)
    ensures outcome == DestroyDecision(old(store.rows), id, now)
    ensures outcome.Destroyed? ==>
      && id in old(store.rows)
      && store.rows == old(store.rows)[id := SoftDeleted(old(store.rows)[id], now)]
      && IsDeleted(store.rows[id]) && store.rows[id].deletedAt == Some(outcome.deletedAt)
    ensures !outcome.Destroyed? ==> store.rows == old(store.rows)
  {
    outcome := DestroyDecision(store.rows, id, now);
    if outcome.Destroyed? {
      store.SoftDelete(id, now);
    }
  }

  // ---------------------------------------------------------------------------
  // restore_equipment
  // ---------------------------------------------------------------------------

  datatype RestoreOutcome =
    | RestoreNotFound            // 404 "not found"
    | NotDeleted                 // 400 "not deleted"
    | RestoredRow(row: Equipment) // 200, with the restored row

  /** `restore_equipment`: looks the id up among all rows, deleted or not. */
  method RestoreEquipment(store: EquipmentStore, id: RowId) returns (outcome: RestoreOutcome)
    requires store.Valid()
    modifies store
    ensures store.Valid() && store.types == old(store.types)
    ensures outcome == RestoreNotFound <==> id !in old(store.rows)
    ensures outcome == NotDeleted <==> id in old(store.rows) && !IsDeleted(old(store.rows)[id])
    ensures outcome.RestoredRow? <==> id in old(store.rows) && IsDeleted(old(store.rows)[id])
    ensures outcome.RestoredRow? ==>
      && store.rows == old(store.rows)[id := Restored(old(store.rows)[id])]
      && outcome.row == store.rows[id] && !IsDeleted(outcome.row)
      && SameContent(outcome.row, old(store.rows)[id])
    ensures !outcome.RestoredRow? ==> store.rows == old(store.rows)
  {
    var found := Lookup(store.rows, id, All);
    if found.None? {
      return RestoreNotFound;
    }
    var equipment := found.value;
    if !IsDeleted(equipment) {
      return NotDeleted;
    }
    store.Restore(id);
    outcome := RestoredRow(store.rows[id]);
  }

  /** Destroying an active row and then restoring it gives back the row as it was. */
  lemma DestroyThenRestore(rows: map<RowId, Equipment>, id: RowId, now: Time)
    requires DestroyDecision(rows, id, now).Destroyed?
    ensures var deleted := rows[id := SoftDeleted(rows[id], now)];
      && id in deleted && IsDeleted(deleted[id])
      && deleted[id := Restored(deleted[id])] == rows
  {
    var deleted := rows[id := SoftDeleted(rows[id], now)];
    SoftDeleteRestoreRoundTrip(rows[id], now);
    assert deleted[id := Restored(deleted[id])] == rows;
  }

  // ---------------------------------------------------------------------------
  // equipment_stats
  // ---------------------------------------------------------------------------

  datatype TypeStat = TypeStat(id: TypeId, name: string, equipmentCount: nat, serialMask: string)

  datatype Stats = Stats(
    totalEquipment: nat,
    totalDeleted: nat,
    totalActive: nat,
    totalTypes: nat,
    typeStatistics: seq<TypeStat>)

  /** `listing` enumerates the type table: every type once, in the queryset's order. */
  predicate EnumeratesTypes(types: map<TypeId, EquipmentType>, listing: seq<TypeId>)
  {
    && (forall t :: t in listing ==> t in types)
    && (forall t :: t in types ==> t in listing)
    && (forall i, j :: 0 <= i < j < |listing| ==> listing[i] != listing[j])
  }

  /**
    `equipment_stats`: the active count, the deleted count, the number of types, and one
    entry per type (in the order of `listing`) with that type's active count.
  */
  method EquipmentStats(store: EquipmentStore, listing: seq<TypeId>) returns (stats: Stats)
    requires store.Valid() && EnumeratesTypes(store.types, listing)
    ensures stats.totalEquipment == |View(store.rows, ActiveOnly)|
    ensures stats.totalDeleted == |View(store.rows, DeletedOnly)|
    ensures stats.totalActive == stats.totalEquipment
    ensures stats.totalTypes == |store.types|
    ensures |stats.typeStatistics| == |listing|
    ensures forall i :: 0 <= i < |listing| ==>
      stats.typeStatistics[i] == TypeStat(listing[i], store.types[listing[i]].name,
                                          EquipmentCount(store.rows, listing[i]), store.types[listing[i]].serialMask)
  {
    var totalEquipment := |View(store.rows, ActiveOnly)|;
    var totalDeleted := |View(store.rows, DeletedOnly)|;
    var totalTypes := |store.types.Keys|;
    var typeStats := [];
    for i := 0 to |listing|
      invariant |typeStats| == i
      invariant forall k :: 0 <= k < i ==>
        typeStats[k] == TypeStat(listing[k], store.types[listing[k]].name,
                                 EquipmentCount(store.rows, listing[k]), store.types[listing[k]].serialMask)
    {
      var equipmentType := store.types[listing[i]];
      typeStats := typeStats + [TypeStat(listing[i], equipmentType.name, EquipmentCount(store.rows, listing[i]), equipmentType.serialMask)];
    }
    stats := Stats(totalEquipment, totalDeleted, totalEquipment, totalTypes, typeStatistics := typeStats);
  }

  function SumCounts(typeStatistics: seq<TypeStat>): nat
  {
    if typeStatistics == [] then 0
    else SumCounts(typeStatistics[..|typeStatistics| - 1]) + typeStatistics[|typeStatistics| - 1].equipmentCount
  }

  /** The active rows whose type is one of `ts`. */
  function ActiveOfTypes(rows: map<RowId, Equipment>, ts: set<TypeId>): set<RowId>
  {
    set id | id in rows && !IsDeleted(rows[id]) && rows[id].equipmentType in ts
  }

  /** The per-type counts of distinct types add up to the active rows of those types. */
  lemma {:induction false} SumCountsOfTypes(rows: map<RowId, Equipment>, listing: seq<TypeId>, typeStatistics: seq<TypeStat>)
    requires |typeStatistics| == |listing|
    requires forall i :: 0 <= i < |listing| ==> typeStatistics[i].equipmentCount == EquipmentCount(rows, listing[i])
    requires forall i, j :: 0 <= i < j < |listing| ==> listing[i] != listing[j]
    ensures SumCounts(typeStatistics) == |ActiveOfTypes(rows, set t | t in listing)|
  {
    if listing == [] {
      assert ActiveOfTypes(rows, set t | t in listing) == {};
    } else {
      var n := |listing| - 1;
      var init, last := listing[..n], listing[n];
      SumCountsOfTypes(rows, init, typeStatistics[..n]);
      assert typeStatistics[..n] == typeStatistics[..|typeStatistics| - 1];
      var before := ActiveOfTypes(rows, set t | t in init);
      assert ActiveOfTypes(rows, set t | t in listing) == before + ActiveOfType(rows, last) by {
        assert forall t :: t in listing <==> t in init || t == last;
      }
      assert before * ActiveOfType(rows, last) == {} by {
        assert last !in init;
      }
    }
  }

  /**
    The totals of the statistics are consistent: active plus deleted is every row, and the
    per-type counts add up to the active total.
  */
  lemma StatsAreConsistent(types: map<TypeId, EquipmentType>, rows: map<RowId, Equipment>, listing: seq<TypeId>, stats: Stats)
    requires forall id :: id in rows ==> rows[id].equipmentType in types
    requires EnumeratesTypes(types, listing)
    requires stats.totalEquipment == |View(rows, ActiveOnly)| && stats.totalDeleted == |View(rows, DeletedOnly)|
    requires |stats.typeStatistics| == |listing|
    requires forall i :: 0 <= i < |listing| ==> stats.typeStatistics[i].equipmentCount == EquipmentCount(rows, listing[i])
    ensures stats.totalEquipment + stats.totalDeleted == |rows|
    ensures SumCounts(stats.typeStatistics) == stats.totalEquipment
  {
    ViewsPartition(rows);
    SumCountsOfTypes(rows, listing, stats.typeStatistics);
    assert ActiveOfTypes(rows, set t | t in listing) == View(rows, ActiveOnly);
  }

  // ---------------------------------------------------------------------------
  // EquipmentTypeViewSet.get_queryset
  // ---------------------------------------------------------------------------

  /** A query parameter filters only when it is present and not empty. */
  predicate Filters(param: Option<string>)
  {
    param.Some? && param.value != ""
  }

  /** The type list's queryset: exact-match filters on `name` and `serial_mask`. */
  function TypeQuerySet(types: map<TypeId, EquipmentType>, name: Option<string>, serialMask: Option<string>): (r: set<TypeId>)
    ensures r <= types.Keys
  {
    var byName := if Filters(name) then set t | t in types && types[t].name == name.value else types.Keys;
    if Filters(serialMask) then set t | t in byName && types[t].serialMask == serialMask.value else byName
  }

  /**
    A type is listed exactly when it matches every given, non-empty parameter: the filters
    combine with AND, and an absent or empty parameter filters nothing.
  */
  lemma TypeQuerySetMembers(types: map<TypeId, EquipmentType>, name: Option<string>, serialMask: Option<string>, t: TypeId)
    ensures t in TypeQuerySet(types, name, serialMask) <==>
      && t in types
      && (name.None? || name.value == "" || types[t].name == name.value)
      && (serialMask.None? || serialMask.value == "" || types[t].serialMask == serialMask.value)
  {
  }

  /** With no effective parameter every type is listed, and the two filters intersect. */
  lemma TypeQuerySetCombines(types: map<TypeId, EquipmentType>, name: Option<string>, serialMask: Option<string>)
    ensures TypeQuerySet(types, None, None) == types.Keys
    ensures TypeQuerySet(types, Some(""), Some("")) == types.Keys
    ensures TypeQuerySet(types, name, serialMask) == TypeQuerySet(types, name, None) * TypeQuerySet(types, None, serialMask)
  {
  }
}
