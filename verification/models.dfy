/**
  The records of the inventory and the store that holds them: equipment types, equipment
  rows with their soft-delete stamp, the three model managers as visibility views, the
  (type, serial) uniqueness constraint over all rows and the cascade from a type to its rows.
*/
module Models {
  import opened Wrappers

  /** Field limits of the models (CharField max_length). */
  const NameMaxLength: nat := 255
  const MaskMaxLength: nat := 50
  const SerialMaxLength: nat := 100

  type TypeId = nat
  type RowId = nat

  /** A reading of the clock; the source takes it from `timezone.now()`. */
  type Time = nat

  datatype EquipmentType = EquipmentType(name: string, serialMask: string)

  /** One equipment row. `deletedAt` is None while the row is active. */
  datatype Equipment = Equipment(
    equipmentType: TypeId,
    serialNumber: string,
    note: Option<string>,
    deletedAt: Option<Time>)

  /** Failures the database reports. */
  datatype StoreError =
    | IntegrityError          // a unique or foreign-key constraint rejected a write
    | MultipleObjectsReturned // `get` found more than one row

  /** `Equipment.is_deleted`. */
  predicate IsDeleted(e: Equipment)
  {
    e.deletedAt.Some?
  }

  /**
    Which rows a query sees: `Equipment.objects` (active only), `deleted_objects` and
    `objects.deleted_only()` (deleted only), `all_objects` and `objects.with_deleted()` (all).
  */
  datatype Visibility = ActiveOnly | DeletedOnly | All

  predicate Visible(e: Equipment, v: Visibility)
  {
    match v
    case ActiveOnly => !IsDeleted(e)
    case DeletedOnly => IsDeleted(e)
    case All => true
  }

  /** The ids a manager's queryset returns. */
  function View(rows: map<RowId, Equipment>, v: Visibility): (r: set<RowId>)
    ensures r <= rows.Keys
    ensures v == All ==> r == rows.Keys
  {
    set id | id in rows && Visible(rows[id], v)
  }

  /**
    The active view holds exactly the rows with no deletion stamp, the deleted view exactly
    the stamped ones, and the all view is their disjoint union.
  */
  lemma ViewsPartition(rows: map<RowId, Equipment>)
    ensures forall id :: id in View(rows, ActiveOnly) <==> id in rows && rows[id].deletedAt.None?
    ensures forall id :: id in View(rows, DeletedOnly) <==> id in rows && rows[id].deletedAt.Some?
    ensures View(rows, All) == rows.Keys
    ensures View(rows, ActiveOnly) !! View(rows, DeletedOnly)
    ensures View(rows, ActiveOnly) + View(rows, DeletedOnly) == View(rows, All)
    ensures |View(rows, ActiveOnly)| + |View(rows, DeletedOnly)| == |rows|
  {
    var a, d := View(rows, ActiveOnly), View(rows, DeletedOnly);
    assert a + d == rows.Keys;
    assert |a + d| == |a| + |d| - |a * d|;
    assert a * d == {};
  }

  predicate SamePair(a: Equipment, b: Equipment)
  {
    a.equipmentType == b.equipmentType && a.serialNumber == b.serialNumber
  }

  /** `Model.objects.filter(equipment_type=t, serial_number=s).exists()` through a manager. */
  predicate PairExists(rows: map<RowId, Equipment>, t: TypeId, s: string, v: Visibility)
  {
    exists id :: id in rows && Visible(rows[id], v) && rows[id].equipmentType == t && rows[id].serialNumber == s
  }

  /** The same query with `.exclude(id=excluded)`: a row other than `excluded` holds the pair. */
  predicate PairExistsExcept(rows: map<RowId, Equipment>, t: TypeId, s: string, v: Visibility, excluded: RowId)
  {
    exists id :: id in rows && id != excluded && Visible(rows[id], v) && rows[id].equipmentType == t && rows[id].serialNumber == s
  }

  /** A pair is held by some row exactly when an active or a deleted row holds it. */
  lemma PairExistsByState(rows: map<RowId, Equipment>, t: TypeId, s: string)
    ensures PairExists(rows, t, s, All) <==> PairExists(rows, t, s, ActiveOnly) || PairExists(rows, t, s, DeletedOnly)
  {
    if PairExists(rows, t, s, All) {
      var id :| id in rows && rows[id].equipmentType == t && rows[id].serialNumber == s;
      assert Visible(rows[id], ActiveOnly) || Visible(rows[id], DeletedOnly);
    }
  }

  /** `unique_together = ('equipment_type', 'serial_number')`: at most one row per pair, whatever its state. */
  ghost predicate UniquePairs(rows: map<RowId, Equipment>)
  {
    forall i, j :: i in rows && j in rows && i != j ==> !SamePair(rows[i], rows[j])
  }

  /** Under the constraint, a pair held by a deleted row is held by no active row. */
  lemma DeletedHolderExcludesActive(rows: map<RowId, Equipment>, id: RowId)
    requires UniquePairs(rows) && id in rows && IsDeleted(rows[id])
    ensures !PairExists(rows, rows[id].equipmentType, rows[id].serialNumber, ActiveOnly)
    ensures PairExists(rows, rows[id].equipmentType, rows[id].serialNumber, All)
  {
    var e := rows[id];
    forall j | j in rows && SamePair(rows[j], e)
      ensures j == id
    {
    }
  }

  /** The same row with its content kept: type, serial and note. */
  predicate SameContent(a: Equipment, b: Equipment)
  {
    SamePair(a, b) && a.note == b.note
  }

  /** `Equipment.soft_delete`: stamps the row with the current time. */
  function SoftDeleted(e: Equipment, now: Time): (r: Equipment)
    ensures IsDeleted(r) && r.deletedAt == Some(now)
    ensures SameContent(r, e)
  {
    e.(deletedAt := Some(now))
  }

  /** `Equipment.restore`: clears the stamp. */
  function Restored(e: Equipment): (r: Equipment)
    ensures !IsDeleted(r)
    ensures SameContent(r, e)
  {
    e.(deletedAt := None)
  }

  /** Restoring a soft-deleted active row gives back the original row. */
  lemma SoftDeleteRestoreRoundTrip(e: Equipment, now: Time)
    requires !IsDeleted(e)
    ensures Restored(SoftDeleted(e, now)) == e
  {
  }

  /** The rows that survive deleting type `t` (`on_delete=CASCADE`). */
  function Cascade(rows: map<RowId, Equipment>, t: TypeId): (r: map<RowId, Equipment>)
    ensures forall id :: id in r <==> id in rows && rows[id].equipmentType != t
    ensures forall id :: id in r ==> r[id] == rows[id]
  {
    map id | id in rows && rows[id].equipmentType != t :: rows[id]
  }

  /** Deleting a type leaves no row of it in any view, soft-deleted rows included. */
  lemma CascadeRemovesAllStates(rows: map<RowId, Equipment>, t: TypeId, s: string, v: Visibility)
    ensures !PairExists(Cascade(rows, t), t, s, v)
    ensures UniquePairs(rows) ==> UniquePairs(Cascade(rows, t))
  {
  }

  /** The rows after a bulk insert that numbers `records` from `start` on. */
  function Appended(rows: map<RowId, Equipment>, start: nat, records: seq<Equipment>): map<RowId, Equipment>
  {
    rows + map k | k in IdRange(start, |records|) :: records[k - start]
  }

  /** The ids start, start + 1, ..., start + n - 1. */
  function IdRange(start: nat, n: nat): (r: set<RowId>)
    ensures forall k :: k in r <==> start <= k < start + n
  {
    if n == 0 then {} else IdRange(start, n - 1) + {start + n - 1}
  }

  /** Where each record lands, and which ids the insert adds. */
  lemma AppendedAt(rows: map<RowId, Equipment>, start: nat, records: seq<Equipment>)
    requires forall id :: id in rows ==> id < start
    ensures forall i :: 0 <= i < |records| ==>
      start + i in Appended(rows, start, records) && Appended(rows, start, records)[start + i] == records[i]
    ensures forall id :: id in Appended(rows, start, records) <==> id in rows || start <= id < start + |records|
    ensures forall id :: id in rows ==> Appended(rows, start, records)[id] == rows[id]
  {
    var r := Appended(rows, start, records);
    forall i | 0 <= i < |records|
      ensures start + i in r && r[start + i] == records[i]
    {
      assert start + i in IdRange(start, |records|);
      assert start + i !in rows;
    }
  }

  /** Some record's pair is already held by a row (in any state), or two records share a pair. */
  predicate Conflicts(rows: map<RowId, Equipment>, records: seq<Equipment>)
  {
    || (exists i :: 0 <= i < |records| && PairExists(rows, records[i].equipmentType, records[i].serialNumber, All))
    || (exists i, j :: 0 <= i < j < |records| && SamePair(records[i], records[j]))
  }

  lemma AppendedKeepsUnique(rows: map<RowId, Equipment>, start: nat, records: seq<Equipment>)
    requires UniquePairs(rows) && !Conflicts(rows, records)
    requires forall id :: id in rows ==> id < start
    ensures UniquePairs(Appended(rows, start, records))
  {
    var r := Appended(rows, start, records);
    forall i, j | i in r && j in r && i != j
      ensures !SamePair(r[i], r[j])
    {
      if i >= start && j >= start {
        if i - start < j - start {
          assert !SamePair(records[i - start], records[j - start]);
        } else {
          assert !SamePair(records[j - start], records[i - start]);
        }
      } else if i >= start {
        var e := records[i - start];
        assert !PairExists(rows, e.equipmentType, e.serialNumber, All);
      } else if j >= start {
        var e := records[j - start];
        assert !PairExists(rows, e.equipmentType, e.serialNumber, All);
      }
    }
  }

  /**
    The database: the equipment-type table and the equipment table. `Valid` is what the
    schema enforces: the uniqueness constraint, the foreign key from a row to its type,
    and fresh ids.
  */
  class EquipmentStore {
    var types: map<TypeId, EquipmentType>
    var rows: map<RowId, Equipment>
    var nextTypeId: nat
    var nextRowId: nat

    ghost predicate Valid()
      reads this
    {
      && UniquePairs(rows)
      && (forall id :: id in rows ==> id < nextRowId && rows[id].equipmentType in types)
      && (forall t :: t in types ==> t < nextTypeId)
    }

    constructor ()
      ensures Valid()
      ensures types == map[] && rows == map[]
    {
      types, rows := map[], map[];
      nextTypeId, nextRowId := 0, 0;
    }

    /** `EquipmentType.objects.create`: a new type under a fresh id. */
    method CreateType(name: string, mask: string) returns (id: TypeId)
      requires Valid()
      modifies this
      ensures Valid()
      ensures id !in old(types)
      ensures types == old(types)[id := EquipmentType(name, mask)]
      ensures rows == old(rows)
    {
      id := nextTypeId;
      types := types[id := EquipmentType(name, mask)];
      nextTypeId := nextTypeId + 1;
    }

    /** `EquipmentType.delete`: removes the type and, by cascade, every row of it. */
    method DeleteType(t: TypeId)
      requires Valid()
      modifies this
      ensures Valid()
      ensures types == old(types) - {t}
      ensures rows == Cascade(old(rows), t)
    {
      types := types - {t};
      rows := Cascade(rows, t);
    }

    /**
      Saving a new row (`Model.objects.create`, a factory's create): the database rejects
      it when the type does not exist or the pair is held by any row, deleted or not.
    */
    method Insert(e: Equipment) returns (r: Result<RowId, StoreError>)
      requires Valid()
      modifies this
      ensures Valid() && types == old(types)
      ensures r.Err? <==> e.equipmentType !in old(types) || PairExists(old(rows), e.equipmentType, e.serialNumber, All)
      ensures r.Err? ==> r.error == IntegrityError && rows == old(rows)
      ensures r.Ok? ==> r.value !in old(rows) && rows == old(rows)[r.value := e]
    {
      if e.equipmentType !in types || PairExists(rows, e.equipmentType, e.serialNumber, All) {
        return Err(IntegrityError);
      }
      r := Ok(nextRowId);
      AppendedAt(rows, nextRowId, [e]);
      assert Appended(rows, nextRowId, [e]) == rows[nextRowId := e];
      AppendedKeepsUnique(rows, nextRowId, [e]);
      rows := rows[nextRowId := e];
      nextRowId := nextRowId + 1;
    }

    /**
      `Equipment.objects.bulk_create`: one statement, so either every record is inserted,
      under consecutive fresh ids in the given order, or none is.
    */
    method BulkInsert(records: seq<Equipment>) returns (r: Result<seq<RowId>, StoreError>)
      requires Valid()
      modifies this
      ensures Valid() && types == old(types)
      ensures r.Err? <==>
        (exists i :: 0 <= i < |records| && records[i].equipmentType !in old(types)) || Conflicts(old(rows), records)
      ensures r.Err? ==> r.error == IntegrityError && rows == old(rows)
      ensures r.Ok? ==> |r.value| == |records|
      ensures r.Ok? ==> forall i :: 0 <= i < |records| ==> r.value[i] !in old(rows)
      ensures r.Ok? ==> forall i, j :: 0 <= i < j < |records| ==> r.value[i] < r.value[j]
      ensures r.Ok? ==> rows == Appended(old(rows), old(nextRowId), records)
      ensures r.Ok? ==> forall i :: 0 <= i < |records| ==> r.value[i] in rows && rows[r.value[i]] == records[i]
    {
      if (exists i :: 0 <= i < |records| && records[i].equipmentType !in types) || Conflicts(rows, records) {
        return Err(IntegrityError);
      }
      var start := nextRowId;
      AppendedAt(rows, start, records);
      AppendedKeepsUnique(rows, start, records);
      rows := Appended(rows, start, records);
      nextRowId := start + |records|;
      r := Ok(seq(|records|, k => start + k));
    }

    /** `Equipment.soft_delete` on a loaded row. */
    method SoftDelete(id: RowId, now: Time)
      requires Valid() && id in rows
      modifies this
      ensures Valid() && types == old(types)
      ensures rows == old(rows)[id := SoftDeleted(old(rows)[id], now)]
    {
      rows := rows[id := SoftDeleted(rows[id], now)];
    }

    /** `Equipment.restore` on a loaded row. */
    method Restore(id: RowId)
      requires Valid() && id in rows
      modifies this
      ensures Valid() && types == old(types)
      ensures rows == old(rows)[id := Restored(old(rows)[id])]
    {
      rows := rows[id := Restored(rows[id])];
    }
  }
}
