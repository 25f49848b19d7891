/**
  The test-data factories: the generator of serials that fit a mask, get-or-create of the
  default equipment types, and the batch builders of equipment rows. The random choices
  of `random.choice` and Faker are parameters: `picks` are the indexes drawn, one per mask
  position, and a `Draw` is everything one factory row draws.
*/
module Factories {
  import opened Wrappers
  import opened SerialMask
  import opened Models

  // ---------------------------------------------------------------------------
  // generate_valid_serial_for_mask
  // ---------------------------------------------------------------------------

  /** `string.digits`, `string.ascii_uppercase` and `string.ascii_lowercase`. */
  const Digits: string := Span('0', 10)
  const Uppercase: string := Span('A', 26)
  const Lowercase: string := Span('a', 26)

  /** The `n` consecutive characters starting at `first`. */
  function Span(first: char, n: nat): (r: string)
    requires first as int + n <= 0x7F
    ensures |r| == n
    ensures forall i :: 0 <= i < n ==> r[i] as int == first as int + i
  {
    if n == 0 then [] else Span(first, n - 1) + [(first as int + n - 1) as char]
  }
  const Specials: string := "-_@"

  /** `random.choice(alphabet)` when the generator draws `k`. */
  function Choose(alphabet: string, k: nat): char
    requires alphabet != []
  {
    alphabet[k % |alphabet|]
  }

  /** The draw for position `i`; a stream shorter than the mask draws 0 from then on. */
  function PickAt(picks: seq<nat>, i: nat): nat
  {
    if i < |picks| then picks[i] else 0
  }

  /** The character the generator emits for one mask character. */
  function GeneratedChar(m: char, k: nat): char
  {
    if m == 'N' then Choose(Digits, k)
    else if m == 'A' then Choose(Uppercase, k)
    else if m == 'a' then Choose(Lowercase, k)
    else if m == 'X' then Choose(Uppercase + Digits, k)
    else if m == 'Z' then Choose(Specials, k)
    else m
  }

  /** Whatever is drawn, the emitted character lies in the class of its mask character. */
  lemma GeneratedCharInClass(m: char, k: nat)
    ensures InClass(GeneratedChar(m, k), ClassOf(m))
  {
    if m == 'X' {
      var alphabet := Uppercase + Digits;
      var j := k % |alphabet|;
      if j >= 26 {
        assert alphabet[j] == Digits[j - 26];
      }
    }
  }

  lemma SmallRemainder(k: nat, n: nat)
    requires k < n
    ensures k % n == k
  {
  }

  /** Drawing `c - first` from a span starting at `first` gives `c`. */
  lemma ChooseFromSpan(first: char, n: nat, c: char)
    requires first as int + n <= 0x7F && first <= c && (c as int) < first as int + n
    ensures Choose(Span(first, n), c as int - first as int) == c
  {
    var k := c as int - first as int;
    SmallRemainder(k, n);
    assert Span(first, n)[k] as int == c as int;
  }

  /** Every character of the class can be drawn: the generator misses no serial. */
  lemma GeneratedCharCoversClass(m: char, c: char) returns (k: nat)
    requires InClass(c, ClassOf(m))
    ensures GeneratedChar(m, k) == c
  {
    if m == 'N' {
      k := c as int - '0' as int;
      ChooseFromSpan('0', 10, c);
    } else if m == 'A' {
      k := c as int - 'A' as int;
      ChooseFromSpan('A', 26, c);
    } else if m == 'a' {
      k := c as int - 'a' as int;
      ChooseFromSpan('a', 26, c);
    } else if m == 'X' {
      k := UpperOrDigitCovered(c);
    } else if m == 'Z' {
      k := if c == '-' then 0 else if c == '_' then 1 else 2;
    } else {
      k := 0;
    }
  }

  /** The `X` alphabet, uppercase letters then digits, holds every uppercase letter and digit. */
  lemma UpperOrDigitCovered(c: char) returns (k: nat)
    requires IsUpper(c) || IsDigit(c)
    ensures Choose(Uppercase + Digits, k) == c
  {
    var alphabet := Uppercase + Digits;
    assert |alphabet| == 36;
    if IsUpper(c) {
      k := c as int - 'A' as int;
      assert Uppercase[k] as int == c as int;
      assert alphabet[k] == c;
    } else {
      var d := c as int - '0' as int;
      k := 26 + d;
      assert Digits[d] as int == c as int;
      assert alphabet[k] == c;
    }
    SmallRemainder(k, 36);
  }

  /** The serial the generator builds from a mask and a stream of draws. */
  function GeneratedSerial(mask: string, picks: seq<nat>): (s: string)
    ensures |s| == |mask|
  {
    seq(|mask|, i requires 0 <= i < |mask| => GeneratedChar(mask[i], PickAt(picks, i)))
  }

  /**
    `generate_valid_serial_for_mask`: one character per mask character, drawn from its
    class, literals copied. The result always passes `validate_serial_number`.
  */
  method GenerateValidSerialForMask(mask: string, picks: seq<nat>) returns (serial: string)
    ensures serial == GeneratedSerial(mask, picks)
    ensures FitsMask(mask, serial)
    ensures forall i :: 0 <= i < |mask| && !IsClassChar(mask[i]) ==> serial[i] == mask[i]
    ensures ValidateSerialNumber(mask, serial)
  {
    serial := "";
    for i := 0 to |mask|
      invariant |serial| == i
      invariant forall j :: 0 <= j < i ==> serial[j] == GeneratedChar(mask[j], PickAt(picks, j))
    {
      var m := mask[i];
      var c: char;
      if m == 'N' {
        c := Choose(Digits, PickAt(picks, i));
      } else if m == 'A' {
        c := Choose(Uppercase, PickAt(picks, i));
      } else if m == 'a' {
        c := Choose(Lowercase, PickAt(picks, i));
      } else if m == 'X' {
        c := Choose(Uppercase + Digits, PickAt(picks, i));
      } else if m == 'Z' {
        c := Choose(Specials, PickAt(picks, i));
      } else {
        c := m;
      }
      serial := serial + [c];
    }
    GeneratedSerialValidates(mask, picks);
  }

  /** A serial that fits its mask position by position passes the validator. */
  lemma FitsMaskValidates(mask: string, s: string)
    requires FitsMask(mask, s)
    ensures ValidateSerialNumber(mask, s)
  {
  }

  /** Round trip with the validator: every generated serial validates, for every stream. */
  lemma GeneratedSerialValidates(mask: string, picks: seq<nat>)
    ensures FitsMask(mask, GeneratedSerial(mask, picks))
    ensures forall i :: 0 <= i < |mask| && !IsClassChar(mask[i]) ==> GeneratedSerial(mask, picks)[i] == mask[i]
    ensures ValidateSerialNumber(mask, GeneratedSerial(mask, picks))
  {
    var s := GeneratedSerial(mask, picks);
    forall i | 0 <= i < |mask|
      ensures InClass(s[i], ClassOf(mask[i]))
    {
      GeneratedCharInClass(mask[i], PickAt(picks, i));
    }
    FitsMaskValidates(mask, s);
  }

  /** And the converse: every serial that fits the mask is generated by some stream of draws. */
  lemma GeneratorReachesEveryFit(mask: string, s: string) returns (picks: seq<nat>)
    requires FitsMask(mask, s)
    ensures |picks| == |mask| && GeneratedSerial(mask, picks) == s
  {
    picks := [];
    for i := 0 to |mask|
      invariant |picks| == i
      invariant forall j :: 0 <= j < i ==> GeneratedChar(mask[j], picks[j]) == s[j]
    {
      var k := GeneratedCharCoversClass(mask[i], s[i]);
      picks := picks + [k];
    }
  }

  // ---------------------------------------------------------------------------
  // EquipmentTypeFactoryBatch.create_default_types
  // ---------------------------------------------------------------------------

  /** The types a `get(name=…, serial_mask=…)` on the type table finds. */
  function Matching(types: map<TypeId, EquipmentType>, d: EquipmentType): set<TypeId>
  {
    set t | t in types && types[t] == d
  }

  /**
    `EquipmentType.objects.get_or_create`: the one matching type, or a new one when none
    matches; more than one match raises `MultipleObjectsReturned`.
  */
  method GetOrCreateType(store: EquipmentStore, d: EquipmentType) returns (r: Result<(TypeId, bool), StoreError>)
    requires store.Valid()
    modifies store
    ensures store.Valid() && store.rows == old(store.rows)
    ensures r.Err? <==> |Matching(old(store.types), d)| >= 2
    ensures r.Err? ==> r.error == MultipleObjectsReturned && store.types == old(store.types)
    ensures r.Ok? ==> r.value.0 in store.types && store.types[r.value.0] == d
    ensures r.Ok? ==> (r.value.1 <==> Matching(old(store.types), d) == {})
    ensures r.Ok? && !r.value.1 ==> store.types == old(store.types)
    ensures r.Ok? && r.value.1 ==> r.value.0 !in old(store.types) && store.types == old(store.types)[r.value.0 := d]
  {
    var found := Matching(store.types, d);
    if |found| == 0 {
      var id := store.CreateType(d.name, d.serialMask);
      return Ok((id, true));
    }
    if |found| >= 2 {
      return Err(MultipleObjectsReturned);
    }
    var id :| id in found;
    r := Ok((id, false));
  }

  /** The five types of the default set, in order. */
  const DefaultTypes: seq<EquipmentType> := [
    EquipmentType("TP-Link TL-WR74", "XXAAAAAXAA"),
    EquipmentType("D-Link DIR-300", "NXXAAXZXaa"),
    EquipmentType("D-Link DIR-300 E", "NAAAAXZXXX"),
    EquipmentType("Cisco ISR4000", "NNNNAAAA"),
    EquipmentType("Huawei AR6300", "XXXX-AAAA")
  ]

  /** Each default is in the table exactly once. */
  predicate DefaultsPresentOnce(types: map<TypeId, EquipmentType>)
  {
    forall i :: 0 <= i < |DefaultTypes| ==> |Matching(types, DefaultTypes[i])| == 1
  }

  lemma OnlyMember(s: set<TypeId>, x: TypeId)
    requires |s| <= 1 && x in s
    ensures s == {x}
  {
    assert |s - {x}| == 0;
  }

  /** Adding a type leaves the matches of any other type as they were. */
  lemma MatchingAfterAdd(types: map<TypeId, EquipmentType>, id: TypeId, d: EquipmentType, e: EquipmentType)
    requires id !in types && d != e
    ensures Matching(types[id := d], e) == Matching(types, e)
  {
  }

  /**
    `create_default_types`: get-or-create of each default in turn. On success the result
    lists the five types in order and each default is in the table exactly once; when each
    already was, nothing is created, so a second call changes nothing.
  */
  method CreateDefaultTypes(store: EquipmentStore) returns (r: Result<seq<TypeId>, StoreError>)
    requires store.Valid()
    modifies store
    ensures store.Valid() && store.rows == old(store.rows)
    ensures r.Err? <==> exists i :: 0 <= i < |DefaultTypes| && |Matching(old(store.types), DefaultTypes[i])| >= 2
    ensures r.Ok? ==> |r.value| == |DefaultTypes|
    ensures r.Ok? ==> forall i :: 0 <= i < |DefaultTypes| ==> r.value[i] in store.types && store.types[r.value[i]] == DefaultTypes[i]
    ensures r.Ok? ==> DefaultsPresentOnce(store.types)
    ensures DefaultsPresentOnce(old(store.types)) ==> r.Ok? && store.types == old(store.types)
    ensures forall t :: t in old(store.types) ==> t in store.types && store.types[t] == old(store.types)[t]
    ensures forall t :: t in store.types ==> t in old(store.types) || store.types[t] in DefaultTypes
    ensures r.Ok? ==> forall t :: t in store.types ==> t in old(store.types) || t in r.value
  {
    var createdTypes := [];
    for i := 0 to |DefaultTypes|
      invariant store.Valid() && store.rows == old(store.rows)
      invariant |createdTypes| == i
      invariant forall k :: 0 <= k < i ==> createdTypes[k] in store.types && store.types[createdTypes[k]] == DefaultTypes[k]
      invariant forall k :: 0 <= k < i ==> |Matching(store.types, DefaultTypes[k])| == 1
      invariant forall k :: i <= k < |DefaultTypes| ==> Matching(store.types, DefaultTypes[k]) == Matching(old(store.types), DefaultTypes[k])
      invariant forall k :: 0 <= k < i ==> |Matching(old(store.types), DefaultTypes[k])| < 2
      invariant DefaultsPresentOnce(old(store.types)) ==> store.types == old(store.types)
      invariant forall t :: t in old(store.types) ==> t in store.types && store.types[t] == old(store.types)[t]
      invariant forall t :: t in store.types ==> t in old(store.types) || t in createdTypes
      invariant forall t :: t in store.types ==> t in old(store.types) || store.types[t] in DefaultTypes
    {
      ghost var typesBefore := store.types;
      var got := GetOrCreateType(store, DefaultTypes[i]);
      if got.Err? {
        return Err(got.error);
      }
      if got.value.1 {
        forall k | 0 <= k < |DefaultTypes| && k != i
          ensures Matching(store.types, DefaultTypes[k]) == Matching(typesBefore, DefaultTypes[k])
        {
          MatchingAfterAdd(typesBefore, got.value.0, DefaultTypes[i], DefaultTypes[k]);
        }
        assert Matching(store.types, DefaultTypes[i]) == {got.value.0};
      } else {
        OnlyMember(Matching(store.types, DefaultTypes[i]), got.value.0);
      }
      createdTypes := createdTypes + [got.value.0];
    }
    r := Ok(createdTypes);
  }

  // ---------------------------------------------------------------------------
  // EquipmentFactory and EquipmentFactoryBatch
  // ---------------------------------------------------------------------------

  /** What one factory row draws: the serial generator's indexes and Faker's note text. */
  datatype Draw = Draw(picks: seq<nat>, note: string)

  /** The row `EquipmentFactory` (or, with a stamp, `DeletedEquipmentFactory`) builds. */
  function FactoryRow(t: TypeId, mask: string, draw: Draw, deletedAt: Option<Time>): (e: Equipment)
    ensures e.equipmentType == t && e.note == Some(draw.note) && e.deletedAt == deletedAt
    ensures ValidateSerialNumber(mask, e.serialNumber)
  {
    GeneratedSerialValidates(mask, draw.picks);
    Equipment(t, GeneratedSerial(mask, draw.picks), Some(draw.note), deletedAt)
  }

  /**
    One factory call: generate a serial for the type's mask and save the row; the save
    fails when the pair is already held by any row.
  */
  method FactoryCreate(store: EquipmentStore, t: TypeId, draw: Draw, deletedAt: Option<Time>) returns (r: Result<RowId, StoreError>)
    requires store.Valid() && t in store.types
    modifies store
    ensures store.Valid() && store.types == old(store.types)
    ensures var e := FactoryRow(t, old(store.types)[t].serialMask, draw, deletedAt);
      && (r.Err? <==> PairExists(old(store.rows), t, e.serialNumber, All))
      && (r.Err? ==> store.rows == old(store.rows))
      && (r.Ok? ==> r.value !in old(store.rows) && store.rows == old(store.rows)[r.value := e])
  {
    var serial := GenerateValidSerialForMask(store.types[t].serialMask, draw.picks);
    assert serial == GeneratedSerial(store.types[t].serialMask, draw.picks);
    r := store.Insert(Equipment(t, serial, Some(draw.note), deletedAt));
  }

  /** The rows a batch of draws builds for one type. */
  function FactoryRows(t: TypeId, mask: string, draws: seq<Draw>): (rs: seq<Equipment>)
    ensures |rs| == |draws|
    ensures forall i :: 0 <= i < |draws| ==> rs[i] == FactoryRow(t, mask, draws[i], None)
  {
    seq(|draws|, i requires 0 <= i < |draws| => FactoryRow(t, mask, draws[i], None))
  }

  /**
    Under the rows already saved by this batch, a new serial collides exactly when it is
    held in the table as it was, or an earlier row of the batch has it.
  */
  lemma CollisionWithBatch(before: map<RowId, Equipment>, rows: map<RowId, Equipment>, ids: seq<RowId>,
                           records: seq<Equipment>, t: TypeId, s: string)
    requires |ids| == |records|
    requires forall id :: id in rows <==> id in before || id in ids
    requires forall id :: id in before ==> rows[id] == before[id]
    requires forall k :: 0 <= k < |ids| ==> ids[k] in rows && rows[ids[k]] == records[k]
    ensures PairExists(rows, t, s, All) <==>
      PairExists(before, t, s, All) || exists k :: 0 <= k < |records| && records[k].equipmentType == t && records[k].serialNumber == s
  {
    if PairExists(rows, t, s, All) {
      var id :| id in rows && rows[id].equipmentType == t && rows[id].serialNumber == s;
      if id !in before {
        var k :| 0 <= k < |ids| && ids[k] == id;
        assert records[k].equipmentType == t && records[k].serialNumber == s;
      }
    }
    if exists k :: 0 <= k < |records| && records[k].equipmentType == t && records[k].serialNumber == s {
      var k :| 0 <= k < |records| && records[k].equipmentType == t && records[k].serialNumber == s;
      assert rows[ids[k]].equipmentType == t && rows[ids[k]].serialNumber == s;
    }
    if PairExists(before, t, s, All) {
      var id :| id in before && before[id].equipmentType == t && before[id].serialNumber == s;
      assert rows[id] == before[id];
    }
  }

  /**
    `create_multiple_for_type`: one factory row per draw, saved one after another. It stops
    at the first collision, which happens exactly when the batch conflicts with the table
    or with itself; the rows saved before it stay. On success every row is saved, active,
    with its draw's serial and note.
  */
  method CreateMultipleForType(store: EquipmentStore, t: TypeId, draws: seq<Draw>) returns (r: Result<seq<RowId>, StoreError>)
    requires store.Valid() && t in store.types
    modifies store
    ensures store.Valid() && store.types == old(store.types)
    ensures r.Err? <==> Conflicts(old(store.rows), FactoryRows(t, old(store.types)[t].serialMask, draws))
    ensures forall id :: id in old(store.rows) ==> id in store.rows && store.rows[id] == old(store.rows)[id]
    ensures r.Ok? ==> |r.value| == |draws|
    ensures r.Ok? ==> forall id :: id in store.rows <==> id in old(store.rows) || id in r.value
    ensures r.Ok? ==> forall i :: 0 <= i < |draws| ==>
      r.value[i] !in old(store.rows) && r.value[i] in store.rows &&
      store.rows[r.value[i]] == FactoryRow(t, old(store.types)[t].serialMask, draws[i], None)
  {
    ghost var before := store.rows;
    ghost var records := FactoryRows(t, store.types[t].serialMask, draws);
    var equipmentList := [];
    for i := 0 to |draws|
      invariant store.Valid() && store.types == old(store.types)
      invariant |equipmentList| == i
      invariant forall id :: id in store.rows <==> id in before || id in equipmentList
      invariant forall id :: id in before ==> store.rows[id] == before[id]
      invariant forall k :: 0 <= k < i ==> equipmentList[k] !in before && equipmentList[k] in store.rows && store.rows[equipmentList[k]] == records[k]
      invariant !Conflicts(before, records[..i])
    {
      BatchStep(before, store.rows, equipmentList, records, i);
      var equipment := FactoryCreate(store, t, draws[i], None);
      if equipment.Err? {
        return Err(equipment.error);
      }
      equipmentList := equipmentList + [equipment.value];
    }
    assert records[..|draws|] == records;
    r := Ok(equipmentList);
  }

  /**
    Saving record `i` of a batch, after records 0..i-1 were saved under `ids` without
    conflict, collides exactly when the batch up to `i` conflicts; and then the whole
    batch conflicts.
  */
  lemma BatchStep(before: map<RowId, Equipment>, rows: map<RowId, Equipment>, ids: seq<RowId>, records: seq<Equipment>, i: nat)
    requires i < |records| && |ids| == i
    requires forall id :: id in rows <==> id in before || id in ids
    requires forall id :: id in before ==> rows[id] == before[id]
    requires forall k :: 0 <= k < i ==> ids[k] in rows && rows[ids[k]] == records[k]
    requires !Conflicts(before, records[..i])
    ensures PairExists(rows, records[i].equipmentType, records[i].serialNumber, All) ==> Conflicts(before, records)
    ensures !PairExists(rows, records[i].equipmentType, records[i].serialNumber, All) ==> !Conflicts(before, records[..i + 1])
  {
    CollisionWithBatch(before, rows, ids, records[..i], records[i].equipmentType, records[i].serialNumber);
    ConflictsSnoc(before, records, i);
    if PairExists(rows, records[i].equipmentType, records[i].serialNumber, All) {
      ConflictsGrows(before, records, i + 1);
    }
  }

  /** A batch conflicts once one more record is added exactly when it did, or the new record collides. */
  lemma ConflictsSnoc(rows: map<RowId, Equipment>, records: seq<Equipment>, i: nat)
    requires i < |records|
    ensures Conflicts(rows, records[..i + 1]) <==>
      || Conflicts(rows, records[..i])
      || PairExists(rows, records[i].equipmentType, records[i].serialNumber, All)
      || exists k :: 0 <= k < i && records[k].equipmentType == records[i].equipmentType && records[k].serialNumber == records[i].serialNumber
  {
    var p, q := records[..i], records[..i + 1];
    assert forall k :: 0 <= k < i ==> q[k] == p[k];
    if Conflicts(rows, q) && !Conflicts(rows, p) {
      if exists j :: 0 <= j < |q| && PairExists(rows, q[j].equipmentType, q[j].serialNumber, All) {
        var j :| 0 <= j < |q| && PairExists(rows, q[j].equipmentType, q[j].serialNumber, All);
        assert j == i;
      } else {
        var j, k :| 0 <= j < k < |q| && SamePair(q[j], q[k]);
        assert k == i;
      }
    }
    if exists k :: 0 <= k < i && records[k].equipmentType == records[i].equipmentType && records[k].serialNumber == records[i].serialNumber {
      var k :| 0 <= k < i && records[k].equipmentType == records[i].equipmentType && records[k].serialNumber == records[i].serialNumber;
      assert SamePair(q[k], q[i]);
    }
    if PairExists(rows, records[i].equipmentType, records[i].serialNumber, All) {
      assert PairExists(rows, q[i].equipmentType, q[i].serialNumber, All);
    }
    if Conflicts(rows, p) {
      if exists j :: 0 <= j < |p| && PairExists(rows, p[j].equipmentType, p[j].serialNumber, All) {
        var j :| 0 <= j < |p| && PairExists(rows, p[j].equipmentType, p[j].serialNumber, All);
        assert PairExists(rows, q[j].equipmentType, q[j].serialNumber, All);
      } else {
        var j, k :| 0 <= j < k < |p| && SamePair(p[j], p[k]);
        assert SamePair(q[j], q[k]);
      }
    }
  }

  /** A conflicting prefix makes the whole batch conflict. */
  lemma ConflictsGrows(rows: map<RowId, Equipment>, records: seq<Equipment>, n: nat)
    requires n <= |records| && Conflicts(rows, records[..n])
    ensures Conflicts(rows, records)
  {
    var p := records[..n];
    if exists j :: 0 <= j < |p| && PairExists(rows, p[j].equipmentType, p[j].serialNumber, All) {
      var j :| 0 <= j < |p| && PairExists(rows, p[j].equipmentType, p[j].serialNumber, All);
      assert PairExists(rows, records[j].equipmentType, records[j].serialNumber, All);
    } else {
      var j, k :| 0 <= j < k < |p| && SamePair(p[j], p[k]);
      assert SamePair(records[j], records[k]);
    }
  }

  // ---------------------------------------------------------------------------
  // EquipmentFactoryBatch.create_test_dataset
  // ---------------------------------------------------------------------------

  /**
    `[eq for eq in ids if bool(eq.deleted_at) == deleted]`: the rows of the list in the
    given state, in list order.
  */
  function FilterByState(rows: map<RowId, Equipment>, ids: seq<RowId>, deleted: bool): seq<RowId>
    requires forall i :: 0 <= i < |ids| ==> ids[i] in rows
  {
    if ids == [] then []
    else
      var init, last := ids[..|ids| - 1], ids[|ids| - 1];
      FilterByState(rows, init, deleted) + (if IsDeleted(rows[last]) == deleted then [last] else [])
  }

  /** The filtered list holds exactly the listed rows in the requested state. */
  lemma {:induction false} FilterByStateMembers(rows: map<RowId, Equipment>, ids: seq<RowId>, deleted: bool)
    requires forall i :: 0 <= i < |ids| ==> ids[i] in rows
    ensures forall x :: x in FilterByState(rows, ids, deleted) <==> x in ids && IsDeleted(rows[x]) == deleted
  {
    if ids != [] {
      var init, last := ids[..|ids| - 1], ids[|ids| - 1];
      FilterByStateMembers(rows, init, deleted);
      assert ids == init + [last];
    }
  }

  /** The active and the deleted part of a list together are the list, counted with repetition. */
  lemma {:induction false} FilterByStatePartitions(rows: map<RowId, Equipment>, ids: seq<RowId>)
    requires forall i :: 0 <= i < |ids| ==> ids[i] in rows
    ensures multiset(FilterByState(rows, ids, false)) + multiset(FilterByState(rows, ids, true)) == multiset(ids)
    ensures |FilterByState(rows, ids, false)| + |FilterByState(rows, ids, true)| == |ids|
  {
    if ids != [] {
      var init, last := ids[..|ids| - 1], ids[|ids| - 1];
      FilterByStatePartitions(rows, init);
      assert ids == init + [last];
      FilterByStateSnoc(rows, init, last, false);
      FilterByStateSnoc(rows, init, last, true);
      var k := if IsDeleted(rows[last]) then FilterByState(rows, init, true) else FilterByState(rows, init, false);
      assert multiset(k + [last]) == multiset(k) + multiset{last};
    }
  }

  /** Filtering a concatenation filters each part. */
  lemma {:induction false} FilterByStateAppend(rows: map<RowId, Equipment>, a: seq<RowId>, b: seq<RowId>, deleted: bool)
    requires forall i :: 0 <= i < |a| ==> a[i] in rows
    requires forall i :: 0 <= i < |b| ==> b[i] in rows
    ensures FilterByState(rows, a + b, deleted) == FilterByState(rows, a, deleted) + FilterByState(rows, b, deleted)
  {
    if b == [] {
      assert a + b == a;
    } else {
      var init, last := b[..|b| - 1], b[|b| - 1];
      FilterByStateAppend(rows, a, init, deleted);
      assert b == init + [last];
      assert a + b == (a + init) + [last];
      FilterByStateSnoc(rows, a + init, last, deleted);
      FilterByStateSnoc(rows, init, last, deleted);
    }
  }

  lemma FilterByStateSnoc(rows: map<RowId, Equipment>, ids: seq<RowId>, x: RowId, deleted: bool)
    requires forall i :: 0 <= i < |ids| ==> ids[i] in rows
    requires x in rows
    ensures FilterByState(rows, ids + [x], deleted)
            == FilterByState(rows, ids, deleted) + (if IsDeleted(rows[x]) == deleted then [x] else [])
  {
    assert (ids + [x])[..|ids|] == ids;
  }

  /** A list whose rows are all in the given state filters to itself, and to nothing for the other state. */
  lemma {:induction false} FilterByStateUniform(rows: map<RowId, Equipment>, ids: seq<RowId>, deleted: bool)
    requires forall i :: 0 <= i < |ids| ==> ids[i] in rows && IsDeleted(rows[ids[i]]) == deleted
    ensures FilterByState(rows, ids, deleted) == ids
    ensures FilterByState(rows, ids, !deleted) == []
  {
    if ids != [] {
      FilterByStateUniform(rows, ids[..|ids| - 1], deleted);
      assert ids == ids[..|ids| - 1] + [ids[|ids| - 1]];
    }
  }

  /** Rows per type in the test dataset, and the types its two deleted rows get. */
  const PerType: nat := 3
  const DeletedCount: nat := 2

  datatype Dataset = Dataset(
    types: seq<TypeId>,
    equipment: seq<RowId>,
    activeEquipment: seq<RowId>,
    deletedEquipment: seq<RowId>)

  /** The active row the dataset builds from draw `j`: type `j / 3`, three rows per type. */
  function ActiveDatasetRow(types: seq<TypeId>, draws: seq<Draw>, j: nat): Equipment
    requires |types| == |DefaultTypes| && j < |draws| && j < |DefaultTypes| * PerType
  {
    FactoryRow(types[j / PerType], DefaultTypes[j / PerType].serialMask, draws[j], None)
  }

  /** The deleted row the dataset builds as its `j`-th deleted one: type `j`, with stamp `j`. */
  function DeletedDatasetRow(types: seq<TypeId>, draws: seq<Draw>, stamps: seq<Time>, j: nat): Equipment
    requires |types| == |DefaultTypes| && j < DeletedCount && |stamps| == DeletedCount
    requires |draws| == |DefaultTypes| * PerType + DeletedCount
  {
    FactoryRow(types[j], DefaultTypes[j].serialMask, draws[|DefaultTypes| * PerType + j], Some(stamps[j]))
  }

  /** The store holds the default types under the given ids. */
  predicate HoldsDefaults(types: map<TypeId, EquipmentType>, ids: seq<TypeId>)
  {
    |ids| == |DefaultTypes| && forall k :: 0 <= k < |DefaultTypes| ==> ids[k] in types && types[ids[k]] == DefaultTypes[k]
  }

  /** `ids` are the dataset's fifteen active rows, built from the first fifteen draws. */
  predicate ActiveRowsBuilt(rows: map<RowId, Equipment>, ids: seq<RowId>, types: seq<TypeId>, draws: seq<Draw>)
    requires |types| == |DefaultTypes| && |draws| == |DefaultTypes| * PerType + DeletedCount
  {
    |ids| == |DefaultTypes| * PerType &&
    forall j :: 0 <= j < |ids| ==> ids[j] in rows && rows[ids[j]] == ActiveDatasetRow(types, draws, j)
  }

  /** `ids` are the dataset's two deleted rows, built from the last two draws and the stamps. */
  predicate DeletedRowsBuilt(rows: map<RowId, Equipment>, ids: seq<RowId>, types: seq<TypeId>, draws: seq<Draw>, stamps: seq<Time>)
    requires |types| == |DefaultTypes| && |draws| == |DefaultTypes| * PerType + DeletedCount && |stamps| == DeletedCount
  {
    |ids| == DeletedCount &&
    forall j :: 0 <= j < |ids| ==> ids[j] in rows && rows[ids[j]] == DeletedDatasetRow(types, draws, stamps, j)
  }

  /** Rows that later inserts leave alone stay built. */
  lemma ActiveRowsSurvive(before: map<RowId, Equipment>, after: map<RowId, Equipment>, ids: seq<RowId>, types: seq<TypeId>, draws: seq<Draw>)
    requires |types| == |DefaultTypes| && |draws| == |DefaultTypes| * PerType + DeletedCount
    requires ActiveRowsBuilt(before, ids, types, draws)
    requires forall id :: id in before ==> id in after && after[id] == before[id]
    ensures ActiveRowsBuilt(after, ids, types, draws)
    ensures forall j :: 0 <= j < |ids| ==> ids[j] in after && !IsDeleted(after[ids[j]])
  {
  }

  /** The deleted rows carry a stamp. */
  lemma DeletedRowsAreDeleted(rows: map<RowId, Equipment>, ids: seq<RowId>, types: seq<TypeId>, draws: seq<Draw>, stamps: seq<Time>)
    requires |types| == |DefaultTypes| && |draws| == |DefaultTypes| * PerType + DeletedCount && |stamps| == DeletedCount
    requires DeletedRowsBuilt(rows, ids, types, draws, stamps)
    ensures forall j :: 0 <= j < |ids| ==> ids[j] in rows && IsDeleted(rows[ids[j]])
  {
  }

  /** Draw `j` of type `k`'s slice is the `j - 3k`-th draw of the slice. */
  lemma SliceOfType(draws: seq<Draw>, k: nat, j: nat)
    requires k * PerType <= j < (k + 1) * PerType <= |draws|
    ensures j / PerType == k
    ensures draws[k * PerType..(k + 1) * PerType][j - k * PerType] == draws[j]
  {
  }

  /** The first `|ids|` active rows of the dataset are built, in order. */
  predicate ActivePrefixBuilt(rows: map<RowId, Equipment>, ids: seq<RowId>, types: seq<TypeId>, draws: seq<Draw>)
    requires |types| == |DefaultTypes| && |draws| == |DefaultTypes| * PerType + DeletedCount
    requires |ids| <= |DefaultTypes| * PerType
  {
    forall j :: 0 <= j < |ids| ==> ids[j] in rows && rows[ids[j]] == ActiveDatasetRow(types, draws, j)
  }

  /** One pass of the loop over the types: type `k`'s three rows extend the built prefix. */
  lemma ActiveRowsStep(before: map<RowId, Equipment>, after: map<RowId, Equipment>, built: seq<RowId>, batch: seq<RowId>,
                       types: seq<TypeId>, draws: seq<Draw>, k: nat)
    requires |types| == |DefaultTypes| && |draws| == |DefaultTypes| * PerType + DeletedCount && k < |DefaultTypes|
    requires |built| == k * PerType && ActivePrefixBuilt(before, built, types, draws)
    requires forall id :: id in before ==> id in after && after[id] == before[id]
    requires |batch| == PerType
    requires forall i :: 0 <= i < PerType ==>
      (batch[i] in after && after[batch[i]] == FactoryRow(types[k], DefaultTypes[k].serialMask, draws[k * PerType..(k + 1) * PerType][i], None))
    ensures |built + batch| == (k + 1) * PerType && ActivePrefixBuilt(after, built + batch, types, draws)
  {
    forall j | k * PerType <= j < (k + 1) * PerType
      ensures (built + batch)[j] in after && after[(built + batch)[j]] == ActiveDatasetRow(types, draws, j)
    {
      SliceOfType(draws, k, j);
      assert (built + batch)[j] == batch[j - k * PerType];
    }
  }

  /** The loop of `create_test_dataset` over the types: three active rows for each. */
  method CreateActiveRows(store: EquipmentStore, types: seq<TypeId>, draws: seq<Draw>) returns (r: Result<seq<RowId>, StoreError>)
    requires store.Valid() && HoldsDefaults(store.types, types)
    requires |draws| == |DefaultTypes| * PerType + DeletedCount
    modifies store
    ensures store.Valid() && store.types == old(store.types)
    ensures forall id :: id in old(store.rows) ==> id in store.rows && store.rows[id] == old(store.rows)[id]
    ensures r.Ok? ==> forall id :: id in store.rows ==> id in old(store.rows) || id in r.value
    ensures r.Ok? ==> ActiveRowsBuilt(store.rows, r.value, types, draws)
  {
    var allEquipment := [];
    for k := 0 to |types|
      invariant store.Valid() && store.types == old(store.types)
      invariant forall id :: id in old(store.rows) ==> id in store.rows && store.rows[id] == old(store.rows)[id]
      invariant forall id :: id in store.rows ==> id in old(store.rows) || id in allEquipment
      invariant |allEquipment| == k * PerType
      invariant ActivePrefixBuilt(store.rows, allEquipment, types, draws)
    {
      ghost var before := store.rows;
      var batch := CreateMultipleForType(store, types[k], draws[k * PerType..(k + 1) * PerType]);
      if batch.Err? {
        return Err(batch.error);
      }
      ActiveRowsStep(before, store.rows, allEquipment, batch.value, types, draws, k);
      allEquipment := allEquipment + batch.value;
    }
    r := Ok(allEquipment);
  }

  /** The two deleted rows of `create_test_dataset`, of the first and the second type. */
  method CreateDeletedRows(store: EquipmentStore, types: seq<TypeId>, draws: seq<Draw>, stamps: seq<Time>)
    returns (r: Result<seq<RowId>, StoreError>)
    requires store.Valid() && HoldsDefaults(store.types, types)
    requires |draws| == |DefaultTypes| * PerType + DeletedCount && |stamps| == DeletedCount
    modifies store
    ensures store.Valid() && store.types == old(store.types)
    ensures forall id :: id in old(store.rows) ==> id in store.rows && store.rows[id] == old(store.rows)[id]
    ensures r.Ok? ==> forall id :: id in store.rows ==> id in old(store.rows) || id in r.value
    ensures r.Ok? ==> DeletedRowsBuilt(store.rows, r.value, types, draws, stamps)
  {
    var deletedEquipment := [];
    for j := 0 to DeletedCount
      invariant store.Valid() && store.types == old(store.types)
      invariant forall id :: id in old(store.rows) ==> id in store.rows && store.rows[id] == old(store.rows)[id]
      invariant forall id :: id in store.rows ==> id in old(store.rows) || id in deletedEquipment
      invariant |deletedEquipment| == j
      invariant forall i :: 0 <= i < j ==>
        deletedEquipment[i] in store.rows && store.rows[deletedEquipment[i]] == DeletedDatasetRow(types, draws, stamps, i)
    {
      var equipment := FactoryCreate(store, types[j], draws[|DefaultTypes| * PerType + j], Some(stamps[j]));
      if equipment.Err? {
        return Err(equipment.error);
      }
      deletedEquipment := deletedEquipment + [equipment.value];
    }
    r := Ok(deletedEquipment);
  }

  /** Splitting a list of active rows followed by deleted rows gives back the two parts. */
  lemma DatasetSplit(rows: map<RowId, Equipment>, activeRows: seq<RowId>, deletedRows: seq<RowId>)
    requires forall i :: 0 <= i < |activeRows| ==> activeRows[i] in rows && !IsDeleted(rows[activeRows[i]])
    requires forall i :: 0 <= i < |deletedRows| ==> deletedRows[i] in rows && IsDeleted(rows[deletedRows[i]])
    ensures forall i :: 0 <= i < |activeRows + deletedRows| ==> (activeRows + deletedRows)[i] in rows
    ensures FilterByState(rows, activeRows + deletedRows, false) == activeRows
    ensures FilterByState(rows, activeRows + deletedRows, true) == deletedRows
  {
    FilterByStateUniform(rows, activeRows, false);
    FilterByStateUniform(rows, deletedRows, true);
    FilterByStateAppend(rows, activeRows, deletedRows, false);
    FilterByStateAppend(rows, activeRows, deletedRows, true);
  }

  /**
    `create_test_dataset`: the default types, three active rows for each, then two deleted
    rows (of the first and the second type); the list of all rows is split into its active
    and its deleted part, which are exactly the rows created active and the rows created
    deleted. `draws` holds one draw per row in creation order, `stamps` the deletion stamps
    Faker gives the two deleted rows.
  */
  method CreateTestDataset(store: EquipmentStore, draws: seq<Draw>, stamps: seq<Time>) returns (r: Result<Dataset, StoreError>)
    requires store.Valid()
    requires |draws| == |DefaultTypes| * PerType + DeletedCount && |stamps| == DeletedCount
    modifies store
    ensures store.Valid()
    ensures forall id :: id in old(store.rows) ==> id in store.rows && store.rows[id] == old(store.rows)[id]
    ensures forall t :: t in old(store.types) ==> t in store.types && store.types[t] == old(store.types)[t]
    ensures forall t :: t in store.types ==> t in old(store.types) || store.types[t] in DefaultTypes
    ensures r.Ok? ==> forall id :: id in store.rows ==> id in old(store.rows) || id in r.value.equipment
    ensures r.Ok? ==> forall t :: t in store.types ==> t in old(store.types) || t in r.value.types
    ensures r.Ok? ==> HoldsDefaults(store.types, r.value.types)
    ensures r.Ok? ==> r.value.equipment == r.value.activeEquipment + r.value.deletedEquipment
    ensures r.Ok? ==> ActiveRowsBuilt(store.rows, r.value.activeEquipment, r.value.types, draws)
    ensures r.Ok? ==> DeletedRowsBuilt(store.rows, r.value.deletedEquipment, r.value.types, draws, stamps)
  {
    var created := CreateDefaultTypes(store);
    if created.Err? {
      return Err(created.error);
    }
    var types := created.value;
    var active := CreateActiveRows(store, types, draws);
    if active.Err? {
      return Err(active.error);
    }
    ghost var rowsMid := store.rows;
    var deleted := CreateDeletedRows(store, types, draws, stamps);
    if deleted.Err? {
      return Err(deleted.error);
    }
    ActiveRowsSurvive(rowsMid, store.rows, active.value, types, draws);
    DeletedRowsAreDeleted(store.rows, deleted.value, types, draws, stamps);
    var allEquipment := active.value + deleted.value;
    DatasetSplit(store.rows, active.value, deleted.value);
    r := Ok(Dataset(types, allEquipment, FilterByState(store.rows, allEquipment, false), FilterByState(store.rows, allEquipment, true)));
  }

  /**
    What a dataset promises: three active rows per default type, two deleted rows, and the
    active and deleted lists partition the list of all rows.
  */
  lemma DatasetPartitions(rows: map<RowId, Equipment>, d: Dataset, draws: seq<Draw>, stamps: seq<Time>)
    requires |d.types| == |DefaultTypes| && |draws| == |DefaultTypes| * PerType + DeletedCount && |stamps| == DeletedCount
    requires d.equipment == d.activeEquipment + d.deletedEquipment
    requires ActiveRowsBuilt(rows, d.activeEquipment, d.types, draws)
    requires DeletedRowsBuilt(rows, d.deletedEquipment, d.types, draws, stamps)
    ensures |d.activeEquipment| == 15 && |d.deletedEquipment| == 2 && |d.equipment| == 17
    ensures multiset(d.activeEquipment) + multiset(d.deletedEquipment) == multiset(d.equipment)
    ensures forall j :: 0 <= j < |d.activeEquipment| ==>
      !IsDeleted(rows[d.activeEquipment[j]]) && rows[d.activeEquipment[j]].equipmentType == d.types[j / PerType]
    ensures forall j :: 0 <= j < |d.deletedEquipment| ==>
      IsDeleted(rows[d.deletedEquipment[j]]) && rows[d.deletedEquipment[j]].equipmentType == d.types[j]
  {
  }
}
