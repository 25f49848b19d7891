/**
  The admin site for equipment: its list shows every row, deleted or not, with a deletion
  flag and a shortened note, and offers two bulk actions over a selection of rows.
*/
module Admin {
  import opened Wrappers
  import opened Models

  /** `EquipmentAdmin.get_queryset`: the admin lists rows through `all_objects`. */
  function AdminQuerySet(rows: map<RowId, Equipment>): (r: set<RowId>)
    ensures r == rows.Keys
  {
    View(rows, All)
  }

  /**
    The admin's `is_deleted` column: a listed row is flagged exactly when it carries a
    deletion stamp, which is when the deleted-only manager would return it.
  */
  lemma AdminDeletedFlag(rows: map<RowId, Equipment>, id: RowId)
    requires id in AdminQuerySet(rows)
    ensures IsDeleted(rows[id]) <==> rows[id].deletedAt != None
    ensures IsDeleted(rows[id]) <==> id in View(rows, DeletedOnly)
    ensures !IsDeleted(rows[id]) <==> id in View(rows, ActiveOnly)
  {
  }

  /** How many characters of a note the list shows before cutting it. */
  const PreviewLength: nat := 50

  /**
    `note_preview`: '-' when there is no note or it is empty; the note itself when it fits;
    otherwise its first 50 characters followed by "...".
  */
  function NotePreview(note: Option<string>): (r: string)
    ensures note.None? || note.value == "" ==> r == "-"
    ensures note.Some? && note.value != "" && |note.value| <= PreviewLength ==> r == note.value
    ensures note.Some? && |note.value| > PreviewLength ==>
      |r| == PreviewLength + 3 && r[..PreviewLength] == note.value[..PreviewLength] && r[PreviewLength..] == "..."
  {
    match note
    case None => "-"
    case Some(n) =>
      if n == "" then "-"
      else if |n| > PreviewLength then n[..PreviewLength] + "..."
      else n
  }

  /** The preview of a note is never longer than 53 characters, and starts like the note. */
  lemma NotePreviewIsShortPrefix(n: string)
    requires n != ""
    ensures |NotePreview(Some(n))| <= PreviewLength + 3
    ensures var k := if |n| < PreviewLength then |n| else PreviewLength;
      NotePreview(Some(n))[..k] == n[..k]
  {
  }

  /** The selected ids that are in the given state, as a set. */
  function SelectedIn(rows: map<RowId, Equipment>, selection: seq<RowId>, v: Visibility): set<RowId>
  {
    set id | id in selection && id in rows && Visible(rows[id], v)
  }

  predicate DistinctIds(selection: seq<RowId>)
  {
    forall i, j :: 0 <= i < j < |selection| ==> selection[i] != selection[j]
  }

  /** The table after `soft_delete_selected`: each selected active row is stamped `now`. */
  function AfterSoftDelete(rows: map<RowId, Equipment>, selection: seq<RowId>, now: Time): (r: map<RowId, Equipment>)
    ensures r.Keys == rows.Keys
    ensures forall id :: id in rows && id in selection ==> IsDeleted(r[id])
  {
    map id | id in rows :: if id in selection && !IsDeleted(rows[id]) then SoftDeleted(rows[id], now) else rows[id]
  }

  /** The table after `restore_selected`: each selected deleted row loses its stamp. */
  function AfterRestore(rows: map<RowId, Equipment>, selection: seq<RowId>): (r: map<RowId, Equipment>)
    ensures r.Keys == rows.Keys
    ensures forall id :: id in rows && id in selection ==> !IsDeleted(r[id])
  {
    map id | id in rows :: if id in selection && IsDeleted(rows[id]) then Restored(rows[id]) else rows[id]
  }

  /** Growing the selection by one id not yet in it adds at most that id to the counted set. */
  lemma SelectedInSnoc(rows: map<RowId, Equipment>, selection: seq<RowId>, i: nat, v: Visibility)
    requires i < |selection| && DistinctIds(selection)
    ensures selection[i] !in SelectedIn(rows, selection[..i], v)
    ensures SelectedIn(rows, selection[..i + 1], v) ==
      SelectedIn(rows, selection[..i], v) + (if selection[i] in rows && Visible(rows[selection[i]], v) then {selection[i]} else {})
  {
    assert selection[..i + 1] == selection[..i] + [selection[i]];
  }

  /** One step of the soft-delete walk: the next id is still as it was, and is stamped if active. */
  lemma AfterSoftDeleteSnoc(rows: map<RowId, Equipment>, selection: seq<RowId>, i: nat, now: Time)
    requires i < |selection| && DistinctIds(selection) && selection[i] in rows
    ensures var id := selection[i];
      && AfterSoftDelete(rows, selection[..i], now)[id] == rows[id]
      && AfterSoftDelete(rows, selection[..i + 1], now) ==
           if IsDeleted(rows[id]) then AfterSoftDelete(rows, selection[..i], now)
           else AfterSoftDelete(rows, selection[..i], now)[id := SoftDeleted(rows[id], now)]
  {
    var id := selection[i];
    assert selection[..i + 1] == selection[..i] + [id];
    assert id !in selection[..i];
  }

  /** One step of the restore walk: the next id is still as it was, and is restored if deleted. */
  lemma AfterRestoreSnoc(rows: map<RowId, Equipment>, selection: seq<RowId>, i: nat)
    requires i < |selection| && DistinctIds(selection) && selection[i] in rows
    ensures var id := selection[i];
      && AfterRestore(rows, selection[..i])[id] == rows[id]
      && AfterRestore(rows, selection[..i + 1]) ==
           if !IsDeleted(rows[id]) then AfterRestore(rows, selection[..i])
           else AfterRestore(rows, selection[..i])[id := Restored(rows[id])]
  {
    var id := selection[i];
    assert selection[..i + 1] == selection[..i] + [id];
    assert id !in selection[..i];
  }

  /**
    `soft_delete_selected`: walks the selection, soft-deletes each row that is active and
    counts it; a row already deleted keeps its original stamp.
  */
  method SoftDeleteSelected(store: EquipmentStore, selection: seq<RowId>, now: Time) returns (count: nat)
    requires store.Valid()
    requires DistinctIds(selection) && forall i :: 0 <= i < |selection| ==> selection[i] in store.rows
    modifies store
    ensures store.Valid() && store.types == old(store.types)
    ensures store.rows == AfterSoftDelete(old(store.rows), selection, now)
    ensures count == |SelectedIn(old(store.rows), selection, ActiveOnly)|
    ensures forall i :: 0 <= i < |selection| ==> IsDeleted(store.rows[selection[i]])
  {
    ghost var before := store.rows;
    count := 0;
    for i := 0 to |selection|
      invariant store.Valid() && store.types == old(store.types)
      invariant store.rows == AfterSoftDelete(before, selection[..i], now)
      invariant count == |SelectedIn(before, selection[..i], ActiveOnly)|
    {
      var id := selection[i];
      SelectedInSnoc(before, selection, i, ActiveOnly);
      AfterSoftDeleteSnoc(before, selection, i, now);
      if !IsDeleted(store.rows[id]) {
        store.SoftDelete(id, now);
        count := count + 1;
      }
    }
    assert selection[..|selection|] == selection;
  }

  /**
    `restore_selected`: walks the selection, restores each row that is deleted and counts
    it; active rows are left as they are.
  */
  method RestoreSelected(store: EquipmentStore, selection: seq<RowId>) returns (count: nat)
    requires store.Valid()
    requires DistinctIds(selection) && forall i :: 0 <= i < |selection| ==> selection[i] in store.rows
    modifies store
    ensures store.Valid() && store.types == old(store.types)
    ensures store.rows == AfterRestore(old(store.rows), selection)
    ensures count == |SelectedIn(old(store.rows), selection, DeletedOnly)|
    ensures forall i :: 0 <= i < |selection| ==> !IsDeleted(store.rows[selection[i]])
  {
    ghost var before := store.rows;
    count := 0;
    for i := 0 to |selection|
      invariant store.Valid() && store.types == old(store.types)
      invariant store.rows == AfterRestore(before, selection[..i])
      invariant count == |SelectedIn(before, selection[..i], DeletedOnly)|
    {
      var id := selection[i];
      SelectedInSnoc(before, selection, i, DeletedOnly);
      AfterRestoreSnoc(before, selection, i);
      if IsDeleted(store.rows[id]) {
        store.Restore(id);
        count := count + 1;
      }
    }
    assert selection[..|selection|] == selection;
  }

  /**
    The counts the actions report are exactly the changes in the manager views: after
    soft-deleting, the deleted view grew by the count and the active view shrank by it.
  */
  lemma SoftDeleteSelectedMovesCount(rows: map<RowId, Equipment>, selection: seq<RowId>, now: Time)
    ensures var after := AfterSoftDelete(rows, selection, now);
      && View(after, DeletedOnly) == View(rows, DeletedOnly) + SelectedIn(rows, selection, ActiveOnly)
      && View(after, ActiveOnly) == View(rows, ActiveOnly) - SelectedIn(rows, selection, ActiveOnly)
      && |View(after, DeletedOnly)| == |View(rows, DeletedOnly)| + |SelectedIn(rows, selection, ActiveOnly)|
  {
    var after := AfterSoftDelete(rows, selection, now);
    var moved := SelectedIn(rows, selection, ActiveOnly);
    assert View(after, DeletedOnly) == View(rows, DeletedOnly) + moved;
    assert View(rows, DeletedOnly) * moved == {};
  }

  /** Restoring: the active view grew by the count and the deleted view shrank by it. */
  lemma RestoreSelectedMovesCount(rows: map<RowId, Equipment>, selection: seq<RowId>)
    ensures var after := AfterRestore(rows, selection);
      && View(after, ActiveOnly) == View(rows, ActiveOnly) + SelectedIn(rows, selection, DeletedOnly)
      && View(after, DeletedOnly) == View(rows, DeletedOnly) - SelectedIn(rows, selection, DeletedOnly)
      && |View(after, ActiveOnly)| == |View(rows, ActiveOnly)| + |SelectedIn(rows, selection, DeletedOnly)|
  {
    var after := AfterRestore(rows, selection);
    var moved := SelectedIn(rows, selection, DeletedOnly);
    assert View(after, ActiveOnly) == View(rows, ActiveOnly) + moved;
    assert View(rows, ActiveOnly) * moved == {};
  }

  /**
    Restoring a selection right after soft-deleting it gives back the table it started
    from, provided every selected row was active; rows already deleted would lose their
    stamp instead.
  */
  lemma SoftDeleteThenRestoreSelected(rows: map<RowId, Equipment>, selection: seq<RowId>, now: Time)
    requires forall i :: 0 <= i < |selection| ==> selection[i] in rows && !IsDeleted(rows[selection[i]])
    ensures AfterRestore(AfterSoftDelete(rows, selection, now), selection) == rows
  {
    var after := AfterSoftDelete(rows, selection, now);
    forall id | id in rows
      ensures AfterRestore(after, selection)[id] == rows[id]
    {
      if id in selection {
        SoftDeleteRestoreRoundTrip(rows[id], now);
      }
    }
  }
}
