/**
  The serializers of the equipment API: batch intake (`EquipmentCreateSerializer`), the
  single-record checks of `EquipmentSerializer` and `EquipmentUpdateSerializer`, the field
  limits of `EquipmentTypeSerializer` and its active-row count.
*/
module Serializers {
  import opened Wrappers
  import opened SerialMask
  import opened Models

  // ---------------------------------------------------------------------------
  // Batch intake: EquipmentCreateSerializer.validate
  // ---------------------------------------------------------------------------

  /** The reasons given against one serial, in the order they are checked. */
  datatype Reason =
    | MaskMismatch(mask: string) // the serial does not match the type's mask
    | ExistsInDatabase           // an ACTIVE row of the type holds the serial
    | DuplicateInRequest         // an earlier serial of this request was accepted

  /** One entry of `validation_errors`. */
  datatype SerialError = SerialError(serialNumber: string, errors: seq<Reason>)

  /** The two lists the validation pass builds. */
  datatype Screening = Screening(validationErrors: seq<SerialError>, validSerialNumbers: seq<string>)

  /** The reasons against serial `s`, given the serials accepted so far. */
  function Reasons(mask: string, rows: map<RowId, Equipment>, t: TypeId, accepted: seq<string>, s: string): seq<Reason>
  {
    (if ValidateSerialNumber(mask, s) then [] else [MaskMismatch(mask)])
    + (if PairExists(rows, t, s, ActiveOnly) then [ExistsInDatabase] else [])
    + (if s in accepted then [DuplicateInRequest] else [])
  }

  /** The validation pass over the request's serials, one serial at a time in input order. */
  function Screen(mask: string, rows: map<RowId, Equipment>, t: TypeId, serials: seq<string>): Screening
  {
    if serials == [] then Screening([], [])
    else
      var prev := Screen(mask, rows, t, serials[..|serials| - 1]);
      var s := serials[|serials| - 1];
      var reasons := Reasons(mask, rows, t, prev.validSerialNumbers, s);
      if reasons == [] then prev.(validSerialNumbers := prev.validSerialNumbers + [s])
      else prev.(validationErrors := prev.validationErrors + [SerialError(s, reasons)])
  }

  /**
    The loop of `EquipmentCreateSerializer.validate`: for each serial, collect its reasons;
    a serial with reasons becomes an error entry, any other is accepted.
  */
  method ValidateSerials(mask: string, rows: map<RowId, Equipment>, t: TypeId, serials: seq<string>)
    returns (validationErrors: seq<SerialError>, validSerialNumbers: seq<string>)
    ensures Screening(validationErrors, validSerialNumbers) == Screen(mask, rows, t, serials)
  {
    validationErrors, validSerialNumbers := [], [];
    for i := 0 to |serials|
      invariant Screening(validationErrors, validSerialNumbers) == Screen(mask, rows, t, serials[..i])
    {
      var s := serials[i];
      assert serials[..i + 1][..i] == serials[..i];
      var errors := [];
      if !ValidateSerialNumber(mask, s) {
        errors := errors + [MaskMismatch(mask)];
      }
      if PairExists(rows, t, s, ActiveOnly) {
        errors := errors + [ExistsInDatabase];
      }
      if s in validSerialNumbers {
        errors := errors + [DuplicateInRequest];
      }
      assert errors == Reasons(mask, rows, t, validSerialNumbers, s);
      if errors != [] {
        validationErrors := validationErrors + [SerialError(s, errors)];
      } else {
        validSerialNumbers := validSerialNumbers + [s];
      }
    }
    assert serials[..|serials|] == serials;
  }

  function ErrorSerials(errs: seq<SerialError>): (r: seq<string>)
    ensures |r| == |errs|
    ensures forall i :: 0 <= i < |errs| ==> r[i] == errs[i].serialNumber
  {
    if errs == [] then [] else ErrorSerials(errs[..|errs| - 1]) + [errs[|errs| - 1].serialNumber]
  }

  predicate Distinct(s: seq<string>)
  {
    forall i, j :: 0 <= i < j < |s| ==> s[i] != s[j]
  }

  /**
    Every input serial ends up in exactly one of the two lists: the error serials and the
    accepted serials together are the input, counted with repetition.
  */
  lemma {:induction false} ScreenPartitionsInput(mask: string, rows: map<RowId, Equipment>, t: TypeId, serials: seq<string>)
    ensures multiset(ErrorSerials(Screen(mask, rows, t, serials).validationErrors))
            + multiset(Screen(mask, rows, t, serials).validSerialNumbers) == multiset(serials)
    ensures |Screen(mask, rows, t, serials).validationErrors| + |Screen(mask, rows, t, serials).validSerialNumbers| == |serials|
  {
    if serials != [] {
      var init := serials[..|serials| - 1];
      ScreenPartitionsInput(mask, rows, t, init);
      ScreenStep(mask, rows, t, serials);
      LastSplitsOff(serials);
      PartitionStep(Screen(mask, rows, t, init), Screen(mask, rows, t, serials), init, serials[|serials| - 1], serials);
    }
  }

  /** The partition survives one step that puts `s` in exactly one of the two lists. */
  lemma PartitionStep(prev: Screening, sc: Screening, init: seq<string>, s: string, serials: seq<string>)
    requires serials == init + [s] && multiset(serials) == multiset(init) + multiset{s}
    requires multiset(ErrorSerials(prev.validationErrors)) + multiset(prev.validSerialNumbers) == multiset(init)
    requires |prev.validationErrors| + |prev.validSerialNumbers| == |init|
    requires || (ErrorSerials(sc.validationErrors) == ErrorSerials(prev.validationErrors) + [s]
                 && sc.validSerialNumbers == prev.validSerialNumbers)
             || (sc.validationErrors == prev.validationErrors
                 && sc.validSerialNumbers == prev.validSerialNumbers + [s])
    ensures multiset(ErrorSerials(sc.validationErrors)) + multiset(sc.validSerialNumbers) == multiset(serials)
    ensures |sc.validationErrors| + |sc.validSerialNumbers| == |serials|
  {
    if sc.validationErrors == prev.validationErrors {
      assert multiset(sc.validSerialNumbers) == multiset(prev.validSerialNumbers) + multiset{s};
    } else {
      assert multiset(ErrorSerials(sc.validationErrors)) == multiset(ErrorSerials(prev.validationErrors)) + multiset{s};
      assert |ErrorSerials(sc.validationErrors)| == |ErrorSerials(prev.validationErrors)| + 1;
    }
  }

  lemma LastSplitsOff(xs: seq<string>)
    requires xs != []
    ensures xs == xs[..|xs| - 1] + [xs[|xs| - 1]]
    ensures multiset(xs) == multiset(xs[..|xs| - 1]) + multiset{xs[|xs| - 1]}
  {
    assert xs == xs[..|xs| - 1] + [xs[|xs| - 1]];
  }

  /** One step of the pass: the last serial lands in exactly one of the two lists. */
  lemma ScreenStep(mask: string, rows: map<RowId, Equipment>, t: TypeId, serials: seq<string>)
    requires serials != []
    ensures var prev := Screen(mask, rows, t, serials[..|serials| - 1]);
      var sc := Screen(mask, rows, t, serials);
      var s := serials[|serials| - 1];
      || (ErrorSerials(sc.validationErrors) == ErrorSerials(prev.validationErrors) + [s]
          && sc.validSerialNumbers == prev.validSerialNumbers)
      || (sc.validationErrors == prev.validationErrors
          && sc.validSerialNumbers == prev.validSerialNumbers + [s])
  {
    var prev := Screen(mask, rows, t, serials[..|serials| - 1]);
    var sc := Screen(mask, rows, t, serials);
    if |sc.validationErrors| > |prev.validationErrors| {
      var errs := sc.validationErrors;
      assert errs[..|errs| - 1] == prev.validationErrors;
    }
  }

  /** Accepted serials match the mask, are held by no active row, and are pairwise distinct. */
  lemma {:induction false} ScreenAcceptsOnlyClean(mask: string, rows: map<RowId, Equipment>, t: TypeId, serials: seq<string>)
    ensures var v := Screen(mask, rows, t, serials).validSerialNumbers;
      && Distinct(v)
      && forall s :: s in v ==> ValidateSerialNumber(mask, s) && !PairExists(rows, t, s, ActiveOnly)
  {
    if serials != [] {
      ScreenAcceptsOnlyClean(mask, rows, t, serials[..|serials| - 1]);
    }
  }

  /**
    Each error entry has at least one reason, listed in the fixed order mask, database,
    request; the first two are given exactly when they apply, and "duplicate in request"
    only for a serial that was accepted earlier.
  */
  lemma {:induction false} ScreenReasonsAreExact(mask: string, rows: map<RowId, Equipment>, t: TypeId, serials: seq<string>)
    ensures var sc := Screen(mask, rows, t, serials);
      forall e :: e in sc.validationErrors ==>
        && e.errors != []
        && e.errors ==
             (if ValidateSerialNumber(mask, e.serialNumber) then [] else [MaskMismatch(mask)])
             + (if PairExists(rows, t, e.serialNumber, ActiveOnly) then [ExistsInDatabase] else [])
             + (if DuplicateInRequest in e.errors then [DuplicateInRequest] else [])
        && (DuplicateInRequest in e.errors ==> e.serialNumber in sc.validSerialNumbers)
  {
    if serials != [] {
      ScreenReasonsAreExact(mask, rows, t, serials[..|serials| - 1]);
    }
  }

  /** The request is accepted whole or not at all: no errors exactly when every serial is accepted, in order. */
  lemma {:induction false} ScreenAllOrNothing(mask: string, rows: map<RowId, Equipment>, t: TypeId, serials: seq<string>)
    ensures var sc := Screen(mask, rows, t, serials);
      sc.validationErrors == [] <==> sc.validSerialNumbers == serials
  {
    ScreenPartitionsInput(mask, rows, t, serials);
    if serials != [] {
      var init := serials[..|serials| - 1];
      ScreenAllOrNothing(mask, rows, t, init);
      ScreenStep(mask, rows, t, serials);
      LastSplitsOff(serials);
      AllOrNothingStep(Screen(mask, rows, t, init), Screen(mask, rows, t, serials), init, serials[|serials| - 1], serials);
    }
  }

  /** All-or-nothing survives one step that puts `s` in exactly one of the two lists. */
  lemma AllOrNothingStep(prev: Screening, sc: Screening, init: seq<string>, s: string, serials: seq<string>)
    requires serials == init + [s]
    requires prev.validationErrors == [] <==> prev.validSerialNumbers == init
    requires |sc.validationErrors| + |sc.validSerialNumbers| == |serials|
    requires || (ErrorSerials(sc.validationErrors) == ErrorSerials(prev.validationErrors) + [s]
                 && sc.validSerialNumbers == prev.validSerialNumbers)
             || (sc.validationErrors == prev.validationErrors
                 && sc.validSerialNumbers == prev.validSerialNumbers + [s])
    ensures sc.validationErrors == [] <==> sc.validSerialNumbers == serials
  {
    if sc.validationErrors == [] {
      assert |ErrorSerials(sc.validationErrors)| == 0;
    }
  }

  /**
    A serial that matches the mask and is held by no active row is accepted exactly once;
    every other occurrence is reported as an error (`FirstCleanOccurrenceAccepted` and
    `LaterCleanOccurrenceReported` say which occurrence is which).
  */
  lemma CleanSerialAcceptedOnce(mask: string, rows: map<RowId, Equipment>, t: TypeId, serials: seq<string>, s: string)
    requires s in serials && ValidateSerialNumber(mask, s) && !PairExists(rows, t, s, ActiveOnly)
    ensures var sc := Screen(mask, rows, t, serials);
      && multiset(sc.validSerialNumbers)[s] == 1
      && multiset(ErrorSerials(sc.validationErrors))[s] == multiset(serials)[s] - 1
  {
    CleanSerialAccepted(mask, rows, t, serials, s);
    ScreenAcceptsOnlyClean(mask, rows, t, serials);
    ScreenPartitionsInput(mask, rows, t, serials);
    var v := Screen(mask, rows, t, serials).validSerialNumbers;
    DistinctCountsOnce(v, s);
  }

  lemma {:induction false} CleanSerialAccepted(mask: string, rows: map<RowId, Equipment>, t: TypeId, serials: seq<string>, s: string)
    requires s in serials && ValidateSerialNumber(mask, s) && !PairExists(rows, t, s, ActiveOnly)
    ensures s in Screen(mask, rows, t, serials).validSerialNumbers
  {
    var init := serials[..|serials| - 1];
    assert serials == init + [serials[|serials| - 1]];
    if s in init {
      CleanSerialAccepted(mask, rows, t, init, s);
    }
  }

  lemma {:induction false} DistinctCountsOnce(v: seq<string>, s: string)
    requires Distinct(v) && s in v
    ensures multiset(v)[s] == 1
  {
    var i :| 0 <= i < |v| && v[i] == s;
    assert v == v[..i] + [s] + v[i + 1..];
    assert s !in v[..i] && s !in v[i + 1..];
    assert multiset(v[..i])[s] == 0 && multiset(v[i + 1..])[s] == 0;
  }

  /** Every accepted serial comes from the input. */
  lemma {:induction false} ScreenAcceptsFromInput(mask: string, rows: map<RowId, Equipment>, t: TypeId, serials: seq<string>)
    ensures forall s :: s in Screen(mask, rows, t, serials).validSerialNumbers ==> s in serials
  {
    if serials != [] {
      ScreenAcceptsFromInput(mask, rows, t, serials[..|serials| - 1]);
      LastSplitsOff(serials);
    }
  }

  /**
    The pass works in input order and never revises an entry: screening a prefix of the
    input gives a prefix of the error report and a prefix of the accepted list.
  */
  lemma {:induction false} ScreenPrefix(mask: string, rows: map<RowId, Equipment>, t: TypeId, serials: seq<string>, i: nat)
    requires i <= |serials|
    ensures var prev, sc := Screen(mask, rows, t, serials[..i]), Screen(mask, rows, t, serials);
      prev.validationErrors <= sc.validationErrors && prev.validSerialNumbers <= sc.validSerialNumbers
  {
    if i == |serials| {
      assert serials[..i] == serials;
    } else {
      var init := serials[..|serials| - 1];
      assert init[..i] == serials[..i];
      ScreenPrefix(mask, rows, t, init, i);
      PrefixTrans(Screen(mask, rows, t, serials[..i]).validationErrors, Screen(mask, rows, t, init).validationErrors,
                  Screen(mask, rows, t, serials).validationErrors);
      PrefixTrans(Screen(mask, rows, t, serials[..i]).validSerialNumbers, Screen(mask, rows, t, init).validSerialNumbers,
                  Screen(mask, rows, t, serials).validSerialNumbers);
    }
  }

  lemma PrefixTrans<T>(a: seq<T>, b: seq<T>, c: seq<T>)
    requires a <= b && b <= c
    ensures a <= c
  {
    assert c[..|b|][..|a|] == c[..|a|];
  }

  /** The first occurrence of a clean serial is the one accepted, appended when the pass reaches it. */
  lemma FirstCleanOccurrenceAccepted(mask: string, rows: map<RowId, Equipment>, t: TypeId, serials: seq<string>, i: nat)
    requires i < |serials| && serials[i] !in serials[..i]
    requires ValidateSerialNumber(mask, serials[i]) && !PairExists(rows, t, serials[i], ActiveOnly)
    ensures var prev, sc := Screen(mask, rows, t, serials[..i]), Screen(mask, rows, t, serials[..i + 1]);
      sc.validSerialNumbers == prev.validSerialNumbers + [serials[i]] && sc.validationErrors == prev.validationErrors
  {
    var upTo := serials[..i + 1];
    assert upTo[..|upTo| - 1] == serials[..i] && upTo[|upTo| - 1] == serials[i];
    ScreenAcceptsFromInput(mask, rows, t, serials[..i]);
  }

  /** A later occurrence of a clean serial is reported, with the duplicate reason alone, when the pass reaches it. */
  lemma LaterCleanOccurrenceReported(mask: string, rows: map<RowId, Equipment>, t: TypeId, serials: seq<string>, i: nat, j: nat)
    requires i < j < |serials| && serials[i] == serials[j]
    requires ValidateSerialNumber(mask, serials[j]) && !PairExists(rows, t, serials[j], ActiveOnly)
    ensures var prev, sc := Screen(mask, rows, t, serials[..j]), Screen(mask, rows, t, serials[..j + 1]);
      && sc.validSerialNumbers == prev.validSerialNumbers
      && sc.validationErrors == prev.validationErrors + [SerialError(serials[j], [DuplicateInRequest])]
  {
    assert serials[..j][i] == serials[j];
    CleanSerialAccepted(mask, rows, t, serials[..j], serials[j]);
    var upTo := serials[..j + 1];
    assert upTo[..|upTo| - 1] == serials[..j] && upTo[|upTo| - 1] == serials[j];
    var prev := Screen(mask, rows, t, serials[..j]);
    assert serials[j] in prev.validSerialNumbers;
    assert Reasons(mask, rows, t, prev.validSerialNumbers, serials[j]) == [DuplicateInRequest];
    assert Screen(mask, rows, t, upTo) == prev.(validationErrors := prev.validationErrors + [SerialError(serials[j], [DuplicateInRequest])]);
  }

  /** A clean input without repeats is accepted whole, in order, with an empty report. */
  lemma {:induction false} CleanDistinctInputAccepted(mask: string, rows: map<RowId, Equipment>, t: TypeId, serials: seq<string>)
    requires Distinct(serials)
    requires forall s :: s in serials ==> ValidateSerialNumber(mask, s) && !PairExists(rows, t, s, ActiveOnly)
    ensures Screen(mask, rows, t, serials) == Screening([], serials)
  {
    if serials != [] {
      var init, last := serials[..|serials| - 1], serials[|serials| - 1];
      LastSplitsOff(serials);
      CleanDistinctInputAccepted(mask, rows, t, init);
      assert last !in init;
    }
  }

  /**
    A serial that fails the mask or is held by an active row is reported once per occurrence,
    never as a duplicate, since it is never accepted.
  */
  lemma RejectedSerialReportedPerOccurrence(mask: string, rows: map<RowId, Equipment>, t: TypeId, serials: seq<string>, s: string)
    requires !ValidateSerialNumber(mask, s) || PairExists(rows, t, s, ActiveOnly)
    ensures var sc := Screen(mask, rows, t, serials);
      && multiset(ErrorSerials(sc.validationErrors))[s] == multiset(serials)[s]
      && forall e :: e in sc.validationErrors && e.serialNumber == s ==> DuplicateInRequest !in e.errors
  {
    ScreenAcceptsOnlyClean(mask, rows, t, serials);
    ScreenPartitionsInput(mask, rows, t, serials);
    ScreenReasonsAreExact(mask, rows, t, serials);
    var v := Screen(mask, rows, t, serials).validSerialNumbers;
    assert s !in v;
    assert multiset(v)[s] == 0;
  }

  // ---------------------------------------------------------------------------
  // Batch intake: the serializer's fields and the whole validate
  // ---------------------------------------------------------------------------

  /** Errors of the `serial_numbers` field: `min_length=1`, and each child `max_length=100`. */
  datatype SerialListError = EmptySerialList | SerialsTooLong(indices: seq<nat>)

  datatype IntakeError =
    | FieldErrors(typeNotFound: bool, serialNumbers: Option<SerialListError>)
    | ValidationReport(validationErrors: seq<SerialError>)

  /** The positions of serials longer than the limit, in increasing order. */
  function TooLongIndices(serials: seq<string>): (r: seq<nat>)
    ensures forall k :: k in r <==> 0 <= k < |serials| && |serials[k]| > SerialMaxLength
    ensures forall i, j :: 0 <= i < j < |r| ==> r[i] < r[j]
    ensures forall i :: 0 <= i < |r| ==> r[i] < |serials|
  {
    if serials == [] then []
    else
      var init := serials[..|serials| - 1];
      TooLongIndices(init) + (if |serials[|serials| - 1]| > SerialMaxLength then [|serials| - 1] else [])
  }

  /** Field validation of `serial_numbers`: the child fields first, then the list's length. */
  function CheckSerialList(serials: seq<string>): (r: Option<SerialListError>)
    ensures r == None <==> |serials| >= 1 && forall k :: 0 <= k < |serials| ==> |serials[k]| <= SerialMaxLength
    ensures r == Some(EmptySerialList) <==> serials == []
  {
    var tooLong := TooLongIndices(serials);
    if tooLong != [] then
      assert tooLong[0] in tooLong;
      Some(SerialsTooLong(tooLong))
    else if serials == [] then Some(EmptySerialList)
    else None
  }

  /**
    What `EquipmentCreateSerializer.is_valid` decides: field errors first; then the
    validation pass, whose accepted list is the result when no serial has a reason.
  */
  function IntakeVerdict(types: map<TypeId, EquipmentType>, rows: map<RowId, Equipment>, t: TypeId, serials: seq<string>)
    : Result<seq<string>, IntakeError>
  {
    if t !in types || CheckSerialList(serials).Some? then
      Err(FieldErrors(t !in types, CheckSerialList(serials)))
    else
      var sc := Screen(types[t].serialMask, rows, t, serials);
      if sc.validationErrors != [] then Err(ValidationReport(sc.validationErrors))
      else Ok(sc.validSerialNumbers)
  }

  /** `EquipmentCreateSerializer.validate` on a store, after the field checks. */
  method ValidateIntake(store: EquipmentStore, t: TypeId, serials: seq<string>) returns (r: Result<seq<string>, IntakeError>)
    requires store.Valid()
    ensures r == IntakeVerdict(store.types, store.rows, t, serials)
  {
    var listError := CheckSerialList(serials);
    if t !in store.types || listError.Some? {
      return Err(FieldErrors(t !in store.types, listError));
    }
    var validationErrors, validSerialNumbers := ValidateSerials(store.types[t].serialMask, store.rows, t, serials);
    if validationErrors != [] {
      return Err(ValidationReport(validationErrors));
    }
    r := Ok(validSerialNumbers);
  }

  /**
    An accepted request yields the input list itself, nonempty, in order, pairwise distinct,
    every serial within the length limit, matching the mask and held by no active row. A
    report lists at least one serial, and no more entries than the request has serials.
  */
  lemma IntakeVerdictMeaning(types: map<TypeId, EquipmentType>, rows: map<RowId, Equipment>, t: TypeId, serials: seq<string>)
    ensures var r := IntakeVerdict(types, rows, t, serials);
      && (r.Ok? ==>
           && t in types && r.value == serials && |serials| >= 1 && Distinct(serials)
           && forall s :: s in serials ==>
                |s| <= SerialMaxLength && ValidateSerialNumber(types[t].serialMask, s) && !PairExists(rows, t, s, ActiveOnly))
      && (r.Err? && r.error.ValidationReport? ==> 1 <= |r.error.validationErrors| <= |serials|)
    ensures t in types && |serials| >= 1 && Distinct(serials)
            && (forall s :: s in serials ==>
                  |s| <= SerialMaxLength && ValidateSerialNumber(types[t].serialMask, s) && !PairExists(rows, t, s, ActiveOnly))
            ==> IntakeVerdict(types, rows, t, serials) == Ok(serials)
  {
    if t in types && CheckSerialList(serials).None? {
      var mask := types[t].serialMask;
      ScreenAllOrNothing(mask, rows, t, serials);
      ScreenAcceptsOnlyClean(mask, rows, t, serials);
      ScreenPartitionsInput(mask, rows, t, serials);
    }
    if t in types && |serials| >= 1 && Distinct(serials)
       && (forall s :: s in serials ==>
             |s| <= SerialMaxLength && ValidateSerialNumber(types[t].serialMask, s) && !PairExists(rows, t, s, ActiveOnly)) {
      assert forall k :: 0 <= k < |serials| ==> serials[k] in serials;
      CleanDistinctInputAccepted(types[t].serialMask, rows, t, serials);
    }
  }

  // ---------------------------------------------------------------------------
  // Batch intake: EquipmentCreateSerializer.create
  // ---------------------------------------------------------------------------

  /** The note every new record gets: the request's note, or '' when it has none. */
  function NoteOrDefault(note: Option<string>): string
  {
    match note
    case Some(n) => n
    case None => ""
  }

  /** The unsaved records `create` builds: same type, same note, active, in input order. */
  function NewRecords(t: TypeId, serials: seq<string>, note: string): (r: seq<Equipment>)
    ensures |r| == |serials|
    ensures forall i :: 0 <= i < |serials| ==> r[i] == Equipment(t, serials[i], Some(note), None)
  {
    if serials == [] then []
    else NewRecords(t, serials[..|serials| - 1], note) + [Equipment(t, serials[|serials| - 1], Some(note), None)]
  }

  /**
    `EquipmentCreateSerializer.create` (atomic): builds one record per accepted serial, then
    inserts them all in one bulk insert; on any failure no row is left behind.
  */
  method Create(store: EquipmentStore, t: TypeId, validSerialNumbers: seq<string>, note: Option<string>)
    returns (r: Result<seq<RowId>, StoreError>)
    requires store.Valid()
    modifies store
    ensures store.Valid() && store.types == old(store.types)
    ensures r.Err? <==> (t !in old(store.types) && validSerialNumbers != [])
                        || Conflicts(old(store.rows), NewRecords(t, validSerialNumbers, NoteOrDefault(note)))
    ensures r.Err? ==> store.rows == old(store.rows)
    ensures r.Ok? ==> |r.value| == |validSerialNumbers|
    ensures r.Ok? ==> forall i :: 0 <= i < |validSerialNumbers| ==>
      r.value[i] !in old(store.rows) && r.value[i] in store.rows &&
      store.rows[r.value[i]] == Equipment(t, validSerialNumbers[i], Some(NoteOrDefault(note)), None)
    ensures r.Ok? ==> store.rows == Appended(old(store.rows), old(store.nextRowId), NewRecords(t, validSerialNumbers, NoteOrDefault(note)))
  {
    var noteValue := NoteOrDefault(note);
    var equipmentList := [];
    for i := 0 to |validSerialNumbers|
      invariant equipmentList == NewRecords(t, validSerialNumbers[..i], noteValue)
    {
      equipmentList := equipmentList + [Equipment(t, validSerialNumbers[i], Some(noteValue), None)];
      assert validSerialNumbers[..i + 1][..i] == validSerialNumbers[..i];
    }
    assert validSerialNumbers[..|validSerialNumbers|] == validSerialNumbers;
    r := store.BulkInsert(equipmentList);
    if t !in old(store.types) && validSerialNumbers != [] {
      assert equipmentList[0].equipmentType !in old(store.types);
    }
  }

  /**
    After a request passes validation, the insert fails exactly when a SOFT-DELETED row of
    the type holds one of its serials: validation looks at active rows only, while the
    uniqueness constraint covers every row.
  */
  lemma CommitFailsOnlyOnDeletedHolder(mask: string, rows: map<RowId, Equipment>, t: TypeId, serials: seq<string>, note: string)
    requires UniquePairs(rows)
    requires Screen(mask, rows, t, serials).validationErrors == []
    ensures Conflicts(rows, NewRecords(t, serials, note)) <==>
      exists i :: 0 <= i < |serials| && PairExists(rows, t, serials[i], DeletedOnly)
  {
    ScreenAllOrNothing(mask, rows, t, serials);
    ScreenAcceptsOnlyClean(mask, rows, t, serials);
    var records := NewRecords(t, serials, note);
    forall i | 0 <= i < |serials|
      ensures PairExists(rows, t, serials[i], All) <==> PairExists(rows, t, serials[i], DeletedOnly)
    {
      PairExistsByState(rows, t, serials[i]);
      assert serials[i] in serials;
    }
    forall i, j | 0 <= i < j < |records|
      ensures !SamePair(records[i], records[j])
    {
    }
  }

  /**
    The discrepancy in one request: a serial held only by a soft-deleted row of the type,
    and matching its mask, passes validation, yet the insert is rejected.
  */
  lemma DeletedSerialPassesValidationFailsCommit(mask: string, rows: map<RowId, Equipment>, id: RowId, note: string)
    requires UniquePairs(rows) && id in rows && IsDeleted(rows[id])
    requires ValidateSerialNumber(mask, rows[id].serialNumber)
    ensures var t, s := rows[id].equipmentType, rows[id].serialNumber;
      && Screen(mask, rows, t, [s]).validationErrors == []
      && Conflicts(rows, NewRecords(t, [s], note))
  {
    var t, s := rows[id].equipmentType, rows[id].serialNumber;
    DeletedHolderExcludesActive(rows, id);
    assert [s][..0] == [];
    var records := NewRecords(t, [s], note);
    assert records[0] == Equipment(t, s, Some(note), None);
    assert PairExists(rows, records[0].equipmentType, records[0].serialNumber, All);
  }

  // ---------------------------------------------------------------------------
  // Single-record checks
  // ---------------------------------------------------------------------------

  /** The outcome of a single-record validate. */
  datatype Verdict = Accepted | SerialMismatch(mask: string) | SerialTaken

  /**
    `EquipmentSerializer.validate`: only when both type and a non-empty serial are given.
    The mask is checked first; on create, an active row holding the pair rejects; on update,
    the pair is checked only if type or serial changed, and the record itself is excluded.
  */
  function ValidateEquipment(types: map<TypeId, EquipmentType>, rows: map<RowId, Equipment>,
                             equipmentType: Option<TypeId>, serialNumber: Option<string>, instance: Option<RowId>): (v: Verdict)
    requires equipmentType.Some? ==> equipmentType.value in types
    requires instance.Some? ==> instance.value in rows
    ensures v.SerialMismatch? <==>
      equipmentType.Some? && serialNumber.Some? && serialNumber.value != "" &&
      !ValidateSerialNumber(types[equipmentType.value].serialMask, serialNumber.value)
    ensures v.SerialMismatch? ==> v.mask == types[equipmentType.value].serialMask
    ensures v.SerialTaken? ==>
      && equipmentType.Some? && serialNumber.Some?
      && ValidateSerialNumber(types[equipmentType.value].serialMask, serialNumber.value)
      && (instance.None? ==> PairExists(rows, equipmentType.value, serialNumber.value, ActiveOnly))
      && (instance.Some? ==> PairExistsExcept(rows, equipmentType.value, serialNumber.value, ActiveOnly, instance.value))
    ensures v.Accepted? && equipmentType.Some? && serialNumber.Some? && serialNumber.value != "" ==>
      && ValidateSerialNumber(types[equipmentType.value].serialMask, serialNumber.value)
      && (instance.None? ==> !PairExists(rows, equipmentType.value, serialNumber.value, ActiveOnly))
      && (instance.Some? && UniquePairs(rows) ==>
            !PairExistsExcept(rows, equipmentType.value, serialNumber.value, ActiveOnly, instance.value))
  {
    if equipmentType.Some? && serialNumber.Some? && serialNumber.value != "" then
      var t, s := equipmentType.value, serialNumber.value;
      if !ValidateSerialNumber(types[t].serialMask, s) then SerialMismatch(types[t].serialMask)
      else if instance.None? then
        if PairExists(rows, t, s, ActiveOnly) then SerialTaken else Accepted
      else if rows[instance.value].equipmentType != t || rows[instance.value].serialNumber != s then
        if PairExistsExcept(rows, t, s, ActiveOnly, instance.value) then SerialTaken else Accepted
      else
        UnchangedPairHeldByNoOther(rows, instance.value);
        Accepted
    else Accepted
  }

  /** Under the constraint, the pair a row holds is held by no other row. */
  lemma UnchangedPairHeldByNoOther(rows: map<RowId, Equipment>, instance: RowId)
    requires instance in rows
    ensures UniquePairs(rows) ==>
      !PairExistsExcept(rows, rows[instance].equipmentType, rows[instance].serialNumber, ActiveOnly, instance)
  {
  }

  /**
    `EquipmentUpdateSerializer.validate`: missing fields are taken from the record; then
    the mask, then the pair among active rows other than the record itself.
  */
  function ValidateUpdate(types: map<TypeId, EquipmentType>, rows: map<RowId, Equipment>, instance: RowId,
                          equipmentType: Option<TypeId>, serialNumber: Option<string>): (v: Verdict)
    requires instance in rows && rows[instance].equipmentType in types
    requires equipmentType.Some? ==> equipmentType.value in types
    ensures var t := if equipmentType.Some? then equipmentType.value else rows[instance].equipmentType;
      var s := if serialNumber.Some? then serialNumber.value else rows[instance].serialNumber;
      && (v.SerialMismatch? <==> !ValidateSerialNumber(types[t].serialMask, s))
      && (v.SerialTaken? <==> ValidateSerialNumber(types[t].serialMask, s) && PairExistsExcept(rows, t, s, ActiveOnly, instance))
  {
    var t := match equipmentType case Some(x) => x case None => rows[instance].equipmentType;
    var s := match serialNumber case Some(x) => x case None => rows[instance].serialNumber;
    if !ValidateSerialNumber(types[t].serialMask, s) then SerialMismatch(types[t].serialMask)
    else if PairExistsExcept(rows, t, s, ActiveOnly, instance) then SerialTaken
    else Accepted
  }

  /**
    With both fields given and a non-empty serial, the update serializer and the general
    serializer reach the same verdict on a store that keeps the uniqueness constraint.
  */
  lemma UpdateAgreesWithEquipmentSerializer(types: map<TypeId, EquipmentType>, rows: map<RowId, Equipment>,
                                            instance: RowId, t: TypeId, s: string)
    requires UniquePairs(rows) && instance in rows && rows[instance].equipmentType in types && t in types && s != ""
    ensures ValidateUpdate(types, rows, instance, Some(t), Some(s)) == ValidateEquipment(types, rows, Some(t), Some(s), Some(instance))
  {
    if rows[instance].equipmentType == t && rows[instance].serialNumber == s {
      UnchangedPairHeldByNoOther(rows, instance);
    }
  }

  // ---------------------------------------------------------------------------
  // EquipmentTypeSerializer
  // ---------------------------------------------------------------------------

  /** The ids of the active rows of type `t` (the reverse relation through the default manager). */
  function ActiveOfType(rows: map<RowId, Equipment>, t: TypeId): set<RowId>
  {
    set id | id in rows && !IsDeleted(rows[id]) && rows[id].equipmentType == t
  }

  /** `get_equipment_count`: the number of active rows of the type. */
  function EquipmentCount(rows: map<RowId, Equipment>, t: TypeId): nat
  {
    |ActiveOfType(rows, t)|
  }

  /** Soft-deleting an active row lowers its type's count by one and leaves other types' counts alone. */
  lemma EquipmentCountAfterSoftDelete(rows: map<RowId, Equipment>, id: RowId, now: Time, u: TypeId)
    requires id in rows && !IsDeleted(rows[id])
    ensures var after := rows[id := SoftDeleted(rows[id], now)];
      EquipmentCount(after, u) == if u == rows[id].equipmentType then EquipmentCount(rows, u) - 1 else EquipmentCount(rows, u)
  {
    var after := rows[id := SoftDeleted(rows[id], now)];
    if u == rows[id].equipmentType {
      assert ActiveOfType(after, u) == ActiveOfType(rows, u) - {id};
    } else {
      assert ActiveOfType(after, u) == ActiveOfType(rows, u);
    }
  }

  /** Model-field limits the type serializer enforces. */
  datatype TypeField = NameField | SerialMaskField

  /** The fields of a type that exceed their `max_length`. */
  function TypeFieldErrors(name: string, mask: string): (r: set<TypeField>)
    ensures NameField in r <==> |name| > NameMaxLength
    ensures SerialMaskField in r <==> |mask| > MaskMaxLength
  {
    (if |name| > NameMaxLength then {NameField} else {}) + (if |mask| > MaskMaxLength then {SerialMaskField} else {})
  }

  /**
    A mask within its limit only accepts serials within the serial limit, so a serial that
    passes the mask never fails the length check.
  */
  lemma MaskLimitBoundsSerials(mask: string, s: string)
    requires SerialMaskField !in TypeFieldErrors("", mask) && ValidateSerialNumber(mask, s)
    ensures |s| <= MaskMaxLength + 1 <= SerialMaxLength
  {
  }
}
