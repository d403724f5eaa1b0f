/**
 `validateRow` (server.js:42-58): checks a row against a reference row. The
 reference row's fields are walked in order; the first field whose value in
 the row is present, not null, and of a different `typeof` than the
 reference's value yields a "Type mismatch" message, except that a numeric
 string is accepted where the reference holds a number. Without a reference
 row, or when no field offends, the result is `null` (`None`).

 Whether a string is numeric (`!isNaN(Number(s))`) is floating-point parsing
 and is not modelled: it is the parameter `isNumeric`.
 */
module Validate {

  import opened Options
  import opened JsValue
  import opened Rows

  /** The offending field, the reference's `typeof` and the row's `typeof`. */
  datatype Mismatch = Mismatch(field: string, expected: string, got: string)

  /** The message text returned for a mismatch. */
  function Message(m: Mismatch): string
  {
    "Type mismatch for field '" + m.field + "': expected " + m.expected + ", got " + m.got
  }

  /** `typeof row[key]`. */
  function SlotType(s: Slot): string
  {
    match s
    case Missing => "undefined"
    case Own(v) => TypeOf(v)
    case Inherited(t) => t
  }

  /** `row[key] !== null && row[key] !== undefined`. */
  predicate Present(s: Slot)
  {
    !s.Missing? && !(s.Own? && s.v.Null?)
  }

  /** The one accepted conversion: a numeric string where the reference holds a number. */
  predicate NumericStringForNumber(s: Slot, expected: Val, isNumeric: string -> bool)
  {
    s.Own? && s.v.Str? && expected.Num? && isNumeric(s.v.s)
  }

  /** The mismatch condition for one reference field. */
  predicate Offends(s: Slot, expected: Val, isNumeric: string -> bool)
  {
    Present(s) && SlotType(s) != TypeOf(expected) && !NumericStringForNumber(s, expected, isNumeric)
  }

  /** Reference field `i` offends in `row`. */
  predicate OffendsAt(row: Row, reference: Row, i: int, lookup: Lookup, isNumeric: string -> bool)
    requires 0 <= i < |reference|
  {
    Offends(Read(row, reference[i].0, lookup), reference[i].1, isNumeric)
  }

  /** The mismatch reported for reference field `i`. */
  function MismatchAt(row: Row, reference: Row, i: int, lookup: Lookup): Mismatch
    requires 0 <= i < |reference|
  {
    Mismatch(reference[i].0, TypeOf(reference[i].1), SlotType(Read(row, reference[i].0, lookup)))
  }

  /** Field `i` is the first offending reference field at or after `from`. */
  predicate FirstOffenceFrom(row: Row, reference: Row, from: int, i: int, lookup: Lookup, isNumeric: string -> bool)
  {
    && from <= i < |reference|
    && 0 <= i
    && OffendsAt(row, reference, i, lookup, isNumeric)
    && forall j :: from <= j < i && 0 <= j ==> !OffendsAt(row, reference, j, lookup, isNumeric)
  }

  /** A first offence after field `from`, which does not offend, is the first offence from `from`. */
  lemma FirstOffenceShift(row: Row, reference: Row, from: nat, i: int, lookup: Lookup, isNumeric: string -> bool)
    requires from < |reference|
    requires !OffendsAt(row, reference, from, lookup, isNumeric)
    requires FirstOffenceFrom(row, reference, from + 1, i, lookup, isNumeric)
    ensures FirstOffenceFrom(row, reference, from, i, lookup, isNumeric)
  {
  }

  /** The `for (const key of Object.keys(referenceRow))` loop, from field `from` on. */
  function FirstMismatchFrom(row: Row, reference: Row, from: nat, lookup: Lookup, isNumeric: string -> bool)
    : (r: Option<Mismatch>)
    requires from <= |reference|
    ensures r.None? <==> forall i :: from <= i < |reference| ==> !OffendsAt(row, reference, i, lookup, isNumeric)
    ensures r.Some? ==> exists i :: FirstOffenceFrom(row, reference, from, i, lookup, isNumeric) &&
                                    r.value == MismatchAt(row, reference, i, lookup)
    decreases |reference| - from
  {
    if from == |reference| then None
    else if OffendsAt(row, reference, from, lookup, isNumeric) then
      assert FirstOffenceFrom(row, reference, from, from, lookup, isNumeric);
      Some(MismatchAt(row, reference, from, lookup))
    else
      var r := FirstMismatchFrom(row, reference, from + 1, lookup, isNumeric);
      assert r.Some? ==> exists i :: FirstOffenceFrom(row, reference, from, i, lookup, isNumeric) &&
                                     r.value == MismatchAt(row, reference, i, lookup) by {
        if r.Some? {
          var i :| FirstOffenceFrom(row, reference, from + 1, i, lookup, isNumeric) &&
                   r.value == MismatchAt(row, reference, i, lookup);
          FirstOffenceShift(row, reference, from, i, lookup, isNumeric);
        }
      }
      r
  }

  /** `validateRow(row, referenceRow)` with a given resolution of `row[key]`. */
  function ValidateRowWith(row: Row, reference: Option<Row>, lookup: Lookup, isNumeric: string -> bool)
    : (r: Option<string>)
    ensures reference.None? ==> r.None?
    ensures reference.Some? ==>
              (r.None? <==> forall i :: 0 <= i < |reference.value| ==>
                                          !OffendsAt(row, reference.value, i, lookup, isNumeric))
    ensures r.Some? ==>
              reference.Some? &&
              exists i :: FirstOffenceFrom(row, reference.value, 0, i, lookup, isNumeric) &&
                          r.value == Message(MismatchAt(row, reference.value, i, lookup))
  {
    match reference
    case None => None
    case Some(ref) =>
      match FirstMismatchFrom(row, ref, 0, lookup, isNumeric)
      case None => None
      case Some(m) => Some(Message(m))
  }

  /**
   `validateRow` exactly as written: `row[key]` also finds members of
   `Object.prototype`, so a reported field is either held by the row with a
   non-null value or missing from it and named like an inherited member.
   */
  function ValidateRowAsWritten(row: Row, reference: Option<Row>, isNumeric: string -> bool): (r: Option<string>)
    ensures r.Some? ==>
              reference.Some? &&
              exists i :: 0 <= i < |reference.value| &&
                          ((Get(row, reference.value[i].0).Some? && !Get(row, reference.value[i].0).value.Null?) ||
                           (Get(row, reference.value[i].0).None? && reference.value[i].0 in ObjectPrototypeMembers)) &&
                          r.value == Message(MismatchAt(row, reference.value, i, PrototypeChain))
  {
    ValidateRowWith(row, reference, PrototypeChain, isNumeric)
  }

  /**
   `validateRow` as intended: a field the row does not own is skipped like an
   undefined one, so every reported field is one the row holds with a
   non-null value.
   */
  function ValidateRow(row: Row, reference: Option<Row>, isNumeric: string -> bool): (r: Option<string>)
    ensures r.Some? ==>
              reference.Some? &&
              exists i :: 0 <= i < |reference.value| &&
                          Get(row, reference.value[i].0).Some? &&
                          !Get(row, reference.value[i].0).value.Null? &&
                          r.value == Message(MismatchAt(row, reference.value, i, OwnProperties))
  {
    ValidateRowWith(row, reference, OwnProperties, isNumeric)
  }

  /** A field that is null or missing in the row never offends, whatever the reference holds. */
  lemma NullOrMissingNeverOffends(row: Row, key: string, expected: Val, isNumeric: string -> bool)
    requires Get(row, key).None? || Get(row, key) == Some(Null)
    ensures !Offends(Read(row, key, OwnProperties), expected, isNumeric)
  {
  }

  /**
   The skip rule as written: a null field never offends, and a missing field
   offends exactly when its name is inherited from `Object.prototype` with a
   `typeof` other than the reference value's.
   */
  lemma AsWrittenSkipRule(row: Row, key: string, expected: Val, isNumeric: string -> bool)
    ensures Get(row, key) == Some(Null) ==> !Offends(Read(row, key, PrototypeChain), expected, isNumeric)
    ensures Get(row, key).None? ==>
              (Offends(Read(row, key, PrototypeChain), expected, isNumeric) <==>
               key in ObjectPrototypeMembers && ObjectPrototypeMembers[key] != TypeOf(expected))
  {
  }

  /** A row that lacks, or holds null in, every reference field is valid. */
  lemma AbsentFieldsPass(row: Row, reference: Row, isNumeric: string -> bool)
    requires forall i :: 0 <= i < |reference| ==>
               Get(row, reference[i].0).None? || Get(row, reference[i].0) == Some(Null)
    ensures ValidateRow(row, Some(reference), isNumeric) == None
  {
    forall i | 0 <= i < |reference|
      ensures !OffendsAt(row, reference, i, OwnProperties, isNumeric)
    {
      NullOrMissingNeverOffends(row, reference[i].0, reference[i].1, isNumeric);
    }
  }

  /**
   The mismatch rule for a present, non-null value `v`: it offends exactly
   when its `typeof` differs from the reference's and it is not a numeric
   string checked against a number. In particular a number is rejected where
   the reference holds a string, and every non-null value is rejected where
   the reference holds null.
   */
  lemma MismatchRule(v: Val, expected: Val, isNumeric: string -> bool)
    requires !v.Null?
    ensures Offends(Own(v), expected, isNumeric) <==>
            TypeOf(v) != TypeOf(expected) && !(v.Str? && expected.Num? && isNumeric(v.s))
    ensures v.Num? && expected.Str? ==> Offends(Own(v), expected, isNumeric)
    ensures expected.Null? ==> Offends(Own(v), expected, isNumeric)
    ensures TypeOf(v) == TypeOf(expected) ==> !Offends(Own(v), expected, isNumeric)
  {
  }

  lemma {:induction false} FirstMismatchFrame(
    row: Row, other: Row, reference: Row, from: nat, lookup: Lookup, isNumeric: string -> bool)
    requires from <= |reference|
    requires forall i :: 0 <= i < |reference| ==> Get(row, reference[i].0) == Get(other, reference[i].0)
    ensures FirstMismatchFrom(row, reference, from, lookup, isNumeric) ==
            FirstMismatchFrom(other, reference, from, lookup, isNumeric)
    decreases |reference| - from
  {
    if from < |reference| {
      var key := reference[from].0;
      assert Get(row, key) == Get(other, key);
      assert Read(row, key, lookup) == Read(other, key, lookup);
      FirstMismatchFrame(row, other, reference, from + 1, lookup, isNumeric);
    }
  }

  /**
   Only the reference row's fields are read: two rows that agree on those
   fields get the same verdict, whatever else they hold.
   */
  lemma OnlyReferenceFieldsMatter(
    row: Row, other: Row, reference: Row, lookup: Lookup, isNumeric: string -> bool)
    requires forall i :: 0 <= i < |reference| ==> Get(row, reference[i].0) == Get(other, reference[i].0)
    ensures ValidateRowWith(row, Some(reference), lookup, isNumeric) ==
            ValidateRowWith(other, Some(reference), lookup, isNumeric)
  {
    FirstMismatchFrame(row, other, reference, 0, lookup, isNumeric);
  }

  /** Fields present only in the row never change the verdict, under either name resolution. */
  lemma ExtraFieldsIgnored(row: Row, extra: Row, reference: Row, lookup: Lookup, isNumeric: string -> bool)
    requires forall i, k :: 0 <= i < |reference| && 0 <= k < |extra| ==> extra[k].0 != reference[i].0
    ensures ValidateRowWith(row + extra, Some(reference), lookup, isNumeric) ==
            ValidateRowWith(row, Some(reference), lookup, isNumeric)
  {
    forall i | 0 <= i < |reference|
      ensures Get(row + extra, reference[i].0) == Get(row, reference[i].0)
    {
      GetAppend(row, extra, reference[i].0);
    }
    OnlyReferenceFieldsMatter(row + extra, row, reference, lookup, isNumeric);
  }

  lemma {:induction false} AsWrittenAgreesFrom(row: Row, reference: Row, from: nat, isNumeric: string -> bool)
    requires from <= |reference|
    requires forall i :: 0 <= i < |reference| ==>
               reference[i].0 !in ObjectPrototypeMembers || Get(row, reference[i].0).Some?
    ensures FirstMismatchFrom(row, reference, from, PrototypeChain, isNumeric) ==
            FirstMismatchFrom(row, reference, from, OwnProperties, isNumeric)
    decreases |reference| - from
  {
    if from < |reference| {
      var key := reference[from].0;
      assert Read(row, key, PrototypeChain) == Read(row, key, OwnProperties);
      AsWrittenAgreesFrom(row, reference, from + 1, isNumeric);
    }
  }

  /**
   The code as written and the intended validator agree unless a reference
   field the row lacks is named like an `Object.prototype` member.
   */
  lemma AsWrittenAgrees(row: Row, reference: Option<Row>, isNumeric: string -> bool)
    requires reference.Some? ==>
               forall i :: 0 <= i < |reference.value| ==>
                 reference.value[i].0 !in ObjectPrototypeMembers || Get(row, reference.value[i].0).Some?
    ensures ValidateRowAsWritten(row, reference, isNumeric) == ValidateRow(row, reference, isNumeric)
  {
    if reference.Some? {
      AsWrittenAgreesFrom(row, reference.value, 0, isNumeric);
    }
  }

  /**
   As written, a reference column named `toString` that the row lacks is
   reported as a mismatch against the inherited method, although a missing
   field is meant to be skipped.
   */
  lemma InheritedMemberCounterexample(isNumeric: string -> bool)
    ensures ValidateRowAsWritten([], Some([("toString", Str("x"))]), isNumeric) ==
            Some(Message(Mismatch("toString", "string", "function")))
    ensures ValidateRow([], Some([("toString", Str("x"))]), isNumeric) == None
  {
    var reference := [("toString", Str("x"))];
    assert Read([], "toString", PrototypeChain) == Inherited("function");
    assert OffendsAt([], reference, 0, PrototypeChain, isNumeric);
    assert FirstMismatchFrom([], reference, 0, PrototypeChain, isNumeric) ==
           Some(Mismatch("toString", "string", "function"));
    assert Read([], "toString", OwnProperties) == Missing;
    assert !OffendsAt([], reference, 0, OwnProperties, isNumeric);
  }
}
