/**
 Row objects: one record of the sheet, a mapping from column name to cell
 value. A row is kept as the sequence of its own properties in enumeration
 order, the order `Object.keys` and `Object.values` list them in.
 */
module Rows {

  import opened Options
  import opened JsValue

  type Field = (string, Val)
  type Row = seq<Field>

  /** A JavaScript object never holds two own properties with the same name. */
  predicate DistinctNames(row: Row)
  {
    forall i, j :: 0 <= i < j < |row| ==> row[i].0 != row[j].0
  }

  /**
   Own-property lookup: the value of the first field named `name`, or `None`
   (JavaScript `undefined`) when the row has no such own property.
   */
  function Get(row: Row, name: string): (r: Option<Val>)
    ensures r.None? <==> forall i :: 0 <= i < |row| ==> row[i].0 != name
    ensures r.Some? ==>
              exists i :: 0 <= i < |row| && row[i] == (name, r.value) &&
                          forall j :: 0 <= j < i ==> row[j].0 != name
  {
    if |row| == 0 then None
    else if row[0].0 == name then Some(row[0].1)
    else
      var r := Get(row[1..], name);
      assert r.Some? ==> exists i :: 0 <= i < |row| && row[i] == (name, r.value) &&
                                     forall j :: 0 <= j < i ==> row[j].0 != name by {
        if r.Some? {
          var k :| 0 <= k < |row[1..]| && row[1..][k] == (name, r.value) &&
                   forall j :: 0 <= j < k ==> row[1..][j].0 != name;
          assert row[k + 1] == (name, r.value);
          assert forall j :: 0 <= j < k + 1 ==> row[j].0 != name by {
            forall j | 0 <= j < k + 1 ensures row[j].0 != name {
              if j > 0 { assert row[j] == row[1..][j - 1]; }
            }
          }
        }
      }
      r
  }

  /** In a well-formed row, looking up a field's own name finds that field. */
  lemma GetField(row: Row, i: int)
    requires DistinctNames(row)
    requires 0 <= i < |row|
    ensures Get(row, row[i].0) == Some(row[i].1)
  {
    var r := Get(row, row[i].0);
    var k :| 0 <= k < |row| && row[k] == (row[i].0, r.value) &&
             forall j :: 0 <= j < k ==> row[j].0 != row[i].0;
  }

  /** Appending fields with other names does not change a lookup. */
  lemma {:induction false} GetAppend(row: Row, extra: Row, name: string)
    requires forall i :: 0 <= i < |extra| ==> extra[i].0 != name
    ensures Get(row + extra, name) == Get(row, name)
  {
    if |row| == 0 {
      assert row + extra == extra;
    } else {
      assert (row + extra)[0] == row[0];
      assert (row + extra)[1..] == row[1..] + extra;
      GetAppend(row[1..], extra, name);
    }
  }

  /**
   What `row[name]` yields: an own property, a member inherited from
   `Object.prototype` (seen only through `typeof`), or `undefined`.
   */
  datatype Slot = Missing | Own(v: Val) | Inherited(tag: string)

  /** How a property read resolves names. */
  datatype Lookup =
    | OwnProperties   // own properties only: a missing name reads as `undefined`
    | PrototypeChain  // JavaScript `row[name]` on a plain object

  /**
   The members every plain object inherits from `Object.prototype`, with
   their `typeof`: all are methods except the `__proto__` accessor, which
   yields the prototype object itself.
   */
  const ObjectPrototypeMembers: map<string, string> := map[
    "constructor" := "function",
    "__defineGetter__" := "function",
    "__defineSetter__" := "function",
    "hasOwnProperty" := "function",
    "__lookupGetter__" := "function",
    "__lookupSetter__" := "function",
    "isPrototypeOf" := "function",
    "propertyIsEnumerable" := "function",
    "toString" := "function",
    "valueOf" := "function",
    "__proto__" := "object",
    "toLocaleString" := "function"
  ]

  /** `row[name]` under the given name resolution. */
  function Read(row: Row, name: string, lookup: Lookup): Slot
  {
    match Get(row, name)
    case Some(v) => Own(v)
    case None =>
      if lookup.PrototypeChain? && name in ObjectPrototypeMembers
      then Inherited(ObjectPrototypeMembers[name])
      else Missing
  }

  /**
   The two resolutions differ only on names that are missing from the row and
   inherited from `Object.prototype`.
   */
  lemma ReadDiffersOnlyOnInherited(row: Row, name: string)
    ensures Read(row, name, PrototypeChain) != Read(row, name, OwnProperties) <==>
            Get(row, name).None? && name in ObjectPrototypeMembers
    ensures Read(row, name, OwnProperties).Inherited? == false
  {
  }
}
