# Row key and row validation helpers of the Excel import server

This project models, in Dafny, the two pure helpers of `server.js`, the
Express server that imports the first sheet of an Excel workbook into a JSON
storage file:

- `getRowKey(row)` derives an identity string for a row: the `id` property
  rendered with `String(...)` when it is present and not null, and otherwise
  the row's values, in property order, joined with `'|'`.
- `validateRow(row, referenceRow)` walks the reference row's fields in order
  and returns the first "Type mismatch" message, or `null`. A field whose
  `row[key]` is null or undefined is skipped, and a numeric string is
  accepted where the reference holds a number. Because `row[key]` also finds
  the members every object inherits from `Object.prototype`, a missing field
  named `toString`, `constructor` and the like is not skipped (see
  "## Findings"). The model keeps this validator as written and a corrected
  one that skips every field the row does not own.

Nothing in `server.js` calls either helper; the import route overwrites the
storage file wholesale (server.js:67-73).

Layout:

- `options.dfy`: `Option`, standing for a JavaScript `undefined`/`null` result.
- `js_value.dfy` (module `JsValue`): cell values `Str | Num | Bool | Null`,
  `typeof`, `String(...)` and the element rendering of `Array.prototype.join`.
- `rows.dfy` (module `Rows`): a row as its ordered own properties, own-property
  lookup `Get`, and `Read`, which resolves `row[key]` with or without the
  members every plain object inherits from `Object.prototype`.
- `row_key.dfy` (module `RowKey`): `GetRowKey`, `Join` and its inverse `Split`.
- `validate.dfy` (module `Validate`): `ValidateRowWith`, the loop of
  `validateRow` under either name resolution, and the two instances
  `ValidateRowAsWritten` and `ValidateRow`.

Two JavaScript conversions are floating-point semantics and are parameters,
about which nothing is assumed. `render: real -> string` is `String(n)` on a
number. `isNumeric: string -> bool` is `!isNaN(Number(s))`.

## Model

| member | source | states |
|---|---|---|
| JsValue.TypeOf | server.js:47 | `typeof` of a cell value is one of "string", "number", "boolean", "object", and it is "object" exactly for null |
| JsValue.TypeOfDistinguishesKinds | server.js:47 | two values have the same `typeof` exactly when they are the same kind of value |
| Rows.Get | server.js:36 | the lookup is undefined exactly when no field has the name; otherwise it yields the value of the first field with that name |
| Rows.GetField | server.js:45-46 | in a row with distinct names, each field's own name finds that field's value |
| Rows.ReadDiffersOnlyOnInherited | server.js:46 | `row[key]` through the prototype chain differs from own-property lookup only for names the row lacks and `Object.prototype` provides |
| RowKey.KeyFromId | server.js:36 | a row whose `id` is present and not null is keyed by `String(id)` alone |
| RowKey.SameIdSameKey | server.js:36 | two rows with the same non-null `id` get the same key, whatever their other fields hold |
| RowKey.FallbackKey | server.js:37-38 | for a row with at least one field and no usable `id`, splitting the key at the separator gives one segment per field in order, a null value gives an empty segment, and `n` fields give exactly `n-1` separators when no value contains the separator |
| RowKey.EmptyRowKey | server.js:38 | a row with no fields has the empty key |
| RowKey.KeyCollisions | server.js:37-38 | the key is not injective: a value containing the separator collides with two fields, and a string `id` collides with a one-field row of the same text |
| RowKey.SplitJoin | server.js:38 | splitting a join of separator-free segments gives the segments back |
| RowKey.JoinSplit | server.js:38 | joining the pieces of any string at the separator gives the string back |
| RowKey.JoinSeparatorCount | server.js:38 | the join of `n` separator-free segments holds exactly `n-1` separators |
| Validate.FirstMismatchFrom | server.js:45-54 | the loop finds no mismatch exactly when no remaining reference field offends; otherwise it reports the first offending field with its expected and actual `typeof` |
| Validate.ValidateRowWith | server.js:42-58 | no reference row means valid; otherwise the result is null exactly when no reference field offends, and else the message for the first offending field in reference order |
| Validate.ValidateRowAsWritten | server.js:42-58 | as written, every reported field is either held by the row with a non-null value or missing from it and named like an `Object.prototype` member, and the message names its expected and actual `typeof` |
| Validate.AsWrittenSkipRule | server.js:46-50 | as written, a null field never offends, and a missing field offends exactly when its name is inherited from `Object.prototype` with a `typeof` other than the reference value's |
| Validate.ValidateRow | server.js:42-58 | every reported field is one the row holds with a non-null value, and the message names its expected and actual `typeof` (corrected validator, see ## Findings) |
| Validate.NullOrMissingNeverOffends | server.js:46 | a field that is null or missing in the row never offends, whatever the reference holds (corrected validator, see ## Findings) |
| Validate.AbsentFieldsPass | server.js:44-46 | a row that lacks, or holds null in, every reference field is valid (corrected validator, see ## Findings) |
| Validate.MismatchRule | server.js:47-50 | a present non-null value offends exactly when its `typeof` differs and it is not a numeric string checked against a number; a number against a string and anything against null are rejected |
| Validate.OnlyReferenceFieldsMatter | server.js:45 | rows that agree on the reference fields get the same verdict |
| Validate.ExtraFieldsIgnored | server.js:45 | fields present only in the row never change the verdict, for the validator as written and the corrected one alike |
| Validate.AsWrittenAgrees | server.js:46 | the code as written and the corrected validator agree unless a reference field the row lacks is named like an `Object.prototype` member |
| Validate.InheritedMemberCounterexample | server.js:46-50 | as written, an empty row checked against a reference `{toString: "x"}` is rejected with "expected string, got function"; the corrected validator accepts it |

## Findings

| source | as written | input that shows it | evidently intended | confidence | as-written member | corrected member |
|---|---|---|---|---|---|---|
| server.js:46 | `row[key]` reads through the prototype chain, so a reference field the row lacks but `Object.prototype` provides (`toString`, `constructor`, `valueOf`, ...) counts as present, with `typeof` "function" | `validateRow({}, {toString: "x"})` returns "Type mismatch for field 'toString': expected string, got function" | a field missing from the row is skipped, as the `undefined` check says | medium, not executed | Validate.ValidateRowAsWritten, Validate.InheritedMemberCounterexample | Validate.ValidateRow, Validate.AbsentFieldsPass |

## Left out

- Express setup, CORS, static serving and the HTTP routes (server.js:8-23, 61-107): transport plumbing.
- `ensureStorageDir`, reading and writing `data.json`, and XLSX workbook parsing (server.js:26-30, 63-73, 88-92): file I/O and a library that is not part of this model.
- `String(n)` for numbers and `!isNaN(Number(s))`: floating-point formatting and parsing, taken as the parameters `render` and `isNumeric`.
- JavaScript property enumeration order (integer-like keys first): rows are taken as already ordered sequences of fields.
- Values other than strings, numbers, booleans and null (nested objects, arrays, dates, an own property holding `undefined`), and the special assignment behaviour of a `__proto__` key.
- A null or undefined `row`: `getRowKey` throws a `TypeError` on it; `validateRow` throws only when `referenceRow` has at least one key, and otherwise returns `null` without reading `row`. The model always receives a row.
- `if (referenceRow)` on falsy non-object values such as `0` or `""`: the reference row is an `Option<Row>`, with `None` for null and undefined.
- JavaScript strings are UTF-16 code units; the model's strings are Dafny `char` sequences.
- public/script.js: DOM updates and `fetch` calls, with no logic to model.
