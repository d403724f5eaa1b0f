/**
 `getRowKey` (server.js:34-39): an identity string for a row. The `id`
 property is used when it is present and not null; otherwise the row's
 values are joined with '|' in property order.
 */
module RowKey {

  import opened Options
  import opened JsValue
  import opened Rows

  /** The property that identifies a row when it holds a value. */
  const IdField: string := "id"

  /** The separator of the fallback key. */
  const Separator: char := '|'

  /** `segs.join('|')` (section 23.1.3.18 of ECMA-262). */
  function Join(segs: seq<string>): string
  {
    if |segs| == 0 then ""
    else if |segs| == 1 then segs[0]
    else segs[0] + [Separator] + Join(segs[1..])
  }

  /**
   `s.split('|')` (section 22.1.3.23 of ECMA-262): the maximal runs between
   separators, so the empty string splits into one empty piece.
   */
  function Split(s: string): (pieces: seq<string>)
    ensures |pieces| > 0
    ensures |pieces| == 1 + multiset(s)[Separator]
  {
    if |s| == 0 then [""]
    else
      var rest := Split(s[1..]);
      assert s == [s[0]] + s[1..];
      if s[0] == Separator then [""] + rest
      else [[s[0]] + rest[0]] + rest[1..]
  }

  /** The segments `Object.values(row).join('|')` glues together, one per field. */
  function Segments(row: Row, render: real -> string): seq<string>
  {
    seq(|row|, i requires 0 <= i < |row| => JoinElement(row[i].1, render))
  }

  /** True when `row.id !== undefined && row.id !== null`. */
  predicate HasId(row: Row)
  {
    Get(row, IdField).Some? && !Get(row, IdField).value.Null?
  }

  /** `getRowKey(row)`. */
  function GetRowKey(row: Row, render: real -> string): string
  {
    if HasId(row) then ToJsString(Get(row, IdField).value, render)
    else Join(Segments(row, render))
  }

  predicate NoSeparator(segs: seq<string>)
  {
    forall i :: 0 <= i < |segs| ==> Separator !in segs[i]
  }

  lemma {:induction false} SplitPlain(a: string)
    requires Separator !in a
    ensures Split(a) == [a]
  {
    if |a| > 0 {
      SplitPlain(a[1..]);
      assert [a[0]] + a[1..] == a;
    }
  }

  lemma {:induction false} SplitAfterPlain(a: string, b: string)
    requires Separator !in a
    ensures Split(a + [Separator] + b) == [a] + Split(b)
  {
    var s := a + [Separator] + b;
    if |a| == 0 {
      assert s[0] == Separator && s[1..] == b;
    } else {
      assert s[0] == a[0] && s[1..] == a[1..] + [Separator] + b;
      SplitAfterPlain(a[1..], b);
      assert [a[0]] + a[1..] == a;
    }
  }

  /** Splitting a key built from separator-free segments gives the segments back. */
  lemma {:induction false} SplitJoin(segs: seq<string>)
    requires |segs| > 0
    requires NoSeparator(segs)
    ensures Split(Join(segs)) == segs
  {
    if |segs| == 1 {
      SplitPlain(segs[0]);
    } else {
      SplitAfterPlain(segs[0], Join(segs[1..]));
      SplitJoin(segs[1..]);
      assert [segs[0]] + segs[1..] == segs;
    }
  }

  lemma JoinCons(a: string, rest: seq<string>)
    requires |rest| > 0
    ensures Join([a] + rest) == a + [Separator] + Join(rest)
  {
    assert ([a] + rest)[1..] == rest;
  }

  /** Prepending a character to the first segment prepends it to the joined string. */
  lemma JoinPrepend(c: char, segs: seq<string>)
    requires |segs| > 0
    ensures Join([[c] + segs[0]] + segs[1..]) == [c] + Join(segs)
  {
    if |segs| > 1 {
      JoinCons([c] + segs[0], segs[1..]);
      JoinCons(segs[0], segs[1..]);
      assert [segs[0]] + segs[1..] == segs;
    }
  }

  /** Joining the pieces of any string gives the string back. */
  lemma {:induction false} JoinSplit(s: string)
    ensures Join(Split(s)) == s
  {
    if |s| > 0 {
      var rest := Split(s[1..]);
      JoinSplit(s[1..]);
      assert s == [s[0]] + s[1..];
      if s[0] == Separator {
        JoinCons("", rest);
      } else {
        JoinPrepend(s[0], rest);
      }
    }
  }

  /** `n` separator-free segments are glued with exactly `n - 1` separators. */
  lemma {:induction false} JoinSeparatorCount(segs: seq<string>)
    requires |segs| > 0
    requires NoSeparator(segs)
    ensures multiset(Join(segs))[Separator] == |segs| - 1
  {
    if |segs| > 1 {
      JoinSeparatorCount(segs[1..]);
      assert multiset(segs[0] + [Separator] + Join(segs[1..])) ==
             multiset(segs[0]) + multiset([Separator]) + multiset(Join(segs[1..]));
    }
  }

  /** A row with a usable `id` is keyed by the string form of that value alone. */
  lemma KeyFromId(row: Row, v: Val, render: real -> string)
    requires Get(row, IdField) == Some(v)
    requires !v.Null?
    ensures GetRowKey(row, render) == ToJsString(v, render)
  {
  }

  /** Rows with the same non-null `id` share a key, whatever their other fields hold. */
  lemma SameIdSameKey(a: Row, b: Row, render: real -> string)
    requires Get(a, IdField) == Get(b, IdField)
    requires HasId(a)
    ensures GetRowKey(a, render) == GetRowKey(b, render)
  {
  }

  /**
   Without a usable `id`, the key is the row's values in field order joined
   with '|': a null value is an empty segment, and when no value renders with
   a '|' of its own, splitting the key recovers one segment per field and the
   key holds exactly one separator fewer than the row has fields.
   */
  lemma FallbackKey(row: Row, render: real -> string)
    requires !HasId(row)
    requires |row| > 0
    requires NoSeparator(Segments(row, render))
    ensures Split(GetRowKey(row, render)) == Segments(row, render)
    ensures forall i :: 0 <= i < |row| && row[i].1.Null? ==> Split(GetRowKey(row, render))[i] == ""
    ensures multiset(GetRowKey(row, render))[Separator] == |row| - 1
  {
    SplitJoin(Segments(row, render));
    JoinSeparatorCount(Segments(row, render));
  }

  /** An empty row without `id` has the empty key. */
  lemma EmptyRowKey(render: real -> string)
    ensures GetRowKey([], render) == ""
  {
  }

  /**
   The fallback key is not injective: a value that itself contains '|' is
   indistinguishable from two fields, and a string `id` collides with a
   one-field row holding the same text.
   */
  lemma KeyCollisions(render: real -> string)
    ensures GetRowKey([("a", Str("x|y"))], render) ==
            GetRowKey([("a", Str("x")), ("b", Str("y"))], render)
    ensures GetRowKey([("id", Str("7"))], render) == GetRowKey([("code", Str("7"))], render)
  {
    assert Segments([("a", Str("x|y"))], render) == ["x|y"];
    assert Segments([("a", Str("x")), ("b", Str("y"))], render) == ["x", "y"];
    assert Join(["x", "y"]) == "x" + "|" + Join(["y"]);
    assert "x" + "|" + "y" == "x|y";
  }
}
