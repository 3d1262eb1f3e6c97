/**
 * `flatten` of CRM_Utils_Array: the leaves of a nested array written into
 * a flat array under path-like keys.
 */
module Flattening {
  import opened PhpValues

  /** `$newPrefix`: the name joined behind the prefix, or the name alone
      when the prefix is falsy ('' or '0' or 0). A joined string that reads
      as a decimal integer is stored by PHP under that integer. */
  function NewPrefix(prefix: Key, sep: string, name: Key): Key
  {
    if KeyTruthy(prefix) then AsKey(KeyToString(prefix) + sep + KeyToString(name)) else name
  }

  /** The writes `$flat[$newPrefix] = $value` that flatten performs, in
      order: one per non-empty scalar leaf. */
  function FlatWrites(list: Entries, prefix: Key, sep: string): (ws: Entries)
    ensures forall i :: 0 <= i < |ws| ==> IsScalar(ws[i].1) && Truthy(ws[i].1)
    decreases ESize(list), 0
  {
    if list == [] then []
    else
      ESizeSplit(list);
      EntryWrites(list[0], prefix, sep) + FlatWrites(list[1..], prefix, sep)
  }

  function EntryWrites(e: (Key, Mixed), prefix: Key, sep: string): (ws: Entries)
    ensures forall i :: 0 <= i < |ws| ==> IsScalar(ws[i].1) && Truthy(ws[i].1)
    decreases Size(e.1), 1
  {
    var newPrefix := NewPrefix(prefix, sep, e.0);
    if e.1.Arr? then FlatWrites(e.1.entries, newPrefix, sep)
    else if IsEmpty(e.1) then []
    else [(newPrefix, e.1)]
  }

  lemma {:induction false} FlatWritesAppend(a: Entries, b: Entries, prefix: Key, sep: string)
    ensures FlatWrites(a + b, prefix, sep) == FlatWrites(a, prefix, sep) + FlatWrites(b, prefix, sep)
    decreases |a|
  {
    if a == [] {
      assert a + b == b;
    } else {
      assert (a + b)[0] == a[0] && (a + b)[1..] == a[1..] + b;
      FlatWritesAppend(a[1..], b, prefix, sep);
    }
  }

  /** The flat array after a sequence of writes `$flat[$k] = $v`. */
  function PutAll(flat: Entries, ws: Entries): Entries
  {
    if ws == [] then flat
    else Store(PutAll(flat, ws[..|ws| - 1]), ws[|ws| - 1].0, ws[|ws| - 1].1)
  }

  lemma {:induction false} PutAllAppend(flat: Entries, a: Entries, b: Entries)
    ensures PutAll(flat, a + b) == PutAll(PutAll(flat, a), b)
    decreases |b|
  {
    if b == [] {
      assert a + b == a;
    } else {
      assert (a + b)[..|a + b| - 1] == a + b[..|b| - 1];
      PutAllAppend(flat, a, b[..|b| - 1]);
    }
  }

  /** The value of the last write to k, if any. */
  function LastWrite(ws: Entries, k: Key): (r: Option<Mixed>)
    ensures r.None? <==> k !in Keys(ws)
  {
    if ws == [] then None
    else
      assert Keys(ws) == Keys(ws[..|ws| - 1]) + [ws[|ws| - 1].0];
      if ws[|ws| - 1].0 == k then Some(ws[|ws| - 1].1)
      else LastWrite(ws[..|ws| - 1], k)
  }

  /** After the writes, a key holds its last written value; every key that
      was not written keeps its old value. */
  lemma {:induction false} PutAllGet(flat: Entries, ws: Entries, k: Key)
    ensures Get(PutAll(flat, ws), k) == if k in Keys(ws) then LastWrite(ws, k) else Get(flat, k)
  {
    if ws != [] {
      PutAllGet(flat, ws[..|ws| - 1], k);
      StoreGet(PutAll(flat, ws[..|ws| - 1]), ws[|ws| - 1].0, ws[|ws| - 1].1, k);
      assert Keys(ws) == Keys(ws[..|ws| - 1]) + [ws[|ws| - 1].0];
    }
  }

  /** Writes under distinct keys into an array that lacks them all just
      append, in order. */
  lemma {:induction false} PutAllFresh(flat: Entries, ws: Entries)
    requires DistinctKeys(flat + ws)
    ensures PutAll(flat, ws) == flat + ws
  {
    if ws != [] {
      var init := ws[..|ws| - 1];
      var last := ws[|ws| - 1];
      assert flat + ws == (flat + init) + [last];
      assert DistinctKeys(flat + init) by {
        forall i, j | 0 <= i < j < |flat + init| ensures (flat + init)[i].0 != (flat + init)[j].0 {
          assert (flat + init)[i] == (flat + ws)[i] && (flat + init)[j] == (flat + ws)[j];
        }
      }
      PutAllFresh(flat, init);
      assert last.0 !in Keys(flat + init) by {
        forall i | 0 <= i < |flat + init| ensures Keys(flat + init)[i] != last.0 {
          assert (flat + init)[i] == (flat + ws)[i] && last == (flat + ws)[|flat + ws| - 1];
        }
      }
      StoreKeys(flat + init, last.0, last.1);
    }
  }

  /** `flatten($list, $flat, $prefix, $seperator)`: $flat is passed by
      reference, so the method takes its old value and returns the new one. */
  method Flatten(list: Entries, flat: Entries, prefix: Key, sep: string) returns (out: Entries)
    ensures out == PutAll(flat, FlatWrites(list, prefix, sep))
    decreases ESize(list)
  {
    out := flat;
    for i := 0 to |list|
      invariant out == PutAll(flat, FlatWrites(list[..i], prefix, sep))
    {
      var name := list[i].0;
      var value := list[i].1;
      var newPrefix := NewPrefix(prefix, sep, name);
      FlattenStep(flat, list, i, prefix, sep);
      ghost var before := out;
      ghost var ws := EntryWrites(list[i], prefix, sep);
      if value.Arr? {
        ESizeElement(list, i);
        assert ws == FlatWrites(value.entries, newPrefix, sep);
        out := Flatten(value.entries, out, newPrefix, sep);
      } else if !IsEmpty(value) {
        out := Store(out, newPrefix, value);
        assert ws == [(newPrefix, value)] && ws[..0] == [];
      } else {
        assert ws == [];
      }
      assert out == PutAll(before, ws);
    }
    assert list[..|list|] == list;
  }

  /** The writes of one more entry follow those of the entries before it. */
  lemma FlattenStep(flat: Entries, list: Entries, i: nat, prefix: Key, sep: string)
    requires i < |list|
    ensures PutAll(flat, FlatWrites(list[..i + 1], prefix, sep)) ==
      PutAll(PutAll(flat, FlatWrites(list[..i], prefix, sep)), EntryWrites(list[i], prefix, sep))
  {
    assert list[..i + 1] == list[..i] + [list[i]];
    FlatWritesAppend(list[..i], [list[i]], prefix, sep);
    assert FlatWrites([list[i]], prefix, sep) == EntryWrites(list[i], prefix, sep) by {
      assert [list[i]][1..] == [];
    }
    PutAllAppend(flat, FlatWrites(list[..i], prefix, sep), EntryWrites(list[i], prefix, sep));
  }

  /** Every value flatten writes is a non-empty scalar, and a key no write
      touches keeps the value it had in $flat. */
  lemma FlattenLeaves(list: Entries, flat: Entries, prefix: Key, sep: string, k: Key)
    ensures forall i :: 0 <= i < |FlatWrites(list, prefix, sep)| ==>
      IsScalar(FlatWrites(list, prefix, sep)[i].1) && Truthy(FlatWrites(list, prefix, sep)[i].1)
    ensures k !in Keys(FlatWrites(list, prefix, sep)) ==>
      Get(PutAll(flat, FlatWrites(list, prefix, sep)), k) == Get(flat, k)
  {
    PutAllGet(flat, FlatWrites(list, prefix, sep), k);
  }

  // ---------------------------------------------------------------------
  // The falsy-prefix test also fires below the top level: a top-level key
  // 0, '0' or '' whose value is an array becomes a falsy prefix, and its
  // children are written without it. The corrected definition joins every
  // name below the top level.

  /** The key for name under the corrected rule: the name alone only at the
      top level (no prefix at all), the joined path everywhere below. */
  function FixedPrefix(prefix: Option<Key>, sep: string, name: Key): Key
  {
    match prefix
    case None => name
    case Some(p) => AsKey(KeyToString(p) + sep + KeyToString(name))
  }

  function FixedWrites(list: Entries, prefix: Option<Key>, sep: string): (ws: Entries)
    ensures forall i :: 0 <= i < |ws| ==> IsScalar(ws[i].1) && Truthy(ws[i].1)
    decreases ESize(list), 0
  {
    if list == [] then []
    else
      ESizeSplit(list);
      FixedEntryWrites(list[0], prefix, sep) + FixedWrites(list[1..], prefix, sep)
  }

  function FixedEntryWrites(e: (Key, Mixed), prefix: Option<Key>, sep: string): (ws: Entries)
    ensures forall i :: 0 <= i < |ws| ==> IsScalar(ws[i].1) && Truthy(ws[i].1)
    decreases Size(e.1), 1
  {
    var newPrefix := FixedPrefix(prefix, sep, e.0);
    if e.1.Arr? then FixedWrites(e.1.entries, Some(newPrefix), sep)
    else if IsEmpty(e.1) then []
    else [(newPrefix, e.1)]
  }

  lemma {:induction false} NatToStringZero(n: nat)
    ensures NatToString(n) == "0" <==> n == 0
  {
    if n >= 10 {
      assert |NatToString(n)| >= 2;
    }
  }

  /** A truthy prefix joined with anything is truthy again. */
  lemma JoinedTruthy(p: Key, sep: string, name: Key)
    requires KeyTruthy(p)
    ensures KeyTruthy(AsKey(KeyToString(p) + sep + KeyToString(name)))
  {
    var ps := KeyToString(p);
    if p.IntKey? {
      if p.i < 0 {
        assert ps[0] == '-';
      } else {
        NatToStringZero(p.i);
      }
    }
    assert ps != "" && ps != "0";
    var joined := ps + sep + KeyToString(name);
    if |joined| == 1 {
      assert joined == ps;
    }
    AsKeyString(joined);
  }

  /** Below a truthy prefix the code as written and the corrected rule
      agree. */
  lemma {:induction false} AgreeBelowTruthy(list: Entries, p: Key, sep: string)
    requires KeyTruthy(p)
    ensures FlatWrites(list, p, sep) == FixedWrites(list, Some(p), sep)
    decreases ESize(list), 0
  {
    if list != [] {
      ESizeSplit(list);
      AgreeEntryBelowTruthy(list[0], p, sep);
      AgreeBelowTruthy(list[1..], p, sep);
    }
  }

  lemma {:induction false} AgreeEntryBelowTruthy(e: (Key, Mixed), p: Key, sep: string)
    requires KeyTruthy(p)
    ensures EntryWrites(e, p, sep) == FixedEntryWrites(e, Some(p), sep)
    decreases Size(e.1), 1
  {
    JoinedTruthy(p, sep, e.0);
    if e.1.Arr? {
      AgreeBelowTruthy(e.1.entries, NewPrefix(p, sep, e.0), sep);
    }
  }

  /** flatten with the default prefix '' writes what the corrected rule
      writes whenever every top-level key whose value is an array is
      truthy. */
  lemma {:induction false} AgreeAtTop(list: Entries, sep: string)
    requires forall i :: 0 <= i < |list| && list[i].1.Arr? ==> KeyTruthy(list[i].0)
    ensures FlatWrites(list, StrKey(""), sep) == FixedWrites(list, None, sep)
    decreases |list|
  {
    if list != [] {
      if list[0].1.Arr? {
        AgreeBelowTruthy(list[0].1.entries, list[0].0, sep);
      }
      AgreeAtTop(list[1..], sep);
    }
  }

  /** A one-entry list holding a non-empty scalar gives one write. */
  lemma SingleLeafWrites(k: Key, v: Mixed, prefix: Key, sep: string)
    requires !v.Arr? && !IsEmpty(v)
    ensures FlatWrites([(k, v)], prefix, sep) == [(NewPrefix(prefix, sep, k), v)]
  {
    assert [(k, v)][1..] == [];
  }

  lemma FixedSingleLeafWrites(k: Key, v: Mixed, prefix: Option<Key>, sep: string)
    requires !v.Arr? && !IsEmpty(v)
    ensures FixedWrites([(k, v)], prefix, sep) == [(FixedPrefix(prefix, sep, k), v)]
  {
    assert [(k, v)][1..] == [];
  }

  /** The list [[a => x], [a => y]]: as written, the first element's leaf
      loses its "0." prefix, while the corrected rule keeps it. */
  lemma FalsyTopKeyDropped()
    ensures FlatWrites([(IntKey(0), Arr([(StrKey("a"), Str("x"))])), (IntKey(1), Arr([(StrKey("a"), Str("y"))]))], StrKey(""), ".")
         == [(StrKey("a"), Str("x")), (StrKey("1.a"), Str("y"))]
  {
    var a, sep := StrKey("a"), ".";
    var x, y := [(a, Str("x"))], [(a, Str("y"))];
    var list := [(IntKey(0), Arr(x)), (IntKey(1), Arr(y))];
    var rest := [(IntKey(1), Arr(y))];
    assert list[1..] == rest && rest[1..] == [];
    assert FlatWrites(list, StrKey(""), sep) ==
      FlatWrites(x, IntKey(0), sep) + FlatWrites(rest, StrKey(""), sep);
    assert FlatWrites(rest, StrKey(""), sep) == FlatWrites(y, IntKey(1), sep);
    SingleLeafWrites(a, Str("x"), IntKey(0), sep);
    SingleLeafWrites(a, Str("y"), IntKey(1), sep);
    var oneA := "1.a";
    assert KeyToString(IntKey(1)) + sep + KeyToString(a) == oneA;
    AsKeyNotNumeric(oneA, 1);
  }

  /** The corrected flattening of the same list keeps element 0 apart:
      "0.a" => x and "1.a" => y. */
  lemma FixedTopKeyKept()
    ensures FixedWrites([(IntKey(0), Arr([(StrKey("a"), Str("x"))])), (IntKey(1), Arr([(StrKey("a"), Str("y"))]))], None, ".")
         == [(StrKey("0.a"), Str("x")), (StrKey("1.a"), Str("y"))]
  {
    var a, sep := StrKey("a"), ".";
    var x, y := [(a, Str("x"))], [(a, Str("y"))];
    var list := [(IntKey(0), Arr(x)), (IntKey(1), Arr(y))];
    var rest := [(IntKey(1), Arr(y))];
    assert list[1..] == rest && rest[1..] == [];
    assert FixedWrites(list, None, sep) ==
      FixedWrites(x, Some(IntKey(0)), sep) + FixedWrites(rest, None, sep);
    assert FixedWrites(rest, None, sep) == FixedWrites(y, Some(IntKey(1)), sep);
    FixedSingleLeafWrites(a, Str("x"), Some(IntKey(0)), sep);
    FixedSingleLeafWrites(a, Str("y"), Some(IntKey(1)), sep);
    var zeroA, oneA := "0.a", "1.a";
    assert KeyToString(IntKey(0)) + sep + KeyToString(a) == zeroA;
    assert KeyToString(IntKey(1)) + sep + KeyToString(a) == oneA;
    AsKeyNotNumeric(zeroA, 1);
    AsKeyNotNumeric(oneA, 1);
  }
}
