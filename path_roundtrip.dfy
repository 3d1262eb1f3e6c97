/**
 * unflatten undoes flatten: the documented inverse relation between the
 * two path-codec helpers of CRM_Utils_Array, proved for a one-character
 * separator.
 */
module PathRoundTrip {
  import opened PhpValues
  import opened PhpStrings
  import opened Flattening
  import opened Unflattening

  /** A leaf's path (the keys from the root, as strings) and its value. */
  type PathWrite = (seq<string>, Mixed)

  function Under(s: string, pws: seq<PathWrite>): (r: seq<PathWrite>)
    ensures |r| == |pws| && forall i :: 0 <= i < |r| ==> r[i] == ([s] + pws[i].0, pws[i].1)
  {
    seq(|pws|, i requires 0 <= i < |pws| => ([s] + pws[i].0, pws[i].1))
  }

  /** The non-empty scalar leaves of a tree with their paths, in the order
      flatten visits them. */
  function PathWrites(es: Entries): (pws: seq<PathWrite>)
    ensures forall i :: 0 <= i < |pws| ==> pws[i].0 != []
    decreases ESize(es), 0
  {
    if es == [] then []
    else
      ESizeSplit(es);
      EntryPathWrites(es[0]) + PathWrites(es[1..])
  }

  function EntryPathWrites(e: (Key, Mixed)): (pws: seq<PathWrite>)
    ensures forall i :: 0 <= i < |pws| ==> pws[i].0 != [] && pws[i].0[0] == KeyToString(e.0)
    decreases Size(e.1), 1
  {
    var s := KeyToString(e.0);
    if e.1.Arr? then Under(s, PathWrites(e.1.entries))
    else if IsEmpty(e.1) then []
    else [([s], e.1)]
  }

  /** The tree as unflatten rebuilds it: every key read back as a string. */
  function Stringify(es: Entries): (r: Entries)
    ensures |r| == |es| && forall i :: 0 <= i < |r| ==> r[i].0 == StrKey(KeyToString(es[i].0))
    decreases ESize(es), 0
  {
    if es == [] then []
    else
      ESizeSplit(es);
      [StringifyEntry(es[0])] + Stringify(es[1..])
  }

  function StringifyEntry(e: (Key, Mixed)): (r: (Key, Mixed))
    ensures r.0 == StrKey(KeyToString(e.0))
    decreases Size(e.1), 1
  {
    (StrKey(KeyToString(e.0)), if e.1.Arr? then Arr(Stringify(e.1.entries)) else e.1)
  }

  /** No two keys of one array read the same as strings. */
  ghost predicate KeyStringsDistinct(es: Entries)
  {
    forall i, j :: 0 <= i < j < |es| ==> KeyToString(es[i].0) != KeyToString(es[j].0)
  }

  /** The conditions under which flatten loses nothing: every leaf is a
      non-empty scalar, no sub-array is empty, no key contains the
      separator d, and the keys of each array differ as strings. */
  ghost predicate Restorable(v: Mixed, d: char)
  {
    match v
    case Arr(c) =>
      KeyStringsDistinct(c) &&
      forall i :: 0 <= i < |c| ==>
        d !in KeyToString(c[i].0) && (c[i].1.Arr? ==> c[i].1.entries != []) && Restorable(c[i].1, d)
    case _ => Truthy(v)
  }

  lemma RestorableTail(es: Entries, d: char)
    requires es != [] && Restorable(Arr(es), d)
    ensures Restorable(Arr(es[1..]), d)
  {
    var t := es[1..];
    forall i | 0 <= i < |t| ensures t[i] == es[i + 1] {}
  }

  // ---------------------------------------------------------------------
  // Inserting path writes one after another.

  function InsertAll(acc: Entries, pws: seq<PathWrite>): Option<Entries>
    requires forall i :: 0 <= i < |pws| ==> pws[i].0 != []
    decreases |pws|
  {
    if pws == [] then Some(acc)
    else
      match InsertPath(acc, pws[0].0, pws[0].1)
      case None => None
      case Some(acc') => InsertAll(acc', pws[1..])
  }

  lemma {:induction false} InsertAllAppend(acc: Entries, a: seq<PathWrite>, b: seq<PathWrite>)
    requires forall i :: 0 <= i < |a| ==> a[i].0 != []
    requires forall i :: 0 <= i < |b| ==> b[i].0 != []
    ensures forall i :: 0 <= i < |a + b| ==> (a + b)[i].0 != []
    ensures InsertAll(acc, a + b) == match InsertAll(acc, a) case None => None case Some(x) => InsertAll(x, b)
    decreases |a|
  {
    if a == [] {
      assert a + b == b;
    } else {
      assert (a + b)[0] == a[0] && (a + b)[1..] == a[1..] + b;
      match InsertPath(acc, a[0].0, a[0].1)
      case None =>
      case Some(acc') => InsertAllAppend(acc', a[1..], b);
    }
  }

  function ChildOf(acc: Entries, s: string): Entries
  {
    var child := Get(acc, StrKey(s));
    if child.Some? && child.value.Arr? then child.value.entries else []
  }

  /** Paths that all start with s build the array under s and leave the
      rest of acc alone. */
  lemma {:induction false} InsertUnder(acc: Entries, s: string, pws: seq<PathWrite>)
    requires pws != [] && forall i :: 0 <= i < |pws| ==> pws[i].0 != []
    requires Get(acc, StrKey(s)) == None || Get(acc, StrKey(s)).value.Arr?
    ensures InsertAll(acc, Under(s, pws)) ==
      match InsertAll(ChildOf(acc, s), pws)
      case None => None
      case Some(sub) => Some(Put(acc, StrKey(s), Arr(sub)))
    decreases |pws|
  {
    var w := pws[0];
    var u := Under(s, pws);
    assert u[0].0[1..] == w.0;
    assert u[1..] == Under(s, pws[1..]);
    match InsertPath(ChildOf(acc, s), w.0, w.1)
    case None =>
    case Some(c1) =>
      var a1 := Put(acc, StrKey(s), Arr(c1));
      if pws[1..] != [] {
        InsertUnder(a1, s, pws[1..]);
        assert ChildOf(a1, s) == c1;
        match InsertAll(c1, pws[1..])
        case None =>
        case Some(x) => PutTwice(acc, StrKey(s), Arr(c1), Arr(x));
      }
  }

  /** A restorable non-empty array has at least one leaf to write. */
  lemma {:induction false} WritesNonEmpty(es: Entries, d: char)
    requires es != [] && Restorable(Arr(es), d)
    ensures PathWrites(es) != []
    decreases ESize(es)
  {
    ESizeSplit(es);
    if es[0].1.Arr? {
      WritesNonEmpty(es[0].1.entries, d);
    }
  }

  /** Inserting the path writes of a restorable tree whose keys acc lacks
      appends the stringified tree to acc. */
  lemma {:induction false} InsertWrites(acc: Entries, es: Entries, d: char)
    requires Restorable(Arr(es), d)
    requires forall i :: 0 <= i < |es| ==> StrKey(KeyToString(es[i].0)) !in Keys(acc)
    ensures InsertAll(acc, PathWrites(es)) == Some(acc + Stringify(es))
    decreases ESize(es), 0
  {
    if es == [] {
      assert acc + [] == acc;
    } else {
      ESizeSplit(es);
      var e := es[0];
      var rest := es[1..];
      var acc' := acc + [StringifyEntry(e)];
      RestorableHead(acc, es, d);
      InsertEntryWrites(acc, e, d);
      RestorableTail(es, d);
      FreshAfterFirst(acc, es, d);
      InsertWrites(acc', rest, d);
      InsertStep(acc, e, rest, acc', acc' + Stringify(rest));
      assert PathWrites(es) == EntryPathWrites(e) + PathWrites(rest);
      assert Stringify(es) == [StringifyEntry(e)] + Stringify(rest);
      Associative(acc, [StringifyEntry(e)], Stringify(rest));
    }
  }

  lemma InsertStep(acc: Entries, e: (Key, Mixed), rest: Entries, acc': Entries, result: Entries)
    requires InsertAll(acc, EntryPathWrites(e)) == Some(acc')
    requires InsertAll(acc', PathWrites(rest)) == Some(result)
    ensures InsertAll(acc, EntryPathWrites(e) + PathWrites(rest)) == Some(result)
  {
    InsertAllAppend(acc, EntryPathWrites(e), PathWrites(rest));
  }

  lemma RestorableHead(acc: Entries, es: Entries, d: char)
    requires es != [] && Restorable(Arr(es), d)
    requires forall i :: 0 <= i < |es| ==> StrKey(KeyToString(es[i].0)) !in Keys(acc)
    ensures Restorable(es[0].1, d) && (es[0].1.Arr? ==> es[0].1.entries != [])
    ensures StrKey(KeyToString(es[0].0)) !in Keys(acc)
  {
  }

  lemma FreshAfterFirst(acc: Entries, es: Entries, d: char)
    requires es != [] && Restorable(Arr(es), d)
    requires forall i :: 0 <= i < |es| ==> StrKey(KeyToString(es[i].0)) !in Keys(acc)
    ensures forall i :: 0 <= i < |es[1..]| ==> StrKey(KeyToString(es[1..][i].0)) !in Keys(acc + [StringifyEntry(es[0])])
  {
    KeysAppend(acc, [StringifyEntry(es[0])]);
    forall i | 0 <= i < |es[1..]| ensures StrKey(KeyToString(es[1..][i].0)) !in Keys(acc + [StringifyEntry(es[0])]) {
      assert es[1..][i] == es[i + 1];
      assert KeyToString(es[0].0) != KeyToString(es[i + 1].0);
    }
  }

  lemma {:induction false} InsertEntryWrites(acc: Entries, e: (Key, Mixed), d: char)
    requires Restorable(e.1, d) && (e.1.Arr? ==> e.1.entries != [])
    requires StrKey(KeyToString(e.0)) !in Keys(acc)
    ensures InsertAll(acc, EntryPathWrites(e)) == Some(acc + [StringifyEntry(e)])
    decreases Size(e.1), 1
  {
    var s := KeyToString(e.0);
    if e.1.Arr? {
      var c := e.1.entries;
      InsertWrites([], c, d);
      WritesNonEmpty(c, d);
      InsertUnder(acc, s, PathWrites(c));
      assert [] + Stringify(c) == Stringify(c);
    } else {
      assert EntryPathWrites(e) == [([s], e.1)];
    }
  }

  // ---------------------------------------------------------------------
  // The keys flatten writes are the joined paths.

  lemma ImplodeCons(sep: string, s: string, q: seq<string>)
    requires q != []
    ensures Implode(sep, [s] + q) == s + sep + Implode(sep, q)
  {
    assert ([s] + q)[1..] == q;
  }

  /** Below a prefix p, the corrected flatten writes each leaf under p, the
      separator and the leaf's joined path. */
  lemma {:induction false} FixedKeysBelow(es: Entries, p: Key, sep: string)
    ensures |FixedWrites(es, Some(p), sep)| == |PathWrites(es)|
    ensures forall i :: 0 <= i < |PathWrites(es)| ==>
      KeyToString(FixedWrites(es, Some(p), sep)[i].0) == KeyToString(p) + sep + Implode(sep, PathWrites(es)[i].0) &&
      FixedWrites(es, Some(p), sep)[i].1 == PathWrites(es)[i].1
    decreases ESize(es), 0
  {
    if es != [] {
      ESizeSplit(es);
      FixedEntryKeysBelow(es[0], p, sep);
      FixedKeysBelow(es[1..], p, sep);
      CombineBelow(FixedEntryWrites(es[0], Some(p), sep), FixedWrites(es[1..], Some(p), sep),
                   EntryPathWrites(es[0]), PathWrites(es[1..]), KeyToString(p) + sep, sep);
      assert FixedWrites(es, Some(p), sep) == FixedEntryWrites(es[0], Some(p), sep) + FixedWrites(es[1..], Some(p), sep);
      assert PathWrites(es) == EntryPathWrites(es[0]) + PathWrites(es[1..]);
    }
  }

  lemma CombineBelow(a: Entries, b: Entries, pa: seq<PathWrite>, pb: seq<PathWrite>, pre: string, sep: string)
    requires |a| == |pa| && forall i :: 0 <= i < |pa| ==> KeyToString(a[i].0) == pre + Implode(sep, pa[i].0) && a[i].1 == pa[i].1
    requires |b| == |pb| && forall i :: 0 <= i < |pb| ==> KeyToString(b[i].0) == pre + Implode(sep, pb[i].0) && b[i].1 == pb[i].1
    ensures |a + b| == |pa + pb|
    ensures forall i :: 0 <= i < |pa + pb| ==>
      KeyToString((a + b)[i].0) == pre + Implode(sep, (pa + pb)[i].0) && (a + b)[i].1 == (pa + pb)[i].1
  {
    forall i | 0 <= i < |pa + pb| ensures
      KeyToString((a + b)[i].0) == pre + Implode(sep, (pa + pb)[i].0) && (a + b)[i].1 == (pa + pb)[i].1 {
      if i < |pa| {
        assert (a + b)[i] == a[i] && (pa + pb)[i] == pa[i];
      } else {
        assert (a + b)[i] == b[i - |pa|] && (pa + pb)[i] == pb[i - |pa|];
      }
    }
  }

  lemma {:induction false} FixedEntryKeysBelow(e: (Key, Mixed), p: Key, sep: string)
    ensures |FixedEntryWrites(e, Some(p), sep)| == |EntryPathWrites(e)|
    ensures forall i :: 0 <= i < |EntryPathWrites(e)| ==>
      KeyToString(FixedEntryWrites(e, Some(p), sep)[i].0) == KeyToString(p) + sep + Implode(sep, EntryPathWrites(e)[i].0) &&
      FixedEntryWrites(e, Some(p), sep)[i].1 == EntryPathWrites(e)[i].1
    decreases Size(e.1), 1
  {
    var s := KeyToString(e.0);
    var np := FixedPrefix(Some(p), sep, e.0);
    AsKeyString(KeyToString(p) + sep + s);
    assert KeyToString(np) == KeyToString(p) + sep + s;
    if e.1.Arr? {
      var c := e.1.entries;
      var ws, pws := FixedWrites(c, Some(np), sep), PathWrites(c);
      assert FixedEntryWrites(e, Some(p), sep) == ws;
      assert EntryPathWrites(e) == Under(s, pws);
      FixedKeysBelow(c, np, sep);
      FixedChildKeys(ws, pws, np, p, s, sep);
    } else if IsEmpty(e.1) {
      assert FixedEntryWrites(e, Some(p), sep) == [] && EntryPathWrites(e) == [];
    } else {
      assert FixedEntryWrites(e, Some(p), sep) == [(np, e.1)];
      assert EntryPathWrites(e) == [([s], e.1)];
    }
  }

  /** The step of FixedEntryKeysBelow from the prefix of an array to the
      prefix of its parent. */
  lemma FixedChildKeys(ws: Entries, pws: seq<PathWrite>, np: Key, p: Key, s: string, sep: string)
    requires KeyToString(np) == KeyToString(p) + sep + s
    requires |ws| == |pws| && forall i :: 0 <= i < |pws| ==> pws[i].0 != []
    requires forall i :: 0 <= i < |pws| ==> KeyToString(ws[i].0) == KeyToString(np) + sep + Implode(sep, pws[i].0)
    ensures forall i :: 0 <= i < |pws| ==> KeyToString(ws[i].0) == KeyToString(p) + sep + Implode(sep, Under(s, pws)[i].0)
  {
    forall i | 0 <= i < |pws| ensures KeyToString(ws[i].0) == KeyToString(p) + sep + Implode(sep, Under(s, pws)[i].0) {
      var q := pws[i].0;
      ImplodeCons(sep, s, q);
      assert Under(s, pws)[i].0 == [s] + q;
      Associative(KeyToString(p) + sep, s, sep + Implode(sep, q));
      Associative(KeyToString(p) + sep + s, sep, Implode(sep, q));
      Associative(s, sep, Implode(sep, q));
    }
  }

  /** Each write is keyed by its path joined with sep and holds its leaf. */
  predicate KeysJoin(ws: Entries, pws: seq<PathWrite>, sep: string)
  {
    |ws| == |pws| && forall i :: 0 <= i < |pws| ==>
      KeyToString(ws[i].0) == Implode(sep, pws[i].0) && ws[i].1 == pws[i].1
  }

  lemma KeysJoinConcat(a: Entries, pa: seq<PathWrite>, b: Entries, pb: seq<PathWrite>, sep: string)
    requires KeysJoin(a, pa, sep) && KeysJoin(b, pb, sep)
    ensures KeysJoin(a + b, pa + pb, sep)
  {
    forall i | 0 <= i < |pa + pb| ensures
      KeyToString((a + b)[i].0) == Implode(sep, (pa + pb)[i].0) && (a + b)[i].1 == (pa + pb)[i].1 {
      if i >= |pa| {
        assert (a + b)[i] == b[i - |pa|] && (pa + pb)[i] == pb[i - |pa|];
      }
    }
  }

  /** The writes of one top-level entry. */
  lemma FixedEntryTop(e: (Key, Mixed), sep: string)
    ensures KeysJoin(FixedEntryWrites(e, None, sep), EntryPathWrites(e), sep)
  {
    var a := FixedEntryWrites(e, None, sep);
    var pa: seq<PathWrite> := EntryPathWrites(e);
    if e.1.Arr? {
      var c := e.1.entries;
      FixedKeysBelow(c, e.0, sep);
      forall i | 0 <= i < |pa| ensures KeyToString(a[i].0) == Implode(sep, pa[i].0) {
        ImplodeCons(sep, KeyToString(e.0), PathWrites(c)[i].0);
      }
    }
  }

  /** At the top level, the corrected flatten writes each leaf under a key
      that reads as the leaf's joined path. */
  lemma {:induction false} FixedKeysTop(es: Entries, sep: string)
    ensures |FixedWrites(es, None, sep)| == |PathWrites(es)|
    ensures forall i :: 0 <= i < |PathWrites(es)| ==>
      KeyToString(FixedWrites(es, None, sep)[i].0) == Implode(sep, PathWrites(es)[i].0) &&
      FixedWrites(es, None, sep)[i].1 == PathWrites(es)[i].1
    decreases |es|
  {
    if es != [] {
      ESizeSplit(es);
      FixedKeysTop(es[1..], sep);
      FixedEntryTop(es[0], sep);
      var a := FixedEntryWrites(es[0], None, sep);
      var b := FixedWrites(es[1..], None, sep);
      var pa: seq<PathWrite> := EntryPathWrites(es[0]);
      var pb: seq<PathWrite> := PathWrites(es[1..]);
      assert KeysJoin(b, pb, sep);
      KeysJoinConcat(a, pa, b, pb, sep);
      assert FixedWrites(es, None, sep) == a + b;
      assert PathWrites(es) == pa + pb;
    }
  }

  // ---------------------------------------------------------------------
  // unflatten reads the joined paths back.

  /** The paths unflatten reads from the keys of a flat array. */
  function Decode(ws: Entries, d: char): (pws: seq<PathWrite>)
    ensures |pws| == |ws| && forall i :: 0 <= i < |ws| ==> pws[i].0 != []
  {
    seq(|ws|, i requires 0 <= i < |ws| => (Explode([d], KeyToString(ws[i].0)), ws[i].1))
  }

  lemma {:induction false} UnflattenIsInsertAll(acc: Entries, ws: Entries, d: char)
    ensures UnflattenFrom([d], acc, ws) == InsertAll(acc, Decode(ws, d))
    decreases |ws|
  {
    if ws != [] {
      assert Decode(ws, d)[1..] == Decode(ws[1..], d);
      match InsertPath(acc, Explode([d], KeyToString(ws[0].0)), ws[0].1)
      case None =>
      case Some(acc') => UnflattenIsInsertAll(acc', ws[1..], d);
    }
  }

  /** No segment of a restorable tree's paths contains the separator. */
  lemma {:induction false} SegmentsClean(es: Entries, d: char)
    requires Restorable(Arr(es), d)
    ensures forall i, j :: 0 <= i < |PathWrites(es)| && 0 <= j < |PathWrites(es)[i].0| ==> d !in PathWrites(es)[i].0[j]
    decreases ESize(es), 0
  {
    if es != [] {
      ESizeSplit(es);
      RestorableTail(es, d);
      EntrySegmentsClean(es[0], d);
      SegmentsClean(es[1..], d);
      var pa: seq<PathWrite> := EntryPathWrites(es[0]);
      var pb: seq<PathWrite> := PathWrites(es[1..]);
      assert PathWrites(es) == pa + pb;
      forall i, j | 0 <= i < |pa + pb| && 0 <= j < |(pa + pb)[i].0| ensures d !in (pa + pb)[i].0[j] {
        if i >= |pa| {
          assert (pa + pb)[i] == pb[i - |pa|];
        }
      }
    }
  }

  lemma {:induction false} EntrySegmentsClean(e: (Key, Mixed), d: char)
    requires d !in KeyToString(e.0) && Restorable(e.1, d)
    ensures forall i, j :: 0 <= i < |EntryPathWrites(e)| && 0 <= j < |EntryPathWrites(e)[i].0| ==>
      d !in EntryPathWrites(e)[i].0[j]
    decreases Size(e.1), 1
  {
    if e.1.Arr? {
      var c := e.1.entries;
      SegmentsClean(c, d);
      var pws := EntryPathWrites(e);
      forall i, j | 0 <= i < |pws| && 0 <= j < |pws[i].0| ensures d !in pws[i].0[j] {
        if j > 0 {
          assert pws[i].0[j] == PathWrites(c)[i].0[j - 1];
        }
      }
    }
  }

  /** Every path starts with one of the array's own keys. */
  lemma {:induction false} FirstSegments(es: Entries)
    ensures forall i :: 0 <= i < |PathWrites(es)| ==>
      exists k :: 0 <= k < |es| && PathWrites(es)[i].0[0] == KeyToString(es[k].0)
    decreases |es|
  {
    if es != [] {
      ESizeSplit(es);
      FirstSegments(es[1..]);
      var pa: seq<PathWrite> := EntryPathWrites(es[0]);
      var pb: seq<PathWrite> := PathWrites(es[1..]);
      assert PathWrites(es) == pa + pb;
      forall i | 0 <= i < |pa + pb| ensures exists k :: 0 <= k < |es| && (pa + pb)[i].0[0] == KeyToString(es[k].0) {
        if i < |pa| {
          assert (pa + pb)[i] == pa[i] && pa[i].0[0] == KeyToString(es[0].0);
          assert (pa + pb)[i].0[0] == KeyToString(es[0].0);
        } else {
          assert (pa + pb)[i] == pb[i - |pa|];
          var k :| 0 <= k < |es[1..]| && pb[i - |pa|].0[0] == KeyToString(es[1..][k].0);
          assert es[1..][k] == es[k + 1];
          assert (pa + pb)[i].0[0] == KeyToString(es[k + 1].0);
        }
      }
    } else {
      assert |PathWrites(es)| == 0;
    }
  }

  /** Distinct leaves of a restorable tree have distinct paths. */
  lemma {:induction false} PathsDistinct(es: Entries, d: char)
    requires Restorable(Arr(es), d)
    ensures forall i, j :: 0 <= i < j < |PathWrites(es)| ==> PathWrites(es)[i].0 != PathWrites(es)[j].0
    decreases ESize(es), 0
  {
    if es != [] {
      ESizeSplit(es);
      RestorableTail(es, d);
      EntryPathsDistinct(es[0], d);
      PathsDistinct(es[1..], d);
      FirstSegments(es[1..]);
      var pa: seq<PathWrite> := EntryPathWrites(es[0]);
      var pb: seq<PathWrite> := PathWrites(es[1..]);
      assert PathWrites(es) == pa + pb;
      forall i, j | 0 <= i < j < |pa + pb| ensures (pa + pb)[i].0 != (pa + pb)[j].0 {
        if j < |pa| {
          assert (pa + pb)[i] == pa[i] && (pa + pb)[j] == pa[j];
        } else if i >= |pa| {
          assert (pa + pb)[i] == pb[i - |pa|] && (pa + pb)[j] == pb[j - |pa|];
        } else {
          assert (pa + pb)[i] == pa[i] && (pa + pb)[j] == pb[j - |pa|];
          var k :| 0 <= k < |es[1..]| && pb[j - |pa|].0[0] == KeyToString(es[1..][k].0);
          assert es[1..][k] == es[k + 1];
        }
      }
    }
  }

  lemma {:induction false} EntryPathsDistinct(e: (Key, Mixed), d: char)
    requires Restorable(e.1, d)
    ensures forall i, j :: 0 <= i < j < |EntryPathWrites(e)| ==> EntryPathWrites(e)[i].0 != EntryPathWrites(e)[j].0
    decreases Size(e.1), 1
  {
    if e.1.Arr? {
      var c := e.1.entries;
      PathsDistinct(c, d);
      var pws := EntryPathWrites(e);
      forall i, j | 0 <= i < j < |pws| ensures pws[i].0 != pws[j].0 {
        assert pws[i].0[1..] == PathWrites(c)[i].0 && pws[j].0[1..] == PathWrites(c)[j].0;
      }
    }
  }

  /** unflatten reads back exactly the paths of the leaves. */
  lemma DecodeFixed(es: Entries, d: char)
    requires Restorable(Arr(es), d)
    ensures Decode(FixedWrites(es, None, [d]), d) == PathWrites(es)
  {
    var ws := FixedWrites(es, None, [d]);
    FixedKeysTop(es, [d]);
    SegmentsClean(es, d);
    forall i | 0 <= i < |ws| ensures Decode(ws, d)[i] == PathWrites(es)[i] {
      ExplodeImplode(d, PathWrites(es)[i].0);
    }
  }

  /** The corrected flatten never writes one key twice. */
  lemma FixedWritesDistinct(es: Entries, d: char)
    requires Restorable(Arr(es), d)
    ensures DistinctKeys(FixedWrites(es, None, [d]))
  {
    var ws := FixedWrites(es, None, [d]);
    DecodeFixed(es, d);
    PathsDistinct(es, d);
    forall i, j | 0 <= i < j < |ws| ensures ws[i].0 != ws[j].0 {
      assert Decode(ws, d)[i].0 != Decode(ws, d)[j].0;
    }
  }

  /** The documented inverse, for the corrected flatten: unflatten of the
      flattened tree gives the tree back, its keys read as strings. */
  lemma UnflattenFlattenFixed(list: Entries, d: char)
    requires Restorable(Arr(list), d)
    ensures UnflattenFrom([d], [], PutAll([], FixedWrites(list, None, [d]))) == Some(Stringify(list))
  {
    var ws := FixedWrites(list, None, [d]);
    FixedWritesDistinct(list, d);
    assert [] + ws == ws;
    PutAllFresh([], ws);
    UnflattenIsInsertAll([], ws, d);
    DecodeFixed(list, d);
    InsertWrites([], list, d);
    assert [] + Stringify(list) == Stringify(list);
  }

  /** The documented inverse for flatten as written (default prefix ''),
      which also needs every top-level key holding an array to be truthy. */
  lemma UnflattenFlatten(list: Entries, d: char)
    requires Restorable(Arr(list), d)
    requires forall i :: 0 <= i < |list| && list[i].1.Arr? ==> KeyTruthy(list[i].0)
    ensures UnflattenFrom([d], [], PutAll([], FlatWrites(list, StrKey(""), [d]))) == Some(Stringify(list))
  {
    AgreeAtTop(list, [d]);
    UnflattenFlattenFixed(list, d);
  }
}
