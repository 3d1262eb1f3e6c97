/**
 * The record helpers of CRM_Utils_Array: `index` builds a tree of records
 * keyed by some of their fields, `collect` reads one field of every record,
 * and `product` builds the Cartesian product of some vectors. Records are
 * arrays; object records are not part of this model.
 */
module RecordHelpers {
  import opened PhpValues

  // ---------------------------------------------------------------------
  // Reading records

  /** `$record[$key]`: a missing field reads as null (PHP adds a notice). */
  function Field(record: Entries, key: Key): Mixed
  {
    match Get(record, key)
    case Some(v) => v
    case None => Null
  }

  /** The key a value becomes when used as an array key: an integer as it
      is, a string as PHP stores it, null as "", a boolean as 0 or 1. An
      array is an illegal offset: None. */
  function KeyOfValue(v: Mixed): Option<Key>
  {
    match v
    case Null => Some(StrKey(""))
    case Bool(b) => Some(IntKey(if b then 1 else 0))
    case Int(i) => Some(IntKey(i))
    case Str(s) => Some(AsKey(s))
    case Arr(_) => None
  }

  // ---------------------------------------------------------------------
  // index

  /** The fields index reads, the last one naming the leaf: `array_pop` of
      an empty list gives null, which reads the field "". */
  function IndexFields(keys: seq<Key>): (fs: seq<Key>)
    ensures fs != []
  {
    if keys == [] then [StrKey("")] else keys
  }

  /** The keys a record is filed under: the values of the fields, as keys. */
  function RecordPath(record: Entries, fields: seq<Key>): (p: Option<seq<Key>>)
    ensures p.Some? ==> |p.value| == |fields|
  {
    if fields == [] then Some([])
    else
      match (KeyOfValue(Field(record, fields[0])), RecordPath(record, fields[1..]))
      case (Some(k), Some(ks)) => Some([k] + ks)
      case _ => None
  }

  /** The reference cursor of index's inner loop: descends along path,
      making the step an array where it is missing, null or a scalar (an
      `isset` scalar is reset to an empty array, a missing or null one
      becomes an array on the first write), and stores the record under the
      last key. */
  function Plant(node: Entries, path: seq<Key>, record: Mixed): Entries
    requires path != []
    decreases |path|
  {
    if |path| == 1 then Store(node, path[0], record)
    else Store(node, path[0], Arr(Plant(Child(node, path[0]), path[1..], record)))
  }

  /** The array under k that the cursor descends into: the value when it is
      an array, a fresh empty array otherwise. */
  function Child(node: Entries, k: Key): Entries
  {
    var v := Get(node, k);
    if v.Some? && v.value.Arr? then v.value.entries else []
  }

  /** Reading a path of keys through nested arrays. */
  function Dig(node: Entries, path: seq<Key>): Option<Mixed>
    requires path != []
    decreases |path|
  {
    var v := Get(node, path[0]);
    if |path| == 1 then v
    else if v.Some? && v.value.Arr? then Dig(v.value.entries, path[1..])
    else None
  }

  lemma {:induction false} DigEmpty(path: seq<Key>)
    requires path != []
    ensures Dig([], path) == None
  {
  }

  /** Planting a record at a path changes what that path reads, and no
      other path of the same length. */
  lemma {:induction false} PlantDig(node: Entries, path: seq<Key>, record: Mixed, q: seq<Key>)
    requires path != [] && |q| == |path|
    ensures Dig(Plant(node, path, record), q) == if q == path then Some(record) else Dig(node, q)
    decreases |path|
  {
    if |path| == 1 {
      StoreGet(node, path[0], record, q[0]);
      if q[0] == path[0] {
        assert q == path;
      }
    } else {
      if q[0] == path[0] {
        PlantDig(Child(node, path[0]), path[1..], record, q[1..]);
      }
      PlantDigStep(node, path, record, q);
    }
  }

  /** One level of PlantDig: the step below the first key is assumed. */
  lemma PlantDigStep(node: Entries, path: seq<Key>, record: Mixed, q: seq<Key>)
    requires |path| >= 2 && |q| == |path|
    requires q[0] == path[0] ==>
      var sub := Child(node, path[0]);
      Dig(Plant(sub, path[1..], record), q[1..]) == if q[1..] == path[1..] then Some(record) else Dig(sub, q[1..])
    ensures Dig(Plant(node, path, record), q) == if q == path then Some(record) else Dig(node, q)
  {
    var sub := Child(node, path[0]);
    var planted := Plant(sub, path[1..], record);
    StoreGet(node, path[0], Arr(planted), q[0]);
    if q[0] == path[0] {
      SameHead(q, path);
      if sub == [] {
        DigEmpty(q[1..]);
      }
    } else {
      assert q != path;
    }
  }

  /** Two paths with the same first key agree exactly when their tails do. */
  lemma SameHead(q: seq<Key>, path: seq<Key>)
    requires |q| == |path| >= 1 && q[0] == path[0]
    ensures q == path <==> q[1..] == path[1..]
  {
    if q[1..] == path[1..] {
      assert q == [q[0]] + q[1..] && path == [path[0]] + path[1..];
    }
  }

  /** What index returns: the records planted in order, or None when a
      field value is an array (an illegal offset, an error in PHP). */
  function IndexOf(fields: seq<Key>, records: seq<Entries>): Option<Entries>
    requires fields != []
  {
    if records == [] then Some([])
    else
      var record := records[|records| - 1];
      match (IndexOf(fields, records[..|records| - 1]), RecordPath(record, fields))
      case (Some(tree), Some(path)) => Some(Plant(tree, path, Arr(record)))
      case _ => None
  }

  /** `index($keys, $records)`: files every record under the values of the
      given fields, one nesting level per field. */
  method Index(keys: seq<Key>, records: seq<Entries>) returns (result: Option<Entries>)
    ensures result == IndexOf(IndexFields(keys), records)
  {
    var fields := IndexFields(keys);
    var tree: Entries := [];
    var i := 0;
    while i < |records|
      invariant 0 <= i <= |records|
      invariant IndexOf(fields, records[..i]) == Some(tree)
    {
      assert records[..i + 1][..i] == records[..i];
      var path := RecordPath(records[i], fields);
      if path.None? {
        IndexFailsLater(fields, records, i + 1);
        return None;
      }
      tree := Plant(tree, path.value, Arr(records[i]));
      i := i + 1;
    }
    assert records[..i] == records;
    result := Some(tree);
  }

  /** Once a prefix of the records fails, index fails. */
  lemma {:induction false} IndexFailsLater(fields: seq<Key>, records: seq<Entries>, n: nat)
    requires fields != [] && n <= |records|
    requires IndexOf(fields, records[..n]) == None
    ensures IndexOf(fields, records) == None
    decreases |records| - n
  {
    if n < |records| {
      assert records[..n + 1][..n] == records[..n];
      IndexFailsLater(fields, records, n + 1);
    } else {
      assert records[..n] == records;
    }
  }

  /** The last record filed under q, if any. */
  function LastFiled(fields: seq<Key>, records: seq<Entries>, q: seq<Key>): Option<Mixed>
  {
    if records == [] then None
    else if RecordPath(records[|records| - 1], fields) == Some(q) then Some(Arr(records[|records| - 1]))
    else LastFiled(fields, records[..|records| - 1], q)
  }

  /** The leaf of the index at the field values q is the last record, in
      iteration order, with those field values: later records overwrite
      earlier ones. */
  lemma {:induction false} IndexLeaf(fields: seq<Key>, records: seq<Entries>, q: seq<Key>)
    requires fields != [] && |q| == |fields|
    requires IndexOf(fields, records).Some?
    ensures Dig(IndexOf(fields, records).value, q) == LastFiled(fields, records, q)
  {
    if records == [] {
      DigEmpty(q);
    } else {
      var n := |records| - 1;
      var tree := IndexOf(fields, records[..n]).value;
      var path := RecordPath(records[n], fields).value;
      IndexLeaf(fields, records[..n], q);
      PlantDig(tree, path, Arr(records[n]), q);
    }
  }

  /** index fails exactly when some record has an array in an indexed
      field. */
  lemma {:induction false} IndexFails(fields: seq<Key>, records: seq<Entries>)
    requires fields != []
    ensures IndexOf(fields, records).None? <==>
      exists i :: 0 <= i < |records| && RecordPath(records[i], fields).None?
  {
    if records != [] {
      var n := |records| - 1;
      IndexFails(fields, records[..n]);
      if IndexOf(fields, records[..n]).None? {
        var i :| 0 <= i < n && RecordPath(records[..n][i], fields).None?;
        assert records[i] == records[..n][i];
      }
      if RecordPath(records[n], fields).Some? && IndexOf(fields, records[..n]).Some? {
        forall i | 0 <= i < |records| ensures RecordPath(records[i], fields).Some? {
          if i < n {
            assert records[i] == records[..n][i];
          }
        }
      }
    }
  }

  // ---------------------------------------------------------------------
  // collect

  /** Every record's key with the record's prop field, in order. */
  function Collected(prop: Key, records: Entries): (r: Entries)
    requires forall i :: 0 <= i < |records| ==> records[i].1.Arr?
    ensures Keys(r) == Keys(records)
  {
    seq(|records|, i requires 0 <= i < |records| => (records[i].0, Field(records[i].1.entries, prop)))
  }

  /** `collect($prop, $records)`: the prop field of every record, under the
      record's key. */
  method Collect(prop: Key, records: Entries) returns (result: Entries)
    requires DistinctKeys(records)
    requires forall i :: 0 <= i < |records| ==> records[i].1.Arr?
    ensures result == Collected(prop, records)
  {
    result := [];
    var i := 0;
    while i < |records|
      invariant 0 <= i <= |records|
      invariant result == Collected(prop, records[..i])
    {
      var (key, record) := records[i];
      DistinctPrefix(records, i);
      CollectedSnoc(prop, records, i);
      StoreKeys(result, key, Field(record.entries, prop));
      result := Store(result, key, Field(record.entries, prop));
      i := i + 1;
    }
    assert records[..i] == records;
  }

  /** One more record adds one entry at the end. */
  lemma CollectedSnoc(prop: Key, records: Entries, i: nat)
    requires i < |records|
    requires forall j :: 0 <= j < |records| ==> records[j].1.Arr?
    ensures Collected(prop, records[..i + 1]) ==
      Collected(prop, records[..i]) + [(records[i].0, Field(records[i].1.entries, prop))]
  {
  }

  /** Reading a key of collect's result reads the prop field of the record
      under that key. */
  lemma CollectGet(prop: Key, records: Entries, j: nat)
    requires DistinctKeys(records) && j < |records|
    requires forall i :: 0 <= i < |records| ==> records[i].1.Arr?
    ensures Get(Collected(prop, records), records[j].0) == Some(Field(records[j].1.entries, prop))
  {
    var r := Collected(prop, records);
    assert DistinctKeys(r) by {
      forall a, b | 0 <= a < b < |r| ensures r[a].0 != r[b].0 {
        assert r[a].0 == records[a].0 && r[b].0 == records[b].0;
      }
    }
    GetAt(r, j);
  }

  // ---------------------------------------------------------------------
  // product

  /** The values a dimension ranges over; `foreach` over a non-array runs
      no iteration. */
  function Vector(v: Mixed): seq<Mixed>
  {
    if v.Arr? then Values(v.entries) else []
  }

  /** For every value in turn, every item of rest with key set to it. */
  function Layer(vs: seq<Mixed>, key: Key, rest: seq<Entries>): seq<Entries>
  {
    if vs == [] then []
    else Layer(vs[..|vs| - 1], key, rest) + Stamped(rest, key, vs[|vs| - 1])
  }

  /** Every item of rest with key set to v. */
  function Stamped(rest: seq<Entries>, key: Key, v: Mixed): (r: seq<Entries>)
    ensures |r| == |rest|
  {
    seq(|rest|, j requires 0 <= j < |rest| => Store(rest[j], key, v))
  }

  /** The items product returns: the template alone for no dimensions,
      otherwise the first dimension's values, each over the product of the
      other dimensions. */
  function ProductOf(dims: Entries, template: Entries): seq<Entries>
    decreases |dims|
  {
    if dims == [] then [template]
    else Layer(Vector(dims[0].1), dims[0].0, ProductOf(dims[1..], template))
  }

  /** `product($dimensions, $template)`. */
  method Product(dims: Entries, template: Entries) returns (results: seq<Entries>)
    requires DistinctKeys(dims)
    ensures results == ProductOf(dims, template)
    decreases |dims|
  {
    if dims == [] {
      return [template];
    }
    var firstKey, firstValues := dims[0].0, dims[0].1;
    var rest := Unset(dims, firstKey);
    RestOfDimensions(dims);
    var vs := Vector(firstValues);
    results := [];
    var a := 0;
    while a < |vs|
      invariant 0 <= a <= |vs|
      invariant results == Layer(vs[..a], firstKey, ProductOf(rest, template))
    {
      var sub := Product(rest, template);
      ghost var before := results;
      var b := 0;
      while b < |sub|
        invariant 0 <= b <= |sub|
        invariant results == before + Stamped(sub[..b], firstKey, vs[a])
      {
        StampedSnoc(sub, b, firstKey, vs[a]);
        var result := Store(sub[b], firstKey, vs[a]);
        results := results + [result];
        b := b + 1;
      }
      assert sub[..b] == sub;
      LayerSnoc(vs, a, firstKey, sub);
      a := a + 1;
    }
    assert vs[..a] == vs;
  }

  /** Unsetting the first dimension leaves the others, still distinct. */
  lemma RestOfDimensions(dims: Entries)
    requires DistinctKeys(dims) && dims != []
    ensures Unset(dims, dims[0].0) == dims[1..] && DistinctKeys(dims[1..])
  {
    UnsetAt(dims, dims[0].0, 0);
    assert dims[..0] + dims[1..] == dims[1..];
    DistinctKeysCons(dims);
  }

  lemma StampedSnoc(sub: seq<Entries>, b: nat, key: Key, v: Mixed)
    requires b < |sub|
    ensures Stamped(sub[..b + 1], key, v) == Stamped(sub[..b], key, v) + [Store(sub[b], key, v)]
  {
  }

  lemma LayerSnoc(vs: seq<Mixed>, a: nat, key: Key, rest: seq<Entries>)
    requires a < |vs|
    ensures Layer(vs[..a + 1], key, rest) == Layer(vs[..a], key, rest) + Stamped(rest, key, vs[a])
  {
    assert vs[..a + 1][..a] == vs[..a];
  }

  lemma MulStep(n: nat, m: nat)
    requires n > 0
    ensures (n - 1) * m + m == n * m
  {
  }

  lemma MulMono(x: nat, y: nat, m: nat)
    requires x <= y
    ensures x * m <= y * m
  {
  }

  /** The number of items: the product of the vector lengths. */
  function Volume(dims: Entries): nat
  {
    if dims == [] then 1 else |Vector(dims[0].1)| * Volume(dims[1..])
  }

  lemma {:induction false} LayerLength(vs: seq<Mixed>, key: Key, rest: seq<Entries>)
    ensures |Layer(vs, key, rest)| == |vs| * |rest|
  {
    if vs != [] {
      LayerLength(vs[..|vs| - 1], key, rest);
      MulStep(|vs|, |rest|);
    }
  }

  /** product returns one item per combination of values. */
  lemma {:induction false} ProductCount(dims: Entries, template: Entries)
    ensures |ProductOf(dims, template)| == Volume(dims)
  {
    if dims != [] {
      ProductCount(dims[1..], template);
      LayerLength(Vector(dims[0].1), dims[0].0, ProductOf(dims[1..], template));
    }
  }

  /** A dimension with no values leaves no items at all. */
  lemma {:induction false} ProductEmptyVector(dims: Entries, template: Entries, j: nat)
    requires j < |dims| && Vector(dims[j].1) == []
    ensures ProductOf(dims, template) == []
  {
    ProductCount(dims, template);
    VolumeZero(dims, j);
  }

  lemma {:induction false} VolumeZero(dims: Entries, j: nat)
    requires j < |dims| && Vector(dims[j].1) == []
    ensures Volume(dims) == 0
  {
    if j > 0 {
      VolumeZero(dims[1..], j - 1);
    }
  }

  /** The item for value a of the first dimension and item b of the rest
      sits at a * |rest| + b: the first dimension varies slowest. */
  lemma {:induction false} LayerAt(vs: seq<Mixed>, key: Key, rest: seq<Entries>, a: nat, b: nat)
    requires a < |vs| && b < |rest|
    ensures a * |rest| + b < |Layer(vs, key, rest)|
    ensures Layer(vs, key, rest)[a * |rest| + b] == Store(rest[b], key, vs[a])
  {
    var n := |vs| - 1;
    LayerLength(vs[..n], key, rest);
    LayerLength(vs, key, rest);
    if a < n {
      LayerAt(vs[..n], key, rest, a, b);
      MulMono(a + 1, n, |rest|);
    } else {
      MulStep(|vs|, |rest|);
    }
  }

  /** Every item of a layer is an item of rest with key set to one of the
      values: item b of rest under value a. */
  lemma {:induction false} LayerMember(vs: seq<Mixed>, key: Key, rest: seq<Entries>, i: nat) returns (a: nat, b: nat)
    requires i < |Layer(vs, key, rest)|
    ensures a < |vs| && b < |rest| && Layer(vs, key, rest)[i] == Store(rest[b], key, vs[a])
  {
    var n := |vs| - 1;
    var front := Layer(vs[..n], key, rest);
    assert Layer(vs, key, rest) == front + Stamped(rest, key, vs[n]);
    if i < |front| {
      a, b := LayerMember(vs[..n], key, rest, i);
      assert vs[..n][a] == vs[a];
    } else {
      a, b := n, i - |front|;
    }
  }

  /** Item i of the product: item b of the other dimensions' product with
      the first dimension's key set to its value a. */
  lemma ProductParent(dims: Entries, template: Entries, i: nat) returns (a: nat, b: nat)
    requires dims != [] && i < |ProductOf(dims, template)|
    ensures a < |Vector(dims[0].1)| && b < |ProductOf(dims[1..], template)|
    ensures ProductOf(dims, template)[i] == Store(ProductOf(dims[1..], template)[b], dims[0].0, Vector(dims[0].1)[a])
  {
    a, b := LayerMember(Vector(dims[0].1), dims[0].0, ProductOf(dims[1..], template), i);
  }

  /** Every item sets each dimension key to one of that dimension's
      values. */
  lemma {:induction false} ProductItemValues(dims: Entries, template: Entries, i: nat, j: nat)
    requires DistinctKeys(dims) && i < |ProductOf(dims, template)| && j < |dims|
    ensures var v := Get(ProductOf(dims, template)[i], dims[j].0);
      v.Some? && v.value in Vector(dims[j].1)
    decreases |dims|
  {
    var rest := ProductOf(dims[1..], template);
    var vs, key := Vector(dims[0].1), dims[0].0;
    var a, b := ProductParent(dims, template, i);
    StoreGet(rest[b], key, vs[a], dims[j].0);
    if j > 0 {
      RestOfDimensions(dims);
      assert dims[1..][j - 1] == dims[j];
      ProductItemValues(dims[1..], template, b, j - 1);
      assert dims[j].0 != key by {
        assert Keys(dims[1..])[j - 1] == dims[j].0;
      }
    }
  }

  /** Keys that are no dimension keep the template's value in every item. */
  lemma {:induction false} ProductItemOthers(dims: Entries, template: Entries, i: nat, k: Key)
    requires i < |ProductOf(dims, template)| && k !in Keys(dims)
    ensures Get(ProductOf(dims, template)[i], k) == Get(template, k)
    decreases |dims|
  {
    if dims != [] {
      var rest := ProductOf(dims[1..], template);
      var vs, key := Vector(dims[0].1), dims[0].0;
      var a, b := ProductParent(dims, template, i);
      assert Keys(dims) == [key] + Keys(dims[1..]);
      assert k != key && k !in Keys(dims[1..]);
      ProductItemOthers(dims[1..], template, b, k);
      StoreGet(rest[b], key, vs[a], k);
    }
  }

  function Reversed(ks: seq<Key>): (r: seq<Key>)
    ensures |r| == |ks|
  {
    if ks == [] then [] else Reversed(ks[1..]) + [ks[0]]
  }

  /** The keys of every item: the template's, then the dimension keys from
      the last dimension to the first, when the template has none of them. */
  lemma {:induction false} ProductItemKeys(dims: Entries, template: Entries, i: nat)
    requires DistinctKeys(dims) && i < |ProductOf(dims, template)|
    requires forall j :: 0 <= j < |dims| ==> dims[j].0 !in Keys(template)
    ensures Keys(ProductOf(dims, template)[i]) == Keys(template) + Reversed(Keys(dims))
    decreases |dims|
  {
    if dims != [] {
      var rest := ProductOf(dims[1..], template);
      var vs, key := Vector(dims[0].1), dims[0].0;
      var a, b := ProductParent(dims, template, i);
      RestOfDimensions(dims);
      DistinctKeysCons(dims);
      forall j | 0 <= j < |dims[1..]| ensures dims[1..][j].0 !in Keys(template) {
        assert dims[1..][j] == dims[j + 1];
      }
      ProductItemKeys(dims[1..], template, b);
      var ks := Keys(dims);
      assert ks[0] == key && ks[1..] == Keys(dims[1..]);
      ReversedHas(Keys(dims[1..]), key);
      StoreKeys(rest[b], key, vs[a]);
      assert Keys(template) + Reversed(ks) == (Keys(template) + Reversed(ks[1..])) + [key];
    }
  }

  lemma {:induction false} ReversedHas(ks: seq<Key>, k: Key)
    ensures k in Reversed(ks) <==> k in ks
  {
    if ks != [] {
      ReversedHas(ks[1..], k);
      assert ks == [ks[0]] + ks[1..];
    }
  }

  /** The position of a combination of value indexes, the first dimension
      varying slowest. */
  function Rank(dims: Entries, c: seq<nat>): nat
    requires |c| == |dims|
  {
    if dims == [] then 0 else c[0] * Volume(dims[1..]) + Rank(dims[1..], c[1..])
  }

  /** Every combination of values occurs, at its rank. */
  lemma {:induction false} ProductChoice(dims: Entries, template: Entries, c: seq<nat>)
    requires DistinctKeys(dims) && |c| == |dims|
    requires forall j :: 0 <= j < |dims| ==> c[j] < |Vector(dims[j].1)|
    ensures Rank(dims, c) < |ProductOf(dims, template)|
    ensures forall j :: 0 <= j < |dims| ==>
      Get(ProductOf(dims, template)[Rank(dims, c)], dims[j].0) == Some(Vector(dims[j].1)[c[j]])
    decreases |dims|
  {
    ProductCount(dims, template);
    if dims != [] {
      var rest := ProductOf(dims[1..], template);
      var vs, key := Vector(dims[0].1), dims[0].0;
      DistinctKeysCons(dims);
      ProductChoice(dims[1..], template, c[1..]);
      ProductCount(dims[1..], template);
      var b := Rank(dims[1..], c[1..]);
      LayerAt(vs, key, rest, c[0], b);
      var item := ProductOf(dims, template)[Rank(dims, c)];
      assert item == Store(rest[b], key, vs[c[0]]);
      forall j | 0 <= j < |dims| ensures Get(item, dims[j].0) == Some(Vector(dims[j].1)[c[j]]) {
        StoreGet(rest[b], key, vs[c[0]], dims[j].0);
        if j > 0 {
          assert dims[j] == dims[1..][j - 1];
          assert Keys(dims[1..])[j - 1] == dims[j].0;
        }
      }
    }
  }
}
