/**
 * The helpers that edit an array passed by reference: `crmArraySplice`,
 * `remove`, `crmReplaceKey` and `lookupValue`. A by-reference array is an
 * in/out value here: the method receives the array and returns the array the
 * caller holds afterwards.
 */
module ArrayEdits {
  import opened PhpValues
  import opened PhpStrings

  // ---------------------------------------------------------------------
  // crmArraySplice

  /** The first position removed, once start is clamped to the array. */
  function SpliceLo(start: int, n: nat): (lo: nat)
    ensures lo <= n
  {
    if start < 0 then 0 else if start > n then n else start
  }

  /** One past the last position removed: end is exclusive and clamped to
      the array, and an end before the start removes nothing. */
  function SpliceHi(start: int, end: int, n: nat): (hi: nat)
    ensures SpliceLo(start, n) <= hi <= n
  {
    var lo := SpliceLo(start, n);
    if end > n then n else if end < lo then lo else end
  }

  /** Cutting a block out of an array without repeated keys leaves none. */
  lemma DistinctCut(es: Entries, lo: nat, m: nat)
    requires DistinctKeys(es) && lo <= m <= |es|
    ensures DistinctKeys(es[..lo] + es[m..])
  {
    var c := es[..lo] + es[m..];
    forall a, b | 0 <= a < b < |c| ensures c[a].0 != c[b].0 {
      var a' := if a < lo then a else a - lo + m;
      var b' := if b < lo then b else b - lo + m;
      assert c[a] == es[a'] && c[b] == es[b'];
    }
  }

  /** The position the loop of crmArraySplice has cut up to. */
  function CutFrom(i: nat, lo: nat, hi: nat): nat
  {
    if i < lo then lo else if i < hi then i else hi
  }

  /** `crmArraySplice($params, $start, $end)`: walks the array with a
      position counter and unsets every entry whose position lies in
      [start, end). */
  method CrmArraySplice(params: Entries, start: int, end: int) returns (r: Entries)
    requires DistinctKeys(params)
    ensures r == params[..SpliceLo(start, |params|)] + params[SpliceHi(start, end, |params|)..]
  {
    var s := if start < 0 then 0 else start;
    var e := if end > |params| then |params| else end;
    ghost var lo := SpliceLo(start, |params|);
    ghost var hi := SpliceHi(start, end, |params|);
    r := params;
    assert params[..lo] + params[lo..] == params;
    var i := 0;
    ghost var cut := lo;
    while i < |params|
      invariant 0 <= i <= |params|
      invariant cut == CutFrom(i, lo, hi)
      invariant r == params[..lo] + params[cut..]
    {
      SpliceWindow(start, end, |params|, i);
      SpliceStep(params, lo, hi, i);
      if i >= s && i < e {
        r := Unset(r, params[i].0);
      }
      cut := CutFrom(i + 1, lo, hi);
      i := i + 1;
    }
  }

  /** The loop's test on the unclamped start and the clamped end picks out
      exactly the positions lo <= i < hi. */
  lemma SpliceWindow(start: int, end: int, n: nat, i: nat)
    requires i < n
    ensures ((if start < 0 then 0 else start) <= i < (if end > n then n else end)) <==>
      SpliceLo(start, n) <= i < SpliceHi(start, end, n)
  {
  }

  /** One turn of the loop: inside the window it unsets the next entry after
      the cut, outside it leaves the cut where it is. */
  lemma SpliceStep(params: Entries, lo: nat, hi: nat, i: nat)
    requires DistinctKeys(params) && lo <= hi <= |params| && i < |params|
    ensures lo <= i < hi ==>
      Unset(params[..lo] + params[CutFrom(i, lo, hi)..], params[i].0) == params[..lo] + params[CutFrom(i + 1, lo, hi)..]
    ensures !(lo <= i < hi) ==> CutFrom(i + 1, lo, hi) == CutFrom(i, lo, hi)
  {
    if lo <= i < hi {
      UnsetNext(params, lo, i);
    }
  }

  /** Unsetting the key of the next entry after the cut extends the cut. */
  lemma UnsetNext(params: Entries, lo: nat, i: nat)
    requires DistinctKeys(params) && lo <= i < |params|
    ensures Unset(params[..lo] + params[i..], params[i].0) == params[..lo] + params[i + 1..]
  {
    var r := params[..lo] + params[i..];
    DistinctCut(params, lo, i);
    assert r[lo] == params[i];
    UnsetAt(r, params[i].0, lo);
    assert r[..lo] == params[..lo] && r[lo + 1..] == params[i + 1..];
  }

  /** After crmArraySplice the removed keys are gone and every other key
      still holds its value. */
  lemma SpliceGet(params: Entries, start: int, end: int, j: nat)
    requires DistinctKeys(params) && j < |params|
    ensures var lo, hi := SpliceLo(start, |params|), SpliceHi(start, end, |params|);
      Get(params[..lo] + params[hi..], params[j].0) == if lo <= j < hi then None else Some(params[j].1)
  {
    var lo, hi := SpliceLo(start, |params|), SpliceHi(start, end, |params|);
    var c := params[..lo] + params[hi..];
    DistinctCut(params, lo, hi);
    if j < lo {
      assert c[j] == params[j];
      GetAt(c, j);
    } else if j >= hi {
      assert c[j - hi + lo] == params[j];
      GetAt(c, j - hi + lo);
    } else {
      forall t | 0 <= t < |c| ensures Keys(c)[t] != params[j].0 {
        var t' := if t < lo then t else t - lo + hi;
        assert c[t] == params[t'];
      }
    }
  }

  // ---------------------------------------------------------------------
  // remove

  /** One argument of `remove` after the array: a key, or a list of keys. */
  datatype KeyArg = One(key: Key) | Several(keys: seq<Key>)

  function KeySet(ks: seq<Key>): set<Key>
  {
    set k | k in ks
  }

  /** The keys named by the arguments. */
  function ArgKeys(args: seq<KeyArg>): set<Key>
  {
    if args == [] then {}
    else
      var last := args[|args| - 1];
      ArgKeys(args[..|args| - 1]) + match last
        case One(k) => {k}
        case Several(ks) => KeySet(ks)
  }

  /** The entries whose key is not in ks, in their order. */
  function Without(es: Entries, ks: set<Key>): (r: Entries)
    ensures forall e :: e in r <==> e in es && e.0 !in ks
  {
    if es == [] then []
    else if es[0].0 in ks then Without(es[1..], ks)
    else [es[0]] + Without(es[1..], ks)
  }

  lemma {:induction false} WithoutGet(es: Entries, ks: set<Key>, k: Key)
    ensures Get(Without(es, ks), k) == if k in ks then None else Get(es, k)
  {
    if es != [] {
      WithoutGet(es[1..], ks, k);
    }
  }

  lemma {:induction false} WithoutNothing(es: Entries)
    ensures Without(es, {}) == es
  {
    if es != [] {
      WithoutNothing(es[1..]);
    }
  }

  /** One more `unset` removes one more key. */
  lemma {:induction false} UnsetWithout(es: Entries, ks: set<Key>, k: Key)
    ensures Unset(Without(es, ks), k) == Without(es, ks + {k})
  {
    if es != [] {
      UnsetWithout(es[1..], ks, k);
      if es[0].0 !in ks {
        var w := Without(es, ks);
        assert w[0] == es[0] && w[1..] == Without(es[1..], ks);
      }
    }
  }

  /** `remove($items, ...)`: unsets each key argument, and each key of each
      list argument, in argument order. */
  method Remove(items: Entries, args: seq<KeyArg>) returns (r: Entries)
    ensures r == Without(items, ArgKeys(args))
  {
    r := items;
    WithoutNothing(items);
    var n := 0;
    while n < |args|
      invariant 0 <= n <= |args|
      invariant r == Without(items, ArgKeys(args[..n]))
    {
      assert args[..n + 1][..n] == args[..n];
      var arg := args[n];
      if arg.One? {
        UnsetWithout(items, ArgKeys(args[..n]), arg.key);
        r := Unset(r, arg.key);
      } else {
        var ks := arg.keys;
        var j := 0;
        assert ArgKeys(args[..n]) + KeySet(ks[..0]) == ArgKeys(args[..n]);
        while j < |ks|
          invariant 0 <= j <= |ks|
          invariant r == Without(items, ArgKeys(args[..n]) + KeySet(ks[..j]))
        {
          ghost var done := ArgKeys(args[..n]) + KeySet(ks[..j]);
          UnsetWithout(items, done, ks[j]);
          assert KeySet(ks[..j + 1]) == KeySet(ks[..j]) + {ks[j]} by {
            assert ks[..j + 1] == ks[..j] + [ks[j]];
          }
          assert done + {ks[j]} == ArgKeys(args[..n]) + KeySet(ks[..j + 1]);
          r := Unset(r, ks[j]);
          j := j + 1;
        }
        assert ks[..j] == ks;
      }
      n := n + 1;
    }
    assert args[..n] == args;
  }

  /** After remove every named key is gone, every other key keeps its
      value, and the survivors keep their order. */
  lemma RemoveGet(items: Entries, args: seq<KeyArg>, k: Key)
    ensures Get(Without(items, ArgKeys(args)), k) == if k in ArgKeys(args) then None else Get(items, k)
  {
    WithoutGet(items, ArgKeys(args), k);
  }

  // ---------------------------------------------------------------------
  // crmReplaceKey

  /** `array_search($k, $keys, TRUE)`: the first position holding k. */
  function FirstIndex(ks: seq<Key>, k: Key): (i: nat)
    requires k in ks
    ensures i < |ks| && ks[i] == k && k !in ks[..i]
  {
    if ks[0] == k then 0
    else
      var i := FirstIndex(ks[1..], k);
      assert ks[..i + 1] == [ks[0]] + ks[1..][..i];
      i + 1
  }

  /** `array_combine($keys, $values)`: writes the pairs in order, so a
      repeated key keeps its first position and its last value. */
  function Combine(ks: seq<Key>, vs: seq<Mixed>): Entries
    requires |ks| == |vs|
  {
    if ks == [] then []
    else Store(Combine(ks[..|ks| - 1], vs[..|vs| - 1]), ks[|ks| - 1], vs[|vs| - 1])
  }

  /** The pairs side by side. */
  function Zip(ks: seq<Key>, vs: seq<Mixed>): (r: Entries)
    requires |ks| == |vs|
    ensures Keys(r) == ks && Values(r) == vs
  {
    seq(|ks|, i requires 0 <= i < |ks| => (ks[i], vs[i]))
  }

  /** Without repeated keys, array_combine just pairs them up. */
  lemma {:induction false} CombineDistinct(ks: seq<Key>, vs: seq<Mixed>)
    requires |ks| == |vs|
    requires forall i, j :: 0 <= i < j < |ks| ==> ks[i] != ks[j]
    ensures Combine(ks, vs) == Zip(ks, vs)
  {
    if ks != [] {
      var n := |ks| - 1;
      CombineDistinct(ks[..n], vs[..n]);
      var z := Zip(ks[..n], vs[..n]);
      assert ks[n] !in Keys(z) by {
        forall t | 0 <= t < n ensures Keys(z)[t] != ks[n] {
          assert Keys(z)[t] == ks[t];
        }
      }
      StoreKeys(z, ks[n], vs[n]);
      assert z + [(ks[n], vs[n])] == Zip(ks, vs);
    }
  }

  /** `crmReplaceKey($a, $oldKey, $newKey)`: the exception for a missing old
      key is None; otherwise the keys with the old key's first position
      renamed, recombined with the values. */
  function CrmReplaceKey(es: Entries, oldKey: Key, newKey: Key): (r: Option<Entries>)
    ensures r.None? <==> oldKey !in Keys(es)
  {
    var keys := Keys(es);
    if oldKey !in keys then None
    else
      var index := FirstIndex(keys, oldKey);
      Some(Combine(keys[index := newKey], Values(es)))
  }

  /** With a fresh new key the array keeps its values and its order, and
      only the old key's entry changes its key. */
  lemma ReplaceKeyFresh(es: Entries, i: nat, newKey: Key)
    requires DistinctKeys(es) && i < |es|
    requires newKey == es[i].0 || newKey !in Keys(es)
    ensures CrmReplaceKey(es, es[i].0, newKey) == Some(es[i := (newKey, es[i].1)])
  {
    var keys := Keys(es);
    assert keys[i] == es[i].0;
    var index := FirstIndex(keys, es[i].0);
    assert index == i;
    var ks := keys[i := newKey];
    forall a, b | 0 <= a < b < |ks| ensures ks[a] != ks[b] {
      assert ks[a] == if a == i then newKey else es[a].0;
      assert ks[b] == if b == i then newKey else es[b].0;
      if a != i && b != i {
      } else if newKey != es[i].0 {
        assert keys[a] == es[a].0 && keys[b] == es[b].0;
      }
    }
    CombineDistinct(ks, Values(es));
    assert Zip(ks, Values(es)) == es[i := (newKey, es[i].1)];
  }

  // ---------------------------------------------------------------------
  // lookupValue

  /** Writes every entry under a new key computed from the old one, in
      order; keys that collide keep the first position and the last value. */
  function Rekey(es: Entries, f: Key -> Key): Entries
  {
    if es == [] then []
    else Store(Rekey(es[..|es| - 1], f), f(es[|es| - 1].0), es[|es| - 1].1)
  }

  /** The entries with each key renamed by f, in their order. */
  function Renamed(es: Entries, f: Key -> Key): (r: Entries)
    ensures |r| == |es|
  {
    seq(|es|, i requires 0 <= i < |es| => (f(es[i].0), es[i].1))
  }

  /** When the new keys do not collide, Rekey is a plain renaming in place. */
  lemma {:induction false} RekeyInjective(es: Entries, f: Key -> Key)
    requires DistinctKeys(Renamed(es, f))
    ensures Rekey(es, f) == Renamed(es, f)
  {
    if es != [] {
      var n := |es| - 1;
      var r := Renamed(es, f);
      assert Renamed(es[..n], f) == r[..n];
      assert DistinctKeys(r[..n]);
      RekeyInjective(es[..n], f);
      DistinctPrefix(r, n);
      StoreKeys(r[..n], f(es[n].0), es[n].1);
      assert r[..n] + [r[n]] == r;
    }
  }

  /** A renamed array holds a (renamed) entry for every key it had. */
  lemma {:induction false} RekeyKeeps(es: Entries, f: Key -> Key, k: Key)
    requires k in Keys(es)
    ensures f(k) in Keys(Rekey(es, f))
  {
    var n := |es| - 1;
    var rest := Rekey(es[..n], f);
    StoreKeys(rest, f(es[n].0), es[n].1);
    if es[n].0 != k {
      assert Keys(es) == Keys(es[..n]) + [es[n].0];
      RekeyKeeps(es[..n], f, k);
    }
  }

  function LowerKey(k: Key): Key
  {
    match k
    case IntKey(_) => k
    case StrKey(s) => StrKey(Lower(s))
  }

  /** `array_change_key_case($a, CASE_LOWER)`. */
  function ChangeKeyCase(es: Entries): Entries
  {
    Rekey(es, LowerKey)
  }

  /** The key a trimmed key is stored under: `$newLook[trim($k, ".")]`. */
  function TrimKey(k: Key): Key
  {
    AsKey(Trim(KeyToString(k), {'.'}))
  }

  /** The key an integer or string value becomes when flipped. */
  function ValueKey(v: Mixed): Option<Key>
  {
    match v
    case Int(i) => Some(IntKey(i))
    case Str(s) => Some(AsKey(s))
    case _ => None
  }

  /** `array_flip($a)`: each integer or string value becomes a key holding
      the old key; other values are skipped (PHP warns about them). */
  function Flip(es: Entries): Entries
  {
    if es == [] then []
    else
      var rest := Flip(es[..|es| - 1]);
      var (k, v) := es[|es| - 1];
      match ValueKey(v)
      case Some(k') => Store(rest, k', KeyAsValue(k))
      case None => rest
  }

  /** Every value turned into a key, every key into a value, in order. */
  function Flipped(es: Entries): (r: Entries)
    requires forall i :: 0 <= i < |es| ==> ValueKey(es[i].1).Some?
    ensures |r| == |es|
  {
    seq(|es|, i requires 0 <= i < |es| => (ValueKey(es[i].1).value, KeyAsValue(es[i].0)))
  }

  /** When no two values give the same key, array_flip just swaps each
      entry's key and value. */
  lemma {:induction false} FlipInjective(es: Entries)
    requires forall i :: 0 <= i < |es| ==> ValueKey(es[i].1).Some?
    requires DistinctKeys(Flipped(es))
    ensures Flip(es) == Flipped(es)
  {
    if es != [] {
      var n := |es| - 1;
      var r := Flipped(es);
      assert Flipped(es[..n]) == r[..n];
      assert DistinctKeys(r[..n]);
      FlipInjective(es[..n]);
      DistinctPrefix(r, n);
      StoreKeys(r[..n], r[n].0, r[n].1);
      assert r[..n] + [r[n]] == r;
    }
  }

  /** Reading a missing key gives null (with a notice). */
  function OrNull(o: Option<Mixed>): Mixed
  {
    match o
    case Some(x) => x
    case None => Null
  }

  function SourceName(property: string, reverse: bool): string
  {
    if reverse then property else property + "_id"
  }

  function TargetName(property: string, reverse: bool): string
  {
    if reverse then property + "_id" else property
  }

  /** What lookupValue stores under the target name, or None when it
      returns FALSE: the source field must exist (case-insensitively); its
      value, lower-cased and stripped of dots, is then looked up among the
      lookup table's keys (flipped when reverse), stripped of dots and
      lower-cased. The source value is read under the lower-cased name, so
      a source field spelt in capitals reads as null. */
  function LookupTarget(defaults: Entries, property: string, lookup: Entries, reverse: bool): Option<Mixed>
  {
    var src := AsKey(Lower(SourceName(property, reverse)));
    if Get(ChangeKeyCase(defaults), src).None? then None
    else
      var look := Rekey(if reverse then Flip(lookup) else lookup, TrimKey);
      var v := OrNull(Get(defaults, src));
      Get(ChangeKeyCase(look), AsKey(Trim(Lower(ToStr(v)), {'.'})))
  }

  /** `lookupValue($defaults, $property, $lookup, $reverse)`: when the
      value is found, writes it into the caller's array. */
  method LookupValue(defaults: Entries, property: string, lookup: Entries, reverse: bool)
    returns (found: bool, result: Entries)
    ensures var t := LookupTarget(defaults, property, lookup, reverse);
      found == t.Some? &&
      result == if found then Put(defaults, AsKey(TargetName(property, reverse)), t.value) else defaults
  {
    var id := property + "_id";
    var src := if reverse then property else id;
    var dst := if reverse then id else property;
    result := defaults;
    if Get(ChangeKeyCase(defaults), AsKey(Lower(src))).None? {
      return false, result;
    }
    var look := if reverse then Flip(lookup) else lookup;
    var newLook := TrimLookupKeys(look);
    var v := OrNull(Get(defaults, AsKey(Lower(src))));
    var hit := Get(ChangeKeyCase(newLook), AsKey(Trim(Lower(ToStr(v)), {'.'})));
    if hit.None? {
      return false, result;
    }
    result := Put(defaults, AsKey(dst), hit.value);
    found := true;
  }

  /** The loop of lookupValue that strips dots from the table's keys. */
  method TrimLookupKeys(look: Entries) returns (newLook: Entries)
    ensures newLook == Rekey(look, TrimKey)
  {
    newLook := [];
    var i := 0;
    while i < |look|
      invariant 0 <= i <= |look|
      invariant newLook == Rekey(look[..i], TrimKey)
    {
      assert look[..i + 1][..i] == look[..i];
      newLook := Put(newLook, TrimKey(look[i].0), look[i].1);
      i := i + 1;
    }
    assert look[..i] == look;
  }

  lemma LowerDigits(s: string)
    requires forall i :: 0 <= i < |s| ==> s[i] == '-' || IsDigit(s[i])
    ensures Lower(s) == s
  {
  }

  lemma TrimNothing(s: string, c: char)
    requires forall i :: 0 <= i < |s| ==> s[i] != c
    ensures Trim(s, {c}) == s
  {
    if s != [] {
      assert TrimLeft(s, {c}) == s;
      assert TrimRight(s, {c}) == s;
    }
  }

  lemma {:induction false} NatToStringDigits(n: nat)
    ensures forall i :: 0 <= i < |NatToString(n)| ==> IsDigit(NatToString(n)[i])
  {
    NatToStringCanonical(n);
  }

  /** An integer key survives the lower-casing and the dot-trimming. */
  lemma IntKeyTrimmed(i: int)
    ensures TrimKey(IntKey(i)) == IntKey(i)
    ensures AsKey(Trim(Lower(IntToString(i)), {'.'})) == IntKey(i)
  {
    var s := IntToString(i);
    var n := if i < 0 then -i else i;
    NatToStringDigits(n);
    assert forall t :: 0 <= t < |s| ==> s[t] == '-' || IsDigit(s[t]) by {
      if i < 0 {
        forall t | 0 < t < |s| ensures IsDigit(s[t]) {
          assert s[t] == NatToString(n)[t - 1];
        }
      }
    }
    LowerDigits(s);
    TrimNothing(s, '.');
    IntKeyRoundTrip(i);
  }

  /** A source field spelt in lower case is found by the case-insensitive
      test. */
  lemma SourcePresent(defaults: Entries, name: string)
    requires Lower(name) == name && AsKey(name) == StrKey(name)
    requires StrKey(name) in Keys(defaults)
    ensures Get(ChangeKeyCase(defaults), AsKey(Lower(name))).Some?
  {
    RekeyKeeps(defaults, LowerKey, StrKey(name));
  }

  lemma IntKeysTrimmed(lookup: Entries)
    requires DistinctKeys(lookup) && forall i :: 0 <= i < |lookup| ==> lookup[i].0.IntKey?
    ensures Rekey(lookup, TrimKey) == lookup
  {
    forall i | 0 <= i < |lookup| ensures TrimKey(lookup[i].0) == lookup[i].0 {
      IntKeyTrimmed(lookup[i].0.i);
    }
    var r := Renamed(lookup, TrimKey);
    assert forall i :: 0 <= i < |lookup| ==> r[i] == lookup[i];
    assert r == lookup;
    RekeyInjective(lookup, TrimKey);
  }

  lemma IntKeysLowered(lookup: Entries)
    requires DistinctKeys(lookup) && forall i :: 0 <= i < |lookup| ==> lookup[i].0.IntKey?
    ensures ChangeKeyCase(lookup) == lookup
  {
    var r := Renamed(lookup, LowerKey);
    forall i | 0 <= i < |lookup| ensures r[i] == lookup[i] {
      assert LowerKey(lookup[i].0) == lookup[i].0;
    }
    assert r == lookup;
    RekeyInjective(lookup, LowerKey);
  }

  /** A table keyed by integers comes through the dot-trimming and the
      lower-casing unchanged. */
  lemma IntTableKept(lookup: Entries)
    requires DistinctKeys(lookup) && forall i :: 0 <= i < |lookup| ==> lookup[i].0.IntKey?
    ensures ChangeKeyCase(Rekey(lookup, TrimKey)) == lookup
  {
    IntKeysTrimmed(lookup);
    IntKeysLowered(lookup);
  }

  lemma LowerIdName(property: string)
    requires Lower(property) == property
    ensures Lower(property + "_id") == property + "_id"
  {
  }

  /** The forward direction on an integer-keyed table (an id to a name):
      an integer id under `<property>_id` finds the table's entry for that
      id. */
  lemma LookupById(defaults: Entries, property: string, lookup: Entries, id: int)
    requires Lower(property) == property && AsKey(property + "_id") == StrKey(property + "_id")
    requires Get(defaults, StrKey(property + "_id")) == Some(Int(id))
    requires DistinctKeys(lookup) && forall i :: 0 <= i < |lookup| ==> lookup[i].0.IntKey?
    ensures LookupTarget(defaults, property, lookup, false) == Get(lookup, IntKey(id))
  {
    var src := property + "_id";
    LowerIdName(property);
    SourcePresent(defaults, src);
    IntTableKept(lookup);
    IntKeyTrimmed(id);
    assert OrNull(Get(defaults, AsKey(Lower(src)))) == Int(id);
  }

  /** The key a name in the lookup table ends under in the reverse
      direction: flipped into a key, stripped of dots, lower-cased. */
  function NameKey(name: string): Key
  {
    LowerKey(TrimKey(AsKey(name)))
  }

  /** The flipped table of names, at each step of the normalisation. */
  function NameStage(lookup: Entries, stage: nat): (r: Entries)
    requires forall i :: 0 <= i < |lookup| ==> lookup[i].1.Str?
    ensures |r| == |lookup|
  {
    seq(|lookup|, i requires 0 <= i < |lookup| =>
      var k := AsKey(lookup[i].1.s);
      (if stage == 0 then k else if stage == 1 then TrimKey(k) else LowerKey(TrimKey(k)), KeyAsValue(lookup[i].0)))
  }

  /** Keys that collide at one step collided at the steps before. */
  lemma NameStageDistinct(lookup: Entries, stage: nat)
    requires forall i :: 0 <= i < |lookup| ==> lookup[i].1.Str?
    requires forall i, i' :: 0 <= i < i' < |lookup| ==> NameKey(lookup[i].1.s) != NameKey(lookup[i'].1.s)
    ensures DistinctKeys(NameStage(lookup, stage))
  {
    var r := NameStage(lookup, stage);
    forall a, b | 0 <= a < b < |r| ensures r[a].0 != r[b].0 {
      assert NameKey(lookup[a].1.s) != NameKey(lookup[b].1.s);
    }
  }

  lemma NamesFlipped(lookup: Entries)
    requires forall i :: 0 <= i < |lookup| ==> lookup[i].1.Str?
    requires forall i, i' :: 0 <= i < i' < |lookup| ==> NameKey(lookup[i].1.s) != NameKey(lookup[i'].1.s)
    ensures Flip(lookup) == NameStage(lookup, 0)
  {
    forall i | 0 <= i < |lookup| ensures ValueKey(lookup[i].1) == Some(AsKey(lookup[i].1.s)) {
    }
    var f, n := Flipped(lookup), NameStage(lookup, 0);
    forall i | 0 <= i < |lookup| ensures f[i] == n[i] {
      var k := AsKey(lookup[i].1.s);
      assert f[i] == (k, KeyAsValue(lookup[i].0));
      assert n[i] == (k, KeyAsValue(lookup[i].0));
    }
    assert f == n;
    NameStageDistinct(lookup, 0);
    FlipInjective(lookup);
  }

  lemma NamesTrimmed(lookup: Entries)
    requires forall i :: 0 <= i < |lookup| ==> lookup[i].1.Str?
    requires forall i, i' :: 0 <= i < i' < |lookup| ==> NameKey(lookup[i].1.s) != NameKey(lookup[i'].1.s)
    ensures Rekey(NameStage(lookup, 0), TrimKey) == NameStage(lookup, 1)
  {
    NameStageDistinct(lookup, 1);
    assert Renamed(NameStage(lookup, 0), TrimKey) == NameStage(lookup, 1);
    RekeyInjective(NameStage(lookup, 0), TrimKey);
  }

  lemma NamesLowered(lookup: Entries)
    requires forall i :: 0 <= i < |lookup| ==> lookup[i].1.Str?
    requires forall i, i' :: 0 <= i < i' < |lookup| ==> NameKey(lookup[i].1.s) != NameKey(lookup[i'].1.s)
    ensures ChangeKeyCase(NameStage(lookup, 1)) == NameStage(lookup, 2)
  {
    NameStageDistinct(lookup, 2);
    assert Renamed(NameStage(lookup, 1), LowerKey) == NameStage(lookup, 2);
    RekeyInjective(NameStage(lookup, 1), LowerKey);
  }

  /** Names whose keys do not collide: the reverse table is each name's key
      holding its id, in table order. */
  lemma NameTable(lookup: Entries)
    requires forall i :: 0 <= i < |lookup| ==> lookup[i].1.Str?
    requires forall i, i' :: 0 <= i < i' < |lookup| ==> NameKey(lookup[i].1.s) != NameKey(lookup[i'].1.s)
    ensures ChangeKeyCase(Rekey(Flip(lookup), TrimKey)) == NameStage(lookup, 2)
    ensures DistinctKeys(NameStage(lookup, 2))
  {
    NamesFlipped(lookup);
    NamesTrimmed(lookup);
    NamesLowered(lookup);
    NameStageDistinct(lookup, 2);
  }

  /** The reverse direction (a name to its id): when no two names of the
      table end under the same key, a source value that normalises to a
      name's key finds that name's id. */
  lemma LookupByName(defaults: Entries, property: string, lookup: Entries, j: nat)
    requires Lower(property) == property && AsKey(property) == StrKey(property)
    requires StrKey(property) in Keys(defaults)
    requires forall i :: 0 <= i < |lookup| ==> lookup[i].1.Str?
    requires forall i, i' :: 0 <= i < i' < |lookup| ==> NameKey(lookup[i].1.s) != NameKey(lookup[i'].1.s)
    requires j < |lookup|
    requires NameKey(lookup[j].1.s) == AsKey(Trim(Lower(ToStr(OrNull(Get(defaults, StrKey(property))))), {'.'}))
    ensures LookupTarget(defaults, property, lookup, true) == Some(KeyAsValue(lookup[j].0))
  {
    SourcePresent(defaults, property);
    NameTable(lookup);
    GetAt(NameStage(lookup, 2), j);
  }

  /** trim strips one trailing dot from a word without dots. */
  lemma TrimTrailingDot(x: string)
    requires x != "" && '.' !in x
    ensures Trim(x + ".", {'.'}) == x
  {
    var s := x + ".";
    assert s[0] == x[0];
    assert TrimLeft(s, {'.'}) == s;
    assert s[..|x|] == x;
    assert TrimRight(s[..|x|], {'.'}) == x;
  }

  /** A string that does not start like a number is stored under a string
      key. */
  lemma WordKey(s: string)
    requires s != "" && !IsDigit(s[0]) && s[0] != '-'
    ensures AsKey(s) == StrKey(s)
  {
  }

  lemma DottedNameKey(w: string)
    requires w != "" && '.' !in w && !IsDigit(w[0]) && w[0] != '-'
    ensures NameKey(w + ".") == StrKey(Lower(w))
  {
    var dotted := w + ".";
    assert dotted[0] == w[0];
    WordKey(dotted);
    TrimTrailingDot(w);
    WordKey(w);
  }

  lemma PlainNameKey(w: string)
    requires w != "" && '.' !in w && !IsDigit(w[0]) && w[0] != '-'
    ensures NameKey(w) == StrKey(Lower(w))
  {
    WordKey(w);
    TrimNothing(w, '.');
  }

  lemma LowerWord(w: string)
    requires w != "" && '.' !in w && !IsDigit(w[0]) && w[0] != '-'
    ensures var lw := Lower(w); lw != "" && '.' !in lw && !IsDigit(lw[0]) && lw[0] != '-'
  {
    var lw := Lower(w);
    forall i | 0 <= i < |lw| ensures lw[i] != '.' {
      assert w[i] != '.';
    }
  }

  lemma PlainNeedle(w: string)
    requires w != "" && '.' !in w && !IsDigit(w[0]) && w[0] != '-'
    ensures AsKey(Trim(Lower(w), {'.'})) == StrKey(Lower(w))
  {
    LowerWord(w);
    WordKey(Lower(w));
    TrimNothing(Lower(w), '.');
  }

  lemma LowerDot(w: string)
    ensures Lower(w + ".") == Lower(w) + "."
  {
  }

  lemma DottedNeedle(w: string)
    requires w != "" && '.' !in w && !IsDigit(w[0]) && w[0] != '-'
    ensures AsKey(Trim(Lower(w + "."), {'.'})) == StrKey(Lower(w))
  {
    LowerWord(w);
    WordKey(Lower(w));
    LowerDot(w);
    TrimTrailingDot(Lower(w));
  }

  /** Dots and capitals do not matter (CRM-1514): a word stored with or
      without a trailing dot is found by the word with or without the dot,
      in any case. */
  lemma DotsIgnored(w: string)
    requires w != "" && '.' !in w && !IsDigit(w[0]) && w[0] != '-'
    ensures NameKey(w + ".") == StrKey(Lower(w)) && NameKey(w) == StrKey(Lower(w))
    ensures AsKey(Trim(Lower(w), {'.'})) == StrKey(Lower(w))
    ensures AsKey(Trim(Lower(w + "."), {'.'})) == StrKey(Lower(w))
  {
    DottedNameKey(w);
    PlainNameKey(w);
    PlainNeedle(w);
    DottedNeedle(w);
  }
}
