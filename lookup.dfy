/**
 * Lookups of CRM_Utils_Array: `value` (read with a default), `key` (the key
 * of a value) and `retrieveValueRecursive` (depth-first search of a key
 * through nested arrays).
 */
module ArrayLookup {
  import opened PhpValues

  /** `value($key, $list, $default)`: the value stored under key, even when
      that value is null; the default when the key is absent or list is not
      an array at all. */
  function Value(key: Key, list: Mixed, default: Mixed): (r: Mixed)
    ensures !list.Arr? || key !in Keys(list.entries) ==> r == default
    ensures list.Arr? && DistinctKeys(list.entries) ==>
      forall i :: 0 <= i < |list.entries| && list.entries[i].0 == key ==> r == list.entries[i].1
  {
    if list.Arr? then
      GetDistinct(list.entries);
      match Get(list.entries, key)
      case Some(v) => v
      case None => default
    else default
  }

  /** Reading back a key just written gives the value written. */
  lemma ValueAfterPut(es: Entries, key: Key, v: Mixed, default: Mixed)
    ensures Value(key, Arr(Put(es, key, v)), default) == v
  {
  }

  /** Reading back a key just unset gives the default. */
  lemma ValueAfterUnset(es: Entries, key: Key, default: Mixed)
    ensures Value(key, Arr(Unset(es, key)), default) == default
  {
    UnsetGet(es, key, key);
  }

  /** Position of the first entry holding value (`array_search` with strict
      comparison). */
  function SearchValue(es: Entries, value: Mixed): (r: Option<nat>)
    ensures r.None? <==> forall i :: 0 <= i < |es| ==> es[i].1 != value
    ensures r.Some? ==> r.value < |es| && es[r.value].1 == value
    ensures r.Some? ==> forall j :: 0 <= j < r.value ==> es[j].1 != value
  {
    if es == [] then None
    else if es[0].1 == value then Some(0)
    else
      match SearchValue(es[1..], value)
      case None => (assert forall i :: 1 <= i < |es| ==> es[i] == es[1..][i - 1]; None)
      case Some(j) => (assert forall i :: 1 <= i <= j + 1 ==> es[i] == es[1..][i - 1]; Some(j + 1))
  }

  /** `key($value, $list)`: the key of the first entry whose value is
      identical to value; none when there is no such entry or list is not an
      array. */
  function KeyOf(value: Mixed, list: Mixed): (r: Option<Key>)
    ensures r.None? <==> !list.Arr? || forall i :: 0 <= i < |list.entries| ==> list.entries[i].1 != value
    ensures r.Some? ==> exists i :: (0 <= i < |list.entries| && list.entries[i] == (r.value, value) &&
                                     forall j :: 0 <= j < i ==> list.entries[j].1 != value)
  {
    if list.Arr? then
      match SearchValue(list.entries, value)
      case Some(i) => Some(list.entries[i].0)
      case None => None
    else None
  }

  /** The key found by `key` reads back the value searched for. */
  lemma {:induction false} KeyOfThenValue(value: Mixed, es: Entries, default: Mixed)
    requires DistinctKeys(es) && KeyOf(value, Arr(es)).Some?
    ensures Value(KeyOf(value, Arr(es)).value, Arr(es), default) == value
  {
    var i :| 0 <= i < |es| && es[i] == (KeyOf(value, Arr(es)).value, value);
    assert es[i].0 == KeyOf(value, Arr(es)).value;
  }

  /** Some array reachable from v (v itself or one nested in it) holds a
      truthy value under key. */
  ghost predicate HasTruthyAt(v: Mixed, key: Key)
  {
    v.Arr? &&
    (Truthy(Value(key, v, Null)) || exists i :: 0 <= i < |v.entries| && HasTruthyAt(v.entries[i].1, key))
  }

  /** Some array reachable from v holds x under key. */
  ghost predicate FoundAt(v: Mixed, key: Key, x: Mixed)
  {
    v.Arr? &&
    (Value(key, v, Null) == x || exists i :: 0 <= i < |v.entries| && FoundAt(v.entries[i].1, key, x))
  }

  /** `retrieveValueRecursive($params, $key)`: the value under key at the top
      level if it is truthy, otherwise the first truthy value found under key
      by a depth-first search of the nested arrays in iteration order; null
      when there is none (a falsy value counts as not found). */
  function RetrieveValueRecursive(params: Mixed, key: Key): (r: Mixed)
    decreases Size(params), 1
    ensures r == Null || Truthy(r)
    ensures r != Null <==> HasTruthyAt(params, key)
    ensures r != Null ==> FoundAt(params, key, r)
    ensures params.Arr? && Truthy(Value(key, params, Null)) ==> r == Value(key, params, Null)
  {
    if !params.Arr? then Null
    else
      var v := Value(key, params, Null);
      if Truthy(v) then v else SearchChildren(params.entries, key)
  }

  /** The `foreach` of retrieveValueRecursive over the children of an array. */
  function SearchChildren(es: Entries, key: Key): (r: Mixed)
    decreases ESize(es), 0
    ensures r == Null || Truthy(r)
    ensures r != Null <==> exists i :: 0 <= i < |es| && HasTruthyAt(es[i].1, key)
    ensures r != Null ==> exists i :: 0 <= i < |es| && FoundAt(es[i].1, key, r)
  {
    if es == [] then Null
    else
      ESizeSplit(es);
      var first := if es[0].1.Arr? then RetrieveValueRecursive(es[0].1, key) else Null;
      if first != Null then first
      else
        var rest := SearchChildren(es[1..], key);
        assert forall i :: 1 <= i < |es| ==> es[i] == es[1..][i - 1];
        rest
  }

  // ---------------------------------------------------------------------
  // The search order of retrieveValueRecursive, stated independently.

  /** Every value stored under key in the tree, in depth-first pre-order:
      an array's own value under key (null when it lacks the key), then the
      hits of its children in iteration order. */
  ghost function Hits(v: Mixed, key: Key): seq<Mixed>
    decreases Size(v), 1
  {
    if v.Arr? then [Value(key, v, Null)] + ChildHits(v.entries, key) else []
  }

  ghost function ChildHits(es: Entries, key: Key): seq<Mixed>
    decreases ESize(es), 0
  {
    if es == [] then []
    else
      ESizeSplit(es);
      Hits(es[0].1, key) + ChildHits(es[1..], key)
  }

  /** The first truthy value of a sequence, or null. */
  ghost function FirstTruthy(s: seq<Mixed>): Mixed
  {
    if s == [] then Null else if Truthy(s[0]) then s[0] else FirstTruthy(s[1..])
  }

  lemma {:induction false} FirstTruthyConcat(a: seq<Mixed>, b: seq<Mixed>)
    ensures FirstTruthy(a + b) == if FirstTruthy(a) != Null then FirstTruthy(a) else FirstTruthy(b)
    ensures FirstTruthy(a) == Null || Truthy(FirstTruthy(a))
    decreases |a|
  {
    if a == [] {
      assert a + b == b;
    } else {
      assert (a + b)[0] == a[0] && (a + b)[1..] == a[1..] + b;
      FirstTruthyConcat(a[1..], b);
    }
  }

  /** retrieveValueRecursive returns the first truthy hit of the depth-first
      search in iteration order, and null when there is none. */
  lemma {:induction false} RetrieveFirstHit(params: Mixed, key: Key)
    ensures RetrieveValueRecursive(params, key) == FirstTruthy(Hits(params, key))
    decreases Size(params), 1
  {
    if params.Arr? {
      var v := Value(key, params, Null);
      SearchFirstHit(params.entries, key);
      FirstTruthyConcat([v], ChildHits(params.entries, key));
      assert [v][1..] == [];
    }
  }

  /** The loop over the children returns the first truthy hit among their
      subtrees, taken child by child in iteration order. */
  lemma {:induction false} SearchFirstHit(es: Entries, key: Key)
    ensures SearchChildren(es, key) == FirstTruthy(ChildHits(es, key))
    decreases ESize(es), 0
  {
    if es != [] {
      ESizeSplit(es);
      RetrieveFirstHit(es[0].1, key);
      SearchFirstHit(es[1..], key);
      FirstTruthyConcat(Hits(es[0].1, key), ChildHits(es[1..], key));
    }
  }
}
