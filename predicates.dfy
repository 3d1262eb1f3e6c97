/**
 * Predicates of CRM_Utils_Array over one array: `isHierarchical`,
 * `isSubset` and `crmIsEmptyArray`.
 */
module ArrayPredicates {
  import opened PhpValues
  import ArrayLookup

  /** `isHierarchical($list)`: some value of list is itself an array. */
  function IsHierarchical(list: Entries): (r: bool)
    ensures r <==> exists i :: 0 <= i < |list| && list[i].1.Arr?
  {
    if list == [] then false
    else if list[0].1.Arr? then true
    else
      assert forall i :: 1 <= i < |list| ==> list[i] == list[1..][i - 1];
      IsHierarchical(list[1..])
  }

  /** `in_array($value, $haystack)`, with strict comparison. */
  function InArray(value: Mixed, haystack: Entries): (r: bool)
    ensures r <==> exists j :: 0 <= j < |haystack| && haystack[j].1 == value
  {
    ArrayLookup.SearchValue(haystack, value).Some?
  }

  /** `isSubset($subset, $superset)`: every value of subset is also a value
      of superset (keys play no part). */
  function IsSubset(subset: Entries, superset: Entries): (r: bool)
    ensures r <==> forall i :: 0 <= i < |subset| ==> exists j :: 0 <= j < |superset| && superset[j].1 == subset[i].1
  {
    if subset == [] then true
    else if !InArray(subset[0].1, superset) then false
    else
      assert forall i :: 1 <= i < |subset| ==> subset[i] == subset[1..][i - 1];
      IsSubset(subset[1..], superset)
  }

  /** Every array is a subset of itself, and being a subset is transitive. */
  lemma {:induction false} IsSubsetPreorder(a: Entries, b: Entries, c: Entries)
    ensures IsSubset(a, a)
    ensures IsSubset(a, b) && IsSubset(b, c) ==> IsSubset(a, c)
  {
    assert forall i :: 0 <= i < |a| ==> a[i].1 == a[i].1;
    if IsSubset(a, b) && IsSubset(b, c) {
      forall i | 0 <= i < |a| ensures exists k :: 0 <= k < |c| && c[k].1 == a[i].1 {
        var j :| 0 <= j < |b| && b[j].1 == a[i].1;
        var k :| 0 <= k < |c| && c[k].1 == b[j].1;
      }
    }
  }

  /** The values of v are only nulls and arrays whose values are in turn
      only nulls and such arrays; a non-array counts as empty. */
  ghost predicate OnlyNulls(v: Mixed)
  {
    !v.Arr? ||
    forall i :: 0 <= i < |v.entries| ==>
      if v.entries[i].1.Arr? then OnlyNulls(v.entries[i].1) else v.entries[i].1 == Null
  }

  /** `crmIsEmptyArray($array)`: true exactly when the array holds nothing
      but nulls and (recursively) empty arrays; a non-array is empty. */
  function CrmIsEmptyArray(arr: Mixed): (r: bool)
    decreases Size(arr), 1
    ensures r <==> OnlyNulls(arr)
  {
    if !arr.Arr? then true else AllElementsEmpty(arr.entries)
  }

  /** The `foreach` of crmIsEmptyArray. */
  function AllElementsEmpty(es: Entries): (r: bool)
    decreases ESize(es), 0
    ensures r <==> OnlyNulls(Arr(es))
  {
    if es == [] then true
    else
      ESizeSplit(es);
      assert forall i :: 1 <= i < |es| ==> es[i] == es[1..][i - 1];
      if es[0].1.Arr? then
        if !CrmIsEmptyArray(es[0].1) then false else AllElementsEmpty(es[1..])
      else if es[0].1 != Null then false
      else AllElementsEmpty(es[1..])
  }

  /** On a flat array (no sub-arrays), crmIsEmptyArray holds exactly when
      every value is null. */
  lemma FlatIsEmptyArray(es: Entries)
    requires !IsHierarchical(es)
    ensures CrmIsEmptyArray(Arr(es)) <==> forall i :: 0 <= i < |es| ==> es[i].1 == Null
  {
  }

  /** Worked cases: [] and [null, []] are empty, [0] is not. */
  lemma CrmIsEmptyArrayExamples()
    ensures CrmIsEmptyArray(Arr([]))
    ensures CrmIsEmptyArray(Arr([(IntKey(0), Null), (IntKey(1), Arr([]))]))
    ensures !CrmIsEmptyArray(Arr([(IntKey(0), Int(0))]))
  {
  }
}
