/**
 * `crmArrayMerge` of CRM_Utils_Array and the PHP built-in `array_merge`
 * it applies to pairs of sub-arrays.
 */
module ArrayMerging {
  import opened PhpValues

  /** The values under integer keys, in order. */
  function IntValues(es: Entries): (vs: seq<Mixed>)
    ensures |vs| <= |es|
  {
    if es == [] then []
    else (if es[0].0.IntKey? then [es[0].1] else []) + IntValues(es[1..])
  }

  /** The integer keys of acc are exactly 0, 1, ..., n - 1. */
  ghost predicate IntKeysBelow(acc: Entries, n: nat)
  {
    forall j :: Get(acc, IntKey(j)).Some? <==> 0 <= j < n
  }

  /** The loop inside `array_merge`: an entry with an integer key is
      appended under the next free integer key, an entry with a string key
      is written under its own key (a later one overwrites an earlier one). */
  function MergeStep(acc: Entries, next: nat, es: Entries): Entries
    decreases |es|
  {
    if es == [] then acc
    else if es[0].0.IntKey? then MergeStep(Store(acc, IntKey(next), es[0].1), next + 1, es[1..])
    else MergeStep(Store(acc, es[0].0, es[0].1), next, es[1..])
  }

  lemma {:induction false} MergeStepConcat(acc: Entries, next: nat, a: Entries, b: Entries)
    ensures MergeStep(acc, next, a + b) == MergeStep(MergeStep(acc, next, a), next + |IntValues(a)|, b)
    decreases |a|
  {
    if a == [] {
      assert a + b == b;
      assert MergeStep(acc, next, a) == acc;
      assert |IntValues(a)| == 0;
    } else {
      var ab := a + b;
      assert ab[0] == a[0] && ab[1..] == a[1..] + b;
      assert a == [a[0]] + a[1..];
      if a[0].0.IntKey? {
        var acc' := Store(acc, IntKey(next), a[0].1);
        assert MergeStep(acc, next, ab) == MergeStep(acc', next + 1, a[1..] + b);
        assert MergeStep(acc, next, a) == MergeStep(acc', next + 1, a[1..]);
        assert |IntValues(a)| == 1 + |IntValues(a[1..])|;
        MergeStepConcat(acc', next + 1, a[1..], b);
        assert MergeStep(acc, next, ab) == MergeStep(MergeStep(acc, next, a), next + |IntValues(a)|, b);
      } else {
        var acc' := Store(acc, a[0].0, a[0].1);
        assert MergeStep(acc, next, ab) == MergeStep(acc', next, a[1..] + b);
        assert MergeStep(acc, next, a) == MergeStep(acc', next, a[1..]);
        assert |IntValues(a)| == |IntValues(a[1..])|;
        MergeStepConcat(acc', next, a[1..], b);
        assert MergeStep(acc, next, ab) == MergeStep(MergeStep(acc, next, a), next + |IntValues(a)|, b);
      }
    }
  }

  /** Storing the next integer key, or a string key, keeps the integer keys
      contiguous. */
  lemma StoreIntKeysBelow(acc: Entries, n: nat, k: Key, v: Mixed)
    requires IntKeysBelow(acc, n) && (k == IntKey(n) || k.StrKey?)
    ensures IntKeysBelow(Store(acc, k, v), if k.IntKey? then n + 1 else n)
  {
    forall j ensures Get(Store(acc, k, v), IntKey(j)).Some? <==> 0 <= j < (if k.IntKey? then n + 1 else n) {
      StoreGet(acc, k, v, IntKey(j));
    }
  }

  lemma {:induction false} MergeStepInt(acc: Entries, next: nat, es: Entries, j: int)
    requires IntKeysBelow(acc, next)
    ensures Get(MergeStep(acc, next, es), IntKey(j)) ==
            if j < next then Get(acc, IntKey(j))
            else if j - next < |IntValues(es)| then Some(IntValues(es)[j - next])
            else None
    decreases |es|
  {
    if es != [] {
      var k := if es[0].0.IntKey? then IntKey(next) else es[0].0;
      var next' := if es[0].0.IntKey? then next + 1 else next;
      assert MergeStep(acc, next, es) == MergeStep(Store(acc, k, es[0].1), next', es[1..]);
      StoreIntKeysBelow(acc, next, k, es[0].1);
      MergeStepInt(Store(acc, k, es[0].1), next', es[1..], j);
      StoreGet(acc, k, es[0].1, IntKey(j));
    }
  }

  lemma {:induction false} MergeStepStr(acc: Entries, next: nat, es: Entries, s: string)
    requires DistinctKeys(es)
    ensures Get(MergeStep(acc, next, es), StrKey(s)) ==
            if StrKey(s) in Keys(es) then Get(es, StrKey(s)) else Get(acc, StrKey(s))
    decreases |es|
  {
    if es != [] {
      DistinctKeysCons(es);
      assert Keys(es) == [es[0].0] + Keys(es[1..]);
      var k := if es[0].0.IntKey? then IntKey(next) else es[0].0;
      var next' := if es[0].0.IntKey? then next + 1 else next;
      assert MergeStep(acc, next, es) == MergeStep(Store(acc, k, es[0].1), next', es[1..]);
      MergeStepStr(Store(acc, k, es[0].1), next', es[1..], s);
      StoreGet(acc, k, es[0].1, StrKey(s));
    }
  }

  /** The integer-keyed half of array_merge. */
  lemma ArrayMergeInt(x: Entries, y: Entries, j: int)
    ensures Get(MergeStep([], 0, x + y), IntKey(j)) ==
      if 0 <= j < |IntValues(x) + IntValues(y)| then Some((IntValues(x) + IntValues(y))[j]) else None
  {
    MergeStepConcat([], 0, x, y);
    var mid := MergeStep([], 0, x);
    assert IntKeysBelow(mid, |IntValues(x)|) by {
      forall j' ensures Get(mid, IntKey(j')).Some? <==> 0 <= j' < |IntValues(x)| {
        MergeStepInt([], 0, x, j');
      }
    }
    MergeStepInt([], 0, x, j);
    MergeStepInt(mid, |IntValues(x)|, y, j);
  }

  /** The string-keyed half of array_merge. */
  lemma ArrayMergeStr(x: Entries, y: Entries, s: string)
    requires DistinctKeys(x) && DistinctKeys(y)
    ensures Get(MergeStep([], 0, x + y), StrKey(s)) ==
      if StrKey(s) in Keys(y) then Get(y, StrKey(s)) else Get(x, StrKey(s))
  {
    var k := StrKey(s);
    var mid := MergeStep([], 0, x);
    var n := |IntValues(x)|;
    MergeSplit(x, y);
    MergeStepStr([], 0, x, s);
    assert Get(mid, k) == Get(x, k);
    MergeStepStr(mid, n, y, s);
  }

  /** array_merge handles $x first, then $y from the next free integer key. */
  lemma MergeSplit(x: Entries, y: Entries)
    ensures MergeStep([], 0, x + y) == MergeStep(MergeStep([], 0, x), |IntValues(x)|, y)
  {
    MergeStepConcat([], 0, x, y);
  }

  /** PHP's `array_merge($x, $y)`. */
  function ArrayMerge(x: Entries, y: Entries): Entries
  {
    MergeStep([], 0, x + y)
  }

  /** array_merge keeps the string keys of both arrays, with $y's value
      winning on a key both hold, and renumbers the integer-keyed values of
      $x and then $y as 0, 1, 2, ... */
  lemma ArrayMergeGet(x: Entries, y: Entries)
    ensures forall j :: (Get(ArrayMerge(x, y), IntKey(j)) ==
      if 0 <= j < |IntValues(x) + IntValues(y)| then Some((IntValues(x) + IntValues(y))[j]) else None)
    ensures DistinctKeys(x) && DistinctKeys(y) ==> forall s :: (
      Get(ArrayMerge(x, y), StrKey(s)) == if StrKey(s) in Keys(y) then Get(y, StrKey(s)) else Get(x, StrKey(s)))
  {
    forall j ensures Get(MergeStep([], 0, x + y), IntKey(j)) ==
      if 0 <= j < |IntValues(x) + IntValues(y)| then Some((IntValues(x) + IntValues(y))[j]) else None {
      ArrayMergeInt(x, y, j);
    }
    forall s | DistinctKeys(x) && DistinctKeys(y) ensures Get(MergeStep([], 0, x + y), StrKey(s)) ==
      if StrKey(s) in Keys(y) then Get(y, StrKey(s)) else Get(x, StrKey(s)) {
      ArrayMergeStr(x, y, s);
    }
  }

  /** The value crmArrayMerge keeps for a key of $a1: array_merge of the two
      values when both are arrays, otherwise $a1's value. */
  function MergedValue(v1: Mixed, v2: Option<Mixed>): Mixed
  {
    if v1.Arr? && v2.Some? && v2.value.Arr? then Arr(ArrayMerge(v1.entries, v2.value.entries)) else v1
  }

  /** The entries of b whose key is not a key of a, in b's order. */
  function NewEntries(b: Entries, a: Entries): (r: Entries)
    ensures |r| <= |b|
  {
    if b == [] then []
    else NewEntries(b[..|b| - 1], a) + (if b[|b| - 1].0 in Keys(a) then [] else [b[|b| - 1]])
  }

  /** NewEntries keeps exactly the entries of b under keys a lacks. */
  lemma {:induction false} NewEntriesMembers(b: Entries, a: Entries)
    ensures forall e :: e in NewEntries(b, a) <==> e in b && e.0 !in Keys(a)
  {
    if b != [] {
      NewEntriesMembers(b[..|b| - 1], a);
      assert b == b[..|b| - 1] + [b[|b| - 1]];
    }
  }

  lemma NewEntriesStep(b: Entries, a: Entries, j: nat)
    requires j < |b|
    ensures NewEntries(b[..j + 1], a) == NewEntries(b[..j], a) + (if b[j].0 in Keys(a) then [] else [b[j]])
  {
    assert b[..j + 1][..j] == b[..j];
  }

  /** A later entry of b is not among the new entries taken from before it. */
  lemma NewEntriesFresh(b: Entries, a: Entries, j: nat)
    requires DistinctKeys(b) && j < |b|
    ensures b[j].0 !in Keys(NewEntries(b[..j], a))
  {
    var n := NewEntries(b[..j], a);
    NewEntriesMembers(b[..j], a);
    forall m | 0 <= m < |n| ensures Keys(n)[m] != b[j].0 {
      assert n[m] in b[..j];
    }
  }

  /** A key of a1 is not among the keys already copied from before it. */
  lemma SameKeysFresh(a3: Entries, a1: Entries, i: nat)
    requires DistinctKeys(a1) && i < |a1| && |a3| == i
    requires forall j :: 0 <= j < i ==> a3[j].0 == a1[j].0
    ensures a1[i].0 !in Keys(a3)
  {
    forall j | 0 <= j < i ensures Keys(a3)[j] != a1[i].0 {
      assert Keys(a3)[j] == a1[j].0;
    }
  }

  /** The first loop of crmArrayMerge: every key of $a1, in order, with
      the value MergedValue gives it. */
  method MergeOwnKeys(a1: Entries, a2: Entries) returns (a3: Entries)
    requires DistinctKeys(a1)
    ensures |a3| == |a1|
    ensures forall i :: 0 <= i < |a1| ==> a3[i] == (a1[i].0, MergedValue(a1[i].1, Get(a2, a1[i].0)))
  {
    a3 := [];
    for i := 0 to |a1|
      invariant |a3| == i
      invariant forall j :: 0 <= j < i ==> a3[j] == (a1[j].0, MergedValue(a1[j].1, Get(a2, a1[j].0)))
    {
      var key := a1[i].0;
      var value := a1[i].1;
      var other := Get(a2, key);
      if value.Arr? && other.Some? && other.value.Arr? {
        value := Arr(ArrayMerge(value.entries, other.value.entries));
      }
      SameKeysFresh(a3, a1, i);
      StoreKeys(a3, key, value);
      a3 := Store(a3, key, value);
    }
  }

  /** The second loop of crmArrayMerge: appends the entries of $a2 whose
      keys $a1 lacks. */
  method AddNewKeys(a3: Entries, a1: Entries, a2: Entries) returns (r: Entries)
    requires DistinctKeys(a2) && Keys(a3) == Keys(a1)
    ensures r == a3 + NewEntries(a2, a1)
  {
    r := a3;
    for j := 0 to |a2|
      invariant r == a3 + NewEntries(a2[..j], a1)
    {
      assert a2[..j + 1][..j] == a2[..j];
      if a2[j].0 in Keys(a1) {
        continue;
      }
      KeysAppend(a3, NewEntries(a2[..j], a1));
      NewEntriesFresh(a2, a1, j);
      StoreKeys(r, a2[j].0, a2[j].1);
      r := Store(r, a2[j].0, a2[j].1);
    }
    assert a2[..|a2|] == a2;
  }

  /** `crmArrayMerge($a1, $a2)`: either array when the other is empty;
      otherwise $a1's keys in $a1's order, each with $a1's value unless both
      values are arrays (then one level of array_merge, not a recursive
      merge), followed by the entries of $a2 under keys $a1 lacks, in $a2's
      order. */
  method CrmArrayMerge(a1: Entries, a2: Entries) returns (a3: Entries)
    requires DistinctKeys(a1) && DistinctKeys(a2)
    ensures a1 == [] ==> a3 == a2
    ensures a1 != [] && a2 == [] ==> a3 == a1
    ensures a1 != [] && a2 != [] ==> |a3| == |a1| + |NewEntries(a2, a1)| && a3[|a1|..] == NewEntries(a2, a1)
    ensures a1 != [] && a2 != [] ==>
      forall i :: 0 <= i < |a1| ==> a3[i] == (a1[i].0, MergedValue(a1[i].1, Get(a2, a1[i].0)))
  {
    if a1 == [] {
      return a2;
    }
    if a2 == [] {
      return a1;
    }
    var front := MergeOwnKeys(a1, a2);
    assert Keys(front) == Keys(a1);
    a3 := AddNewKeys(front, a1, a2);
    assert a3[..|a1|] == front;
  }

  /** A worked case: {a: 1, b: {x: 1}} merged with
      {b: {y: 2}, c: 3} gives {a: 1, b: {x: 1, y: 2}, c: 3}. */
  method CrmArrayMergeExample()
  {
    var x, y := [(StrKey("x"), Int(1))], [(StrKey("y"), Int(2))];
    var a1 := [(StrKey("a"), Int(1)), (StrKey("b"), Arr(x))];
    var a2 := [(StrKey("b"), Arr(y)), (StrKey("c"), Int(3))];
    var a3 := CrmArrayMerge(a1, a2);
    assert Get(a2, StrKey("b")) == Some(Arr(y));
    assert ArrayMerge(x, y) == x + y by {
      var kx, ky := StrKey("x"), StrKey("y");
      assert kx != ky;
      assert (x + y)[0] == (kx, Int(1)) && (x + y)[1..] == y;
      assert MergeStep([], 0, x + y) == MergeStep(x, 0, y);
      assert Store(x, ky, Int(2)) == [x[0]] + Store([], ky, Int(2)) == x + y;
      assert MergeStep(x, 0, y) == MergeStep(x + y, 0, []);
    }
    assert Keys(a1) == [StrKey("a"), StrKey("b")];
    assert NewEntries(a2, a1) == [(StrKey("c"), Int(3))];
    assert a3[0] == (StrKey("a"), Int(1));
    assert a3[1] == (a1[1].0, MergedValue(Arr(x), Get(a2, a1[1].0)));
    assert MergedValue(Arr(x), Some(Arr(y))) == Arr(x + y);
    assert x + y == [(StrKey("x"), Int(1)), (StrKey("y"), Int(2))];
    assert a3[1] == (StrKey("b"), Arr([(StrKey("x"), Int(1)), (StrKey("y"), Int(2))]));
    assert a3[2] == (StrKey("c"), Int(3));
  }
}
