/**
 * PHP values as the static helpers of CRM_Utils_Array see them: scalars and
 * ordered arrays whose keys are integers or strings, together with the few
 * language primitives the helpers are built from (`empty()`, string
 * conversion, `$a[$k]`, `$a[$k] = $v`, `unset($a[$k])`).
 */
module PhpValues {

  datatype Option<T> = None | Some(value: T)

  /** An array key. PHP turns a numeric string such as "5" into the integer
      key 5; this model keeps every key exactly as given. */
  datatype Key = IntKey(i: int) | StrKey(s: string)

  /** A PHP value ("mixed"). An array is an ordered sequence of key/value
      pairs; PHP itself never lets one array hold the same key twice. */
  datatype Mixed = Null | Bool(b: bool) | Int(i: int) | Str(s: string) | Arr(entries: Entries)

  type Entries = seq<(Key, Mixed)>

  // ---------------------------------------------------------------------
  // A size measure, used only to prove that recursion into nested arrays
  // terminates.

  function SumNat(s: seq<nat>): nat
  {
    if s == [] then 0 else s[0] + SumNat(s[1..])
  }

  ghost function Size(v: Mixed): nat
  {
    match v
    case Arr(es) => 1 + SumNat(seq(|es|, i requires 0 <= i < |es| => Size(es[i].1)))
    case _ => 1
  }

  ghost function ESize(es: Entries): nat
  {
    Size(Arr(es))
  }

  lemma ESizeSplit(es: Entries)
    requires es != []
    ensures Size(es[0].1) < ESize(es) && ESize(es[1..]) < ESize(es)
  {
    var whole := seq(|es|, i requires 0 <= i < |es| => Size(es[i].1));
    var tail := seq(|es[1..]|, i requires 0 <= i < |es[1..]| => Size(es[1..][i].1));
    assert whole[1..] == tail;
  }

  lemma {:induction false} ESizeElement(es: Entries, i: nat)
    requires i < |es|
    ensures Size(es[i].1) < ESize(es)
  {
    ESizeSplit(es);
    if i > 0 {
      ESizeElement(es[1..], i - 1);
    }
  }

  // ---------------------------------------------------------------------
  // Truthiness

  /** PHP's `empty()`: null, false, 0, "", "0" and the empty array. */
  predicate IsEmpty(v: Mixed)
  {
    match v
    case Null => true
    case Bool(b) => !b
    case Int(i) => i == 0
    case Str(s) => s == "" || s == "0"
    case Arr(es) => es == []
  }

  predicate Truthy(v: Mixed)
  {
    !IsEmpty(v)
  }

  predicate IsScalar(v: Mixed)
  {
    !v.Arr?
  }

  /** Truthiness of a key used as a value (a key is an int or a string). */
  predicate KeyTruthy(k: Key)
  {
    match k
    case IntKey(i) => i != 0
    case StrKey(s) => s != "" && s != "0"
  }

  // ---------------------------------------------------------------------
  // String conversion

  function DigitChar(d: nat): char
    requires d < 10
  {
    ('0' as int + d) as char
  }

  predicate IsDigit(c: char)
  {
    '0' <= c <= '9'
  }

  /** The value of a string of decimal digits. */
  function DigitsValue(s: string): nat
    requires forall i :: 0 <= i < |s| ==> IsDigit(s[i])
  {
    if s == [] then 0
    else
      assert IsDigit(s[|s| - 1]);
      DigitsValue(s[..|s| - 1]) * 10 + (s[|s| - 1] as int - '0' as int)
  }

  /** Digits without a leading zero (or the single digit 0): with an
      optional minus sign in front, the strings PHP stores as integer keys. */
  predicate Canonical(s: string)
  {
    s != "" && (forall i :: 0 <= i < |s| ==> IsDigit(s[i])) && (s[0] == '0' ==> |s| == 1)
  }

  function NatToString(n: nat): (s: string)
    ensures |s| >= 1
  {
    if n < 10 then [DigitChar(n)] else NatToString(n / 10) + [DigitChar(n % 10)]
  }

  /** Decimal form of an integer, as `(string)$i` writes it. */
  function IntToString(i: int): string
  {
    if i < 0 then "-" + NatToString(-i) else NatToString(i)
  }

  lemma {:induction false} NatToStringCanonical(n: nat)
    ensures Canonical(NatToString(n)) && DigitsValue(NatToString(n)) == n
    ensures NatToString(n)[0] == '0' <==> n == 0
  {
    var s := NatToString(n);
    if n >= 10 {
      NatToStringCanonical(n / 10);
      var p := NatToString(n / 10);
      assert s[..|s| - 1] == p;
      assert s[0] == p[0];
    }
  }

  /** The key under which `$a[$s]` stores: a decimal integer string
      becomes an integer key, every other string stays a string key. */
  function AsKey(s: string): Key
  {
    if Canonical(s) then IntKey(DigitsValue(s))
    else if |s| >= 2 && s[0] == '-' && s[1] != '0' && Canonical(s[1..]) then IntKey(-(DigitsValue(s[1..]) as int))
    else StrKey(s)
  }

  /** A digit string without a leading zero is worth at least one. */
  lemma {:induction false} DigitsPositive(s: string)
    requires s != [] && s[0] != '0' && forall i :: 0 <= i < |s| ==> IsDigit(s[i])
    ensures DigitsValue(s) >= 1
    decreases |s|
  {
    if |s| > 1 {
      var p := s[..|s| - 1];
      assert p[0] == s[0];
      DigitsPositive(p);
    }
  }

  /** Writing out the value of a canonical digit string gives the string. */
  lemma {:induction false} NatToStringDigits(s: string)
    requires Canonical(s)
    ensures NatToString(DigitsValue(s)) == s
    decreases |s|
  {
    var d := s[|s| - 1] as int - '0' as int;
    if |s| == 1 {
      assert s[..0] == [];
      assert DigitsValue(s) == d;
    } else {
      var p := s[..|s| - 1];
      assert p[0] == s[0];
      assert Canonical(p);
      NatToStringDigits(p);
      DigitsPositive(p);
      var n := DigitsValue(p) * 10 + d;
      assert DigitsValue(s) == n;
      assert n / 10 == DigitsValue(p) && n % 10 == d;
      assert s == p + [s[|s| - 1]];
    }
  }

  /** The key PHP stores a string under reads back as that string, and is
      truthy exactly when the string is. */
  lemma AsKeyString(s: string)
    ensures KeyToString(AsKey(s)) == s
    ensures KeyTruthy(AsKey(s)) == KeyTruthy(StrKey(s))
  {
    if Canonical(s) {
      NatToStringDigits(s);
      if s[0] != '0' {
        DigitsPositive(s);
      }
    } else if |s| >= 2 && s[0] == '-' && s[1] != '0' && Canonical(s[1..]) {
      var t := s[1..];
      NatToStringDigits(t);
      DigitsPositive(t);
      assert s == "-" + t;
    }
  }

  /** A string with a non-digit after its first character stays a string
      key. */
  lemma AsKeyNotNumeric(s: string, i: nat)
    requires 0 < i < |s| && !IsDigit(s[i])
    ensures AsKey(s) == StrKey(s)
  {
    assert !Canonical(s);
    if |s| >= 2 {
      assert s[1..][i - 1] == s[i];
    }
  }

  /** An integer key written out as a string is read back as the same key. */
  lemma IntKeyRoundTrip(i: int)
    ensures AsKey(IntToString(i)) == IntKey(i)
  {
    if i < 0 {
      var t := NatToString(-i);
      var s := "-" + t;
      NatToStringCanonical(-i);
      assert s[0] == '-' && s[1] == t[0] && s[1..] == t;
      assert !IsDigit(s[0]);
      assert !Canonical(s);
      assert AsKey(s) == IntKey(-(DigitsValue(t) as int));
    } else {
      NatToStringCanonical(i);
    }
  }

  function KeyToString(k: Key): string
  {
    match k
    case IntKey(i) => IntToString(i)
    case StrKey(s) => s
  }

  /** `(string)$v`: null and false give "", true gives "1", an array gives
      "Array" (PHP also raises a notice there). */
  function ToStr(v: Mixed): string
  {
    match v
    case Null => ""
    case Bool(b) => if b then "1" else ""
    case Int(i) => IntToString(i)
    case Str(s) => s
    case Arr(_) => "Array"
  }

  /** `(string)$k` for a key used in a string context. */
  function KeyAsValue(k: Key): Mixed
  {
    match k
    case IntKey(i) => Int(i)
    case StrKey(s) => Str(s)
  }

  // ---------------------------------------------------------------------
  // Arrays

  function Keys(es: Entries): (ks: seq<Key>)
    ensures |ks| == |es|
  {
    seq(|es|, i requires 0 <= i < |es| => es[i].0)
  }

  function Values(es: Entries): (vs: seq<Mixed>)
    ensures |vs| == |es|
  {
    seq(|es|, i requires 0 <= i < |es| => es[i].1)
  }

  /** What PHP guarantees of every array: no key occurs twice. */
  predicate DistinctKeys(es: Entries)
  {
    forall i, j :: 0 <= i < j < |es| ==> es[i].0 != es[j].0
  }

  /** An array without repeated keys is its first entry in front of a tail
      without repeated keys that does not hold the first key. */
  lemma DistinctKeysCons(es: Entries)
    requires es != []
    ensures DistinctKeys(es) <==> es[0].0 !in Keys(es[1..]) && DistinctKeys(es[1..])
  {
    if DistinctKeys(es) {
      forall a, b | 0 <= a < b < |es[1..]| ensures es[1..][a].0 != es[1..][b].0 {
        assert es[1..][a] == es[a + 1] && es[1..][b] == es[b + 1];
      }
      forall j | 0 <= j < |es[1..]| ensures Keys(es[1..])[j] != es[0].0 {
        assert es[1..][j] == es[j + 1];
      }
    }
    if es[0].0 !in Keys(es[1..]) && DistinctKeys(es[1..]) {
      forall a, b | 0 <= a < b < |es| ensures es[a].0 != es[b].0 {
        if a == 0 {
          assert Keys(es[1..])[b - 1] == es[b].0;
        } else {
          assert es[1..][a - 1] == es[a] && es[1..][b - 1] == es[b];
        }
      }
    }
  }

  lemma KeysAppend(a: Entries, b: Entries)
    ensures Keys(a + b) == Keys(a) + Keys(b)
  {
  }

  /** In an array without repeated keys, no entry's key occurs before it. */
  lemma DistinctPrefix(es: Entries, i: nat)
    requires DistinctKeys(es) && i < |es|
    ensures es[i].0 !in Keys(es[..i])
  {
    forall j | 0 <= j < i ensures Keys(es[..i])[j] != es[i].0 {
      assert Keys(es[..i])[j] == es[j].0;
    }
  }

  /** Concatenation regrouped; a named step keeps long chains of appends
      cheap to verify. */
  lemma Associative<T>(a: seq<T>, b: seq<T>, c: seq<T>)
    ensures (a + b) + c == a + (b + c)
  {
  }

  /** The value stored under k (`array_key_exists` and `$a[$k]`). */
  function Get(es: Entries, k: Key): (r: Option<Mixed>)
    ensures r.None? <==> k !in Keys(es)
    ensures r.Some? ==> exists i :: 0 <= i < |es| && es[i] == (k, r.value)
  {
    if es == [] then None
    else
      assert Keys(es) == [es[0].0] + Keys(es[1..]);
      if es[0].0 == k then Some(es[0].1)
      else
        var r := Get(es[1..], k);
        assert r.Some? ==> exists i :: 0 <= i < |es[1..]| && es[1..][i] == (k, r.value);
        r
  }

  /** In an array without repeated keys, the value under a key is the one
      stored at that key's position. */
  lemma {:induction false} GetAt(es: Entries, i: nat)
    requires DistinctKeys(es) && i < |es|
    ensures Get(es, es[i].0) == Some(es[i].1)
  {
    if i > 0 {
      DistinctKeysCons(es);
      assert es[0].0 != es[i].0;
      GetAt(es[1..], i - 1);
    }
  }

  lemma GetDistinct(es: Entries)
    ensures DistinctKeys(es) ==> forall i :: 0 <= i < |es| ==> Get(es, es[i].0) == Some(es[i].1)
  {
    if DistinctKeys(es) {
      forall i | 0 <= i < |es| ensures Get(es, es[i].0) == Some(es[i].1) {
        GetAt(es, i);
      }
    }
  }

  /** The recursion behind Put, stated without a contract; its properties
      are proved one at a time below. */
  function Store(es: Entries, k: Key, v: Mixed): Entries
  {
    if es == [] then [(k, v)]
    else if es[0].0 == k then [(k, v)] + es[1..]
    else [es[0]] + Store(es[1..], k, v)
  }

  lemma {:induction false} StoreKeys(es: Entries, k: Key, v: Mixed)
    ensures k !in Keys(es) ==> Store(es, k, v) == es + [(k, v)]
    ensures Keys(Store(es, k, v)) == if k in Keys(es) then Keys(es) else Keys(es) + [k]
  {
    if es != [] {
      assert Keys(es) == [es[0].0] + Keys(es[1..]);
      var r := Store(es, k, v);
      if es[0].0 == k {
        assert Keys(r) == [k] + Keys(es[1..]);
      } else {
        StoreKeys(es[1..], k, v);
        assert r[1..] == Store(es[1..], k, v);
        assert Keys(r) == [es[0].0] + Keys(Store(es[1..], k, v));
        assert es == [es[0]] + es[1..];
      }
    }
  }

  lemma {:induction false} StoreGet(es: Entries, k: Key, v: Mixed, k': Key)
    ensures Get(Store(es, k, v), k') == if k' == k then Some(v) else Get(es, k')
  {
    if es != [] {
      var r := Store(es, k, v);
      if es[0].0 == k {
        assert r[0] == (k, v) && r[1..] == es[1..];
      } else {
        StoreGet(es[1..], k, v, k');
        assert r[0] == es[0] && r[1..] == Store(es[1..], k, v);
      }
    }
  }

  /** `$a[$k] = $v`: an existing key keeps its position, a new key goes last. */
  function Put(es: Entries, k: Key, v: Mixed): (r: Entries)
    ensures k !in Keys(es) ==> r == es + [(k, v)]
    ensures Keys(r) == if k in Keys(es) then Keys(es) else Keys(es) + [k]
    ensures Get(r, k) == Some(v)
    ensures forall k' :: k' != k ==> Get(r, k') == Get(es, k')
  {
    StoreKeys(es, k, v);
    StoreGet(es, k, v, k);
    forall k' | k' != k ensures Get(Store(es, k, v), k') == Get(es, k') {
      StoreGet(es, k, v, k');
    }
    Store(es, k, v)
  }

  lemma {:induction false} StoreTwice(es: Entries, k: Key, a: Mixed, b: Mixed)
    ensures Store(Store(es, k, a), k, b) == Store(es, k, b)
  {
    if es != [] && es[0].0 != k {
      StoreTwice(es[1..], k, a, b);
      assert Store(es, k, a)[1..] == Store(es[1..], k, a);
    }
  }

  /** Writing a key twice leaves the second value, at the same place. */
  lemma PutTwice(es: Entries, k: Key, a: Mixed, b: Mixed)
    ensures Put(Put(es, k, a), k, b) == Put(es, k, b)
  {
    StoreTwice(es, k, a, b);
  }

  /** Writing a key never creates a repeated key. */
  lemma PutDistinct(es: Entries, k: Key, v: Mixed)
    requires DistinctKeys(es)
    ensures DistinctKeys(Put(es, k, v))
  {
    var r := Put(es, k, v);
    forall i, j | 0 <= i < j < |r| ensures r[i].0 != r[j].0 {
      assert r[i].0 == Keys(r)[i] && r[j].0 == Keys(r)[j];
      if j < |es| {
        assert Keys(r)[i] == es[i].0 && Keys(r)[j] == es[j].0;
      } else {
        assert Keys(r)[i] == Keys(es)[i];
      }
    }
  }

  lemma {:induction false} StoreAt(es: Entries, i: nat, v: Mixed)
    requires DistinctKeys(es) && i < |es|
    ensures Store(es, es[i].0, v) == es[i := (es[i].0, v)]
  {
    if i > 0 {
      DistinctKeysCons(es);
      assert es[0].0 != es[i].0;
      StoreAt(es[1..], i - 1, v);
      assert es[1..][i - 1 := (es[i].0, v)] == es[i := (es[i].0, v)][1..];
    }
  }

  /** Writing an existing key (in an array without repeated keys) replaces
      the value in place. */
  lemma PutAt(es: Entries, i: nat, v: Mixed)
    requires DistinctKeys(es) && i < |es|
    ensures Put(es, es[i].0, v) == es[i := (es[i].0, v)]
  {
    StoreAt(es, i, v);
  }

  /** `unset($a[$k])`: removes the entry under k, if any; the others keep
      their keys and their order. */
  function Unset(es: Entries, k: Key): Entries
  {
    if es == [] then []
    else if es[0].0 == k then Unset(es[1..], k)
    else [es[0]] + Unset(es[1..], k)
  }

  /** After `unset` the key is gone and every other key keeps its value. */
  lemma {:induction false} UnsetGet(es: Entries, k: Key, k': Key)
    ensures Get(Unset(es, k), k') == if k' == k then None else Get(es, k')
  {
    if es != [] {
      UnsetGet(es[1..], k, k');
    }
  }

  /** Unsetting a key the array does not hold changes nothing. */
  lemma {:induction false} UnsetAbsent(es: Entries, k: Key)
    requires k !in Keys(es)
    ensures Unset(es, k) == es
  {
    if es != [] {
      assert Keys(es) == [es[0].0] + Keys(es[1..]);
      UnsetAbsent(es[1..], k);
    }
  }

  /** In an array without repeated keys, `unset` cuts out exactly the one
      entry that holds the key. */
  lemma {:induction false} UnsetAt(es: Entries, k: Key, i: nat)
    requires DistinctKeys(es) && i < |es| && es[i].0 == k
    ensures Unset(es, k) == es[..i] + es[i + 1..]
  {
    DistinctKeysCons(es);
    if i > 0 {
      UnsetAt(es[1..], k, i - 1);
      assert es[1..][..i - 1] + es[1..][i..] == es[1..i] + es[i + 1..];
    } else {
      UnsetAbsent(es[1..], k);
    }
  }

  /** A PHP list: the values under the keys 0, 1, 2, ... (what `$a[] = $v`
      builds from an empty array, and what `explode` returns). */
  function List(vs: seq<Mixed>): (r: Entries)
    ensures |r| == |vs| && Values(r) == vs
    ensures forall i :: 0 <= i < |r| ==> r[i].0 == IntKey(i)
  {
    seq(|vs|, i requires 0 <= i < |vs| => (IntKey(i), vs[i]))
  }
}
