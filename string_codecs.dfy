/**
 * The string encodings of CRM_Utils_Array: `implodeKeyValue` writes the
 * pairs of an array as "key<l2>value" joined by l1, and the padded pair
 * `implodePadded` / `explodePadded` store a list as one string surrounded
 * by the separator, the way CiviCRM keeps multi-valued fields in a column.
 */
module StringCodecs {
  import opened PhpValues
  import opened PhpStrings

  // ---------------------------------------------------------------------
  // implodeKeyValue

  /** The expression written for every pair: the key, l2, then the value
      as a string. */
  function Pairs(l2: string, pairs: Entries): (r: seq<string>)
    ensures |r| == |pairs|
  {
    seq(|pairs|, i requires 0 <= i < |pairs| => KeyToString(pairs[i].0) + l2 + ToStr(pairs[i].1))
  }

  /** `implodeKeyValue($l1Delim, $l2Delim, $pairs)`. */
  method ImplodeKeyValue(l1: string, l2: string, pairs: Entries) returns (r: string)
    ensures r == Implode(l1, Pairs(l2, pairs))
  {
    var exprs: seq<string> := [];
    var i := 0;
    while i < |pairs|
      invariant 0 <= i <= |pairs|
      invariant exprs == Pairs(l2, pairs[..i])
    {
      var (key, value) := pairs[i];
      exprs := exprs + [KeyToString(key) + l2 + ToStr(value)];
      i := i + 1;
    }
    assert pairs[..i] == pairs;
    r := Implode(l1, exprs);
  }

  /** No key and no value of the pairs contains c. */
  predicate Clean(c: char, pairs: Entries)
  {
    forall j :: 0 <= j < |pairs| ==> c !in KeyToString(pairs[j].0) && c !in ToStr(pairs[j].1)
  }

  /** With two different one-character separators that occur in no key and
      no value, exploding by l1 gives back the pair expressions. */
  lemma PairsRoundTrip(d1: char, d2: char, pairs: Entries)
    requires d1 != d2 && pairs != [] && Clean(d1, pairs)
    ensures Explode([d1], Implode([d1], Pairs([d2], pairs))) == Pairs([d2], pairs)
  {
    var exprs := Pairs([d2], pairs);
    forall i | 0 <= i < |exprs| ensures d1 !in exprs[i] {
      var k, v := KeyToString(pairs[i].0), ToStr(pairs[i].1);
      assert exprs[i] == k + [d2] + v;
      assert d1 !in k && d1 !in v;
    }
    ExplodeImplode(d1, exprs);
  }

  /** ... and exploding a pair expression by l2 gives back its key and its
      value, as strings. */
  lemma PairRoundTrip(d2: char, pairs: Entries, i: nat)
    requires i < |pairs| && Clean(d2, pairs)
    ensures Explode([d2], Pairs([d2], pairs)[i]) == [KeyToString(pairs[i].0), ToStr(pairs[i].1)]
  {
    var k, v := KeyToString(pairs[i].0), ToStr(pairs[i].1);
    ExplodeFirstPiece(d2, k, v);
    ExplodeNoDelimiter(d2, v);
  }

  // ---------------------------------------------------------------------
  // explodePadded and implodePadded

  /** Every string as a PHP string value. */
  function Strs(parts: seq<string>): (r: seq<Mixed>)
    ensures |r| == |parts|
  {
    seq(|parts|, i requires 0 <= i < |parts| => Str(parts[i]))
  }

  /** `explodePadded($values, $delim)`: null and arrays come back as they
      are; anything else is cast to a string, stripped of the delimiter's
      characters at both ends and exploded. An empty delimiter is an error
      in `explode`: None. */
  function ExplodePadded(values: Mixed, delim: string): Option<Mixed>
  {
    if values.Null? then Some(Null)
    else if values.Arr? then Some(values)
    else if delim == "" then None
    else Some(Arr(List(Strs(Explode(delim, Trim(ToStr(values), CharSet(delim)))))))
  }

  /** The elements `(array)$values` gives: an array's values, any other
      value alone. A string is first stripped of the delimiter's characters
      at both ends. */
  function PaddedItems(values: Mixed, delim: string): seq<Mixed>
  {
    if values.Str? then [Str(Trim(values.s, CharSet(delim)))]
    else if values.Arr? then Values(values.entries)
    else [values]
  }

  /** `implodePadded($values, $delim)`: null gives null, otherwise the
      elements joined by delim with delim at both ends. */
  function ImplodePadded(values: Mixed, delim: string): Mixed
  {
    if values.Null? then Null
    else Str(delim + Implode(delim, Texts(PaddedItems(values, delim))) + delim)
  }

  /** Every element cast to a string. */
  function Texts(items: seq<Mixed>): (r: seq<string>)
    ensures |r| == |items|
  {
    seq(|items|, i requires 0 <= i < |items| => ToStr(items[i]))
  }

  lemma {:induction false} ImplodeFirst(g: string, parts: seq<string>)
    requires parts != [] && parts[0] != ""
    ensures Implode(g, parts) != "" && Implode(g, parts)[0] == parts[0][0]
  {
  }

  lemma {:induction false} ImplodeLast(g: string, parts: seq<string>)
    requires parts != [] && parts[|parts| - 1] != ""
    ensures Implode(g, parts) != ""
    ensures Implode(g, parts)[|Implode(g, parts)| - 1] == parts[|parts| - 1][|parts[|parts| - 1]| - 1]
  {
    if |parts| > 1 {
      ImplodeLast(g, parts[1..]);
    }
  }

  lemma CharSetOne(d: char)
    ensures CharSet([d]) == {d}
  {
    assert d in [d];
  }

  lemma ToStrs(parts: seq<string>)
    ensures Texts(Values(List(Strs(parts)))) == parts
  {
  }

  /** implodePadded of a list of strings. */
  lemma ImplodePaddedList(d: char, parts: seq<string>)
    ensures ImplodePadded(Arr(List(Strs(parts))), [d]) == Str([d] + Implode([d], parts) + [d])
  {
    ToStrs(parts);
  }

  /** explodePadded of a string. */
  lemma ExplodePaddedStr(d: char, s: string)
    ensures ExplodePadded(Str(s), [d]) == Some(Arr(List(Strs(Explode([d], Trim(s, {d}))))))
  {
    CharSetOne(d);
  }

  /** implodePadded of a string. */
  lemma ImplodePaddedStr(d: char, s: string)
    ensures ImplodePadded(Str(s), [d]) == Str([d] + Trim(s, {d}) + [d])
  {
    CharSetOne(d);
    var t := Trim(s, {d});
    var items := PaddedItems(Str(s), [d]);
    assert items == [Str(t)];
    var texts := Texts(items);
    assert texts[0] == ToStr(Str(t)) == t;
    assert Implode([d], texts) == t;
  }

  /** explodePadded undoes implodePadded for a one-character delimiter,
      when no element contains it and the first and last elements are not
      empty (trim would eat an empty end element). */
  lemma PaddedRoundTrip(d: char, parts: seq<string>)
    requires parts != [] && parts[0] != "" && parts[|parts| - 1] != ""
    requires forall i :: 0 <= i < |parts| ==> d !in parts[i]
    ensures ImplodePadded(Arr(List(Strs(parts))), [d]) == Str([d] + Implode([d], parts) + [d])
    ensures ExplodePadded(ImplodePadded(Arr(List(Strs(parts))), [d]), [d]) == Some(Arr(List(Strs(parts))))
  {
    ImplodePaddedList(d, parts);
    var x := Implode([d], parts);
    ImplodeFirst([d], parts);
    ImplodeLast([d], parts);
    assert x[0] != d by { assert parts[0][0] in parts[0]; }
    assert x[|x| - 1] != d by {
      var last := parts[|parts| - 1];
      assert last[|last| - 1] in last;
    }
    CharSetOne(d);
    TrimPadded(d, x);
    assert ToStr(Str([d] + x + [d])) == [d] + x + [d];
    ExplodeImplode(d, parts);
  }

  /** implode undoes explode for a one-character delimiter. */
  lemma {:induction false} ImplodeExplode(d: char, s: string)
    ensures Implode([d], Explode([d], s)) == s
    decreases |s|
  {
    if |s| >= 1 {
      ImplodeExplode(d, s[1..]);
      var rest := Explode([d], s[1..]);
      if s[..1] == [d] {
        assert s == [d] + s[1..];
      } else {
        ImplodeGrowFirst([d], s[0], rest);
        assert s == [s[0]] + s[1..];
      }
    }
  }

  /** Growing the first piece by one character grows the joined string by
      that character. */
  lemma ImplodeGrowFirst(g: string, c: char, parts: seq<string>)
    requires parts != []
    ensures Implode(g, [[c] + parts[0]] + parts[1..]) == [c] + Implode(g, parts)
  {
    var grown := [[c] + parts[0]] + parts[1..];
    assert grown[1..] == parts[1..];
  }

  /** Exploding a padded string and imploding the list again gives what
      imploding the string directly gives: the trimmed text with one
      delimiter at each end. */
  lemma PaddedStable(d: char, s: string)
    ensures ExplodePadded(Str(s), [d]).Some?
    ensures ImplodePadded(ExplodePadded(Str(s), [d]).value, [d]) == ImplodePadded(Str(s), [d])
    ensures ImplodePadded(Str(s), [d]) == Str([d] + Trim(s, {d}) + [d])
  {
    var t := Trim(s, {d});
    ExplodePaddedStr(d, s);
    ImplodePaddedList(d, Explode([d], t));
    ImplodeExplode(d, t);
    ImplodePaddedStr(d, s);
  }
}
