/**
 * The PHP string primitives the array helpers call: `implode`, `explode`,
 * `trim` with a character list, and ASCII `strtolower`.
 */
module PhpStrings {

  /** `implode($glue, $parts)`. */
  function Implode(glue: string, parts: seq<string>): string
  {
    if parts == [] then ""
    else if |parts| == 1 then parts[0]
    else parts[0] + glue + Implode(glue, parts[1..])
  }

  /** `explode($delim, $s)`: the pieces between the non-overlapping
      occurrences of delim, found from left to right. PHP rejects an empty
      delimiter, so callers check for it first. */
  function Explode(delim: string, s: string): (parts: seq<string>)
    requires delim != ""
    ensures |parts| >= 1
    decreases |s|
  {
    if |s| < |delim| then [s]
    else if s[..|delim|] == delim then [""] + Explode(delim, s[|delim|..])
    else
      var rest := Explode(delim, s[1..]);
      [[s[0]] + rest[0]] + rest[1..]
  }

  /** A piece without the delimiter character comes back whole. */
  lemma {:induction false} ExplodeNoDelimiter(d: char, s: string)
    requires d !in s
    ensures Explode([d], s) == [s]
    decreases |s|
  {
    if |s| >= 1 {
      assert s[..1] != [d] by { assert s[0] != d; }
      ExplodeNoDelimiter(d, s[1..]);
      assert [s[0]] + s[1..] == s;
    }
  }

  /** The first delimiter after a delimiter-free piece ends that piece. */
  lemma {:induction false} ExplodeFirstPiece(d: char, s: string, t: string)
    requires d !in s
    ensures Explode([d], s + [d] + t) == [s] + Explode([d], t)
    decreases |s|
  {
    var whole := s + [d] + t;
    if s == [] {
      assert whole[..1] == [d];
      assert whole[1..] == t;
    } else {
      assert whole[..1] != [d] by { assert whole[0] == s[0] != d; }
      assert whole[1..] == s[1..] + [d] + t;
      ExplodeFirstPiece(d, s[1..], t);
      assert [s[0]] + s[1..] == s;
    }
  }

  /** explode undoes implode when the glue is one character that no piece
      contains. */
  lemma {:induction false} ExplodeImplode(d: char, parts: seq<string>)
    requires parts != []
    requires forall i :: 0 <= i < |parts| ==> d !in parts[i]
    ensures Explode([d], Implode([d], parts)) == parts
  {
    if |parts| == 1 {
      ExplodeNoDelimiter(d, parts[0]);
    } else {
      ExplodeImplode(d, parts[1..]);
      ExplodeFirstPiece(d, parts[0], Implode([d], parts[1..]));
      assert [parts[0]] + parts[1..] == parts;
    }
  }

  /** The characters of s, as `trim`'s character list reads it. */
  function CharSet(s: string): set<char>
  {
    set c | c in s
  }

  /** `ltrim($s, $chars)`: drops the longest prefix made of characters in cs. */
  function TrimLeft(s: string, cs: set<char>): (r: string)
    ensures |r| <= |s| && r == s[|s| - |r|..]
    ensures forall i :: 0 <= i < |s| - |r| ==> s[i] in cs
    ensures r != "" ==> r[0] !in cs
  {
    if s != "" && s[0] in cs then TrimLeft(s[1..], cs) else s
  }

  /** `rtrim($s, $chars)`: drops the longest suffix made of characters in cs. */
  function TrimRight(s: string, cs: set<char>): (r: string)
    ensures |r| <= |s| && r == s[..|r|]
    ensures forall i :: |r| <= i < |s| ==> s[i] in cs
    ensures r != "" ==> r[|r| - 1] !in cs
  {
    if s != "" && s[|s| - 1] in cs then TrimRight(s[..|s| - 1], cs) else s
  }

  /** `trim($s, $chars)`. */
  function Trim(s: string, cs: set<char>): string
  {
    TrimRight(TrimLeft(s, cs), cs)
  }

  /** trim removes exactly one padding character from each end of a text that
      neither starts nor ends with the padding character. */
  lemma TrimPadded(c: char, x: string)
    requires x != "" && x[0] != c && x[|x| - 1] != c
    ensures Trim([c] + x + [c], {c}) == x
  {
    var s := [c] + x + [c];
    var l := TrimLeft(s, {c});
    assert s[1] == x[0] && s[0] == c;
    assert l == x + [c];
    var r := TrimRight(l, {c});
    assert l[|l| - 2] == x[|x| - 1] && l[|l| - 1] == c;
    assert r == x;
  }

  function LowerChar(c: char): char
  {
    if 'A' <= c <= 'Z' then (c as int + 32) as char else c
  }

  /** `strtolower` on ASCII letters. */
  function Lower(s: string): (r: string)
    ensures |r| == |s| && forall i :: 0 <= i < |s| ==> r[i] == LowerChar(s[i])
  {
    seq(|s|, i requires 0 <= i < |s| => LowerChar(s[i]))
  }
}
