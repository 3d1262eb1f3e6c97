/**
 * `unflatten` of CRM_Utils_Array: a flat array with path-like keys turned
 * back into a tree of arrays.
 */
module Unflattening {
  import opened PhpValues
  import opened PhpStrings

  /** The reference cursor `$node` of the inner loop: descends along path,
      creating an empty array where a step is missing or null, and stores
      value under the last step. PHP turns false into an array there too;
      any other scalar on the way (true, a number, or any string, the empty
      one included, since a string offset cannot be referenced) cannot be
      used as an array, and the insertion fails. */
  function InsertPath(node: Entries, path: seq<string>, value: Mixed): (r: Option<Entries>)
    requires path != []
    decreases |path|
  {
    var key := StrKey(path[0]);
    if |path| == 1 then Some(Put(node, key, value))
    else
      var child := Get(node, key);
      if child.Some? && child.value != Null && child.value != Bool(false) && !child.value.Arr? then None
      else
        var sub := if child.Some? && child.value.Arr? then child.value.entries else [];
        match InsertPath(sub, path[1..], value)
        case None => None
        case Some(sub') => Some(Put(node, key, Arr(sub')))
  }

  /** Reading a path of keys through nested arrays. */
  function GetPath(node: Entries, path: seq<string>): Option<Mixed>
    requires path != []
    decreases |path|
  {
    var v := Get(node, StrKey(path[0]));
    if |path| == 1 then v
    else if v.Some? && v.value.Arr? then GetPath(v.value.entries, path[1..])
    else None
  }

  /** After an insertion, the path leads to the inserted value. */
  lemma {:induction false} InsertThenGet(node: Entries, path: seq<string>, value: Mixed)
    requires path != [] && InsertPath(node, path, value).Some?
    ensures GetPath(InsertPath(node, path, value).value, path) == Some(value)
    decreases |path|
  {
    if |path| > 1 {
      var child := Get(node, StrKey(path[0]));
      var sub := if child.Some? && child.value.Arr? then child.value.entries else [];
      InsertThenGet(sub, path[1..], value);
    }
  }

  /** An insertion fails exactly when a step before the last meets a scalar
      other than null or false. */
  lemma {:induction false} InsertFails(node: Entries, path: seq<string>, value: Mixed)
    requires path != []
    ensures InsertPath(node, path, value).None? <==>
      exists j :: 0 < j < |path| && Blocked(node, path[..j])
    decreases |path|
  {
    if |path| > 1 {
      var child := Get(node, StrKey(path[0]));
      var sub := if child.Some? && child.value.Arr? then child.value.entries else [];
      InsertFails(sub, path[1..], value);
      if child.Some? && child.value != Null && child.value != Bool(false) && !child.value.Arr? {
        assert Blocked(node, path[..1]);
      } else {
        forall j | 1 < j < |path| ensures Blocked(node, path[..j]) <==> Blocked(sub, path[1..][..j - 1]) {
          assert path[..j][1..] == path[1..][..j - 1];
          BlockedStep(node, path[..j], sub);
        }
        assert !Blocked(node, path[..1]);
        if InsertPath(node, path, value).None? {
          var j :| 0 < j < |path[1..]| && Blocked(sub, path[1..][..j]);
          assert Blocked(node, path[..j + 1]);
        } else {
          forall j | 0 < j < |path| ensures !Blocked(node, path[..j]) {
            if j > 1 {
              assert !Blocked(sub, path[1..][..j - 1]);
            }
          }
        }
      }
    }
  }

  /** Following path from node reaches a scalar other than null or false. */
  predicate Blocked(node: Entries, path: seq<string>)
    requires path != []
    decreases |path|
  {
    var v := Get(node, StrKey(path[0]));
    if |path| == 1 then v.Some? && v.value != Null && v.value != Bool(false) && !v.value.Arr?
    else v.Some? && v.value.Arr? && Blocked(v.value.entries, path[1..])
  }

  lemma BlockedStep(node: Entries, path: seq<string>, sub: Entries)
    requires |path| > 1
    requires var child := Get(node, StrKey(path[0]));
      !(child.Some? && child.value != Null && child.value != Bool(false) && !child.value.Arr?) &&
      sub == if child.Some? && child.value.Arr? then child.value.entries else []
    ensures Blocked(node, path) <==> Blocked(sub, path[1..])
  {
    var child := Get(node, StrKey(path[0]));
    if !(child.Some? && child.value.Arr?) {
      assert Get(sub, StrKey(path[1])) == None;
      if |path| > 2 {
        assert !Blocked(sub, path[1..]);
      }
    }
  }

  /** The specification of the outer loop: every entry inserted in turn,
      failing as soon as one insertion fails. */
  function UnflattenFrom(delim: string, acc: Entries, arr: Entries): Option<Entries>
    requires delim != ""
    decreases |arr|
  {
    if arr == [] then Some(acc)
    else
      match InsertPath(acc, Explode(delim, KeyToString(arr[0].0)), arr[0].1)
      case None => None
      case Some(acc') => UnflattenFrom(delim, acc', arr[1..])
  }

  /** `unflatten($delim, $arr)`. PHP's explode rejects an empty delimiter;
      the model returns None there, and also where a path runs into a
      scalar that cannot be used as an array. */
  method Unflatten(delim: string, arr: Entries) returns (result: Option<Entries>)
    ensures delim == "" ==> result == None
    ensures delim != "" ==> result == UnflattenFrom(delim, [], arr)
  {
    if delim == "" {
      return None;
    }
    var acc: Entries := [];
    for i := 0 to |arr|
      invariant UnflattenFrom(delim, acc, arr[i..]) == UnflattenFrom(delim, [], arr)
    {
      var path := Explode(delim, KeyToString(arr[i].0));
      var node := InsertPath(acc, path, arr[i].1);
      assert arr[i..][1..] == arr[i + 1..];
      if node.None? {
        return None;
      }
      acc := node.value;
    }
    return Some(acc);
  }
}
