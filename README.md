# CRM_Utils_Array in Dafny

A Dafny model of `CRM_Utils_Array` (CRM/Utils/Array.php), CiviCRM's library
of static helpers over PHP ordered arrays, with proofs of what the helpers
promise in their doc comments.

A PHP value is `PhpValues.Mixed`: `Null | Bool | Int | Str | Arr(entries)`. An
array is a sequence of (key, value) pairs in insertion order, and a key is
`IntKey(i)` or `StrKey(s)`. PHP never lets one array hold a key twice. The
model states that as `DistinctKeys` and requires it only where a proof needs it.
The two array writes are modelled as follows:
- `$a[$k] = $v` is `Store`/`Put`: it overwrites in place, or appends a new key at the end.
- `unset($a[$k])` is `Unset`.

An array passed by reference (`&$flat`, `&$params`, `&$items`,
`&$defaults`) becomes an argument plus a returned new value. PHP arrays are
copied on write, so this is exactly what the caller observes.

Helpers that loop and update local arrays are methods with loop
invariants. Each is proved equal to a specification function, and the
lemmas state the documented properties of that function. The groups are:

- Lookup (`lookup.dfy`): `value`, `key`, `retrieveValueRecursive`.
- XML (`xml.dfy`): `xml`, `escapeXML`. The fourth search character of
  `escapeXML` is ^A (U+0001), replaced by a comma.
- Path codec (`flatten.dfy`, `unflatten.dfy`, `path_roundtrip.dfy`):
  `flatten`, `unflatten`, and the inverse relation between them.
- Merge (`merge.dfy`): `crmArrayMerge`, and PHP's `array_merge`, which it applies one level deep.
- Predicates (`predicates.dfy`): `isHierarchical`, `isSubset`, `crmIsEmptyArray`.
- In-place edits (`edits.dfy`): `crmArraySplice`, `remove`, `crmReplaceKey`,
  `lookupValue`. These come with the PHP built-ins they rely on:
  `array_combine`, `array_flip`, `array_change_key_case`, `trim`.
- Record helpers (`records.dfy`): `index`, `collect`, `product`.
- String codecs (`string_codecs.dfy`): `implodeKeyValue`, `explodePadded`,
  `implodePadded`.

Where the doc comments and the code disagree, the model follows the code:
- `crmArrayMerge` is documented as recursive. The code applies one level of
  `array_merge` to two array values under the same key, and so does the model.
- `crmArraySplice` documents `$end` as the last index. The loop removes
  positions `start <= i < end`, so `end` is exclusive.
- `product` documents items as `{fg, bg}`. Each item actually gets the
  template's keys first, then the dimension keys from the last dimension to
  the first (`ProductItemKeys`). PHP's `==` on arrays ignores key order.

## Model

| member | source | states |
|---|---|---|
| ArrayLookup.Value | CRM/Utils/Array.php:54-59 | The default when the list is not an array or lacks the key; otherwise the value stored under the key, even when that value is null |
| ArrayLookup.ValueAfterPut | CRM/Utils/Array.php:54-59 | Reading a key just written gives the written value |
| ArrayLookup.ValueAfterUnset | CRM/Utils/Array.php:54-59 | Reading a key just unset gives the default |
| ArrayLookup.RetrieveValueRecursive | CRM/Utils/Array.php:76-93 | The result is null or truthy. It is non-null exactly when some array reachable from params holds a truthy value under key. A truthy top-level value is returned as is. A non-null result is found under key somewhere in the tree |
| ArrayLookup.SearchChildren | CRM/Utils/Array.php:84-90 | The loop over the children finds a value exactly when some child holds a truthy value under key, and what it finds is under key in one of them |
| ArrayLookup.RetrieveFirstHit | CRM/Utils/Array.php:76-93 | The result is the first truthy value among all values under key in depth-first pre-order (an array's own value before its children's, children in iteration order), and null when there is none |
| ArrayLookup.SearchFirstHit | CRM/Utils/Array.php:84-90 | The loop over the children returns the first truthy value under key in the subtrees taken child by child in iteration order: a hit in an earlier child wins over any hit in a later one |
| ArrayLookup.SearchValue | CRM/Utils/Array.php:114 | array_search with strict comparison: the first position holding the value, or none exactly when no entry holds it |
| ArrayLookup.KeyOf | CRM/Utils/Array.php:112-123 | None exactly when the list is not an array or no entry holds the value. Otherwise the key of the first entry holding it |
| ArrayLookup.KeyOfThenValue | CRM/Utils/Array.php:112-123 | The key that `key` finds reads back, through `value`, the value searched for |
| ArrayXml.EscapeXML | CRM/Utils/Array.php:174-184 | The four successive replacements equal escaping each character alone. The result holds no '<', '>' or ^A. Decoding the three entities gives back the input with ^A turned into a comma |
| ArrayXml.EscapeXMLCharwise | CRM/Utils/Array.php:183 | str_replace with the four search strings acts character by character, because no replacement text contains a later search character |
| ArrayXml.UnescapeEscape | CRM/Utils/Array.php:174-184 | Decoding the escaped text gives back the original, with ^A as a comma |
| ArrayXml.Xml | CRM/Utils/Array.php:143-160 | The loop builds exactly the fragment XmlOf describes: per entry, the indentation, the tag, then either the nested fragment or the escaped value, the closing tag and the separator |
| ArrayXml.XmlTagCount | CRM/Utils/Array.php:143-160 | If no key and not the separator contain '<' or '>', the fragment has exactly two of each per element, nested ones included. So no value can inject markup |
| ArrayXml.XmlElementTagCount | CRM/Utils/Array.php:146-156 | One element carries two '<' and two '>' of its own, plus those of its nested elements |
| Flattening.FlatWrites | CRM/Utils/Array.php:241-253 | Every write flatten performs stores a non-empty scalar. Empty leaves are skipped |
| Flattening.Flatten | CRM/Utils/Array.php:241-253 | The recursive walk leaves $flat equal to its old value with the leaf writes applied in order. Each key is the name behind the prefix when the prefix is truthy, the name alone otherwise |
| Flattening.FlattenLeaves | CRM/Utils/Array.php:241-253 | Every value written is a non-empty scalar. A key of $flat that no write touches keeps its old value |
| Flattening.PutAllGet | CRM/Utils/Array.php:249 | After a series of writes, a written key holds its last written value and every other key keeps its old one |
| Flattening.PutAllFresh | CRM/Utils/Array.php:249 | Writes under new, distinct keys just append, in order |
| Flattening.AgreeAtTop | CRM/Utils/Array.php:243 | flatten as written equals the corrected definition when every top-level key holding an array is truthy |
| Flattening.FalsyTopKeyDropped | CRM/Utils/Array.php:243 | On [[a => x], [a => y]], flatten as written writes "a" and "1.a": element 0 loses its prefix |
| Flattening.FixedTopKeyKept | CRM/Utils/Array.php:241-251 | On the same list, the corrected definition writes "0.a" and "1.a" |
| Unflattening.InsertThenGet | CRM/Utils/Array.php:274-284 | After the reference cursor has stored a value at a path, that path reads the value |
| Unflattening.InsertFails | CRM/Utils/Array.php:274-284 | Storing at a path fails exactly when a step before the last meets a scalar other than null or false |
| Unflattening.Unflatten | CRM/Utils/Array.php:270-287 | An empty delimiter fails. Otherwise the loop inserts every entry in turn at the path its key explodes into |
| PathRoundTrip.UnflattenFlattenFixed | CRM/Utils/Array.php:241-287 | unflatten of the corrected flatten gives the tree back, keys read as strings. This needs a one-character separator found in no key, non-empty scalar leaves, no empty sub-array, and keys that differ as strings |
| PathRoundTrip.UnflattenFlatten | CRM/Utils/Array.php:241-287 | The same inverse for flatten as written (prefix ''), when in addition every top-level key holding an array is truthy |
| PathRoundTrip.FixedWritesDistinct | CRM/Utils/Array.php:241-253 | Under the same conditions, flatten never writes one key twice |
| PathRoundTrip.DecodeFixed | CRM/Utils/Array.php:273 | Exploding the written keys gives back exactly the leaf paths |
| ArrayMerging.ArrayMergeGet | CRM/Utils/Array.php:320 | array_merge renumbers the integer-keyed values of both arrays as 0, 1, 2, ... in order. It keeps every string key, and the second array's value wins on a shared key |
| ArrayMerging.MergeOwnKeys | CRM/Utils/Array.php:316-325 | The first loop keeps a1's keys in a1's order. A shared key whose two values are both arrays gets their array_merge; every other key keeps a1's value |
| ArrayMerging.AddNewKeys | CRM/Utils/Array.php:327-333 | The second loop appends exactly the entries of a2 whose keys a1 lacks, in a2's order |
| ArrayMerging.NewEntriesMembers | CRM/Utils/Array.php:327-333 | The appended entries are exactly a2's entries under keys a1 lacks |
| ArrayMerging.CrmArrayMerge | CRM/Utils/Array.php:306-336 | An empty a1 gives a2, and an empty a2 gives a1. Otherwise the result is a1's keys with their merged values, followed by a2's new entries |
| ArrayPredicates.IsHierarchical | CRM/Utils/Array.php:348-355 | True exactly when some value is an array |
| ArrayPredicates.InArray | CRM/Utils/Array.php:364 | in_array with strict comparison: true exactly when some value is identical |
| ArrayPredicates.IsSubset | CRM/Utils/Array.php:362-369 | True exactly when every value of the subset occurs among the values of the superset |
| ArrayPredicates.IsSubsetPreorder | CRM/Utils/Array.php:362-369 | isSubset is reflexive and transitive |
| ArrayPredicates.CrmIsEmptyArray | CRM/Utils/Array.php:550-565 | True exactly when the value is a non-array, or holds only nulls and, recursively, such arrays |
| ArrayPredicates.AllElementsEmpty | CRM/Utils/Array.php:554-563 | The loop returns true exactly when every element is null or an empty array in that sense |
| ArrayPredicates.FlatIsEmptyArray | CRM/Utils/Array.php:550-565 | On an array without sub-arrays: true exactly when every value is null |
| ArrayPredicates.CrmIsEmptyArrayExamples | CRM/Utils/Array.php:550-565 | [] and [null, []] are empty, [0] is not |
| ArrayEdits.CrmArraySplice | CRM/Utils/Array.php:443-461 | The result is the array without positions lo <= i < hi. Here lo is start clamped at 0, and hi is end clamped at the count (exclusive) |
| ArrayEdits.SpliceGet | CRM/Utils/Array.php:443-461 | A key at a removed position is gone. Every other key keeps its value |
| ArrayEdits.UnsetNext | CRM/Utils/Array.php:455-457 | Unsetting the key of the next position widens the cut by exactly that entry |
| ArrayEdits.Remove | CRM/Utils/Array.php:673-685 | The result is the array without the entries whose keys the arguments name (a key, or each key of a list), in their order |
| ArrayEdits.RemoveGet | CRM/Utils/Array.php:673-685 | A named key is gone. Every other key keeps its value |
| ArrayEdits.UnsetWithout | CRM/Utils/Array.php:678 | One more unset removes one more key from the filtered array |
| ArrayEdits.FirstIndex | CRM/Utils/Array.php:848 | array_search over the keys finds the first position holding the key |
| ArrayEdits.CombineDistinct | CRM/Utils/Array.php:852 | array_combine of distinct keys pairs keys and values position by position |
| ArrayEdits.CrmReplaceKey | CRM/Utils/Array.php:846-854 | An error (the exception) exactly when the old key is absent |
| ArrayEdits.ReplaceKeyFresh | CRM/Utils/Array.php:846-854 | With a fresh new key, the array keeps its values and order, and the new key takes the old key's position |
| ArrayEdits.RekeyInjective | CRM/Utils/Array.php:515-517 | Rewriting every key through a function that causes no collision renames the keys in place |
| ArrayEdits.FlipInjective | CRM/Utils/Array.php:511 | array_flip of distinct integer or string values swaps keys and values in order |
| ArrayEdits.TrimLookupKeys | CRM/Utils/Array.php:514-517 | The loop stores every table entry under its key with the dots trimmed |
| ArrayEdits.LookupValue | CRM/Utils/Array.php:501-531 | Returns FALSE and leaves defaults alone exactly when the source field or the looked-up value is missing. Otherwise stores the found value under the target name |
| ArrayEdits.IntKeyTrimmed | CRM/Utils/Array.php:516 | An integer key survives the lower-casing and the dot-trimming |
| ArrayEdits.LookupById | CRM/Utils/Array.php:501-531 | Forward direction: with an integer-keyed table, property_id's id finds the table's entry for that id |
| ArrayEdits.LookupByName | CRM/Utils/Array.php:501-531 | Reverse direction: with names that stay distinct after normalisation, a name matching entry j finds entry j's key |
| ArrayEdits.DotsIgnored | CRM/Utils/Array.php:514-529 | A word with or without a trailing dot, in any case, normalises to the same key, on both the table side and the looked-up side |
| RecordHelpers.Index | CRM/Utils/Array.php:697-721 | The loop equals planting every record, in order, at the path of its field values. It fails when a field value is an array |
| RecordHelpers.PlantDig | CRM/Utils/Array.php:703-717 | Planting a record at a path changes what that path reads and no other path of the same length |
| RecordHelpers.IndexLeaf | CRM/Utils/Array.php:697-721 | The leaf at field values q is the last record, in iteration order, with those values: later records overwrite earlier ones |
| RecordHelpers.IndexFails | CRM/Utils/Array.php:697-721 | index fails exactly when some record has an array in an indexed field |
| RecordHelpers.Collect | CRM/Utils/Array.php:734-744 | The result has the records' keys in order, each holding that record's prop field (null when missing) |
| RecordHelpers.CollectGet | CRM/Utils/Array.php:734-744 | Reading a record's key in the result gives that record's prop field |
| RecordHelpers.Product | CRM/Utils/Array.php:911-932 | The recursion with its two loops builds exactly ProductOf: the template for no dimensions, otherwise each first-dimension value over the product of the rest |
| RecordHelpers.ProductCount | CRM/Utils/Array.php:911-932 | The number of items is the product of the vector lengths |
| RecordHelpers.ProductEmptyVector | CRM/Utils/Array.php:911-932 | A dimension with no values yields no items |
| RecordHelpers.ProductItemValues | CRM/Utils/Array.php:924-928 | Every item sets each dimension key to one of that dimension's values, overriding the template |
| RecordHelpers.ProductItemOthers | CRM/Utils/Array.php:911-932 | Keys that are no dimension keep the template's value |
| RecordHelpers.ProductItemKeys | CRM/Utils/Array.php:924-928 | Each item has the template's keys, then the dimension keys from the last dimension to the first |
| RecordHelpers.ProductChoice | CRM/Utils/Array.php:911-932 | Every combination of values occurs, at its mixed-radix rank: the first dimension varies slowest |
| RecordHelpers.LayerAt | CRM/Utils/Array.php:924-928 | Value a of the first dimension with item b of the rest sits at a * |rest| + b |
| StringCodecs.ImplodeKeyValue | CRM/Utils/Array.php:759-765 | The loop builds "key l2 value" for each pair, in order, and implode joins them with l1 |
| StringCodecs.PairsRoundTrip | CRM/Utils/Array.php:759-765 | With one-character separators found in no key or value, exploding by l1 gives back the pair expressions |
| StringCodecs.PairRoundTrip | CRM/Utils/Array.php:759-765 | Exploding a pair expression by l2 gives back the key and the value as strings |
| StringCodecs.PaddedRoundTrip | CRM/Utils/Array.php:785-822 | For a one-character delimiter found in no element, with non-empty first and last elements: implodePadded surrounds the joined list with the delimiter, and explodePadded gives the list back |
| StringCodecs.PaddedStable | CRM/Utils/Array.php:785-822 | explodePadded then implodePadded of a string equals implodePadded of the string: the text trimmed of the delimiter, with one delimiter at each end |
| StringCodecs.ImplodeExplode | CRM/Utils/Array.php:793 | implode undoes explode for a one-character delimiter |

## Left out

- CRM/Case/Form/CaseView.php is not part of this model. It is a web-form controller over the request, the session and the database.
- `asort` is not part of this model: it depends on the locale and the intl Collator.
- `crmArraySortByField` is not part of this model: it builds its comparator at run time and uses natural ordering.
- `crmArrayUnique` is not part of this model: it compares through `serialize`.
- `getLevelsArray` is not part of this model: it works on JSON text.
- `valueByRegexKey` is not part of this model: it uses PCRE.
- `array_deep_copy` is not part of this model: it calls an undefined global function.
- `crmInArray` is not part of this model: its recursive call is unqualified and its result is discarded.
- `breakReference` is not part of this model: it only matters under PHP reference semantics.
- Object records (`$record->{$key}`) in `index` and `collect` are left out. Records are arrays.
- Comparison is strict everywhere (`===`). PHP's loose comparison in `array_search` and `in_array` is not modelled.
- Numeric-string keys: PHP stores "12" as the key 12. This is modelled (`AsKey`) where a string computed at run time becomes a key: the joined keys of `flatten`, the lowered key of `lookupValue` and the keys read by `index`. `unflatten` keeps its exploded path segments as string keys (see below). Keys passed in by callers are taken as they are.
- PhpValues.AsKey: does not model the 64-bit limit. PHP keeps a digit string above PHP_INT_MAX (9223372036854775807) as a string key; the model turns every canonical digit string into an integer key.
- ArrayEdits.LookupValue: when the source field holds an array, PHP's `strtolower` returns null and the lookup uses the key ""; the model converts the array to the string "Array" and looks up "array".
- Warnings, notices and fatal errors are not modelled as such. An operation PHP rejects returns None:
  - `explode` with an empty delimiter;
  - an array used as a key;
  - a missing key in `crmReplaceKey`;
  - a scalar used as an array inside `unflatten`.
- Writes into string offsets are not modelled. In `unflatten`, a path through any string (the empty one included), a number or true fails instead: PHP 7.1 and later cannot take a reference to a string offset, and only null and false are turned into arrays.
- `trim` character lists are sets of characters. The "a..z" range syntax is not modelled.
- Floating-point values are not part of the value model.
- Unflattening.Unflatten and PathRoundTrip.UnflattenFlatten compare keys as strings: a key 1 comes back as "1", because the model does not turn exploded path segments back into integer keys.
- ArrayEdits.ReplaceKeyFresh: proved only for a new key that is fresh or equal to the old one. With a colliding new key, `array_combine` merges the two entries; CrmReplaceKey models that but no lemma describes it.
- ArrayEdits.LookupByName and ArrayEdits.LookupById: cover the two documented directions for a lower-case property name and tables whose keys do not collide after normalisation. Other tables are modelled by LookupTarget, but no lemma describes them.
- StringCodecs.PaddedRoundTrip, StringCodecs.PaddedStable, StringCodecs.PairsRoundTrip, StringCodecs.PairRoundTrip, StringCodecs.ImplodeExplode, PathRoundTrip.UnflattenFlatten and PathRoundTrip.UnflattenFlattenFixed: proved for one-character separators only. With longer separators, overlapping occurrences make explode and implode harder to relate.
- ArrayMerging.ArrayMergeGet: states the value under every key, not the key order of array_merge's result.
- `xml` writes tag names unescaped. XmlTagCount therefore assumes keys without '<' and '>'.

## Findings

| source | as written | input that shows it | evidently intended | confidence | as-written member | corrected member |
|---|---|---|---|---|---|---|
| CRM/Utils/Array.php:243 | `($prefix) ?` treats every falsy prefix as absent, including one built from a top-level key 0, "0" or "" | flatten of the list [[a => x], [a => y]] writes "a" => x and "1.a" => y, so unflatten cannot restore element 0 | only the initial empty prefix means "no prefix"; every name below the top level is joined | high (proved; not executed) | Flattening.FalsyTopKeyDropped | PathRoundTrip.UnflattenFlattenFixed |
