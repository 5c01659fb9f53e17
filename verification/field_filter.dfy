/**
 * The three order-preserving deletion filters of the XML codec:
 * `removeFields`, `removeEmptyFields` and `removeValuesByRegExp`.
 */
module FieldFilter {
  import opened OrderedMap
  import opened PhpString
  import opened PhpValue

  /**
   * `false !== strpos($hay, $needle)` as PHP 5 and 7 evaluate it: an empty
   * needle is never found.
   */
  predicate StrposFound(hay: string, needle: string) {
    needle != "" && Contains(hay, needle)
  }

  /**
   * The `foreach ($array as $key => $value) ... $rebuild[$key] = $value`
   * loop shared by the three filters, continuing from `acc`.
   */
  function RebuildFrom<V>(acc: seq<Pair<V>>, m: seq<Pair<V>>, keep: Pair<V> -> bool): seq<Pair<V>>
    decreases |m|
  {
    if m == [] then acc
    else RebuildFrom(if keep(m[0]) then Assign(acc, m[0].key, m[0].val) else acc, m[1..], keep)
  }

  /**
   * On a PHP array (unique keys) the rebuild loop keeps exactly the entries
   * satisfying `keep`, in their original order.
   */
  lemma {:induction false} RebuildIsFilter<V(!new)>(acc: seq<Pair<V>>, m: seq<Pair<V>>, keep: Pair<V> -> bool)
    requires UniqueKeys(m)
    requires forall i :: 0 <= i < |m| ==> !HasKey(acc, m[i].key)
    ensures RebuildFrom(acc, m, keep) == acc + Filter(m, keep)
    decreases |m|
  {
    if m != [] {
      var acc' := if keep(m[0]) then Assign(acc, m[0].key, m[0].val) else acc;
      RebuildStepFresh(acc, m, keep);
      RebuildIsFilter(acc', m[1..], keep);
      FilterCons(acc, m, keep);
    }
  }

  /** `acc + Filter(m)` after deciding the first entry of `m`. */
  lemma FilterCons<V(!new)>(acc: seq<Pair<V>>, m: seq<Pair<V>>, keep: Pair<V> -> bool)
    requires m != []
    ensures acc + Filter(m, keep) == (if keep(m[0]) then acc + [m[0]] else acc) + Filter(m[1..], keep)
  {
  }

  /** After keeping or dropping the first entry, no later key is yet in the accumulator. */
  lemma RebuildStepFresh<V>(acc: seq<Pair<V>>, m: seq<Pair<V>>, keep: Pair<V> -> bool)
    requires m != [] && UniqueKeys(m)
    requires forall i :: 0 <= i < |m| ==> !HasKey(acc, m[i].key)
    ensures keep(m[0]) ==> Assign(acc, m[0].key, m[0].val) == acc + [m[0]]
    ensures UniqueKeys(m[1..])
    ensures var acc' := if keep(m[0]) then Assign(acc, m[0].key, m[0].val) else acc;
      forall i :: 0 <= i < |m[1..]| ==> !HasKey(acc', m[1..][i].key)
  {
    UniqueTail(m);
    assert !HasKey(acc, m[0].key);
    forall i | 0 <= i < |m[1..]| ensures !HasKey(acc + [m[0]], m[1..][i].key) {
      assert m[1..][i] == m[i + 1];
      assert Keys(m[1..])[i] == m[1..][i].key;
      LookupAppend(acc, m[0], m[1..][i].key);
    }
  }

  /** The rebuild loop from an empty array. */
  function Rebuild<V(!new)>(m: seq<Pair<V>>, keep: Pair<V> -> bool): (r: seq<Pair<V>>)
    ensures UniqueKeys(m) ==> r == Filter(m, keep)
  {
    if UniqueKeys(m) then
      RebuildIsFilter([], m, keep);
      assert [] + Filter(m, keep) == Filter(m, keep);
      RebuildFrom([], m, keep)
    else RebuildFrom([], m, keep)
  }

  /** Some item of the list, url-encoded, occurs in `key`. */
  predicate MatchesAnyName(key: string, list: seq<string>, urlencode: string -> string) {
    exists i :: 0 <= i < |list| && StrposFound(key, urlencode(list[i]))
  }

  /** The entries `removeFields` keeps. */
  function KeepName<V>(list: seq<string>, urlencode: string -> string): Pair<V> -> bool {
    (p: Pair<V>) => !MatchesAnyName(p.key, list, urlencode)
  }

  /** `removeFields($array, $list)`: drop every entry whose key contains an url-encoded list item. */
  function RemoveFields<V(!new)>(m: seq<Pair<V>>, list: seq<string>, urlencode: string -> string): (r: seq<Pair<V>>)
    requires UniqueKeys(m)
    ensures forall p :: p in r <==> p in m && !MatchesAnyName(p.key, list, urlencode)
    ensures IsSubseq(r, m) && UniqueKeys(r)
  {
    var r := Rebuild(m, KeepName(list, urlencode));
    SubseqUniqueKeys(r, m);
    r
  }

  /** `removeEmptyFields($array)`: drop every value PHP's `empty()` accepts ("" and "0"). */
  function RemoveEmptyFields(m: seq<Pair<string>>): (r: seq<Pair<string>>)
    requires UniqueKeys(m)
    ensures forall p :: p in r <==> p in m && !IsEmptyString(p.val)
    ensures IsSubseq(r, m) && UniqueKeys(r)
  {
    var r := Rebuild(m, (p: Pair<string>) => !IsEmptyString(p.val));
    SubseqUniqueKeys(r, m);
    r
  }

  /** Some pattern of the list matches `value` (`preg_match("/{$item}/ius", $value)`). */
  predicate MatchesAnyPattern(value: string, list: seq<string>, pregMatch: (string, string) -> bool) {
    exists i :: 0 <= i < |list| && pregMatch(list[i], value)
  }

  /** `removeValuesByRegExp($array, $list)`: drop every entry whose value matches a pattern. */
  function RemoveValuesByRegExp(m: seq<Pair<string>>, list: seq<string>, pregMatch: (string, string) -> bool): (r: seq<Pair<string>>)
    requires UniqueKeys(m)
    ensures forall p :: p in r <==> p in m && !MatchesAnyPattern(p.val, list, pregMatch)
    ensures IsSubseq(r, m) && UniqueKeys(r)
  {
    var r := Rebuild(m, (p: Pair<string>) => !MatchesAnyPattern(p.val, list, pregMatch));
    SubseqUniqueKeys(r, m);
    r
  }

  /** Removing fields is idempotent. */
  lemma RemoveFieldsIdempotent<V(!new)>(m: seq<Pair<V>>, list: seq<string>, urlencode: string -> string)
    requires UniqueKeys(m)
    ensures RemoveFields(RemoveFields(m, list, urlencode), list, urlencode) == RemoveFields(m, list, urlencode)
  {
    var r := RemoveFields(m, list, urlencode);
    FilterAll(r, KeepName(list, urlencode));
  }

  /** Filtering with a predicate every entry satisfies changes nothing. */
  lemma {:induction false} FilterAll<V(!new)>(m: seq<Pair<V>>, keep: Pair<V> -> bool)
    requires forall p :: p in m ==> keep(p)
    ensures Filter(m, keep) == m
    decreases |m|
  {
    if m != [] {
      assert m[0] in m;
      assert forall p :: p in m[1..] ==> p in m;
      FilterAll(m[1..], keep);
    }
  }
}
