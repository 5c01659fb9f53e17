/**
 * PHP ordered arrays with string keys, as sequences of key/value pairs.
 *
 * A PHP array keeps its keys in insertion order; assigning to an existing
 * key replaces the value in place, assigning to a new key appends.
 */
module OrderedMap {
  import opened Wrappers

  /** One entry of an ordered array. */
  datatype Pair<V> = Pair(key: string, val: V)

  /** The keys, in order. */
  function Keys<V>(m: seq<Pair<V>>): seq<string> {
    seq(|m|, i requires 0 <= i < |m| => m[i].key)
  }

  /** No element occurs twice. */
  predicate Distinct<T(==)>(s: seq<T>) {
    forall i, j :: 0 <= i < j < |s| ==> s[i] != s[j]
  }

  /** The invariant of every real PHP array: no key occurs twice. */
  predicate UniqueKeys<V>(m: seq<Pair<V>>) {
    Distinct(Keys(m))
  }

  /** `$m[$k]` as an option: the value of the first entry with key `k`, or `None`. */
  function Lookup<V>(m: seq<Pair<V>>, k: string): (r: Option<V>)
    ensures r.Some? ==> Pair(k, r.value) in m
  {
    if m == [] then None
    else if m[0].key == k then Some(m[0].val)
    else Lookup(m[1..], k)
  }

  /** `array_key_exists($k, $m)`. */
  predicate HasKey<V>(m: seq<Pair<V>>, k: string) {
    Lookup(m, k).Some?
  }

  /** `$m[$k]` for a key that is present. */
  function Get<V>(m: seq<Pair<V>>, k: string): (v: V)
    requires HasKey(m, k)
    ensures Pair(k, v) in m
  {
    Lookup(m, k).value
  }

  lemma {:induction false} HasKeyIsKeysMember<V>(m: seq<Pair<V>>, k: string)
    ensures HasKey(m, k) <==> k in Keys(m)
  {
    if m != [] {
      HasKeyIsKeysMember(m[1..], k);
      assert Keys(m) == [m[0].key] + Keys(m[1..]);
    }
  }

  lemma KeysOfConcat<V>(a: seq<Pair<V>>, b: seq<Pair<V>>)
    ensures Keys(a + b) == Keys(a) + Keys(b)
  {
  }

  lemma UniqueTail<V>(m: seq<Pair<V>>)
    requires m != [] && UniqueKeys(m)
    ensures UniqueKeys(m[1..])
    ensures m[0].key !in Keys(m[1..])
  {
    assert Keys(m) == [m[0].key] + Keys(m[1..]);
    forall i, j | 0 <= i < j < |m[1..]| ensures Keys(m[1..])[i] != Keys(m[1..])[j] {
      assert Keys(m[1..])[i] == Keys(m)[i + 1] && Keys(m[1..])[j] == Keys(m)[j + 1];
    }
    forall i | 0 <= i < |m[1..]| ensures Keys(m[1..])[i] != m[0].key {
      assert Keys(m[1..])[i] == Keys(m)[i + 1] && m[0].key == Keys(m)[0];
    }
  }

  lemma PairKeyInKeys<V>(m: seq<Pair<V>>, k: string, v: V)
    requires Pair(k, v) in m
    ensures k in Keys(m)
  {
    var i :| 0 <= i < |m| && m[i] == Pair(k, v);
    assert Keys(m)[i] == k;
  }

  /** In an array with unique keys, the pair stored under `k` is the only one. */
  lemma {:induction false} LookupOfUnique<V>(m: seq<Pair<V>>, k: string, v: V)
    requires UniqueKeys(m)
    requires Pair(k, v) in m
    ensures Lookup(m, k) == Some(v)
  {
    if m[0] != Pair(k, v) {
      assert Pair(k, v) in m[1..];
      UniqueTail(m);
      PairKeyInKeys(m[1..], k, v);
      LookupOfUnique(m[1..], k, v);
    }
  }

  /** `$m[$k] = $v`: replace in place when the key exists, otherwise append. */
  function Assign<V>(m: seq<Pair<V>>, k: string, v: V): (r: seq<Pair<V>>)
    ensures Lookup(r, k) == Some(v)
    ensures HasKey(m, k) ==> Keys(r) == Keys(m)
    ensures !HasKey(m, k) ==> r == m + [Pair(k, v)]
  {
    if m == [] then [Pair(k, v)]
    else if m[0].key == k then
      var r := [Pair(k, v)] + m[1..];
      KeysCons(Pair(k, v), m[1..]);
      KeysCons(m[0], m[1..]);
      r
    else
      var rest := Assign(m[1..], k, v);
      AssignBehind(m, k, v, rest);
      [m[0]] + rest
  }

  /** Assigning behind a first entry with another key: the contract of `Assign` carries over from the tail. */
  lemma AssignBehind<V>(m: seq<Pair<V>>, k: string, v: V, rest: seq<Pair<V>>)
    requires m != [] && m[0].key != k
    requires Lookup(rest, k) == Some(v)
    requires HasKey(m[1..], k) ==> Keys(rest) == Keys(m[1..])
    requires !HasKey(m[1..], k) ==> rest == m[1..] + [Pair(k, v)]
    ensures Lookup([m[0]] + rest, k) == Some(v)
    ensures HasKey(m, k) ==> Keys([m[0]] + rest) == Keys(m)
    ensures !HasKey(m, k) ==> [m[0]] + rest == m + [Pair(k, v)]
  {
    var r := [m[0]] + rest;
    assert r[1..] == rest;
    assert HasKey(m, k) == HasKey(m[1..], k);
    KeysCons(m[0], rest);
    KeysCons(m[0], m[1..]);
    if !HasKey(m, k) {
      assert m == [m[0]] + m[1..];
      assert r == ([m[0]] + m[1..]) + [Pair(k, v)];
    }
  }

  /** The keys of an entry followed by an array. */
  lemma KeysCons<V>(x: Pair<V>, m: seq<Pair<V>>)
    ensures Keys([x] + m) == [x.key] + Keys(m)
  {
  }

  /** Assigning `k` leaves every other key's value as it was. */
  lemma {:induction false} AssignOther<V>(m: seq<Pair<V>>, k: string, v: V, k': string)
    requires k' != k
    ensures Lookup(Assign(m, k, v), k') == Lookup(m, k')
  {
    var r := Assign(m, k, v);
    if m == [] {
      assert r == [Pair(k, v)] && r[1..] == [];
    } else if m[0].key == k {
      assert r[0].key == k && r[1..] == m[1..];
    } else {
      AssignOther(m[1..], k, v, k');
      assert r[0] == m[0] && r[1..] == Assign(m[1..], k, v);
    }
  }

  /** Assigning into a valid PHP array yields a valid PHP array. */
  lemma AssignUnique<V>(m: seq<Pair<V>>, k: string, v: V)
    requires UniqueKeys(m)
    ensures UniqueKeys(Assign(m, k, v))
  {
    var r := Assign(m, k, v);
    if !HasKey(m, k) {
      HasKeyIsKeysMember(m, k);
      assert Keys(r) == Keys(m) + [k];
    }
  }

  /** Looking up in an array with one more pair at its end. */
  lemma {:induction false} LookupAppend<V>(m: seq<Pair<V>>, x: Pair<V>, k: string)
    ensures Lookup(m + [x], k) == if HasKey(m, k) then Lookup(m, k) else if x.key == k then Some(x.val) else None
  {
    if m != [] {
      assert (m + [x])[1..] == m[1..] + [x];
      LookupAppend(m[1..], x, k);
    } else {
      assert [x][1..] == [];
    }
  }

  /** The value of the LAST pair with key `k`. */
  function LastValue<V>(b: seq<Pair<V>>, k: string): V
    requires HasKey(b, k)
  {
    if HasKey(b[1..], k) then LastValue(b[1..], k) else b[0].val
  }

  /**
   * Successive assignment `$m[$k] = $v` of every pair of `b`, in order;
   * this is also `array_merge($m, $b)` for string keys.
   */
  function AssignAll<V>(m: seq<Pair<V>>, b: seq<Pair<V>>): (r: seq<Pair<V>>)
    decreases |b|
  {
    if b == [] then m else AssignAll(Assign(m, b[0].key, b[0].val), b[1..])
  }

  /** After `AssignAll(m, b)` every key of `b` holds its last value in `b`; other keys are untouched. */
  lemma {:induction false} AssignAllLookup<V>(m: seq<Pair<V>>, b: seq<Pair<V>>, k: string)
    ensures Lookup(AssignAll(m, b), k) == if HasKey(b, k) then Some(LastValue(b, k)) else Lookup(m, k)
    decreases |b|
  {
    if b != [] {
      AssignAllLookup(Assign(m, b[0].key, b[0].val), b[1..], k);
      if k != b[0].key {
        AssignOther(m, b[0].key, b[0].val, k);
      }
    }
  }

  /** `AssignAll` keeps the existing keys in place, appends new ones, and keeps keys unique. */
  lemma {:induction false} AssignAllKeys<V>(m: seq<Pair<V>>, b: seq<Pair<V>>)
    ensures Keys(m) <= Keys(AssignAll(m, b))
    ensures UniqueKeys(m) ==> UniqueKeys(AssignAll(m, b))
    decreases |b|
  {
    if b != [] {
      var m' := Assign(m, b[0].key, b[0].val);
      AssignAllKeys(m', b[1..]);
      if !HasKey(m, b[0].key) {
        KeysOfConcat(m, [Pair(b[0].key, b[0].val)]);
      }
      PrefixTrans(Keys(m), Keys(m'), Keys(AssignAll(m', b[1..])));
      if UniqueKeys(m) {
        AssignUnique(m, b[0].key, b[0].val);
      }
    }
  }

  lemma PrefixTrans<T>(a: seq<T>, b: seq<T>, c: seq<T>)
    requires a <= b && b <= c
    ensures a <= c
  {
    assert c[..|a|] == b[..|a|];
  }

  /** Every pair after an assignment was there before or is the assigned one. */
  lemma {:induction false} AssignPairs<V>(m: seq<Pair<V>>, k: string, v: V)
    ensures forall p :: p in Assign(m, k, v) ==> p in m || p == Pair(k, v)
  {
    if m != [] && m[0].key != k {
      AssignPairs(m[1..], k, v);
      assert Assign(m, k, v) == [m[0]] + Assign(m[1..], k, v);
    }
  }

  /** Every pair after merging comes from one of the two arrays. */
  lemma {:induction false} AssignAllPairs<V>(m: seq<Pair<V>>, b: seq<Pair<V>>)
    ensures forall p :: p in AssignAll(m, b) ==> p in m || p in b
    decreases |b|
  {
    if b != [] {
      AssignPairs(m, b[0].key, b[0].val);
      AssignAllPairs(Assign(m, b[0].key, b[0].val), b[1..]);
      assert forall p :: p in b[1..] ==> p in b;
    }
  }

  /** `a` is obtained from `b` by deleting entries (order is kept). */
  predicate IsSubseq<T(==)>(a: seq<T>, b: seq<T>)
    decreases |b|
  {
    a == [] || (b != [] && ((a[0] == b[0] && IsSubseq(a[1..], b[1..])) || IsSubseq(a, b[1..])))
  }

  lemma {:induction false} SubseqMembers<T>(a: seq<T>, b: seq<T>)
    requires IsSubseq(a, b)
    ensures forall x :: x in a ==> x in b
    decreases |b|
  {
    if a != [] {
      if a[0] == b[0] && IsSubseq(a[1..], b[1..]) {
        SubseqMembers(a[1..], b[1..]);
        assert forall x :: x in a ==> x == a[0] || x in a[1..];
      } else {
        SubseqMembers(a, b[1..]);
      }
    }
  }

  lemma {:induction false} SubseqRefl<T>(a: seq<T>)
    ensures IsSubseq(a, a)
    decreases |a|
  {
    if a != [] {
      SubseqRefl(a[1..]);
    }
  }

  lemma {:induction false} SubseqTrans<T>(a: seq<T>, b: seq<T>, c: seq<T>)
    requires IsSubseq(a, b) && IsSubseq(b, c)
    ensures IsSubseq(a, c)
    decreases |c|
  {
    if a == [] {
    } else if b[0] == c[0] && IsSubseq(b[1..], c[1..]) {
      if a[0] == b[0] && IsSubseq(a[1..], b[1..]) {
        SubseqTrans(a[1..], b[1..], c[1..]);
      } else {
        SubseqTrans(a, b[1..], c[1..]);
      }
    } else {
      SubseqTrans(a, b, c[1..]);
    }
  }

  lemma {:induction false} SubseqKeys<V>(a: seq<Pair<V>>, b: seq<Pair<V>>)
    requires IsSubseq(a, b)
    ensures IsSubseq(Keys(a), Keys(b))
    decreases |b|
  {
    if a != [] {
      assert Keys(b)[1..] == Keys(b[1..]);
      if a[0] == b[0] && IsSubseq(a[1..], b[1..]) {
        SubseqKeys(a[1..], b[1..]);
        assert Keys(a)[1..] == Keys(a[1..]);
      } else {
        SubseqKeys(a, b[1..]);
      }
    }
  }

  lemma {:induction false} SubseqDistinct<T>(a: seq<T>, b: seq<T>)
    requires IsSubseq(a, b) && Distinct(b)
    ensures Distinct(a)
    decreases |b|
  {
    if a != [] {
      assert Distinct(b[1..]) by {
        forall i, j | 0 <= i < j < |b[1..]| ensures b[1..][i] != b[1..][j] {
          assert b[1..][i] == b[i + 1] && b[1..][j] == b[j + 1];
        }
      }
      if a[0] == b[0] && IsSubseq(a[1..], b[1..]) {
        SubseqDistinct(a[1..], b[1..]);
        SubseqMembers(a[1..], b[1..]);
        forall i, j | 0 <= i < j < |a| ensures a[i] != a[j] {
          if i == 0 {
            assert a[j] == a[1..][j - 1];
            assert a[j] in b[1..];
            var t :| 0 <= t < |b[1..]| && b[1..][t] == a[j];
            assert b[t + 1] == a[j];
          } else {
            assert a[i] == a[1..][i - 1] && a[j] == a[1..][j - 1];
          }
        }
      } else {
        SubseqDistinct(a, b[1..]);
      }
    }
  }

  /** A sub-sequence of a PHP array is itself a valid PHP array. */
  lemma SubseqUniqueKeys<V>(a: seq<Pair<V>>, b: seq<Pair<V>>)
    requires IsSubseq(a, b) && UniqueKeys(b)
    ensures UniqueKeys(a)
  {
    SubseqKeys(a, b);
    SubseqDistinct(Keys(a), Keys(b));
  }

  /**
   * The `foreach ... $rebuild[$key] = $value` loop that keeps the entries
   * satisfying `keep`: for an array with unique keys it is an order-preserving
   * filter.
   */
  function Filter<V(!new)>(m: seq<Pair<V>>, keep: Pair<V> -> bool): (r: seq<Pair<V>>)
    ensures forall p :: p in r <==> p in m && keep(p)
    ensures IsSubseq(r, m)
    decreases |m|
  {
    if m == [] then []
    else
      var rest := Filter(m[1..], keep);
      assert forall p :: p in m <==> p == m[0] || p in m[1..];
      var r := if keep(m[0]) then [m[0]] + rest else rest;
      assert IsSubseq(r, m) by {
        if keep(m[0]) {
          assert r[0] == m[0] && r[1..] == rest;
        }
      }
      r
  }

  /** Overwriting keys that already hold the same values changes nothing. */
  lemma {:induction false} AssignAllOfSubmap<V>(m: seq<Pair<V>>, b: seq<Pair<V>>)
    requires UniqueKeys(m)
    requires forall p :: p in b ==> p in m
    ensures AssignAll(m, b) == m
    decreases |b|
  {
    if b != [] {
      AssignExisting(m, b[0].key, b[0].val);
      assert forall p :: p in b[1..] ==> p in b;
      AssignAllOfSubmap(m, b[1..]);
    }
  }

  lemma {:induction false} AssignExisting<V>(m: seq<Pair<V>>, k: string, v: V)
    requires UniqueKeys(m)
    requires Pair(k, v) in m
    ensures Assign(m, k, v) == m
    decreases |m|
  {
    if m[0].key != k {
      UniqueTail(m);
      AssignExisting(m[1..], k, v);
    } else {
      LookupOfUnique(m, k, v);
    }
  }
}
