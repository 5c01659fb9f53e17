/**
 * `flatternArray` and `structurizeArray` of the XML codec: a nested array
 * is turned into an ordered map from slash-joined paths to strings, and
 * back.
 */
module PathFlattener {
  import opened Wrappers
  import opened OrderedMap
  import opened PhpString
  import opened PhpValue

  const Divider: char := '/'

  /** The path of `key` below `base`; at the top level (`base` empty) the bare key. */
  function PathOf(base: string, key: string): string {
    if base == "" then key else base + [Divider] + key
  }

  /**
   * The `foreach` of `flatternArray`, continuing from the partial output
   * `out`: a scalar is cast and assigned under its path, a nested array is
   * flattened below its path and merged in with `array_merge`.
   */
  function FlattenFrom(out: seq<Pair<string>>, es: seq<Pair<Tree>>, base: string): (r: seq<Pair<string>>)
    ensures UniqueKeys(out) ==> UniqueKeys(r)
    decreases es
  {
    if es == [] then out
    else
      var path := PathOf(base, es[0].key);
      var out' := match es[0].val
        case Leaf(v) => Assign(out, path, Cast(v))
        case Map(c) => AssignAll(out, FlattenFrom([], c, path));
      assert UniqueKeys(out) ==> UniqueKeys(out') by {
        if UniqueKeys(out) && es[0].val.Leaf? {
          AssignUnique(out, path, Cast(es[0].val.v));
        } else if UniqueKeys(out) {
          AssignAllKeys(out, FlattenFrom([], es[0].val.entries, path));
        }
      }
      FlattenFrom(out', es[1..], base)
  }

  /** `flatternArray($array, $base)`: a PHP array, so its keys are unique. */
  function Flatten(es: seq<Pair<Tree>>, base: string): (r: seq<Pair<string>>)
    ensures UniqueKeys(r)
  {
    FlattenFrom([], es, base)
  }

  /**
   * Reference flattening: every leaf, in pre-order, paired with its path
   * and its string cast.
   */
  function FlatConcat(es: seq<Pair<Tree>>, base: string): seq<Pair<string>>
    decreases es
  {
    if es == [] then []
    else
      var path := PathOf(base, es[0].key);
      var head := match es[0].val
        case Leaf(v) => [Pair(path, Cast(v))]
        case Map(c) => FlatConcat(c, path);
      head + FlatConcat(es[1..], base)
  }

  /**
   * A nested array the codec round-trips: keys are unique and free of the
   * divider at every level, and no nested array is empty.
   */
  predicate WellFormedEntries(es: seq<Pair<Tree>>)
    decreases es
  {
    UniqueKeys(es) &&
    forall i :: 0 <= i < |es| ==>
      Divider !in es[i].key &&
      match es[i].val
      case Leaf(_) => true
      case Map(c) => c != [] && WellFormedEntries(c)
  }

  /** Below the top level, or at the top level when no nested array sits under the empty key. */
  predicate NestsBelow(es: seq<Pair<Tree>>, base: string) {
    base != "" || forall i :: 0 <= i < |es| ==> es[i].val.Map? ==> es[i].key != ""
  }

  /** A top-level array the codec round-trips. */
  predicate WellFormed(es: seq<Pair<Tree>>) {
    WellFormedEntries(es) && NestsBelow(es, "")
  }

  lemma {:induction false} WellFormedTail(es: seq<Pair<Tree>>, base: string)
    requires es != [] && WellFormedEntries(es) && NestsBelow(es, base)
    ensures WellFormedEntries(es[1..]) && NestsBelow(es[1..], base)
    ensures es[0].key !in Keys(es[1..])
  {
    UniqueTail(es);
    forall i | 0 <= i < |es[1..]| ensures es[1..][i] == es[i + 1] { }
  }

  /** The path segments of `base` (none at the top level). */
  function BaseSegments(base: string): seq<string> {
    if base == "" then [] else Explode(base, Divider)
  }

  lemma {:induction false} ExplodePath(base: string, key: string)
    requires Divider !in key
    ensures Explode(PathOf(base, key), Divider) == BaseSegments(base) + [key]
  {
    if base != "" {
      ExplodeJoin(base, Divider, key);
    }
  }

  lemma {:induction false} BaseSegmentsOfPath(base: string, key: string)
    requires Divider !in key
    requires base != "" || key != ""
    ensures BaseSegments(PathOf(base, key)) == BaseSegments(base) + [key]
  {
    ExplodePath(base, key);
  }

  lemma {:induction false} WellFormedHead(es: seq<Pair<Tree>>, base: string)
    requires es != [] && WellFormedEntries(es) && NestsBelow(es, base)
    ensures Divider !in es[0].key
    ensures es[0].val.Map? ==> es[0].val.entries != [] && WellFormedEntries(es[0].val.entries)
    ensures es[0].val.Map? ==> NestsBelow(es[0].val.entries, PathOf(base, es[0].key))
    ensures es[0].val.Map? ==> BaseSegments(PathOf(base, es[0].key)) == BaseSegments(base) + [es[0].key]
    ensures Keys(es) == [es[0].key] + Keys(es[1..])
    ensures WellFormedEntries([es[0]]) && NestsBelow([es[0]], base)
  {
    assert es[0] == es[0];
    if es[0].val.Map? {
      BaseSegmentsOfPath(base, es[0].key);
    }
  }

  /** The reference flattening of a single entry. */
  lemma {:induction false} FlatConcatSingle(e: Pair<Tree>, base: string)
    ensures e.val.Leaf? ==> FlatConcat([e], base) == [Pair(PathOf(base, e.key), Cast(e.val.v))]
    ensures e.val.Map? ==> FlatConcat([e], base) == FlatConcat(e.val.entries, PathOf(base, e.key))
  {
    assert [e][1..] == [];
  }

  /** The reference flattening splits into the first entry's leaves and the rest's. */
  lemma {:induction false} FlatConcatCons(es: seq<Pair<Tree>>, base: string)
    requires es != []
    ensures FlatConcat(es, base) == FlatConcat([es[0]], base) + FlatConcat(es[1..], base)
  {
    FlatConcatSingle(es[0], base);
  }

  /** Every flattened key starts with the base segments followed by a key of `es`. */
  lemma {:induction false} FlatKeyShape(es: seq<Pair<Tree>>, base: string, key: string)
    requires WellFormedEntries(es) && NestsBelow(es, base)
    requires key in Keys(FlatConcat(es, base))
    ensures var xs := Explode(key, Divider); var p := BaseSegments(base);
      |xs| > |p| && xs[..|p|] == p && xs[|p|] in Keys(es)
    decreases es, 3
  {
    FlatConcatCons(es, base);
    var head := FlatConcat([es[0]], base);
    var tail := FlatConcat(es[1..], base);
    KeysOfConcat(head, tail);
    if key in Keys(head) {
      FlatKeyShapeHead(es, base, key);
    } else {
      assert key in Keys(tail);
      FlatKeyShapeTail(es, base, key);
    }
  }

  /** `FlatKeyShape` for a key produced by the entries after the first. */
  lemma {:induction false} FlatKeyShapeTail(es: seq<Pair<Tree>>, base: string, key: string)
    requires es != [] && WellFormedEntries(es) && NestsBelow(es, base)
    requires key in Keys(FlatConcat(es[1..], base))
    ensures var xs := Explode(key, Divider); var p := BaseSegments(base);
      |xs| > |p| && xs[..|p|] == p && xs[|p|] in Keys(es)
    decreases es, 2
  {
    WellFormedTail(es, base);
    FlatKeyShape(es[1..], base, key);
    KeysTailMember(es, Explode(key, Divider)[|BaseSegments(base)|]);
  }

  /** `FlatKeyShape` for a key produced by the first entry. */
  lemma KeysTailMember<V>(m: seq<Pair<V>>, k: string)
    requires m != [] && k in Keys(m[1..])
    ensures k in Keys(m)
  {
    assert Keys(m) == [m[0].key] + Keys(m[1..]);
  }

  lemma {:induction false} FlatKeyShapeHead(es: seq<Pair<Tree>>, base: string, key: string)
    requires es != [] && WellFormedEntries(es) && NestsBelow(es, base)
    requires key in Keys(FlatConcat([es[0]], base))
    ensures var xs := Explode(key, Divider); var p := BaseSegments(base);
      |xs| > |p| && xs[..|p|] == p && xs[|p|] in Keys(es)
    decreases es, 2
  {
    var e := es[0];
    WellFormedHead(es, base);
    FlatConcatSingle(e, base);
    if e.val.Leaf? {
      KeyOfLeaf(base, e.key, key);
    } else {
      KeyOfNested(e, base, key);
    }
    assert Keys(es)[0] == e.key;
  }

  /** A key flattened from a nested array explodes to the base segments followed by the array's key. */
  lemma {:induction false} KeyOfNested(e: Pair<Tree>, base: string, key: string)
    requires e.val.Map? && e.val.entries != [] && WellFormedEntries(e.val.entries)
    requires NestsBelow(e.val.entries, PathOf(base, e.key))
    requires BaseSegments(PathOf(base, e.key)) == BaseSegments(base) + [e.key]
    requires key in Keys(FlatConcat(e.val.entries, PathOf(base, e.key)))
    ensures var xs := Explode(key, Divider); var p := BaseSegments(base);
      |xs| > |p| && xs[..|p|] == p && xs[|p|] == e.key
    decreases e, 0
  {
    FlatKeyShape(e.val.entries, PathOf(base, e.key), key);
    ChildSegments(Explode(key, Divider), BaseSegments(base), e.key);
  }

  /** The path of a leaf explodes to the base segments followed by its key. */
  lemma KeyOfLeaf(base: string, k: string, key: string)
    requires Divider !in k && key == PathOf(base, k)
    ensures var xs := Explode(key, Divider); var p := BaseSegments(base);
      |xs| > |p| && xs[..|p|] == p && xs[|p|] == k
  {
    ExplodePath(base, k);
    ChildSegments(Explode(key, Divider), BaseSegments(base), k);
  }

  /** Segments that start with `p + [k]` start with `p`, followed by `k`. */
  lemma ChildSegments(xs: seq<string>, p: seq<string>, k: string)
    requires |xs| >= |p| + 1 && xs[..|p| + 1] == p + [k]
    ensures |xs| > |p| && xs[..|p|] == p && xs[|p|] == k
  {
    assert xs[..|p|] == xs[..|p| + 1][..|p|];
  }

  /** Keys of a concatenation are unique when each side's are and no key is shared. */
  lemma {:induction false} UniqueConcat<V>(a: seq<Pair<V>>, b: seq<Pair<V>>)
    requires UniqueKeys(a) && UniqueKeys(b)
    requires forall k :: k in Keys(a) ==> k !in Keys(b)
    ensures UniqueKeys(a + b)
  {
    KeysOfConcat(a, b);
    var ka, kb := Keys(a), Keys(b);
    forall i, j | 0 <= i < j < |ka + kb| ensures (ka + kb)[i] != (ka + kb)[j] {
      if j < |ka| {
      } else if i >= |ka| {
        assert (ka + kb)[i] == kb[i - |ka|] && (ka + kb)[j] == kb[j - |ka|];
      } else {
        assert (ka + kb)[i] in ka && (ka + kb)[j] == kb[j - |ka|];
      }
    }
  }

  /** Both halves of a concatenation with unique keys have unique keys, and share none. */
  lemma {:induction false} UniqueSplit<V>(a: seq<Pair<V>>, b: seq<Pair<V>>)
    requires UniqueKeys(a + b)
    ensures UniqueKeys(a) && UniqueKeys(b)
    ensures forall k :: k in Keys(a) ==> k !in Keys(b)
  {
    KeysOfConcat(a, b);
    var ka, kb := Keys(a), Keys(b);
    forall i, j | 0 <= i < j < |ka| ensures ka[i] != ka[j] {
      assert ka[i] == (ka + kb)[i] && ka[j] == (ka + kb)[j];
    }
    forall i, j | 0 <= i < j < |kb| ensures kb[i] != kb[j] {
      assert kb[i] == (ka + kb)[i + |ka|] && kb[j] == (ka + kb)[j + |ka|];
    }
    forall i, j | 0 <= i < |ka| && 0 <= j < |kb| ensures ka[i] != kb[j] {
      assert ka[i] == (ka + kb)[i] && kb[j] == (ka + kb)[j + |ka|];
    }
  }

  /** The reference flattening of a well-formed array has unique paths. */
  lemma {:induction false} FlatUnique(es: seq<Pair<Tree>>, base: string)
    requires WellFormedEntries(es) && NestsBelow(es, base)
    ensures UniqueKeys(FlatConcat(es, base))
    decreases es
  {
    if es != [] {
      var e := es[0];
      WellFormedHead(es, base);
      WellFormedTail(es, base);
      FlatConcatCons(es, base);
      FlatConcatSingle(e, base);
      var head := FlatConcat([e], base);
      var tail := FlatConcat(es[1..], base);
      FlatUnique(es[1..], base);
      if e.val.Map? {
        FlatUnique(e.val.entries, PathOf(base, e.key));
      }
      forall k | k in Keys(head) ensures k !in Keys(tail) {
        FlatKeyShape([e], base, k);
        if k in Keys(tail) {
          FlatKeyShape(es[1..], base, k);
        }
      }
      UniqueConcat(head, tail);
    }
  }

  /** Merging pairs whose keys are all new appends them. */
  lemma {:induction false} AssignAllFresh<V>(out: seq<Pair<V>>, b: seq<Pair<V>>)
    requires UniqueKeys(out + b)
    ensures AssignAll(out, b) == out + b
    decreases |b|
  {
    if b != [] {
      FreshHead(out, b);
      assert Assign(out, b[0].key, b[0].val) == out + [b[0]];
      AssignAllFresh(out + [b[0]], b[1..]);
    }
  }

  /** The first key of `b` is new to `out` when `out + b` has unique keys. */
  lemma FreshHead<V>(out: seq<Pair<V>>, b: seq<Pair<V>>)
    requires b != [] && UniqueKeys(out + b)
    ensures !HasKey(out, b[0].key)
    ensures (out + [b[0]]) + b[1..] == out + b
  {
    UniqueSplit(out, b);
    assert Keys(b)[0] == b[0].key;
    HasKeyIsKeysMember(out, b[0].key);
    assert b == [b[0]] + b[1..];
  }

  /** When no path repeats, `flatternArray` is the pre-order listing of the leaves. */
  lemma {:induction false} FlattenFromIsConcat(out: seq<Pair<string>>, es: seq<Pair<Tree>>, base: string)
    requires UniqueKeys(out + FlatConcat(es, base))
    ensures FlattenFrom(out, es, base) == out + FlatConcat(es, base)
    decreases es
  {
    if es != [] {
      var e := es[0];
      var path := PathOf(base, e.key);
      FlatConcatCons(es, base);
      FlatConcatSingle(e, base);
      var head := FlatConcat([e], base);
      var tail := FlatConcat(es[1..], base);
      assert out + FlatConcat(es, base) == (out + head) + tail;
      UniqueSplit(out + head, tail);
      UniqueSplit(out, head);
      if e.val.Leaf? {
        assert Keys(head)[0] == path;
        HasKeyIsKeysMember(out, path);
        assert Assign(out, path, Cast(e.val.v)) == out + head;
      } else {
        assert [] + head == head;
        FlattenFromIsConcat([], e.val.entries, path);
        AssignAllFresh(out, head);
        assert AssignAll(out, FlattenFrom([], e.val.entries, path)) == out + head;
      }
      FlattenFromIsConcat(out + head, es[1..], base);
    }
  }

  /** A well-formed array flattens to the pre-order listing of its leaves. */
  lemma {:induction false} FlattenIsPreOrder(es: seq<Pair<Tree>>, base: string)
    requires WellFormedEntries(es) && NestsBelow(es, base)
    ensures Flatten(es, base) == FlatConcat(es, base)
  {
    FlatUnique(es, base);
    assert [] + FlatConcat(es, base) == FlatConcat(es, base);
    FlattenFromIsConcat([], es, base);
  }

  // ----- structurizeArray -----

  /**
   * One step of `structurizeArray`: walk `path`, creating a container for
   * every missing (or non-array) segment, and assign `v` at its end.
   */
  function SetPath(a: seq<Pair<Tree>>, path: seq<string>, v: Scalar): (r: seq<Pair<Tree>>)
    requires |path| >= 1
    ensures HasKey(r, path[0])
    decreases |path|
  {
    if |path| == 1 then Assign(a, path[0], Leaf(v))
    else
      Assign(a, path[0], Map(SetPath(ChildArray(a, path[0]), path[1..], v)))
  }

  /** The `foreach` of `structurizeArray`, continuing from the partial output `a`. */
  function StructurizeInto(a: seq<Pair<Tree>>, flat: seq<Pair<Scalar>>): seq<Pair<Tree>>
    decreases |flat|
  {
    if flat == [] then a
    else StructurizeInto(SetPath(a, Explode(flat[0].key, Divider), flat[0].val), flat[1..])
  }

  /** `$a[$k]` when it is an array. */
  predicate IsArrayAt(a: seq<Pair<Tree>>, k: string) {
    Lookup(a, k).Some? && Lookup(a, k).value.Map?
  }

  /** `$a[$k]` when it is an array (`isset` keeps it), else a fresh empty array. */
  function ChildArray(a: seq<Pair<Tree>>, k: string): (c: seq<Pair<Tree>>)
    ensures IsArrayAt(a, k) ==> Lookup(a, k) == Some(Map(c))
    ensures !IsArrayAt(a, k) ==> c == []
  {
    if IsArrayAt(a, k) then Lookup(a, k).value.entries else []
  }

  /** `structurizeArray($flatArray)`. */
  function Structurize(flat: seq<Pair<Scalar>>): seq<Pair<Tree>> {
    StructurizeInto([], flat)
  }

  /** A flat map of strings as a flat map of PHP string values. */
  function Lift(m: seq<Pair<string>>): (r: seq<Pair<Scalar>>)
    ensures |r| == |m|
    ensures forall i :: 0 <= i < |m| ==> r[i] == Pair(m[i].key, Str(m[i].val))
  {
    seq(|m|, i requires 0 <= i < |m| => Pair(m[i].key, Str(m[i].val)))
  }

  /** The value reached by following `path`, if every segment but the last is an array. */
  function ValueAt(a: seq<Pair<Tree>>, path: seq<string>): Option<Tree>
    requires |path| >= 1
    decreases |path|
  {
    if |path| == 1 then Lookup(a, path[0])
    else if IsArrayAt(a, path[0]) then ValueAt(ChildArray(a, path[0]), path[1..])
    else None
  }

  lemma {:induction false} SetPathValue(a: seq<Pair<Tree>>, path: seq<string>, v: Scalar)
    requires |path| >= 1
    ensures ValueAt(SetPath(a, path, v), path) == Some(Leaf(v))
    decreases |path|
  {
    if |path| > 1 {
      SetPathValue(ChildArray(a, path[0]), path[1..], v);
    }
  }

  lemma {:induction false} StructurizeSnoc(a: seq<Pair<Tree>>, flat: seq<Pair<Scalar>>, x: Pair<Scalar>)
    ensures StructurizeInto(a, flat + [x]) == SetPath(StructurizeInto(a, flat), Explode(x.key, Divider), x.val)
    decreases |flat|
  {
    if flat != [] {
      assert (flat + [x])[1..] == flat[1..] + [x];
      StructurizeSnoc(SetPath(a, Explode(flat[0].key, Divider), flat[0].val), flat[1..], x);
    }
  }

  lemma {:induction false} StructurizeAppend(a: seq<Pair<Tree>>, x: seq<Pair<Scalar>>, y: seq<Pair<Scalar>>)
    ensures StructurizeInto(a, x + y) == StructurizeInto(StructurizeInto(a, x), y)
    decreases |x|
  {
    if x != [] {
      assert (x + y)[1..] == x[1..] + y;
      StructurizeAppend(SetPath(a, Explode(x[0].key, Divider), x[0].val), x[1..], y);
    } else {
      assert x + y == y;
    }
  }

  /**
   * Containers are created on demand and a later entry for a path
   * overwrites an earlier one: the last entry's value is found at its path.
   */
  lemma {:induction false} LastWriteWins(flat: seq<Pair<Scalar>>, key: string, v: Scalar)
    ensures ValueAt(Structurize(flat + [Pair(key, v)]), Explode(key, Divider)) == Some(Leaf(v))
  {
    StructurizeSnoc([], flat, Pair(key, v));
    SetPathValue(Structurize(flat), Explode(key, Divider), v);
  }

  /** Neither path leads through the other: they end in different places of the tree. */
  predicate Apart(p: seq<string>, q: seq<string>) {
    !(p <= q) && !(q <= p)
  }

  /** Nothing is reached in an empty array. */
  lemma {:induction false} ValueAtEmpty(p: seq<string>)
    requires |p| >= 1
    ensures ValueAt([], p) == None
  {
  }

  /** Setting a value at one path leaves the value at a path apart from it as it was. */
  lemma {:induction false} SetPathElsewhere(a: seq<Pair<Tree>>, q: seq<string>, w: Scalar, p: seq<string>)
    requires |p| >= 1 && |q| >= 1 && Apart(p, q)
    ensures ValueAt(SetPath(a, q, w), p) == ValueAt(a, p)
    decreases |p|
  {
    var r := SetPath(a, q, w);
    if p[0] != q[0] {
      var top := if |q| == 1 then Leaf(w) else Map(SetPath(ChildArray(a, q[0]), q[1..], w));
      assert r == Assign(a, q[0], top);
      AssignOther(a, q[0], top, p[0]);
    } else {
      assert q[..1] <= p && p[..1] <= q;
      assert |q| >= 2 && |p| >= 2;
      var c := ChildArray(a, q[0]);
      assert Lookup(r, p[0]) == Some(Map(SetPath(c, q[1..], w)));
      assert p == [p[0]] + p[1..] && q == [q[0]] + q[1..];
      SetPathElsewhere(c, q[1..], w, p[1..]);
      if !IsArrayAt(a, p[0]) {
        ValueAtEmpty(p[1..]);
      }
    }
  }

  /** Structurizing entries whose paths are all apart from `p` leaves the value at `p` as it was. */
  lemma {:induction false} StructurizeElsewhere(a: seq<Pair<Tree>>, flat: seq<Pair<Scalar>>, p: seq<string>)
    requires |p| >= 1
    requires forall i :: 0 <= i < |flat| ==> Apart(p, Explode(flat[i].key, Divider))
    ensures ValueAt(StructurizeInto(a, flat), p) == ValueAt(a, p)
    decreases |flat|
  {
    if flat != [] {
      SetPathElsewhere(a, Explode(flat[0].key, Divider), flat[0].val, p);
      assert forall i :: 0 <= i < |flat[1..]| ==> flat[1..][i] == flat[i + 1];
      StructurizeElsewhere(SetPath(a, Explode(flat[0].key, Divider), flat[0].val), flat[1..], p);
    }
  }

  /** The path of `k` is apart from the paths of all other keys of `m`. */
  predicate PathApart(m: seq<Pair<string>>, k: string) {
    forall i :: 0 <= i < |m| && m[i].key != k ==> Apart(Explode(k, Divider), Explode(m[i].key, Divider))
  }

  /**
   * In the structurized form of a flat map, the value of a key whose path no
   * other key leads through, or extends, is found at that path.
   */
  lemma {:induction false} StructurizeLookup(m: seq<Pair<string>>, k: string, v: string)
    requires UniqueKeys(m) && Pair(k, v) in m && PathApart(m, k)
    ensures ValueAt(Structurize(Lift(m)), Explode(k, Divider)) == Some(Leaf(Str(v)))
  {
    var j :| 0 <= j < |m| && m[j] == Pair(k, v);
    var before, after := m[..j], m[j + 1..];
    assert m == before + [m[j]] + after;
    LiftConcat(before + [m[j]], after);
    LiftConcat(before, [m[j]]);
    var x := Pair(k, Str(v));
    assert Lift([m[j]]) == [x];
    StructurizeAppend([], Lift(before) + [x], Lift(after));
    StructurizeSnoc([], Lift(before), x);
    SetPathValue(Structurize(Lift(before)), Explode(k, Divider), Str(v));
    forall i | 0 <= i < |Lift(after)| ensures Apart(Explode(k, Divider), Explode(Lift(after)[i].key, Divider)) {
      assert Keys(m)[j] == k && Keys(m)[j + 1 + i] == after[i].key;
      assert m[j + 1 + i] == after[i];
    }
    StructurizeElsewhere(StructurizeInto([], Lift(before) + [x]), Lift(after), Explode(k, Divider));
  }

  // ----- containers addressed by a path of segments -----

  /** Every segment of `p` names a nested array. */
  predicate PathExists(a: seq<Pair<Tree>>, p: seq<string>)
    decreases |p|
  {
    p == [] || (IsArrayAt(a, p[0]) && PathExists(ChildArray(a, p[0]), p[1..]))
  }

  /** The nested array at `p`. */
  function ContainerAt(a: seq<Pair<Tree>>, p: seq<string>): seq<Pair<Tree>>
    requires PathExists(a, p)
    decreases |p|
  {
    if p == [] then a else ContainerAt(ChildArray(a, p[0]), p[1..])
  }

  /** `a` with the nested array at `p` replaced by `c`. */
  function WithContainer(a: seq<Pair<Tree>>, p: seq<string>, c: seq<Pair<Tree>>): seq<Pair<Tree>>
    requires PathExists(a, p)
    decreases |p|
  {
    if p == [] then c
    else Assign(a, p[0], Map(WithContainer(ChildArray(a, p[0]), p[1..], c)))
  }

  lemma {:induction false} AssignTwice<V>(a: seq<Pair<V>>, k: string, v1: V, v2: V)
    ensures Assign(Assign(a, k, v1), k, v2) == Assign(a, k, v2)
  {
    if a != [] && a[0].key != k {
      AssignTwice(a[1..], k, v1, v2);
      assert Assign(a, k, v1)[1..] == Assign(a[1..], k, v1);
    }
  }

  lemma {:induction false} AssignSame<V>(a: seq<Pair<V>>, k: string)
    requires HasKey(a, k)
    ensures Assign(a, k, Lookup(a, k).value) == a
  {
    if a[0].key != k {
      AssignSame(a[1..], k);
    }
  }

  lemma {:induction false} ContainerOfWith(a: seq<Pair<Tree>>, p: seq<string>, c: seq<Pair<Tree>>)
    requires PathExists(a, p)
    ensures PathExists(WithContainer(a, p, c), p)
    ensures ContainerAt(WithContainer(a, p, c), p) == c
    decreases |p|
  {
    if p != [] {
      ContainerOfWith(ChildArray(a, p[0]), p[1..], c);
    }
  }

  lemma {:induction false} WithWith(a: seq<Pair<Tree>>, p: seq<string>, c1: seq<Pair<Tree>>, c2: seq<Pair<Tree>>)
    requires PathExists(a, p)
    ensures PathExists(WithContainer(a, p, c1), p)
    ensures WithContainer(WithContainer(a, p, c1), p, c2) == WithContainer(a, p, c2)
    decreases |p|
  {
    ContainerOfWith(a, p, c1);
    if p != [] {
      var inner := ChildArray(a, p[0]);
      WithWith(inner, p[1..], c1, c2);
      AssignTwice(a, p[0], Map(WithContainer(inner, p[1..], c1)), Map(WithContainer(inner, p[1..], c2)));
    }
  }

  lemma {:induction false} WithOwnContainer(a: seq<Pair<Tree>>, p: seq<string>)
    requires PathExists(a, p)
    ensures WithContainer(a, p, ContainerAt(a, p)) == a
    decreases |p|
  {
    if p != [] {
      WithOwnContainer(ChildArray(a, p[0]), p[1..]);
      AssignSame(a, p[0]);
    }
  }

  /** Writing a new key below an existing path appends it to that container. */
  lemma {:induction false} SetPathAppends(a: seq<Pair<Tree>>, p: seq<string>, k: string, v: Scalar)
    requires PathExists(a, p)
    requires !HasKey(ContainerAt(a, p), k)
    ensures SetPath(a, p + [k], v) == WithContainer(a, p, ContainerAt(a, p) + [Pair(k, Leaf(v))])
    decreases |p|
  {
    if p != [] {
      assert (p + [k])[0] == p[0] && (p + [k])[1..] == p[1..] + [k];
      SetPathAppends(ChildArray(a, p[0]), p[1..], k, v);
    }
  }

  /** Creating the container of a new key on demand is the same as creating it first. */
  lemma {:induction false} SetPathCreates(a: seq<Pair<Tree>>, p: seq<string>, k: string, q: seq<string>, v: Scalar)
    requires PathExists(a, p)
    requires !HasKey(ContainerAt(a, p), k)
    requires |q| >= 1
    ensures SetPath(a, p + [k] + q, v)
         == SetPath(WithContainer(a, p, ContainerAt(a, p) + [Pair(k, Map([]))]), p + [k] + q, v)
    decreases |p|
  {
    var full := p + [k] + q;
    if p == [] {
      SetPathCreatesHere(a, k, q, v);
    } else {
      var inner := ChildArray(a, p[0]);
      assert full[0] == p[0] && full[1..] == p[1..] + [k] + q;
      SetPathCreates(inner, p[1..], k, q, v);
      var c1 := WithContainer(inner, p[1..], ContainerAt(inner, p[1..]) + [Pair(k, Map([]))]);
      var a1 := Assign(a, p[0], Map(c1));
      assert WithContainer(a, p, ContainerAt(a, p) + [Pair(k, Map([]))]) == a1;
      assert ChildArray(a1, p[0]) == c1;
      assert SetPath(a1, full, v) == Assign(a1, p[0], Map(SetPath(c1, full[1..], v)));
      AssignTwice(a, p[0], Map(c1), Map(SetPath(c1, p[1..] + [k] + q, v)));
    }
  }

  /** `SetPathCreates` at the top level: the new key goes directly into `a`. */
  lemma SetPathCreatesHere(a: seq<Pair<Tree>>, k: string, q: seq<string>, v: Scalar)
    requires !HasKey(a, k) && |q| >= 1
    ensures SetPath(a, [k] + q, v) == SetPath(a + [Pair(k, Map([]))], [k] + q, v)
  {
    var full := [k] + q;
    assert full[0] == k && full[1..] == q;
    var a1 := a + [Pair(k, Map([]))];
    assert a1 == Assign(a, k, Map([]));
    assert ChildArray(a1, k) == [];
    AssignTwice(a, k, Map([]), Map(SetPath([], q, v)));
  }

  lemma {:induction false} PathConcat(a: seq<Pair<Tree>>, p: seq<string>, k: string, d: seq<Pair<Tree>>)
    requires PathExists(a, p)
    requires IsArrayAt(ContainerAt(a, p), k)
    ensures PathExists(a, p + [k])
    ensures ContainerAt(a, p + [k]) == ChildArray(ContainerAt(a, p), k)
    ensures WithContainer(a, p + [k], d) == WithContainer(a, p, Assign(ContainerAt(a, p), k, Map(d)))
    decreases |p|
  {
    if p != [] {
      assert (p + [k])[0] == p[0] && (p + [k])[1..] == p[1..] + [k];
      PathConcat(ChildArray(a, p[0]), p[1..], k, d);
    }
  }

  /** Filling the container of a key just added below `p`. */
  lemma {:induction false} WithNested(a: seq<Pair<Tree>>, p: seq<string>, c: seq<Pair<Tree>>, k: string, e: seq<Pair<Tree>>, d: seq<Pair<Tree>>)
    requires PathExists(a, p)
    requires !HasKey(c, k)
    ensures var a1 := WithContainer(a, p, c + [Pair(k, Map(e))]);
      PathExists(a1, p + [k]) && ContainerAt(a1, p + [k]) == e &&
      WithContainer(a1, p + [k], d) == WithContainer(a, p, c + [Pair(k, Map(d))])
  {
    var a1 := WithContainer(a, p, c + [Pair(k, Map(e))]);
    ContainerOfWith(a, p, c + [Pair(k, Map(e))]);
    assert Assign(c, k, Map(e)) == c + [Pair(k, Map(e))];
    PathConcat(a1, p, k, d);
    AssignTwice(c, k, Map(e), Map(d));
    WithWith(a, p, c + [Pair(k, Map(e))], c + [Pair(k, Map(d))]);
  }

  // ----- the round trip -----

  /** A non-empty well-formed array has at least one leaf. */
  lemma {:induction false} FlatNonEmpty(es: seq<Pair<Tree>>, base: string)
    requires es != [] && WellFormedEntries(es) && NestsBelow(es, base)
    ensures FlatConcat(es, base) != []
    decreases es
  {
    WellFormedHead(es, base);
    FlatConcatCons(es, base);
    FlatConcatSingle(es[0], base);
    if es[0].val.Map? {
      FlatNonEmpty(es[0].val.entries, PathOf(base, es[0].key));
    }
  }

  lemma {:induction false} LiftConcat(x: seq<Pair<string>>, y: seq<Pair<string>>)
    ensures Lift(x + y) == Lift(x) + Lift(y)
  {
  }

  /**
   * Structurizing the leaves of a nested array `ch` under key `k` first
   * creates the container of `k`.
   */
  lemma {:induction false} StructurizeCreates(a: seq<Pair<Tree>>, base: string, k: string, ch: seq<Pair<Tree>>)
    requires Divider !in k && (base != "" || k != "")
    requires ch != [] && WellFormedEntries(ch)
    requires PathExists(a, BaseSegments(base))
    requires !HasKey(ContainerAt(a, BaseSegments(base)), k)
    ensures var p := BaseSegments(base);
      StructurizeInto(a, Lift(FlatConcat(ch, PathOf(base, k))))
      == StructurizeInto(WithContainer(a, p, ContainerAt(a, p) + [Pair(k, Map([]))]), Lift(FlatConcat(ch, PathOf(base, k))))
  {
    var p := BaseSegments(base);
    var path := PathOf(base, k);
    BaseSegmentsOfPath(base, k);
    FlatNonEmpty(ch, path);
    var flat := Lift(FlatConcat(ch, path));
    var k0 := FlatConcat(ch, path)[0].key;
    assert k0 == Keys(FlatConcat(ch, path))[0];
    FlatKeyShape(ch, path, k0);
    var xs := Explode(k0, Divider);
    var q := xs[|p| + 1..];
    assert xs == p + [k] + q;
    SetPathCreates(a, p, k, q, flat[0].val);
    assert flat[0].key == k0;
    StructurizeSameStart(a, WithContainer(a, p, ContainerAt(a, p) + [Pair(k, Map([]))]), flat);
  }

  /** Two arrays that the first write of `flat` makes equal stay equal. */
  lemma StructurizeSameStart(a: seq<Pair<Tree>>, b: seq<Pair<Tree>>, flat: seq<Pair<Scalar>>)
    requires flat != []
    requires SetPath(a, Explode(flat[0].key, Divider), flat[0].val) == SetPath(b, Explode(flat[0].key, Divider), flat[0].val)
    ensures StructurizeInto(a, flat) == StructurizeInto(b, flat)
  { }

  /** The nested-array case of `StructurizeConcat`, for the first entry of `es`. */
  lemma {:induction false} StructurizeNested(a: seq<Pair<Tree>>, es: seq<Pair<Tree>>, base: string)
    requires es != [] && es[0].val.Map?
    requires WellFormedEntries(es) && NestsBelow(es, base)
    requires PathExists(a, BaseSegments(base))
    requires !HasKey(ContainerAt(a, BaseSegments(base)), es[0].key)
    ensures var p := BaseSegments(base);
      StructurizeInto(a, Lift(FlatConcat([es[0]], base)))
      == WithContainer(a, p, ContainerAt(a, p) + [Stringify(es)[0]])
    decreases es, 0
  {
    var p := BaseSegments(base);
    var c := ContainerAt(a, p);
    var e := es[0];
    var path := PathOf(base, e.key);
    var ch := e.val.entries;
    WellFormedHead(es, base);
    FlatConcatSingle(e, base);
    var a1 := WithContainer(a, p, c + [Pair(e.key, Map([]))]);
    var flat := Lift(FlatConcat(ch, path));
    StructurizeCreates(a, base, e.key, ch);
    assert StructurizeInto(a, flat) == StructurizeInto(a1, flat);
    WithNested(a, p, c, e.key, [], Stringify(ch));
    StructurizeIntoEmpty(a1, ch, path);
    assert StructurizeInto(a1, flat) == WithContainer(a1, p + [e.key], Stringify(ch));
    assert Stringify(es)[0] == Pair(e.key, Map(Stringify(ch)));
  }

  /** Structurizing nested entries into an empty container at their base path. */
  lemma {:induction false} StructurizeIntoEmpty(a: seq<Pair<Tree>>, es: seq<Pair<Tree>>, base: string)
    requires WellFormedEntries(es) && NestsBelow(es, base)
    requires PathExists(a, BaseSegments(base)) && ContainerAt(a, BaseSegments(base)) == []
    ensures StructurizeInto(a, Lift(FlatConcat(es, base))) == WithContainer(a, BaseSegments(base), Stringify(es))
    decreases es, 3
  {
    StructurizeConcat(a, es, base);
    assert [] + Stringify(es) == Stringify(es);
  }

  /** The first entry of `es` is appended to the container at `base`. */
  lemma {:induction false} StructurizeHead(a: seq<Pair<Tree>>, es: seq<Pair<Tree>>, base: string)
    requires es != []
    requires WellFormedEntries(es) && NestsBelow(es, base)
    requires PathExists(a, BaseSegments(base))
    requires !HasKey(ContainerAt(a, BaseSegments(base)), es[0].key)
    ensures var p := BaseSegments(base);
      StructurizeInto(a, Lift(FlatConcat([es[0]], base)))
      == WithContainer(a, p, ContainerAt(a, p) + [Stringify(es)[0]])
    decreases es, 1
  {
    var e := es[0];
    if e.val.Leaf? {
      var p := BaseSegments(base);
      var path := PathOf(base, e.key);
      WellFormedHead(es, base);
      FlatConcatSingle(e, base);
      assert Lift(FlatConcat([e], base)) == [Pair(path, Str(Cast(e.val.v)))];
      ExplodePath(base, e.key);
      SetPathAppends(a, p, e.key, Str(Cast(e.val.v)));
    } else {
      StructurizeNested(a, es, base);
    }
  }

  lemma {:induction false} StructurizeCons(a: seq<Pair<Tree>>, es: seq<Pair<Tree>>, base: string)
    requires es != []
    ensures StructurizeInto(a, Lift(FlatConcat(es, base)))
         == StructurizeInto(StructurizeInto(a, Lift(FlatConcat([es[0]], base))), Lift(FlatConcat(es[1..], base)))
  {
    FlatConcatCons(es, base);
    LiftConcat(FlatConcat([es[0]], base), FlatConcat(es[1..], base));
    StructurizeAppend(a, Lift(FlatConcat([es[0]], base)), Lift(FlatConcat(es[1..], base)));
  }

  lemma SeqAssoc<T>(a: seq<T>, b: seq<T>, c: seq<T>)
    ensures (a + b) + c == a + (b + c)
  {
  }

  lemma {:induction false} StringifyCons(es: seq<Pair<Tree>>)
    requires es != []
    ensures Stringify(es) == [Stringify(es)[0]] + Stringify(es[1..])
    ensures Stringify(es)[0].key == es[0].key
  {
  }

  lemma {:induction false} FreshAfterHead(c: seq<Pair<Tree>>, es: seq<Pair<Tree>>, x: Pair<Tree>)
    requires es != [] && x.key == es[0].key && UniqueKeys(es)
    requires forall i :: 0 <= i < |es| ==> !HasKey(c, es[i].key)
    ensures forall i :: 0 <= i < |es[1..]| ==> !HasKey(c + [x], es[1..][i].key)
  {
    UniqueTail(es);
    forall i | 0 <= i < |es[1..]| ensures !HasKey(c + [x], es[1..][i].key) {
      assert es[1..][i] == es[i + 1];
      assert Keys(es[1..])[i] == es[1..][i].key;
      LookupAppend(c, x, es[1..][i].key);
    }
  }

  /**
   * Structurizing the flattened leaves of `es` below `base` appends the
   * (string-cast) entries of `es` to the container at `base`.
   */
  lemma {:induction false} StructurizeConcat(a: seq<Pair<Tree>>, es: seq<Pair<Tree>>, base: string)
    requires WellFormedEntries(es) && NestsBelow(es, base)
    requires PathExists(a, BaseSegments(base))
    requires forall i :: 0 <= i < |es| ==> !HasKey(ContainerAt(a, BaseSegments(base)), es[i].key)
    ensures StructurizeInto(a, Lift(FlatConcat(es, base)))
         == WithContainer(a, BaseSegments(base), ContainerAt(a, BaseSegments(base)) + Stringify(es))
    decreases es, 2
  {
    var p := BaseSegments(base);
    var c := ContainerAt(a, p);
    if es == [] {
      WithOwnContainer(a, p);
      assert c + [] == c;
    } else {
      var x := Stringify(es)[0];
      var a2 := WithContainer(a, p, c + [x]);
      StringifyCons(es);
      StructurizeCons(a, es, base);
      StructurizeHead(a, es, base);
      ContainerOfWith(a, p, c + [x]);
      FreshAfterHead(c, es, x);
      WellFormedTail(es, base);
      StructurizeConcat(a2, es[1..], base);
      var rest := Stringify(es[1..]);
      WithWith(a, p, c + [x], (c + [x]) + rest);
      SeqAssoc(c, [x], rest);
      calc {
        StructurizeInto(a, Lift(FlatConcat(es, base)));
        StructurizeInto(StructurizeInto(a, Lift(FlatConcat([es[0]], base))), Lift(FlatConcat(es[1..], base)));
        StructurizeInto(a2, Lift(FlatConcat(es[1..], base)));
        WithContainer(a2, p, (c + [x]) + rest);
        WithContainer(a, p, (c + [x]) + rest);
        WithContainer(a, p, c + Stringify(es));
      }
    }
  }

  /**
   * `structurizeArray(flatternArray($t)) == $t` up to the string cast of the
   * leaves, for every well-formed array.
   */
  lemma {:induction false} RoundTrip(es: seq<Pair<Tree>>)
    requires WellFormed(es)
    ensures Structurize(Lift(Flatten(es, ""))) == Stringify(es)
  {
    FlattenIsPreOrder(es, "");
    StructurizeConcat([], es, "");
    assert [] + Stringify(es) == Stringify(es);
  }

  /** For an array whose leaves are strings the round trip is exact. */
  lemma {:induction false} RoundTripStrings(es: seq<Pair<Tree>>)
    requires WellFormed(es) && StringLeaves(es)
    ensures Structurize(Lift(Flatten(es, ""))) == es
  {
    RoundTrip(es);
    StringifyOfStrings(es);
  }
}
