/**
 * PHP values as the codec sees them: scalars, and nested ordered arrays
 * whose leaves are scalars.
 */
module PhpValue {
  import opened OrderedMap
  import PhpString

  /** A PHP scalar (floats are not modelled). */
  datatype Scalar = Str(s: string) | Int(i: int) | Bool(b: bool) | Null

  /** A PHP value: a scalar, or an ordered array of named values. */
  datatype Tree = Leaf(v: Scalar) | Map(entries: seq<Pair<Tree>>)

  /** `(string) $v`: integers in decimal, `true` as "1", `false` and `null` as "". */
  function Cast(v: Scalar): (s: string)
    ensures v.Str? ==> s == v.s
    ensures v.Int? ==> PhpString.IsIntString(s) && PhpString.ParseInt(s) == v.i
    ensures v.Bool? ==> (s == "1" <==> v.b) && (s == "" <==> !v.b)
    ensures v.Null? ==> s == ""
  {
    match v
    case Str(s) => s
    case Int(i) => PhpString.IntStringRoundTrip(i); PhpString.IntToString(i)
    case Bool(b) => if b then "1" else ""
    case Null => ""
  }

  /** PHP's `empty()` on a string: the empty string and "0". */
  predicate IsEmptyString(s: string) {
    s == "" || s == "0"
  }

  /** Every leaf of the array replaced by its string cast. */
  function Stringify(es: seq<Pair<Tree>>): (r: seq<Pair<Tree>>)
    ensures Keys(r) == Keys(es)
    ensures forall i :: 0 <= i < |es| ==> (r[i].val.Leaf? <==> es[i].val.Leaf?)
    decreases es
  {
    if es == [] then []
    else
      var v := match es[0].val
        case Leaf(s) => Leaf(Str(Cast(s)))
        case Map(c) => Map(Stringify(c));
      var rest := Stringify(es[1..]);
      var r := [Pair(es[0].key, v)] + rest;
      assert Keys(r) == [es[0].key] + Keys(rest);
      assert Keys(es) == [es[0].key] + Keys(es[1..]);
      r
  }

  /** Every leaf, at any depth, is a string. */
  predicate StringLeaves(es: seq<Pair<Tree>>)
    decreases es
  {
    forall i :: 0 <= i < |es| ==>
      match es[i].val
      case Leaf(s) => s.Str?
      case Map(c) => StringLeaves(c)
  }

  /** An array whose leaves are all strings is its own string cast. */
  lemma {:induction false} StringifyOfStrings(es: seq<Pair<Tree>>)
    requires StringLeaves(es)
    ensures Stringify(es) == es
    decreases es
  {
    if es != [] {
      assert StringLeaves(es[1..]) by {
        forall i | 0 <= i < |es[1..]| ensures es[1..][i] == es[i + 1] { }
      }
      StringifyOfStrings(es[1..]);
      match es[0].val
      case Leaf(_) =>
      case Map(c) => StringifyOfStrings(c);
    }
  }
}
