/**
 * The PHP string functions the plugin relies on, over `string` = `seq<char>`:
 * `explode`/`implode` on a one-character divider, `strpos(...) !== false`,
 * `str_split`, integer-to-string conversion and integer parsing.
 */
module PhpString {
  import opened Wrappers

  /** Index of the last occurrence of `c` in `s`. */
  function LastIndex(s: string, c: char): (r: Option<nat>)
    ensures r.Some? ==> r.value < |s| && s[r.value] == c
    ensures r.Some? ==> forall j :: r.value < j < |s| ==> s[j] != c
    ensures r.None? <==> c !in s
  {
    if s == [] then None
    else if s[|s| - 1] == c then Some(|s| - 1)
    else
      var r := LastIndex(s[..|s| - 1], c);
      assert s == s[..|s| - 1] + [s[|s| - 1]];
      r
  }

  /** `explode($d, $s)` for a one-character divider: the pieces between the dividers. */
  function Explode(s: string, d: char): (parts: seq<string>)
    ensures |parts| >= 1
    ensures forall i :: 0 <= i < |parts| ==> d !in parts[i]
    decreases |s|
  {
    match LastIndex(s, d)
    case None => [s]
    case Some(i) => Explode(s[..i], d) + [s[i + 1..]]
  }

  /** `implode($d, $parts)`: the pieces joined by the divider. */
  function Implode(parts: seq<string>, d: string): (s: string)
    decreases |parts|
  {
    if parts == [] then ""
    else if |parts| == 1 then parts[0]
    else Implode(parts[..|parts| - 1], d) + d + parts[|parts| - 1]
  }

  /** Joining the pieces of an explode gives back the string. */
  lemma {:induction false} ImplodeExplode(s: string, d: char)
    ensures Implode(Explode(s, d), [d]) == s
    decreases |s|
  {
    match LastIndex(s, d)
    case None =>
    case Some(i) =>
      var parts := Explode(s, d);
      ImplodeExplode(s[..i], d);
      assert parts[..|parts| - 1] == Explode(s[..i], d);
      assert s == s[..i] + [d] + s[i + 1..];
  }

  lemma LastIndexOfJoin(b: string, d: char, k: string)
    requires d !in k
    ensures LastIndex(b + [d] + k, d) == Some(|b|)
  {
    var s := b + [d] + k;
    var r := LastIndex(s, d);
    assert s[|b|] == d;
    forall j | |b| < j < |s| ensures s[j] != d {
      assert s[j] == k[j - |b| - 1];
    }
  }

  /** Appending a divider and a divider-free piece appends exactly that piece. */
  lemma ExplodeJoin(b: string, d: char, k: string)
    requires d !in k
    ensures Explode(b + [d] + k, d) == Explode(b, d) + [k]
  {
    var s := b + [d] + k;
    LastIndexOfJoin(b, d, k);
    assert s[..|b|] == b && s[|b| + 1..] == k;
  }

  /** Exploding an implode of divider-free pieces gives back the pieces. */
  lemma {:induction false} ExplodeImplode(parts: seq<string>, d: char)
    requires |parts| >= 1
    requires forall i :: 0 <= i < |parts| ==> d !in parts[i]
    ensures Explode(Implode(parts, [d]), d) == parts
    decreases |parts|
  {
    if |parts| > 1 {
      var init := parts[..|parts| - 1];
      var last := parts[|parts| - 1];
      assert forall i :: 0 <= i < |init| ==> init[i] == parts[i];
      ExplodeImplode(init, d);
      assert init + [last] == parts;
      ExplodeImplodeSnoc(init, last, d);
    }
  }

  /** One more part, without the divider, is one more piece of the explode. */
  lemma ExplodeImplodeSnoc(init: seq<string>, last: string, d: char)
    requires init != [] && d !in last
    requires Explode(Implode(init, [d]), d) == init
    ensures Explode(Implode(init + [last], [d]), d) == init + [last]
  {
    var parts := init + [last];
    assert parts[..|parts| - 1] == init && parts[|parts| - 1] == last;
    assert Implode(parts, [d]) == Implode(init, [d]) + [d] + last;
    ExplodeJoin(Implode(init, [d]), d, last);
  }

  /** `$needle` is a prefix of `$hay`. */
  predicate IsPrefix(needle: string, hay: string) {
    |needle| <= |hay| && hay[..|needle|] == needle
  }

  /**
   * `needle` occurs somewhere in `hay`. The predicate itself accepts an
   * empty needle; `strpos` under PHP 7, which never finds an empty needle,
   * is `FieldFilter.StrposFound`, and `hasBlocks` uses a non-empty needle.
   */
  predicate Contains(hay: string, needle: string)
    decreases |hay|
  {
    IsPrefix(needle, hay) || (hay != [] && Contains(hay[1..], needle))
  }

  /** `needle` occurs in `hay` at offset `i`. */
  predicate OccursAt(hay: string, needle: string, i: int) {
    0 <= i && i + |needle| <= |hay| && hay[i..i + |needle|] == needle
  }

  /** `Contains` holds exactly when `needle` occurs at some offset of `hay`. */
  lemma {:induction false} ContainsIsOccurrence(hay: string, needle: string)
    ensures Contains(hay, needle) <==> exists i :: OccursAt(hay, needle, i)
    decreases |hay|
  {
    if exists i :: OccursAt(hay, needle, i) {
      var i :| OccursAt(hay, needle, i);
      if i > 0 {
        assert OccursAt(hay[1..], needle, i - 1);
        ContainsIsOccurrence(hay[1..], needle);
      }
    }
    if Contains(hay, needle) {
      if !IsPrefix(needle, hay) {
        ContainsIsOccurrence(hay[1..], needle);
        var j :| OccursAt(hay[1..], needle, j);
        assert OccursAt(hay, needle, j + 1);
      } else {
        assert OccursAt(hay, needle, 0);
      }
    }
  }

  /** All pieces, concatenated. */
  function Concat(parts: seq<string>): string {
    if parts == [] then "" else parts[0] + Concat(parts[1..])
  }

  /**
   * `str_split($s, $n)`: consecutive pieces of length `n`, the last one
   * possibly shorter; the empty string gives one empty piece.
   */
  function StrSplit(s: string, n: nat): (r: seq<string>)
    requires n >= 1
    ensures |r| >= 1
    ensures forall i :: 0 <= i < |r| ==> |r[i]| <= n
    ensures forall i :: 0 <= i < |r| - 1 ==> |r[i]| == n
    ensures Concat(r) == s
    decreases |s|
  {
    if |s| <= n then [s]
    else
      var rest := StrSplit(s[n..], n);
      var r := [s[..n]] + rest;
      assert r[1..] == rest;
      assert s == s[..n] + s[n..];
      r
  }

  /** `s` with every occurrence of `c` deleted. */
  function Strip(s: string, c: char): (r: string)
    ensures c !in r
    ensures forall x :: x in r ==> x in s
  {
    if s == [] then ""
    else (if s[0] == c then "" else [s[0]]) + Strip(s[1..], c)
  }

  lemma {:induction false} StripConcat(a: string, b: string, c: char)
    ensures Strip(a + b, c) == Strip(a, c) + Strip(b, c)
    decreases |a|
  {
    if a != [] {
      assert (a + b)[1..] == a[1..] + b;
      StripConcat(a[1..], b, c);
    } else {
      assert a + b == b;
    }
  }

  lemma {:induction false} StripNone(s: string, c: char)
    requires c !in s
    ensures Strip(s, c) == s
    decreases |s|
  {
    if s != [] {
      StripNone(s[1..], c);
    }
  }

  /**
   * Deleting the line breaks from pieces joined by line breaks gives back
   * their concatenation.
   */
  lemma {:induction false} StripImplode(parts: seq<string>, c: char)
    requires forall i :: 0 <= i < |parts| ==> c !in parts[i]
    ensures Strip(Implode(parts, [c]), c) == Concat(parts)
    decreases |parts|
  {
    if parts == [] {
    } else if |parts| == 1 {
      StripNone(parts[0], c);
      assert Concat(parts) == parts[0] + Concat([]);
    } else {
      var init := parts[..|parts| - 1];
      var last := parts[|parts| - 1];
      assert forall i :: 0 <= i < |init| ==> init[i] == parts[i];
      StripImplode(init, c);
      assert init + [last] == parts;
      StripImplodeSnoc(init, last, c);
    }
  }

  /** One more part, without the separator, extends the stripped join by itself. */
  lemma StripImplodeSnoc(init: seq<string>, last: string, c: char)
    requires init != [] && c !in last
    requires Strip(Implode(init, [c]), c) == Concat(init)
    ensures Strip(Implode(init + [last], [c]), c) == Concat(init + [last])
  {
    var parts := init + [last];
    var joined := Implode(init, [c]);
    assert parts[..|parts| - 1] == init && parts[|parts| - 1] == last;
    StripConcat(joined, [c], c);
    assert Strip([c], c) == "";
    assert Strip(joined + [c], c) == Concat(init);
    StripConcat(joined + [c], last, c);
    StripNone(last, c);
    assert Strip(joined + [c] + last, c) == Concat(init) + last;
    ConcatSnoc(init, last);
  }

  lemma {:induction false} ConcatSnoc(parts: seq<string>, last: string)
    ensures Concat(parts + [last]) == Concat(parts) + last
    decreases |parts|
  {
    if parts == [] {
      assert [last][1..] == [];
    } else {
      assert (parts + [last])[1..] == parts[1..] + [last];
      ConcatSnoc(parts[1..], last);
    }
  }

  /** Decimal digits of a non-negative number, most significant first. */
  function NatToString(n: nat): (s: string)
    ensures |s| >= 1 && IsDigits(s)
  {
    if n < 10 then [('0' as int + n) as char]
    else NatToString(n / 10) + [('0' as int + n % 10) as char]
  }

  /** `(string) $i` for an integer. */
  function IntToString(i: int): string {
    if i < 0 then "-" + NatToString(-i) else NatToString(i)
  }

  predicate IsDigits(s: string) {
    |s| >= 1 && forall i :: 0 <= i < |s| ==> '0' <= s[i] <= '9'
  }

  /**
   * The integer form of PHP's `is_numeric`: an optional sign followed by
   * one or more decimal digits.
   */
  predicate IsIntString(s: string) {
    IsDigits(s) || (|s| >= 2 && (s[0] == '-' || s[0] == '+') && IsDigits(s[1..]))
  }

  function DigitsValue(s: string): (n: nat)
    requires forall i :: 0 <= i < |s| ==> '0' <= s[i] <= '9'
  {
    if s == [] then 0 else DigitsValue(s[..|s| - 1]) * 10 + (s[|s| - 1] as int - '0' as int)
  }

  /** `$s + 0` for an integer-form numeric string. */
  function ParseInt(s: string): int
    requires IsIntString(s)
  {
    if IsDigits(s) then DigitsValue(s)
    else if s[0] == '-' then -(DigitsValue(s[1..]) as int)
    else DigitsValue(s[1..])
  }

  lemma {:induction false} DigitsValueOfNat(n: nat)
    ensures DigitsValue(NatToString(n)) == n
  {
    if n >= 10 {
      DigitsValueOfNat(n / 10);
      var s := NatToString(n);
      assert s[..|s| - 1] == NatToString(n / 10);
    }
  }

  /** Printing an integer gives a numeric string that reads back as the same integer. */
  lemma IntStringRoundTrip(i: int)
    ensures IsIntString(IntToString(i))
    ensures ParseInt(IntToString(i)) == i
  {
    if i < 0 {
      var s := IntToString(i);
      assert s[1..] == NatToString(-i);
      DigitsValueOfNat(-i);
    } else {
      DigitsValueOfNat(i);
    }
  }
}
