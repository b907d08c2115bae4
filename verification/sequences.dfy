/** Sequence vocabulary shared by the queue and the cache models. */
module Sequences {

  /** No element occurs twice. */
  predicate Distinct<T(==)>(s: seq<T>) {
    forall i, j :: 0 <= i < j < |s| ==> s[i] != s[j]
  }

  /** Position of the first occurrence of `x` in `s`. */
  function FirstIndex<T(==)>(s: seq<T>, x: T): (i: nat)
    requires x in s
    ensures i < |s| && s[i] == x
    ensures forall j :: 0 <= j < i ==> s[j] != x
  {
    if s[0] == x then 0 else 1 + FirstIndex(s[1..], x)
  }

  /**
   * `s` with its first occurrence of `x` deleted, as `java.util.List.remove(Object)`
   * does: a left-to-right scan that stops at the first equal element.
   */
  function RemoveFirst<T(==)>(s: seq<T>, x: T): (r: seq<T>)
    ensures x !in s ==> r == s
    ensures x in s ==> |r| == |s| - 1
  {
    if |s| == 0 then []
    else if s[0] == x then s[1..]
    else
      assert s == [s[0]] + s[1..];
      [s[0]] + RemoveFirst(s[1..], x)
  }

  /** The first occurrence of `x` is the one deleted: the elements before and after it stay, in order. */
  lemma {:induction false} RemoveFirstCuts<T>(s: seq<T>, x: T)
    requires x in s
    ensures RemoveFirst(s, x) == s[..FirstIndex(s, x)] + s[FirstIndex(s, x) + 1..]
  {
    if s[0] != x {
      assert x in s[1..];
      RemoveFirstCuts(s[1..], x);
      assert FirstIndex(s, x) == 1 + FirstIndex(s[1..], x);
      var i := FirstIndex(s[1..], x);
      assert s[..i + 1] == [s[0]] + s[1..][..i];
      assert s[i + 2..] == s[1..][i + 1..];
    }
  }

  /** Deleting the first `s[i]` when no earlier element equals it cuts position `i` out. */
  lemma RemoveFirstAt<T>(s: seq<T>, i: nat)
    requires i < |s| && forall j :: 0 <= j < i ==> s[j] != s[i]
    ensures RemoveFirst(s, s[i]) == s[..i] + s[i + 1..]
  {
    assert FirstIndex(s, s[i]) == i;
    RemoveFirstCuts(s, s[i]);
  }

  /** Every element of `s` except the ones equal to `x`, in their original order. */
  function Without<T(==)>(s: seq<T>, x: T): (r: seq<T>)
    ensures forall i :: 0 <= i < |r| ==> r[i] in s && r[i] != x
    ensures forall i :: 0 <= i < |s| && s[i] != x ==> s[i] in r
    ensures x !in s ==> r == s
    ensures Distinct(s) ==> Distinct(r)
    ensures Distinct(s) && x in s ==> |r| == |s| - 1
  {
    if |s| == 0 then []
    else
      assert s == [s[0]] + s[1..];
      var rest := Without(s[1..], x);
      if s[0] == x then rest else [s[0]] + rest
  }

  /** In a sequence without duplicates, deleting the first occurrence deletes every occurrence. */
  lemma {:induction false} RemoveFirstOfDistinct<T>(s: seq<T>, x: T)
    ensures Distinct(s) ==> RemoveFirst(s, x) == Without(s, x)
  {
    if |s| > 0 && s[0] != x && Distinct(s) {
      assert Distinct(s[1..]);
      RemoveFirstOfDistinct(s[1..], x);
    } else if |s| > 0 && Distinct(s) {
      assert x !in s[1..];
      assert s == [s[0]] + s[1..];
    }
  }

  /** The integers `lo, lo + 1, ..., hi - 1`. */
  function Range(lo: int, hi: int): (r: seq<int>)
    ensures |r| == if lo <= hi then hi - lo else 0
    ensures forall i :: 0 <= i < |r| ==> r[i] == lo + i
  {
    if hi <= lo then [] else seq(hi - lo, i => lo + i)
  }

  /** The last `n` elements of `s`, or all of `s` when it is shorter. */
  function Newest<T>(s: seq<T>, n: nat): (r: seq<T>)
  {
    if |s| <= n then s else s[|s| - n..]
  }

  /** Keeping the newest `n` after each appended element keeps the newest `n` of them all. */
  lemma NewestOfNewest<T>(s: seq<T>, x: T, rest: seq<T>, n: nat)
    ensures Newest(Newest(s + [x], n) + rest, n) == Newest(s + ([x] + rest), n)
  {
    var s', t := s + [x], s + ([x] + rest);
    assert s' + rest == t;
    if n < |s'| {
      var a := s'[|s'| - n..];
      assert Newest(s', n) == a;
      assert Newest(a + rest, n) == t[|t| - n..] by {
        assert a + rest == t[|s'| - n..];
        assert (a + rest)[|a + rest| - n..] == t[|t| - n..];
      }
      assert Newest(t, n) == t[|t| - n..];
    } else {
      assert Newest(s', n) == s';
    }
  }

  /** Applies `f` to every element. */
  function Map<A, B>(f: A -> B, s: seq<A>): (r: seq<B>)
    ensures |r| == |s| && forall i :: 0 <= i < |s| ==> r[i] == f(s[i])
  {
    seq(|s|, i requires 0 <= i < |s| => f(s[i]))
  }

  /** The strings of `xs` in order, with `sep` between neighbours and nowhere else. */
  function Join(xs: seq<string>, sep: string): string
  {
    if |xs| == 0 then ""
    else if |xs| == 1 then xs[0]
    else Join(xs[..|xs| - 1], sep) + sep + xs[|xs| - 1]
  }

  /** Appending one more string adds the separator and that string. */
  lemma JoinSnoc(xs: seq<string>, x: string, sep: string)
    requires 0 < |xs|
    ensures Join(xs + [x], sep) == Join(xs, sep) + sep + x
  {
    assert (xs + [x])[..|xs|] == xs;
  }
}
