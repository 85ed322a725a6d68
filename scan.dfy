/** Sequential scans over tables: the first row that matches (a loop that
    stops at `break`) and all rows that match, in order. */
module Scan {

  datatype Option<T> = None | Some(value: T)

  /** Index of the first element of `s` that satisfies `p`, or None. */
  function FirstIndex<T>(s: seq<T>, p: T -> bool): (r: Option<nat>)
    ensures r.None? <==> forall i :: 0 <= i < |s| ==> !p(s[i])
    ensures r.Some? ==> r.value < |s| && p(s[r.value])
    ensures r.Some? ==> forall j :: 0 <= j < r.value ==> !p(s[j])
    decreases |s|
  {
    if s == [] then None
    else if p(s[0]) then Some(0)
    else
      match FirstIndex(s[1..], p)
      case None => None
      case Some(i) => Some(i + 1)
  }

  /** An element that satisfies `p` with none before it is the first index. */
  lemma FirstIndexAt<T>(s: seq<T>, p: T -> bool, i: nat)
    requires i < |s| && p(s[i])
    requires forall j :: 0 <= j < i ==> !p(s[j])
    ensures FirstIndex(s, p) == Some(i)
  {
  }

  /** Rows after the first match are never looked at. */
  lemma {:induction false} FirstIndexIgnoresLater<T>(s: seq<T>, t: seq<T>, p: T -> bool)
    requires FirstIndex(s, p).Some?
    ensures FirstIndex(s + t, p) == FirstIndex(s, p)
  {
    var i := FirstIndex(s, p).value;
    assert (s + t)[i] == s[i];
    assert forall j :: 0 <= j < i ==> (s + t)[j] == s[j];
  }

  /** Index of the first occurrence of `x` in `s`. */
  function IndexOf<T(==)>(s: seq<T>, x: T): (i: nat)
    requires x in s
    ensures i < |s| && s[i] == x
    ensures forall j :: 0 <= j < i ==> s[j] != x
    decreases |s|
  {
    if s[0] == x then 0 else 1 + IndexOf(s[1..], x)
  }

  /** The first occurrence of an element does not move when more elements are appended. */
  lemma IndexOfAppend<T>(s: seq<T>, t: seq<T>, x: T)
    requires x in s
    ensures x in s + t && IndexOf(s + t, x) == IndexOf(s, x)
  {
    var i := IndexOf(s, x);
    assert (s + t)[i] == x;
    assert forall j :: 0 <= j < i ==> (s + t)[j] == s[j];
  }

  /** Every element of `order` occurs in `keys`, and `order` lists them by
      the position of their first occurrence in `keys`. */
  predicate InFirstAppearanceOrder<T(==)>(order: seq<T>, keys: seq<T>)
  {
    && (forall x :: x in order ==> x in keys)
    && (forall a, b :: 0 <= a < b < |order| ==> IndexOf(keys, order[a]) < IndexOf(keys, order[b]))
  }

  /** Appending to `keys` keeps the order of what was already there. */
  lemma AppendKeepsFirstAppearanceOrder<T>(order: seq<T>, keys: seq<T>, x: T)
    requires InFirstAppearanceOrder(order, keys)
    ensures InFirstAppearanceOrder(order, keys + [x])
  {
    forall y | y in keys
      ensures y in keys + [x] && IndexOf(keys + [x], y) == IndexOf(keys, y)
    {
      IndexOfAppend(keys, [x], y);
    }
  }

  /** An element new to `keys`, appended to both, comes last. */
  lemma AppendNewKeepsFirstAppearanceOrder<T>(order: seq<T>, keys: seq<T>, x: T)
    requires InFirstAppearanceOrder(order, keys) && x !in keys
    ensures InFirstAppearanceOrder(order + [x], keys + [x])
  {
    var keys' := keys + [x];
    var order' := order + [x];
    AppendKeepsFirstAppearanceOrder(order, keys, x);
    assert IndexOf(keys', x) == |keys|;
    forall a | 0 <= a < |order|
      ensures IndexOf(keys', order'[a]) < |keys|
    {
      assert order'[a] == order[a];
    }
  }

  /** The indices of all elements of `s` that satisfy `p`, in increasing order. */
  function Positions<T>(s: seq<T>, p: T -> bool): (r: seq<nat>)
    ensures forall k :: 0 <= k < |r| ==> r[k] < |s| && p(s[r[k]])
    ensures forall k, l :: 0 <= k < l < |r| ==> r[k] < r[l]
    ensures forall i :: 0 <= i < |s| && p(s[i]) ==> i in r
    decreases |s|
  {
    if s == [] then []
    else
      var n := |s| - 1;
      var prefix := Positions(s[..n], p);
      assert forall k :: 0 <= k < |prefix| ==> s[..n][prefix[k]] == s[prefix[k]];
      assert forall i :: 0 <= i < n ==> s[..n][i] == s[i];
      prefix + (if p(s[n]) then [n] else [])
  }
}
