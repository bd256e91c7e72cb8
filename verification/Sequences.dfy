/** Option, Result and the few sequence notions the models share: filtering,
    the last element with a property, and relations that hold between every
    earlier and every later element. */
module Sequences {

  datatype Option<+T> = None | Some(value: T)

  datatype Result<+T, +E> = Ok(value: T) | Err(error: E)

  /** The elements of `s` that satisfy `p`, in order (`Vec::retain`). */
  function Filter<T>(s: seq<T>, p: T -> bool): (r: seq<T>)
    ensures |r| <= |s|
  {
    if s == [] then []
    else
      var rest := Filter(s[..|s| - 1], p);
      if p(s[|s| - 1]) then rest + [s[|s| - 1]] else rest
  }

  /** The last element of `s` that satisfies `p`. */
  function Last<T>(s: seq<T>, p: T -> bool): (r: Option<T>)
    ensures r.Some? ==> p(r.value) && r.value in s
    ensures r.None? ==> forall i :: 0 <= i < |s| ==> !p(s[i])
  {
    if s == [] then None
    else if p(s[|s| - 1]) then Some(s[|s| - 1])
    else Last(s[..|s| - 1], p)
  }

  /** `r` holds between every earlier and every later element. */
  ghost predicate Pairwise<T(!new)>(s: seq<T>, r: (T, T) -> bool) {
    forall i, j :: 0 <= i < j < |s| ==> r(s[i], s[j])
  }

  lemma {:induction false} FilterMember<T>(s: seq<T>, p: T -> bool, x: T)
    ensures x in Filter(s, p) <==> x in s && p(x)
  {
    if s != [] {
      FilterMember(s[..|s| - 1], p, x);
      assert s == s[..|s| - 1] + [s[|s| - 1]];
    }
  }

  /** A relation between earlier and later elements survives filtering. */
  lemma {:induction false} FilterPairwise<T(!new)>(s: seq<T>, p: T -> bool, r: (T, T) -> bool)
    requires Pairwise(s, r)
    ensures Pairwise(Filter(s, p), r)
  {
    if s != [] {
      var init := s[..|s| - 1];
      FilterPairwise(init, p, r);
      var f := Filter(init, p);
      forall i | 0 <= i < |f| ensures r(f[i], s[|s| - 1]) {
        FilterMember(init, p, f[i]);
        assert f[i] in init;
        var k :| 0 <= k < |init| && init[k] == f[i];
        assert s[k] == f[i];
      }
    }
  }

  lemma {:induction false} FilterConcat<T>(s: seq<T>, t: seq<T>, p: T -> bool)
    ensures Filter(s + t, p) == Filter(s, p) + Filter(t, p)
  {
    if t == [] {
      assert s + t == s;
    } else {
      FilterConcat(s, t[..|t| - 1], p);
      assert (s + t)[..|s + t| - 1] == s + t[..|t| - 1];
    }
  }

  /** Inserting `x` between what may precede it and what may follow it. */
  lemma InsertPairwise<T(!new)>(s: seq<T>, i: nat, x: T, r: (T, T) -> bool)
    requires i <= |s| && Pairwise(s, r)
    requires forall j :: 0 <= j < i ==> r(s[j], x)
    requires forall j :: i <= j < |s| ==> r(x, s[j])
    ensures Pairwise(s[..i] + [x] + s[i..], r)
  {
    var t := s[..i] + [x] + s[i..];
    forall a, b | 0 <= a < b < |t| ensures r(t[a], t[b]) {
      assert t[a] == if a < i then s[a] else if a == i then x else s[a - 1];
      assert t[b] == if b < i then s[b] else if b == i then x else s[b - 1];
    }
  }

  /** The last element with a property, given where it is. */
  lemma {:induction false} LastAt<T>(s: seq<T>, p: T -> bool, i: nat)
    requires i < |s| && p(s[i])
    requires forall j :: i < j < |s| ==> !p(s[j])
    ensures Last(s, p) == Some(s[i])
  {
    if i != |s| - 1 {
      LastAt(s[..|s| - 1], p, i);
    }
  }

  /** Where the last element with a property is. */
  lemma {:induction false} LastIndex<T>(s: seq<T>, p: T -> bool) returns (i: nat)
    requires Last(s, p).Some?
    ensures i < |s| && Last(s, p) == Some(s[i]) && p(s[i])
    ensures forall j :: i < j < |s| ==> !p(s[j])
  {
    if p(s[|s| - 1]) {
      i := |s| - 1;
    } else {
      i := LastIndex(s[..|s| - 1], p);
    }
  }
}
