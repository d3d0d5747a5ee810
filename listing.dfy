/**
 * Ordered listings over a table's keys.  Identity columns hand out ids in increasing
 * order, so "largest id first" is the order in which rows were created, newest first.
 */
module Listing {

  /** The members of `keys` that lie in [1, hi), largest first. */
  function IdsDesc(keys: set<int>, hi: int): (r: seq<int>)
    ensures forall i :: 0 <= i < |r| ==> 1 <= r[i] < hi
    ensures forall i, j :: 0 <= i < j < |r| ==> r[i] > r[j]
    ensures forall x :: x in r <==> x in keys && 1 <= x < hi
    decreases hi
  {
    if hi <= 1 then []
    else if hi - 1 in keys then [hi - 1] + IdsDesc(keys, hi - 1)
    else IdsDesc(keys, hi - 1)
  }

  /** The listing depends only on which ids below `hi` are keys. */
  lemma {:induction false} IdsDescAgree(a: set<int>, b: set<int>, hi: int)
    requires forall x :: 1 <= x < hi ==> (x in a <==> x in b)
    ensures IdsDesc(a, hi) == IdsDesc(b, hi)
    decreases hi
  {
    if hi > 1 {
      IdsDescAgree(a, b, hi - 1);
    }
  }

  /** When every key lies below `hi`, the listing holds each key exactly once. */
  lemma {:induction false} IdsDescLength(keys: set<int>, hi: int)
    requires forall x :: x in keys ==> 1 <= x < hi
    ensures |IdsDesc(keys, hi)| == |keys|
    decreases hi
  {
    if hi <= 1 {
      assert keys == {} by {
        forall x | x in keys ensures false { }
      }
    } else if hi - 1 in keys {
      var rest := keys - {hi - 1};
      IdsDescAgree(keys, rest, hi - 1);
      IdsDescLength(rest, hi - 1);
      assert |keys| == |rest| + 1;
      assert IdsDesc(keys, hi) == [hi - 1] + IdsDesc(rest, hi - 1);
    } else {
      IdsDescLength(keys, hi - 1);
    }
  }

  /** The rows stored under `ids`, in the same order. */
  function Rows<R>(m: map<int, R>, ids: seq<int>): (r: seq<R>)
    requires forall i :: 0 <= i < |ids| ==> ids[i] in m
    ensures |r| == |ids|
    ensures forall i :: 0 <= i < |ids| ==> r[i] == m[ids[i]]
  {
    seq(|ids|, i requires 0 <= i < |ids| => m[ids[i]])
  }

  /**
   * The rows of `keys`, drawn from `m` in listing order, are each key's row exactly once,
   * largest key first; when stamps never decrease with the key, they come out with
   * non-increasing stamps.
   */
  lemma {:induction false} Listed<R>(m: map<int, R>, keys: set<int>, hi: int, key: R -> int, stamp: R -> int)
    requires keys <= m.Keys
    requires forall k :: k in keys ==> 1 <= k < hi && key(m[k]) == k
    requires forall a, b :: a in keys && b in keys && a < b ==> stamp(m[a]) <= stamp(m[b])
    ensures forall i :: 0 <= i < |IdsDesc(keys, hi)| ==> IdsDesc(keys, hi)[i] in m
    ensures var r := Rows(m, IdsDesc(keys, hi));
      && |r| == |keys|
      && (forall i :: 0 <= i < |r| ==> key(r[i]) in keys && m[key(r[i])] == r[i])
      && (forall k :: k in keys ==> m[k] in r)
      && (forall i, j :: 0 <= i < j < |r| ==> key(r[i]) > key(r[j]))
      && (forall i, j :: 0 <= i < j < |r| ==> stamp(r[i]) >= stamp(r[j]))
  {
    var ids := IdsDesc(keys, hi);
    forall i | 0 <= i < |ids| ensures ids[i] in m {
      assert ids[i] in ids;
    }
    IdsDescLength(keys, hi);
    var r := Rows(m, ids);
    forall i | 0 <= i < |r| ensures key(r[i]) == ids[i] && ids[i] in keys {
      assert ids[i] in ids;
    }
    forall k | k in keys ensures m[k] in r {
      assert k in ids;
      var i :| 0 <= i < |ids| && ids[i] == k;
      assert r[i] == m[k];
    }
  }

  /** `xs` mapped element by element (`stream().map(f).collect(toList())`). */
  function Map<A, B>(f: A -> B, xs: seq<A>): (r: seq<B>)
    ensures |r| == |xs| && forall i :: 0 <= i < |xs| ==> r[i] == f(xs[i])
  {
    seq(|xs|, i requires 0 <= i < |xs| => f(xs[i]))
  }

  /** Whatever occurs in `xs` occurs, mapped, in `Map(f, xs)`. */
  lemma MapHas<A, B>(f: A -> B, xs: seq<A>)
    ensures forall x :: x in xs ==> f(x) in Map(f, xs)
  {
    forall x | x in xs ensures f(x) in Map(f, xs) {
      var i :| 0 <= i < |xs| && xs[i] == x;
      assert Map(f, xs)[i] == f(x);
    }
  }
}
