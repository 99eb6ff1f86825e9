/** Ordered integer lists: the representation of the node-to-element
    lists and of the candidate sets narrowed from them. */
module SeqUtil {

  ghost predicate StrictlyIncreasing(s: seq<int>)
  {
    forall i, j :: 0 <= i < j < |s| ==> s[i] < s[j]
  }

  ghost predicate AllIn(s: seq<int>, lo: int, hi: int)
  {
    forall k :: 0 <= k < |s| ==> lo <= s[k] < hi
  }

  /** The elements of `a` that also occur in `b`, in the order of `a`. */
  function Keep(a: seq<int>, b: seq<int>): (r: seq<int>)
    ensures |r| <= |a|
  {
    if a == [] then [] else Keep(a[..|a| - 1], b) + (if a[|a| - 1] in b then [a[|a| - 1]] else [])
  }

  lemma {:induction false} KeepMembership(a: seq<int>, b: seq<int>, x: int)
    ensures x in Keep(a, b) <==> x in a && x in b
  {
    if a != [] {
      KeepMembership(a[..|a| - 1], b, x);
      assert a == a[..|a| - 1] + [a[|a| - 1]];
    }
  }

  /** Keeping preserves strict increase. */
  lemma {:induction false} KeepIncreasing(a: seq<int>, b: seq<int>)
    requires StrictlyIncreasing(a)
    ensures StrictlyIncreasing(Keep(a, b))
  {
    if a != [] {
      var init, last := a[..|a| - 1], a[|a| - 1];
      KeepIncreasing(init, b);
      var k := Keep(init, b);
      forall i | 0 <= i < |k| ensures k[i] < last {
        KeepMembership(init, b, k[i]);
      }
      var r := Keep(a, b);
      assert r == k + (if last in b then [last] else []);
      forall i, j | 0 <= i < j < |r| ensures r[i] < r[j] {
        if j == |k| { assert r[i] == k[i]; }
      }
    }
  }

  /** Extending `a` by one element extends `Keep(a, b)` by at most that element. */
  lemma KeepSnoc(a: seq<int>, p: int, b: seq<int>)
    requires 0 <= p < |a|
    ensures Keep(a[..p + 1], b) == Keep(a[..p], b) + (if a[p] in b then [a[p]] else [])
  {
    assert a[..p + 1][..p] == a[..p];
  }

  /** Elements of `a` beyond position `p` that miss `b` do not change what is kept. */
  lemma {:induction false} KeepIgnoresTail(a: seq<int>, b: seq<int>, p: int)
    requires 0 <= p <= |a|
    requires forall i :: p <= i < |a| ==> a[i] !in b
    ensures Keep(a, b) == Keep(a[..p], b)
  {
    if p < |a| {
      KeepIgnoresTail(a[..|a| - 1], b, p);
      assert a[..|a| - 1][..p] == a[..p];
    } else {
      assert a[..p] == a;
    }
  }

  /** Sum of the first `k` counts: where the `k`-th group starts when
      groups of these sizes are laid out one after another. */
  function Total(cnt: seq<int>, k: int): int
    requires 0 <= k <= |cnt|
  {
    if k == 0 then 0 else Total(cnt, k - 1) + cnt[k - 1]
  }

  /** With non-negative counts, later groups start no earlier. */
  lemma {:induction false} TotalGrows(cnt: seq<int>, j: int, k: int)
    requires 0 <= j <= k <= |cnt| && forall m :: 0 <= m < |cnt| ==> 0 <= cnt[m]
    ensures Total(cnt, j) <= Total(cnt, k)
  {
    if j < k {
      TotalGrows(cnt, j, k - 1);
    }
  }

  /** A place below the end of group `k - 1` lies in exactly one earlier group. */
  lemma {:induction false} GroupOf(cnt: seq<int>, k: int, p: int) returns (b: int)
    requires 0 <= k <= |cnt| && forall m :: 0 <= m < |cnt| ==> 0 <= cnt[m]
    requires 0 <= p < Total(cnt, k)
    ensures 0 <= b < k && Total(cnt, b) <= p < Total(cnt, b) + cnt[b]
  {
    if p >= Total(cnt, k - 1) {
      b := k - 1;
    } else {
      b := GroupOf(cnt, k - 1, p);
    }
  }

  /** Every number lowered by one: 1-based numbering made 0-based. */
  function Decremented(ids: seq<int>): (r: seq<int>)
    ensures |r| == |ids| && forall i :: 0 <= i < |ids| ==> r[i] + 1 == ids[i]
  {
    seq(|ids|, i requires 0 <= i < |ids| => ids[i] - 1)
  }
}
