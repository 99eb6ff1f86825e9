/** Narrowing a side's candidate elements: the node-to-element lists of
    the side's nodes are intersected one after the other. */
module Intersect {
  import opened SeqUtil

  /** The entries of `a` at positions `pos`. */
  ghost function Picked(a: seq<int>, pos: seq<int>): (r: seq<int>)
    requires AllIn(pos, 0, |a|)
    ensures |r| == |pos|
  {
    seq(|pos|, k requires 0 <= k < |pos| => a[pos[k]])
  }

  /** Merge state: `set1[..i]` and `set2[..j]` consumed, `pos` the positions
      of the common entries found so far, and every consumed entry below
      every entry still ahead in the other list. */
  ghost predicate MergeAt(set1: seq<int>, set2: seq<int>, pos: seq<int>, i: int, j: int)
  {
    && 0 <= i <= |set1| && 0 <= j <= |set2|
    && StrictlyIncreasing(pos) && AllIn(pos, 0, i)
    && Picked(set1, pos) == Keep(set1[..i], set2)
    && (forall k, m :: 0 <= k < j && i <= m < |set1| ==> set2[k] < set1[m])
    && (forall m, k :: 0 <= m < i && j <= k < |set2| ==> set1[m] < set2[k])
  }

  /** Equal heads: a common entry, recorded. */
  lemma MergeMatch(set1: seq<int>, set2: seq<int>, pos: seq<int>, i: int, j: int)
    requires StrictlyIncreasing(set1) && StrictlyIncreasing(set2) && MergeAt(set1, set2, pos, i, j)
    requires i < |set1| && j < |set2| && set1[i] == set2[j]
    ensures MergeAt(set1, set2, pos + [i], i + 1, j + 1)
  {
    KeepSnoc(set1, i, set2);
  }

  /** The head of `set1` is smaller: it occurs nowhere in `set2`. */
  lemma MergeSkipFirst(set1: seq<int>, set2: seq<int>, pos: seq<int>, i: int, j: int)
    requires StrictlyIncreasing(set1) && StrictlyIncreasing(set2) && MergeAt(set1, set2, pos, i, j)
    requires i < |set1| && j < |set2| && set1[i] < set2[j]
    ensures MergeAt(set1, set2, pos, i + 1, j)
  {
    KeepSnoc(set1, i, set2);
    assert set1[i] !in set2 by {
      forall k | 0 <= k < |set2| ensures set2[k] != set1[i] {
        if k > j { assert set2[j] < set2[k]; }
      }
    }
  }

  /** The head of `set2` is smaller: it is below everything left in `set1`. */
  lemma MergeSkipSecond(set1: seq<int>, set2: seq<int>, pos: seq<int>, i: int, j: int)
    requires StrictlyIncreasing(set1) && StrictlyIncreasing(set2) && MergeAt(set1, set2, pos, i, j)
    requires i < |set1| && j < |set2| && set2[j] < set1[i]
    ensures MergeAt(set1, set2, pos, i, j + 1)
  {
  }

  /** The intersection of two sorted lists, as positions into the first:
      the merge `find_inter` performs when both lists are sorted. */
  method FindInter(set1: seq<int>, set2: seq<int>) returns (pos: seq<int>)
    requires StrictlyIncreasing(set1) && StrictlyIncreasing(set2)
    ensures StrictlyIncreasing(pos) && AllIn(pos, 0, |set1|)
    ensures Picked(set1, pos) == Keep(set1, set2)
  {
    pos := [];
    var i, j := 0, 0;
    while i < |set1| && j < |set2|
      invariant MergeAt(set1, set2, pos, i, j)
    {
      if set1[i] == set2[j] {
        MergeMatch(set1, set2, pos, i, j);
        pos := pos + [i];
        i, j := i + 1, j + 1;
      } else if set1[i] < set2[j] {
        MergeSkipFirst(set1, set2, pos, i, j);
        i := i + 1;
      } else {
        MergeSkipSecond(set1, set2, pos, i, j);
        j := j + 1;
      }
    }
    if i < |set1| {
      KeepIgnoresTail(set1, set2, i);
    } else {
      assert set1[..i] == set1;
    }
  }

  /** The entries common to `lists[0..k]`, in the order of `lists[0]`. */
  ghost function Common(lists: seq<seq<int>>, k: int): (r: seq<int>)
    requires 0 <= k < |lists|
  {
    if k == 0 then lists[0] else Keep(Common(lists, k - 1), lists[k])
  }

  lemma {:induction false} CommonMembership(lists: seq<seq<int>>, k: int, x: int)
    requires 0 <= k < |lists|
    ensures x in Common(lists, k) <==> forall j :: 0 <= j <= k ==> x in lists[j]
  {
    if k > 0 {
      CommonMembership(lists, k - 1, x);
      KeepMembership(Common(lists, k - 1), lists[k], x);
    }
  }

  /** Each further intersection can only shrink the candidates. */
  lemma {:induction false} CommonShrinks(lists: seq<seq<int>>, a: int, b: int)
    requires 0 <= a <= b < |lists|
    ensures |Common(lists, b)| <= |Common(lists, a)|
  {
    if a < b {
      CommonShrinks(lists, a, b - 1);
    }
  }

  lemma {:induction false} CommonIncreasing(lists: seq<seq<int>>, k: int)
    requires 0 <= k < |lists|
    requires StrictlyIncreasing(lists[0])
    ensures StrictlyIncreasing(Common(lists, k))
  {
    if k > 0 {
      CommonIncreasing(lists, k - 1);
      KeepIncreasing(Common(lists, k - 1), lists[k]);
    }
  }

  /** The candidates left after `steps` intersections, when at least two
      remain after every one of them; none otherwise. */
  ghost function Candidates(lists: seq<seq<int>>, steps: int): (r: seq<int>)
    requires steps < |lists|
  {
    if 1 <= steps && 2 <= |Common(lists, steps)| then Common(lists, steps) else []
  }

  /** Strictly increasing positions never fall behind their index. */
  lemma {:induction false} PositionsAhead(pos: seq<int>, n: int, k: int)
    requires StrictlyIncreasing(pos) && AllIn(pos, 0, n) && 0 <= k < |pos|
    ensures k <= pos[k]
  {
    if k > 0 {
      PositionsAhead(pos, n, k - 1);
      assert pos[k - 1] < pos[k];
    }
  }

  /** Moves the entries at `pos` to the front of `hold`, in place. */
  method Compact(hold: array<int>, n: int, pos: seq<int>)
    requires 0 <= n <= hold.Length
    requires StrictlyIncreasing(pos) && AllIn(pos, 0, n)
    modifies hold
    ensures |pos| <= n
    ensures hold[..|pos|] == Picked(old(hold[..n]), pos)
  {
    ghost var before := hold[..n];
    if pos != [] {
      PositionsAhead(pos, n, |pos| - 1);
    }
    var i := 0;
    while i < |pos|
      invariant 0 <= i <= |pos|
      invariant forall k :: 0 <= k < i ==> hold[k] == before[pos[k]]
      invariant forall k :: i <= k < n ==> hold[k] == before[k]
    {
      PositionsAhead(pos, n, i);
      hold[i] := hold[pos[i]];
      i := i + 1;
    }
    assert hold[..|pos|] == Picked(before, pos);
  }

  /** Copies `first` to the front of `hold`. */
  method CopyFirst(hold: array<int>, first: seq<int>)
    requires |first| <= hold.Length
    modifies hold
    ensures hold[..|first|] == first
  {
    var i := 0;
    while i < |first|
      invariant 0 <= i <= |first| && hold[..i] == first[..i]
    {
      hold[i] := first[i];
      i := i + 1;
    }
  }

  /** The entries of `lists[0]` that `lists[0..steps]` all share, left at
      the front of `hold`: copies `lists[0]` into `hold`, then intersects
      with the next list `steps` times, stopping as soon as fewer than two
      entries remain. Returns the count the last intersection kept, 0 when
      none was made. */
  method Narrow(hold: array<int>, lists: seq<seq<int>>, steps: int) returns (nelem: int)
    requires 1 <= |lists| && steps < |lists|
    requires forall j :: 0 <= j < |lists| ==> StrictlyIncreasing(lists[j])
    requires |lists[0]| <= hold.Length
    modifies hold
    ensures 0 <= nelem <= hold.Length
    ensures Candidates(lists, steps) == if nelem > 1 then hold[..nelem] else []
  {
    var nhold := |lists[0]|;
    CopyFirst(hold, lists[0]);
    assert hold[..nhold] == Common(lists, 0);
    nelem := 0;
    var inode := 0;
    while inode < steps
      invariant 0 <= inode && (steps <= 0 ==> inode == 0) && (steps > 0 ==> inode <= steps)
      invariant 0 <= nhold <= hold.Length && hold[..nhold] == Common(lists, inode)
      invariant inode == 0 ==> nelem == 0
      invariant inode > 0 ==> nelem == nhold && 2 <= nelem
    {
      CommonIncreasing(lists, inode);
      var pos := FindInter(hold[..nhold], lists[inode + 1]);
      nelem := |pos|;
      if nelem < 2 {
        CommonShrinks(lists, inode + 1, steps);
        break;
      }
      Compact(hold, nhold, pos);
      nhold := nelem;
      inode := inode + 1;
    }
  }
}
