/** The two C shell sorts of wg_sort.c: wg_sort_uint_ (gap table 19, 5, 1)
    and wg_sort_double (gaps num/2, num/4, ..., 1). Both run the same gapped
    insertion step in place on the first `num` elements of the array; the
    elements are modelled as integers. */
module Sort {
  /** Every element is at most the element `h` places further on, for all
      such pairs that end below `n`. */
  ghost predicate HSorted(s: seq<int>, h: nat, n: nat)
    requires n <= |s|
  {
    forall k :: h <= k < n ==> s[k - h] <= s[k]
  }

  ghost predicate Sorted(s: seq<int>, n: nat)
    requires n <= |s|
  {
    forall p, q :: 0 <= p < q < n ==> s[p] <= s[q]
  }

  /** Being 1-sorted is being sorted. */
  lemma {:induction false} OneSortedIsSorted(s: seq<int>, n: nat)
    requires n <= |s| && HSorted(s, 1, n)
    ensures Sorted(s, n)
  {
    if n > 1 {
      assert HSorted(s, 1, n - 1);
      OneSortedIsSorted(s, n - 1);
      forall p | 0 <= p < n - 1 ensures s[p] <= s[n - 1] {
        assert s[p] <= s[n - 2];
      }
    }
  }

  lemma SwapKeepsMultiset(s: seq<int>, p: nat, q: nat, x: int, y: int)
    requires p < |s| && q < |s| && p != q
    ensures multiset(s[p := x][q := y]) == multiset(s[p := y][q := x])
  {
  }

  /** The state of the insertion step while the element being inserted is
      out of the array: position j is the hole, every pair not touching the
      hole is in order, the pair bridging the hole is in order, and the
      element above the hole is larger than the one being inserted. */
  ghost predicate Hole(s: seq<int>, h: nat, i: nat, j: nat, tmp: int)
  {
    0 < h && j <= i < |s| &&
    (forall k :: h <= k <= i && k != j && k - h != j ==> s[k - h] <= s[k]) &&
    (j + h <= i ==> tmp < s[j + h]) &&
    (j >= h && j + h <= i ==> s[j - h] <= s[j + h])
  }

  lemma HoleBounds(s: seq<int>, h: nat, i: nat, j: nat, tmp: int)
    requires Hole(s, h, i, j, tmp)
    ensures 0 < h && j <= i < |s|
  {
  }

  lemma HoleStart(s: seq<int>, h: nat, i: nat)
    requires 0 < h <= i < |s| && HSorted(s, h, i)
    ensures Hole(s, h, i, i, s[i])
  {
  }

  lemma HoleStep(s: seq<int>, h: nat, i: nat, j: nat, tmp: int)
    requires Hole(s, h, i, j, tmp) && j >= h && tmp < s[j - h]
    ensures Hole(s[j := s[j - h]], h, i, j - h, tmp)
  {
    var t := s[j := s[j - h]];
    forall k | h <= k <= i && k != j - h && k - h != j - h
      ensures t[k - h] <= t[k]
    {
      if k == j {
        assert false;
      } else if k - h == j {
        assert t[k - h] == s[j - h];
      } else {
        assert t[k - h] == s[k - h] && t[k] == s[k];
      }
    }
    if j - h >= h {
      assert s[j - h - h] <= s[j - h];
    }
  }

  lemma HoleClose(s: seq<int>, h: nat, i: nat, j: nat, tmp: int)
    requires Hole(s, h, i, j, tmp) && (j < h || s[j - h] <= tmp)
    ensures HSorted(s[j := tmp], h, i + 1)
  {
  }

  /** The inner loop of the insertion step: while the element below the
      hole is larger than `tmp`, move it up into the hole. */
  method ShiftDown(a: array<int>, h: nat, i: nat, tmp: int) returns (j: nat)
    requires Hole(a[..], h, i, i, tmp)
    modifies a
    ensures Hole(a[..], h, i, j, tmp) && (j < h || a[j - h] <= tmp)
    ensures multiset(a[..][j := tmp]) == multiset(old(a[..])[i := tmp])
    ensures a[i + 1..] == old(a[i + 1..])
  {
    hide Hole;
    HoleBounds(a[..], h, i, i, tmp);
    j := i;
    while j >= h && tmp < a[j - h]
      invariant j <= i
      invariant Hole(a[..], h, i, j, tmp)
      invariant multiset(a[..][j := tmp]) == multiset(old(a[..])[i := tmp])
      invariant a[i + 1..] == old(a[i + 1..])
      decreases j
    {
      ghost var before := a[..];
      HoleStep(before, h, i, j, tmp);
      a[j] := a[j - h];
      assert a[..] == before[j := before[j - h]];
      SwapKeepsMultiset(before, j, j - h, before[j - h], tmp);
      assert before[j := tmp][j - h := before[j - h]] == before[j := tmp];
      j := j - h;
    }
  }

  /** One step of the gapped insertion (the body of the `i` loop): `d[i]` is
      moved down its chain of positions i, i-h, i-2h, ... past every larger
      element. */
  method InsertGapped(a: array<int>, h: nat, i: nat)
    requires 0 < h <= i < a.Length
    requires HSorted(a[..], h, i)
    modifies a
    ensures HSorted(a[..], h, i + 1)
    ensures multiset(a[..]) == multiset(old(a[..]))
    ensures a[i + 1..] == old(a[i + 1..])
  {
    var tmp := a[i];
    HoleStart(a[..], h, i);
    assert a[..][i := tmp] == a[..];
    var j := ShiftDown(a, h, i, tmp);
    ghost var last := a[..];
    HoleClose(last, h, i, j, tmp);
    a[j] := tmp;
    assert a[..] == last[j := tmp];
  }

  /** One pass of a shell sort with gap `h` over `d[0..num)`. */
  method GapPass(a: array<int>, num: nat, h: nat)
    requires 0 < h && num <= a.Length
    modifies a
    ensures HSorted(a[..], h, num)
    ensures multiset(a[..]) == multiset(old(a[..]))
    ensures forall k :: num <= k < a.Length ==> a[k] == old(a[k])
    ensures num <= h ==> a[..] == old(a[..])
  {
    var i := h;
    while i < num
      invariant h <= i && (i <= num || num <= h)
      invariant HSorted(a[..], h, if i <= num then i else num)
      invariant multiset(a[..]) == multiset(old(a[..]))
      invariant forall k :: num <= k < a.Length ==> a[k] == old(a[k])
      invariant num <= h ==> a[..] == old(a[..])
    {
      InsertGapped(a, h, i);
      i := i + 1;
    }
  }

  /** The gap table of wg_sort_uint_, terminated by 0. */
  const Gaps: seq<nat> := [19, 5, 1, 0]

  /** wg_sort_uint_: passes with gaps 19, 5 and 1. */
  method SortUint(a: array<int>, num: nat)
    requires num <= a.Length
    modifies a
    ensures Sorted(a[..], num)
    ensures multiset(a[..num]) == multiset(old(a[..num]))
    ensures a[num..] == old(a[num..])
    ensures num <= 1 ==> a[..] == old(a[..])
  {
    var hh := 0;
    var increment := Gaps[hh];
    hh := hh + 1;
    while increment > 0
      invariant 1 <= hh <= 4 && increment == Gaps[hh - 1]
      invariant hh == 4 ==> HSorted(a[..], 1, num)
      invariant multiset(a[..]) == multiset(old(a[..]))
      invariant forall k :: num <= k < a.Length ==> a[k] == old(a[k])
      invariant num <= 1 ==> a[..] == old(a[..])
      decreases 4 - hh
    {
      GapPass(a, num, increment);
      assert hh == 3 ==> increment == 1;
      increment := Gaps[hh];
      hh := hh + 1;
    }
    assert hh == 4;
    OneSortedIsSorted(a[..], num);
    UnchangedTailKeepsPrefix(old(a[..]), a[..], num);
  }

  /** wg_sort_double: gaps num >> 1, then halved until 0. */
  method SortDouble(a: array<int>, num: nat)
    requires num <= a.Length
    modifies a
    ensures Sorted(a[..], num)
    ensures multiset(a[..num]) == multiset(old(a[..num]))
    ensures a[num..] == old(a[num..])
    ensures num <= 1 ==> a[..] == old(a[..])
  {
    var increment: nat := num / 2;
    while increment > 0
      invariant increment == 0 ==> num < 2 || HSorted(a[..], 1, num)
      invariant multiset(a[..]) == multiset(old(a[..]))
      invariant forall k :: num <= k < a.Length ==> a[k] == old(a[k])
      invariant num <= 1 ==> a[..] == old(a[..])
    {
      GapPass(a, num, increment);
      if increment == 1 {
        assert HSorted(a[..], 1, num);
      }
      increment := increment / 2;
    }
    if num >= 2 {
      OneSortedIsSorted(a[..], num);
    }
    UnchangedTailKeepsPrefix(old(a[..]), a[..], num);
  }

  /** A permutation of the whole array that leaves the tail alone permutes
      the prefix. */
  lemma UnchangedTailKeepsPrefix(before: seq<int>, after: seq<int>, num: nat)
    requires |before| == |after| && num <= |before|
    requires multiset(after) == multiset(before)
    requires forall k :: num <= k < |after| ==> after[k] == before[k]
    ensures multiset(after[..num]) == multiset(before[..num])
    ensures after[num..] == before[num..]
  {
    assert after == after[..num] + after[num..];
    assert before == before[..num] + before[num..];
    assert after[num..] == before[num..];
    assert multiset(after) == multiset(after[..num]) + multiset(after[num..]);
    assert multiset(before) == multiset(before[..num]) + multiset(before[num..]);
    forall x ensures multiset(after[..num])[x] == multiset(before[..num])[x] {
      assert multiset(after)[x] == multiset(after[..num])[x] + multiset(after[num..])[x];
      assert multiset(before)[x] == multiset(before[..num])[x] + multiset(before[num..])[x];
    }
  }
}
