/** The quicksort behind `table.sort` (lua/ltablib.c). */
module LuaSort {
  import opened Basics

  /** A strict weak order, as the order function of `table.sort` has to be. */
  ghost predicate StrictWeak<T(!new)>(lt: (T, T) -> bool) {
    && (forall x :: !lt(x, x))
    && (forall x, y :: lt(x, y) ==> !lt(y, x))
    && forall x, y, z :: !lt(x, y) && !lt(y, z) ==> !lt(x, z)
  }

  /** Elements `l` to `u` are in order. */
  ghost predicate Sorted<T>(s: seq<T>, l: int, u: int, lt: (T, T) -> bool) {
    forall i, j :: 0 <= l <= i < j <= u < |s| ==> !lt(s[j], s[i])
  }

  /** All elements from `l` to `u` are at most `x`, or at least `x`. */
  ghost predicate AtMost<T>(s: seq<T>, l: int, u: int, x: T, lt: (T, T) -> bool) {
    forall i :: 0 <= l <= i <= u < |s| ==> !lt(x, s[i])
  }

  ghost predicate AtLeast<T>(s: seq<T>, l: int, u: int, x: T, lt: (T, T) -> bool) {
    forall i :: 0 <= l <= i <= u < |s| ==> !lt(s[i], x)
  }

  /** `s'` has the elements of `s` from `l` to `u` in some order, and the others where they were. */
  ghost predicate Shuffled<T>(s: seq<T>, s': seq<T>, l: int, u: int) {
    && |s'| == |s| && 0 <= l <= u + 1 <= |s|
    && s'[..l] == s[..l] && s'[u + 1..] == s[u + 1..]
    && multiset(s'[l..u + 1]) == multiset(s[l..u + 1])
  }

  /** A property of all elements of a range stays when the range, or a part of it, is shuffled. */
  lemma ShuffleKeeps<T>(s: seq<T>, s': seq<T>, l: int, u: int, good: T -> bool)
    requires Shuffled(s, s', l, u) && forall i :: l <= i <= u ==> good(s[i])
    ensures forall i :: l <= i <= u ==> good(s'[i])
  {
    forall i | l <= i <= u
      ensures good(s'[i])
    {
      assert s'[i] == s'[l..u + 1][i - l];
      assert s'[i] in multiset(s'[l..u + 1]);
      assert s'[i] in s[l..u + 1];
    }
  }

  lemma ShuffleThen<T>(s: seq<T>, s1: seq<T>, s': seq<T>, l: int, u: int)
    requires Shuffled(s, s1, l, u) && Shuffled(s1, s', l, u)
    ensures Shuffled(s, s', l, u)
  {
  }

  /** A shuffle of a part of a range is one of the range. */
  lemma ShuffleWider<T>(s: seq<T>, s': seq<T>, l: int, u: int, l0: int, u0: int)
    requires Shuffled(s, s', l, u) && 0 <= l0 <= l && u <= u0 < |s|
    ensures Shuffled(s, s', l0, u0)
  {
    Three(s, l0, l, u + 1, u0 + 1);
    Three(s', l0, l, u + 1, u0 + 1);
    assert s'[l0..l] == s'[..l][l0..] == s[..l][l0..] == s[l0..l];
    assert s'[u + 1..u0 + 1] == s'[u + 1..][..u0 - u] == s[u + 1..][..u0 - u] == s[u + 1..u0 + 1];
    assert s'[..l0] == s'[..l][..l0] == s[..l0];
    assert s'[u0 + 1..] == s'[u + 1..][u0 - u..] == s[u0 + 1..];
  }

  lemma Three<T>(s: seq<T>, a: int, b: int, c: int, d: int)
    requires 0 <= a <= b <= c <= d <= |s|
    ensures multiset(s[a..d]) == multiset(s[a..b]) + multiset(s[b..c]) + multiset(s[c..d])
  {
    assert s[a..d] == s[a..b] + s[b..c] + s[c..d];
  }

  lemma SwapShuffles<T>(s: seq<T>, i: int, j: int, l: int, u: int)
    requires 0 <= l <= i <= u < |s| && l <= j <= u
    ensures Shuffled(s, s[i := s[j]][j := s[i]], l, u)
  {
    var s' := s[i := s[j]][j := s[i]];
    var t := s[l..u + 1];
    assert s'[l..u + 1] == t[i - l := t[j - l]][j - l := t[i - l]];
  }

  /** `set2`: exchanges two elements between `l` and `u`. */
  method Swap<T>(a: array<T>, i: int, j: int, ghost l: int, ghost u: int)
    requires 0 <= l <= i <= u < a.Length && l <= j <= u
    modifies a
    ensures a[..] == old(a[..])[i := old(a[j])][j := old(a[i])] && Shuffled(old(a[..]), a[..], l, u)
  {
    SwapShuffles(a[..], i, j, l, u);
    a[i], a[j] := a[j], a[i];
  }

  lemma Asymmetric<T(!new)>(lt: (T, T) -> bool, x: T, y: T)
    requires StrictWeak(lt)
    ensures !lt(x, x) && (lt(x, y) ==> !lt(y, x))
  {
  }

  lemma Transitive<T(!new)>(lt: (T, T) -> bool, x: T, y: T, z: T)
    requires StrictWeak(lt) && !lt(x, y) && !lt(y, z)
    ensures !lt(x, z)
  {
  }

  /** The first comparisons of `auxsort`: a[l], the middle element and a[u] are put in order. */
  method OrderThree<T(!new)>(a: array<T>, l: int, u: int, lt: (T, T) -> bool)
    requires StrictWeak(lt) && 0 <= l < u < a.Length
    modifies a
    ensures Shuffled(old(a[..]), a[..], l, u) && !lt(a[u], a[l])
    ensures u - l > 1 ==> !lt(a[(l + u) / 2], a[l]) && !lt(a[u], a[(l + u) / 2])
  {
    hide *;
    ghost var s0 := a[..];
    ghost var s1 := if lt(a[u], a[l]) then s0[l := s0[u]][u := s0[l]] else s0;
    if lt(a[u], a[l]) {
      Swap(a, l, u, l, u);
    }
    assert a[..] == s1;
    FirstTwo(s0, s1, l, u, lt);
    if u - l == 1 {
      return;
    }
    var i := (l + u) / 2;
    ghost var s2 := if lt(s1[i], s1[l]) then s1[i := s1[l]][l := s1[i]] else if lt(s1[u], s1[i]) then s1[i := s1[u]][u := s1[i]] else s1;
    if lt(a[i], a[l]) {
      Swap(a, i, l, l, u);
    } else if lt(a[u], a[i]) {
      Swap(a, i, u, l, u);
    }
    assert a[..] == s2;
    ThirdOne(s0, s1, s2, l, u, i, lt);
  }

  lemma FirstTwo<T(!new)>(s0: seq<T>, s1: seq<T>, l: int, u: int, lt: (T, T) -> bool)
    requires StrictWeak(lt) && 0 <= l < u < |s0| && s1 == if lt(s0[u], s0[l]) then s0[l := s0[u]][u := s0[l]] else s0
    ensures Shuffled(s0, s1, l, u) && !lt(s1[u], s1[l])
  {
    SwapShuffles(s0, l, u, l, u);
  }

  lemma ThirdOne<T(!new)>(s0: seq<T>, s1: seq<T>, s2: seq<T>, l: int, u: int, i: int, lt: (T, T) -> bool)
    requires StrictWeak(lt) && 0 <= l < i < u < |s1| && Shuffled(s0, s1, l, u) && !lt(s1[u], s1[l])
    requires s2 == if lt(s1[i], s1[l]) then s1[i := s1[l]][l := s1[i]] else if lt(s1[u], s1[i]) then s1[i := s1[u]][u := s1[i]] else s1
    ensures Shuffled(s0, s2, l, u) && !lt(s2[u], s2[l]) && !lt(s2[i], s2[l]) && !lt(s2[u], s2[i])
  {
    SwapShuffles(s1, i, l, l, u);
    SwapShuffles(s1, i, u, l, u);
    hide Shuffled;
    ShuffleThen(s0, s1, s2, l, u) by { NotShuffled(s1, l, u); }
    Asymmetric(lt, s1[i], s1[l]);
    Asymmetric(lt, s1[u], s1[i]);
    Transitive(lt, s2[u], s2[i], s2[l]);
  }

  lemma NotShuffled<T>(s: seq<T>, l: int, u: int)
    requires 0 <= l <= u + 1 <= |s|
    ensures Shuffled(s, s, l, u)
  {
  }

  /** The partition loop: `ok` is false when the order function is found to be invalid, which a strict weak order never is. */
  method Partition<T(!new)>(a: array<T>, l: int, u: int, lt: (T, T) -> bool) returns (i: int, ok: bool)
    requires StrictWeak(lt) && 0 <= l && u - l > 2 && u < a.Length
    requires !lt(a[(l + u) / 2], a[l]) && !lt(a[u], a[(l + u) / 2])
    modifies a
    ensures ok && l < i < u && Shuffled(old(a[..]), a[..], l, u)
    ensures AtMost(a[..], l, i, a[i], lt) && AtLeast(a[..], i, u, a[i], lt)
  {
    hide *;
    i, ok := (l + u) / 2, true;
    var pivot := a[i];
    ghost var s0 := a[..];
    Swap(a, i, u - 1, l, u);
    ghost var s := a[..];
    StartPartition(s0, s, l, u, lt);
    i := l;
    var j := u - 1;
    while true
      invariant l <= i <= j && i < u - 1 && l < j <= u - 1 && a[..] == s && ok
      invariant Parted(s0, s, l, u, i, j, pivot, lt)
      decreases j - i
    {
      i, j, ok := Scan(a, l, u, i, j, pivot, lt, s0, s);
      if j < i {
        break;
      }
      s := SwapPair(a, l, u, i, j, pivot, lt, s0, s);
    }
    PlacePivot(s0, s, l, u, i, j, pivot, lt);
    assert a[i] == s[i] && a[u - 1] == s[u - 1];
    Swap(a, u - 1, i, l, u);
    s := s[u - 1 := s[i]][i := s[u - 1]];
    assert a[..] == s;
  }

  /** The two elements where the scans stopped change places. */
  method SwapPair<T(!new)>(a: array<T>, l: int, u: int, i: int, j: int, pivot: T, lt: (T, T) -> bool, ghost s0: seq<T>, ghost s: seq<T>)
    returns (ghost s': seq<T>)
    requires StrictWeak(lt) && a[..] == s && Parted(s0, s, l, u, i - 1, j + 1, pivot, lt)
    requires 0 <= l < i <= j < u < a.Length && !lt(s[i], pivot) && !lt(pivot, s[j])
    modifies a
    ensures a[..] == s' && Parted(s0, s', l, u, i, j, pivot, lt) && j < u - 1
  {
    hide *;
    Exchange(s0, s, l, u, i, j, pivot, lt);
    assert a[i] == s[i] && a[j] == s[j];
    Swap(a, i, j, l, u);
    s' := s[i := s[j]][j := s[i]];
  }

  /** `i` goes up to an element that is not below the pivot, and `j` down to one that is not above it; neither leaves the range. */
  method Scan<T(!new)>(a: array<T>, l: int, u: int, i0: int, j0: int, pivot: T, lt: (T, T) -> bool, ghost s0: seq<T>, ghost s: seq<T>)
    returns (i: int, j: int, ok: bool)
    requires StrictWeak(lt) && a[..] == s && l <= i0 <= j0 && i0 < u - 1 && l < j0 <= u - 1 && Parted(s0, s, l, u, i0, j0, pivot, lt)
    ensures ok && i0 < i <= u - 1 && l <= j < j0 && Parted(s0, s, l, u, i - 1, j + 1, pivot, lt) && a[..] == s
    ensures !lt(s[i], pivot) && !lt(pivot, s[j])
  {
    InRange(s0, s, l, u, i0, j0, pivot, lt);
    hide *;
    ok := true;
    i := i0 + 1;
    while lt(a[i], pivot)
      invariant i0 < i <= u - 1 && a[..] == s && Parted(s0, s, l, u, i - 1, j0, pivot, lt)
      decreases u - i
    {
      if i > u {
        return i, j0 - 1, false;
      }
      StepUp(s0, s, l, u, i, j0, pivot, lt);
      i := i + 1;
    }
    j := j0 - 1;
    while lt(pivot, a[j])
      invariant l <= j < j0 && a[..] == s && Parted(s0, s, l, u, i - 1, j + 1, pivot, lt)
      decreases j
    {
      if j < l {
        return i, j, false;
      }
      StepDown(s0, s, l, u, i, j, pivot, lt);
      j := j - 1;
    }
  }

  lemma InRange<T(!new)>(s0: seq<T>, s: seq<T>, l: int, u: int, i: int, j: int, pivot: T, lt: (T, T) -> bool)
    requires Parted(s0, s, l, u, i, j, pivot, lt)
    ensures 0 <= l && u < |s|
  {
  }

  /** The state of the partition: a[l..i] <= P, a[j..u] >= P, and P itself waits at u - 1. */
  ghost predicate Parted<T(!new)>(s0: seq<T>, s: seq<T>, l: int, u: int, i: int, j: int, pivot: T, lt: (T, T) -> bool) {
    && 0 <= l <= i < u && l <= j < u < |s| && s[u - 1] == pivot && Shuffled(s0, s, l, u)
    && AtMost(s, l, i, pivot, lt) && AtLeast(s, j, u, pivot, lt)
  }

  lemma StartPartition<T(!new)>(s0: seq<T>, s: seq<T>, l: int, u: int, lt: (T, T) -> bool)
    requires StrictWeak(lt) && 0 <= l && u - l > 2 && u < |s0| && Shuffled(s0, s, l, u)
    requires !lt(s0[(l + u) / 2], s0[l]) && !lt(s0[u], s0[(l + u) / 2])
    requires s == s0[(l + u) / 2 := s0[u - 1]][u - 1 := s0[(l + u) / 2]]
    ensures Parted(s0, s, l, u, l, u - 1, s0[(l + u) / 2], lt)
  {
  }

  lemma StepUp<T(!new)>(s0: seq<T>, s: seq<T>, l: int, u: int, i: int, j: int, pivot: T, lt: (T, T) -> bool)
    requires StrictWeak(lt) && Parted(s0, s, l, u, i - 1, j, pivot, lt) && i < |s| && lt(s[i], pivot) && i <= u - 1
    ensures i < u - 1 && Parted(s0, s, l, u, i, j, pivot, lt)
  {
    Asymmetric(lt, s[i], pivot);
    Asymmetric(lt, pivot, pivot);
  }

  lemma StepDown<T(!new)>(s0: seq<T>, s: seq<T>, l: int, u: int, i: int, j: int, pivot: T, lt: (T, T) -> bool)
    requires StrictWeak(lt) && Parted(s0, s, l, u, i - 1, j + 1, pivot, lt) && l <= j && lt(pivot, s[j])
    ensures l < j && Parted(s0, s, l, u, i - 1, j, pivot, lt)
  {
    Asymmetric(lt, pivot, s[j]);
  }

  lemma Exchange<T(!new)>(s0: seq<T>, s: seq<T>, l: int, u: int, i: int, j: int, pivot: T, lt: (T, T) -> bool)
    requires StrictWeak(lt) && Parted(s0, s, l, u, i - 1, j + 1, pivot, lt) && l < i <= j < |s| && !lt(s[i], pivot) && !lt(pivot, s[j])
    ensures Parted(s0, s[i := s[j]][j := s[i]], l, u, i, j, pivot, lt) && j < u - 1
  {
    SwapShuffles(s, i, j, l, u);
    ShuffleThen(s0, s, s[i := s[j]][j := s[i]], l, u);
    SwapBounds(s, l, u, i, j, pivot, lt);
  }

  lemma PlacePivot<T(!new)>(s0: seq<T>, s: seq<T>, l: int, u: int, i: int, j: int, pivot: T, lt: (T, T) -> bool)
    requires StrictWeak(lt) && Parted(s0, s, l, u, i - 1, j + 1, pivot, lt) && j < i <= u - 1 && l < i && !lt(s[i], pivot)
    ensures var s' := s[u - 1 := s[i]][i := s[u - 1]];
            Shuffled(s0, s', l, u) && AtMost(s', l, i, s'[i], lt) && AtLeast(s', i, u, s'[i], lt)
  {
    Asymmetric(lt, pivot, pivot);
    SwapShuffles(s, u - 1, i, l, u);
    ShuffleThen(s0, s, s[u - 1 := s[i]][i := s[u - 1]], l, u);
  }

  lemma SwapBounds<T>(s: seq<T>, l: int, u: int, i: int, j: int, pivot: T, lt: (T, T) -> bool)
    requires 0 <= l < i <= j < u - 1 < u < |s|
    requires AtMost(s, l, i - 1, pivot, lt) && AtLeast(s, j + 1, u, pivot, lt) && !lt(s[i], pivot) && !lt(pivot, s[j])
    ensures var s' := s[i := s[j]][j := s[i]]; AtMost(s', l, i, pivot, lt) && AtLeast(s', j, u, pivot, lt)
  {
  }

  // ---------------------------------------------------------------- the whole sort

  /** Of the elements from `l0` to `u0`, those outside `l` to `u` are where they belong. */
  ghost predicate Placed<T>(s: seq<T>, l0: int, u0: int, l: int, u: int, lt: (T, T) -> bool) {
    forall i, j :: 0 <= l0 <= i < j <= u0 < |s| && (i < l || u < j) ==> !lt(s[j], s[i])
  }

  lemma ShuffleStaysPlaced<T(!new)>(s: seq<T>, s': seq<T>, l0: int, u0: int, l: int, u: int, lt: (T, T) -> bool)
    requires Placed(s, l0, u0, l, u, lt) && Shuffled(s, s', l, u) && 0 <= l0 <= l && u <= u0 < |s|
    ensures Placed(s', l0, u0, l, u, lt)
  {
    assert forall k :: 0 <= k < |s| && (k < l || u < k) ==> s'[k] == s[k] by { SameOutside(s, s', l, u); }
    forall i, j | l0 <= i < j <= u0 && (i < l || u < j)
      ensures !lt(s'[j], s'[i])
    {
      if i < l && l <= j <= u {
        ShuffleKeeps(s, s', l, u, x => !lt(x, s[i]));
      } else if l <= i <= u && u < j {
        ShuffleKeeps(s, s', l, u, x => !lt(s[j], x));
      }
    }
  }

  lemma SameOutside<T>(s: seq<T>, s': seq<T>, l: int, u: int)
    requires Shuffled(s, s', l, u)
    ensures forall k :: 0 <= k < |s| && (k < l || u < k) ==> s'[k] == s[k]
  {
    forall k | 0 <= k < |s| && (k < l || u < k)
      ensures s'[k] == s[k]
    {
      if k < l {
        assert s'[k] == s'[..l][k] == s[..l][k];
      } else {
        assert s'[k] == s'[u + 1..][k - u - 1] == s[u + 1..][k - u - 1];
      }
    }
  }

  /** After a partition at `m` and the sort of the lower part only the upper part is left. */
  lemma LowerDone<T(!new)>(s: seq<T>, s': seq<T>, l0: int, u0: int, l: int, u: int, m: int, lt: (T, T) -> bool)
    requires StrictWeak(lt) && Placed(s, l0, u0, l, u, lt) && 0 <= l0 <= l < m < u <= u0 < |s|
    requires AtMost(s, l, m, s[m], lt) && AtLeast(s, m, u, s[m], lt)
    requires Shuffled(s, s', l, m - 1) && Sorted(s', l, m - 1, lt)
    ensures Placed(s', l0, u0, m + 1, u, lt)
  {
    ShuffleWider(s, s', l, m - 1, l, u);
    ShuffleStaysPlaced(s, s', l0, u0, l, u, lt);
    SameOutside(s, s', l, m - 1);
    ShuffleKeeps(s, s', l, m - 1, x => !lt(s[m], x));
    hide Shuffled;
    forall i, j | l0 <= i < j <= u0 && (i < m + 1 || u < j)
      ensures !lt(s'[j], s'[i])
    {
      if l <= i && j <= u && m < j { Transitive(lt, s'[j], s'[m], s'[i]); }
    }
  }

  lemma UpperDone<T(!new)>(s: seq<T>, s': seq<T>, l0: int, u0: int, l: int, u: int, m: int, lt: (T, T) -> bool)
    requires StrictWeak(lt) && Placed(s, l0, u0, l, u, lt) && 0 <= l0 <= l < m < u <= u0 < |s|
    requires AtMost(s, l, m, s[m], lt) && AtLeast(s, m, u, s[m], lt)
    requires Shuffled(s, s', m + 1, u) && Sorted(s', m + 1, u, lt)
    ensures Placed(s', l0, u0, l, m - 1, lt)
  {
    ShuffleWider(s, s', m + 1, u, l, u);
    ShuffleStaysPlaced(s, s', l0, u0, l, u, lt);
    SameOutside(s, s', m + 1, u);
    ShuffleKeeps(s, s', m + 1, u, x => !lt(x, s[m]));
    hide Shuffled;
    forall i, j | l0 <= i < j <= u0 && (i < l || m - 1 < j)
      ensures !lt(s'[j], s'[i])
    {
      if l <= i && j <= u && i < m { Transitive(lt, s'[j], s'[m], s'[i]); }
    }
  }

  /** `auxsort`: it calls itself for the smaller part and goes on with the larger one.  Fewer than `Pow2(room)` elements are
      sorted with at most `room` calls inside each other: every nested call has a smaller `room`. */
  method AuxSort<T(!new)>(a: array<T>, l0: int, u0: int, lt: (T, T) -> bool, ghost room: nat) returns (ok: bool)
    requires StrictWeak(lt) && 0 <= l0 <= u0 + 1 <= a.Length && u0 - l0 + 1 < Pow2(room)
    modifies a
    ensures ok && Shuffled(old(a[..]), a[..], l0, u0) && Sorted(a[..], l0, u0, lt)
    decreases room
  {
    hide *;
    var l, u := l0, u0;
    ok := true;
    ghost var s0, s := a[..], a[..];
    StartSort(s, l, u, lt);
    while l < u
      invariant l0 <= l && u <= u0 && ok && a[..] == s
      invariant Shuffled(s0, s, l0, u0) && Placed(s, l0, u0, l, u, lt)
      decreases u - l
    {
      OrderThree(a, l, u, lt);
      ghost var s1 := a[..];
      MoreShuffled(s0, s, s1, l0, u0, l, u, lt);
      if u - l <= 2 {
        FewDone(s1, l0, u0, l, u, lt);
        return;
      }
      var m;
      m, ok := Partition(a, l, u, lt);
      ghost var s2 := a[..];
      MoreShuffled(s0, s1, s2, l0, u0, l, u, lt);
      if m - l < u - m {
        HalfFits(m - l, u0 - l0 + 1, room);
        ok := AuxSort(a, l, m - 1, lt, room - 1);
        s := a[..];
        LowerDone(s2, s, l0, u0, l, u, m, lt);
        PartShuffled(s0, s2, s, l0, u0, l, m - 1);
        l := m + 1;
      } else {
        HalfFits(u - m, u0 - l0 + 1, room);
        ok := AuxSort(a, m + 1, u, lt, room - 1);
        s := a[..];
        UpperDone(s2, s, l0, u0, l, u, m, lt);
        PartShuffled(s0, s2, s, l0, u0, m + 1, u);
        u := m - 1;
      }
    }
    AllPlaced(s, l0, u0, l, u, lt);
  }

  lemma StartSort<T(!new)>(s: seq<T>, l: int, u: int, lt: (T, T) -> bool)
    requires 0 <= l <= u + 1 <= |s|
    ensures Shuffled(s, s, l, u) && Placed(s, l, u, l, u, lt)
  {
  }

  lemma MoreShuffled<T(!new)>(s0: seq<T>, s: seq<T>, s': seq<T>, l0: int, u0: int, l: int, u: int, lt: (T, T) -> bool)
    requires Shuffled(s0, s, l0, u0) && Placed(s, l0, u0, l, u, lt) && Shuffled(s, s', l, u) && 0 <= l0 <= l && u <= u0 < |s|
    ensures Shuffled(s0, s', l0, u0) && Placed(s', l0, u0, l, u, lt)
  {
    ShuffleStaysPlaced(s, s', l0, u0, l, u, lt);
    PartShuffled(s0, s, s', l0, u0, l, u);
  }

  lemma PartShuffled<T>(s0: seq<T>, s: seq<T>, s': seq<T>, l0: int, u0: int, l: int, u: int)
    requires Shuffled(s0, s, l0, u0) && Shuffled(s, s', l, u) && 0 <= l0 <= l && u <= u0 < |s|
    ensures Shuffled(s0, s', l0, u0)
  {
    ShuffleWider(s, s', l, u, l0, u0);
    ShuffleThen(s0, s, s', l0, u0);
  }

  /** Two or three elements are in order after `OrderThree`. */
  lemma FewDone<T(!new)>(s: seq<T>, l0: int, u0: int, l: int, u: int, lt: (T, T) -> bool)
    requires Placed(s, l0, u0, l, u, lt) && 0 <= l0 <= l < u <= u0 < |s| && u - l <= 2 && !lt(s[u], s[l])
    requires u - l > 1 ==> !lt(s[(l + u) / 2], s[l]) && !lt(s[u], s[(l + u) / 2])
    ensures Sorted(s, l0, u0, lt)
  {
  }

  lemma AllPlaced<T(!new)>(s: seq<T>, l0: int, u0: int, l: int, u: int, lt: (T, T) -> bool)
    requires Placed(s, l0, u0, l, u, lt) && l >= u
    ensures Sorted(s, l0, u0, lt)
  {
  }

  /** Half of the elements need one level less. */
  lemma HalfFits(size: nat, n: nat, room: nat)
    requires 2 * size <= n < Pow2(room)
    ensures n > 0 ==> room > 0 && size < Pow2(room - 1)
  {
  }

  /** `table.sort` for a list of `n` elements, which are at the positions 1 to `n` of the array;
      the source makes room for 40 nested calls. */
  method Sort<T(!new)>(a: array<T>, lt: (T, T) -> bool, ghost room: nat) returns (ok: bool)
    requires StrictWeak(lt) && 0 < a.Length <= Pow2(room)
    modifies a
    ensures ok && a[0] == old(a[0]) && multiset(a[1..]) == multiset(old(a[1..]))
    ensures forall i, j :: 1 <= i < j < a.Length ==> !lt(a[j], a[i])
  {
    ok := AuxSort(a, 1, a.Length - 1, lt, room);
    assert a[..][..1] == old(a[..])[..1] && a[..][0] == a[..][..1][0];
    assert a[..][1..a.Length] == a[1..] && old(a[..])[1..a.Length] == old(a[1..]);
    forall i, j | 1 <= i < j < a.Length
      ensures !lt(a[j], a[i])
    {
      assert !lt(a[..][j], a[..][i]);
    }
  }
}
