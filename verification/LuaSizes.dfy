/** The size of the array part of a Lua table (lua/ltable.c): the count of integer keys by slices, and the optimal size. */
module LuaSizes {
  import opened Basics

  const MAXBITS: nat := 26
  const MAXASIZE: nat := 0x400_0000

  lemma {:induction false} Pow2Grows(j: nat, k: nat)
    requires j <= k
    ensures Pow2(j) <= Pow2(k) && (j < k ==> 2 * Pow2(j) <= Pow2(k))
    decreases k
  {
    if j < k { Pow2Grows(j, k - 1); }
  }

  lemma MaxIsPow2()
    ensures Pow2(MAXBITS) == MAXASIZE
  {
    assert Pow2(13) == 8192;
    assert Pow2(26) == 8192 * Pow2(13);
  }

  /** `ceillog2`: the least exponent whose power reaches `k`. */
  function CeilLog2(k: nat): nat
    requires k > 0
  {
    if k == 1 then 0 else 1 + CeilLog2((k + 1) / 2)
  }

  lemma {:induction false} CeilLog2Bounds(k: nat)
    requires k > 0
    ensures k <= Pow2(CeilLog2(k)) && (k > 1 ==> Pow2(CeilLog2(k) - 1) < k)
  {
    if k > 1 {
      CeilLog2Bounds((k + 1) / 2);
    }
  }

  /** The keys of slice `i`: those between 2^(i-1), exclusive, and 2^i. */
  ghost function Slice(s: set<int>, i: nat): set<int> {
    set k | k in s && k <= Pow2(i) && (i == 0 || Pow2(i - 1) < k)
  }

  ghost function UpTo(s: set<int>, n: int): set<int> {
    set k | k in s && k <= n
  }

  /** Keys that may live in an array part. */
  ghost predicate Candidates(s: set<int>) {
    forall k :: k in s ==> 0 < k <= MAXASIZE
  }

  /** `nums[i]` counts the keys of slice `i`. */
  ghost predicate Counts(nums: seq<int>, s: set<int>) {
    |nums| == MAXBITS + 1 && Candidates(s) && forall i :: 0 <= i <= MAXBITS ==> nums[i] == |Slice(s, i)|
  }

  /** `countint`: one more key. */
  lemma CountOne(nums: seq<int>, s: set<int>, k: int)
    requires Counts(nums, s) && 0 < k <= MAXASIZE && k !in s
    ensures CeilLog2(k) <= MAXBITS && Counts(nums[CeilLog2(k) := nums[CeilLog2(k)] + 1], s + {k})
  {
    var c := CeilLog2(k);
    InSlice(k);
    forall i | 0 <= i <= MAXBITS
      ensures |Slice(s + {k}, i)| == if i == c then |Slice(s, i)| + 1 else |Slice(s, i)|
    {
      OneSlice(s, k, i);
    }
  }

  lemma InSlice(k: nat)
    requires 0 < k <= MAXASIZE
    ensures CeilLog2(k) <= MAXBITS
  {
    CeilLog2Bounds(k);
    MaxIsPow2();
    if CeilLog2(k) > MAXBITS { Pow2Grows(MAXBITS, CeilLog2(k) - 1); }
  }

  lemma OneSlice(s: set<int>, k: nat, i: nat)
    requires k > 0 && k !in s
    ensures Slice(s + {k}, i) == if i == CeilLog2(k) then Slice(s, i) + {k} else Slice(s, i)
  {
    InOneSlice(k, i);
    hide Pow2;
    hide CeilLog2;
  }

  lemma InOneSlice(k: nat, i: nat)
    requires k > 0
    ensures (k <= Pow2(i) && (i == 0 || Pow2(i - 1) < k)) <==> i == CeilLog2(k)
  {
    var c := CeilLog2(k);
    CeilLog2Bounds(k);
    if i < c { Pow2Grows(i, c - 1); }
    if c < i { Pow2Grows(c, i - 1); }
  }

  /** Positive keys up to `n` are at most `n`. */
  lemma {:induction false} FewUpTo(s: set<int>, n: nat)
    requires forall k :: k in s ==> k > 0
    ensures |UpTo(s, n)| <= n
  {
    if n == 0 {
      assert UpTo(s, 0) == {};
    } else {
      FewUpTo(s, n - 1);
      assert UpTo(s, n) == UpTo(s, n - 1) + (if n in s then {n} else {});
    }
  }

  /** The best size among the powers of two below 2^m: more than half of it is in use. */
  ghost predicate Best(s: set<int>, m: nat, n: int, na: int) {
    && na == |UpTo(s, n)| && (n == 0 || ((exists i: nat :: i < m && n == Pow2(i)) && 2 * na > n))
    && forall j: nat :: j < m && 2 * |UpTo(s, Pow2(j))| > Pow2(j) ==> Pow2(j) <= n
  }

  /** The largest power of two `n`, or 0, such that more than half of 1..n is in use, and how many keys lie in 1..n. */
  ghost predicate Optimal(s: set<int>, n: int, na: int) {
    && na == |UpTo(s, n)| && (n == 0 || ((exists i: nat :: n == Pow2(i)) && 2 * na > n))
    && forall j: nat :: 2 * |UpTo(s, Pow2(j))| > Pow2(j) ==> Pow2(j) <= n
  }

  /** There is one optimal size. */
  lemma OptimalIsUnique(s: set<int>, n: int, na: int, n': int, na': int)
    requires Optimal(s, n, na) && Optimal(s, n', na')
    ensures n == n' && na == na'
  {
    if n != 0 { var e: nat :| n == Pow2(e); }
    if n' != 0 { var e: nat :| n' == Pow2(e); }
  }

  lemma CeilLog2Tells(k: nat, e: nat)
    requires k > 0
    ensures CeilLog2(k) <= e <==> k <= Pow2(e)
  {
    CeilLog2Bounds(k);
    var c := CeilLog2(k);
    if c <= e { Pow2Grows(c, e); } else { Pow2Grows(e, c - 1); }
  }

  /** Past this point no larger size can be half full: all keys are counted, or the sizes are too large. */
  lemma NoneLarger(s: set<int>, m: nat, n: int, na: int)
    requires Candidates(s) && Best(s, m, n, na)
    requires 2 * |s| <= Pow2(m)
    ensures Optimal(s, n, na)
  {
    forall j: nat | 2 * |UpTo(s, Pow2(j))| > Pow2(j)
      ensures Pow2(j) <= n
    {
      SubsetSize(UpTo(s, Pow2(j)), s);
      if j >= m { Pow2Grows(m, j); }
    }
  }

  lemma NextBest(s: set<int>, i: nat, n: int, na: int, a: int)
    requires Candidates(s) && Best(s, i, n, na) && a == |UpTo(s, Pow2(i))|
    ensures 2 * a > Pow2(i) ==> Best(s, i + 1, Pow2(i), a)
    ensures 2 * a <= Pow2(i) ==> Best(s, i + 1, n, na)
  {
    forall j: nat | j < i
      ensures Pow2(j) <= Pow2(i)
    {
      Pow2Grows(j, i);
    }
    if n != 0 {
      var e: nat :| e < i && n == Pow2(e);
      assert e < i + 1;
    }
  }

  /** The next slice of the count. */
  lemma NextSlice(s: set<int>, i: nat)
    requires Candidates(s)
    ensures |UpTo(s, Pow2(i))| == |Slice(s, i)| + if i == 0 then 0 else |UpTo(s, Pow2(i - 1))|
  {
    if i == 0 {
      assert UpTo(s, 1) == Slice(s, 0);
    } else {
      Pow2Grows(i - 1, i);
      assert UpTo(s, Pow2(i)) == UpTo(s, Pow2(i - 1)) + Slice(s, i);
    }
  }

  /** How many keys lie below slice `i`. */
  ghost function Below(s: set<int>, i: nat): nat {
    if i == 0 then 0 else |UpTo(s, Pow2(i - 1))|
  }

  /** One turn of the loop: slice `i` is counted, and 2^i is the best size so far if its keys fill more than half of it. */
  lemma Turn(nums: seq<int>, s: set<int>, i: nat, n: int, na: int)
    requires Counts(nums, s) && Best(s, i, n, na) && Pow2(i) / 2 < |s| && i <= MAXBITS + 1
    ensures i <= MAXBITS && |nums| == MAXBITS + 1 && nums[i] >= 0 && Below(s, i + 1) == Below(s, i) + nums[i]
    ensures nums[i] > 0 && Below(s, i + 1) > Pow2(i) / 2 ==> Best(s, i + 1, Pow2(i), Below(s, i + 1))
    ensures !(nums[i] > 0 && Below(s, i + 1) > Pow2(i) / 2) ==> Best(s, i + 1, n, na)
    ensures Below(s, i + 1) == |s| ==> 2 * |s| <= Pow2(i + 1)
  {
    hide UpTo, Slice, Optimal, Best;
    InRange(s, i);
    NextSlice(s, i);
    NextBest(s, i, n, na, Below(s, i + 1));
    if nums[i] == 0 { SliceEmpty(s, i); }
    if Below(s, i + 1) == |s| { AllCounted(s, i); }
  }

  lemma NothingCounted(nums: seq<int>, s: set<int>)
    requires Counts(nums, s)
    ensures Candidates(s) && Best(s, 0, 0, 0)
  {
    assert UpTo(s, 0) == {};
  }

  method ComputeSizes(nums: seq<int>, narray: int, ghost s: set<int>) returns (n: int, na: int)
    requires Counts(nums, s) && narray == |s|
    ensures Optimal(s, n, na) && n / 2 <= na <= n <= MAXASIZE
  {
    hide Counts, Best, Optimal, UpTo, Slice, Candidates;
    var i := 0;
    var twotoi := 1;
    var a := 0;
    na, n := 0, 0;
    NothingCounted(nums, s);
    while twotoi / 2 < narray
      invariant 0 <= i <= MAXBITS + 1 && twotoi == Pow2(i)
      invariant a == Below(s, i) && Best(s, i, n, na)
      decreases MAXBITS + 1 - i
    {
      Turn(nums, s, i, n, na);
      if nums[i] > 0 {
        a := a + nums[i];
        if a > twotoi / 2 {
          n := twotoi;
          na := a;
        }
      }
      if a == narray {
        NoneLarger(s, i + 1, n, na);
        break;
      }
      i := i + 1;
      twotoi := twotoi * 2;
    }
    if twotoi / 2 >= narray {
      NoneLarger(s, i, n, na);
    }
    SizeBounds(s, n, na);
  }

  lemma InRange(s: set<int>, i: nat)
    requires Candidates(s) && Pow2(i) / 2 < |s| && i <= MAXBITS + 1
    ensures i <= MAXBITS
  {
    MaxIsPow2();
    FewUpTo(s, MAXASIZE);
    assert UpTo(s, MAXASIZE) == s;
  }

  /** An empty slice cannot make a larger size half full. */
  lemma SliceEmpty(s: set<int>, i: nat)
    requires Candidates(s) && |Slice(s, i)| == 0
    ensures 2 * |UpTo(s, Pow2(i))| <= Pow2(i)
  {
    NextSlice(s, i);
    if i > 0 { FewUpTo(s, Pow2(i - 1)); }
  }

  lemma AllCounted(s: set<int>, i: nat)
    requires Candidates(s) && |UpTo(s, Pow2(i))| == |s|
    ensures 2 * |s| <= Pow2(i + 1)
  {
    FewUpTo(s, Pow2(i));
  }

  lemma SizeBounds(s: set<int>, n: int, na: int)
    requires Candidates(s) && Optimal(s, n, na)
    ensures n / 2 <= na <= n <= MAXASIZE
  {
    if n == 0 {
      assert UpTo(s, 0) == {};
    } else {
      FewUpTo(s, n);
      var e: nat :| n == Pow2(e);
      MaxIsPow2();
      FewUpTo(s, MAXASIZE);
      assert UpTo(s, MAXASIZE) == s;
      SubsetSize(UpTo(s, n), s);
      if e > MAXBITS { Pow2Grows(MAXBITS, e); } else { Pow2Grows(e, MAXBITS); }
    }
  }
}
