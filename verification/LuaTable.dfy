/** Lua tables (lua/ltable.c): the operations on the array and hash parts, and the finite map that they implement. */
module LuaTable {
  import opened Basics
  import opened LuaNodes
  import opened LuaSizes
  import opened LuaEntries
  import opened LuaTableSteps

  class Table {
    var arr: seq<TValue>
    var node: Nodes
    var isdummy: bool
    var lastfree: int
    ghost var rank: seq<real>
    const hash: Hash

    ghost predicate Valid()
      reads this
    {
      Chains(hash, node, rank) && Apart(|arr|, node) && |arr| <= MAXASIZE && Sized(isdummy, node, lastfree)
    }

    ghost function Contents(): map<TValue, TValue>
      reads this`arr, this`node
    {
      Entries(arr, node)
    }

    /** A node is free: the next new key needs no rehash. */
    ghost predicate HasFree()
      reads this
    {
      !isdummy && |Used(node)| < |node|
    }

    predicate SlotOf(slot: Slot, key: TValue)
      reads this
    {
      match slot
      case Absent => false
      case InArr(i) => i < |arr| && key == Int(i + 1)
      case InNode(i) => i < |node| && node[i].key == Live(key) && !InArray(|arr|, key)
    }

    constructor (h: Hash)
      ensures Valid() && hash == h && Contents() == map[] && Keys(arr, node) == {}
    {
      hash := h;
      arr, node, isdummy, lastfree, rank := [], [FREE], true, 0, [0.0];
      new;
      FreshChains(hash, node, rank);
    }

    /** `luaH_new`. */
    static method New(h: Hash, narray: nat, nhash: nat) returns (t: Table, st: Status)
      requires narray <= MAXASIZE
      ensures fresh(t) && t.Valid() && t.hash == h && t.Contents() == map[]
      ensures st == Ok <==> nhash == 0 || CeilLog2(nhash) <= MAXBITS
      ensures st == Ok ==> |t.arr| == narray && |t.node| >= nhash
    {
      t := new Table(h);
      assert Hashed(Keys(t.arr, t.node), narray) == {};
      if nhash != 0 && CeilLog2(nhash) > MAXBITS {
        st := Overflow;
      } else {
        st := t.Resize(narray, nhash);
      }
    }

    // ---------------------------------------------------------------- searching

    method GetFreePos() returns (n: int)
      requires Valid()
      modifies this`lastfree
      ensures Valid() || n >= 0
      ensures n >= 0 ==> n < |node| && node[n].key == NoKey && !isdummy && lastfree == n
      ensures n >= 0 ==> forall i :: n < i < |node| ==> node[i].key != NoKey
      ensures n < 0 ==> isdummy || forall i :: 0 <= i < |node| ==> node[i].key != NoKey
    {
      while true
        invariant isdummy ==> lastfree <= 0
        invariant !isdummy ==> lastfree <= |node| && forall i :: 0 <= i < |node| && lastfree <= i ==> node[i].key != NoKey
        decreases lastfree
      {
        lastfree := lastfree - 1;
        if lastfree < 0 {
          return NULL;
        }
        if node[lastfree].key == NoKey {
          return lastfree;
        }
      }
    }

    /** The search loop along a chain. */
    method FindNode(key: TValue) returns (n: int)
      requires Valid()
      ensures n == NULL || Holds(node, n, key)
      ensures n == NULL ==> forall i :: 0 <= i < |node| ==> node[i].key != Live(key)
    {
      n := Main(hash, |node|, key);
      ghost var m := n;
      assert forall i :: Holds(node, i, key) ==> HomeIs(hash, node, i, m);
      while n != NULL
        invariant n == NULL || 0 <= n < |node|
        invariant forall i :: Holds(node, i, key) ==> Reaches(node, n, i)
        decreases if n == NULL then 0 else 1 + |AtLeast(rank, rank[n])|
      {
        if node[n].key == Live(key) {
          return;
        }
        forall i | Holds(node, i, key)
          ensures Reaches(node, node[n].next, i)
        {
          ReachRanks(node, rank, n, i);
        }
        if node[n].next != NULL { AtLeastShrinks(rank, n, node[n].next); }
        n := node[n].next;
      }
      forall i | 0 <= i < |node|
        ensures node[i].key != Live(key)
      {
        NoReachFromNull(node, i);
        assert Holds(node, i, key) ==> Reaches(node, NULL, i);
      }
    }

    method GetSlot(key: TValue) returns (slot: Slot)
      requires Valid()
      ensures slot == Absent ==> !InArray(|arr|, key) && forall i :: 0 <= i < |node| ==> node[i].key != Live(key)
      ensures slot != Absent ==> SlotOf(slot, key)
    {
      if key.Int? && 1 <= key.i <= |arr| {
        return InArr(key.i - 1);
      }
      var n := FindNode(key);
      slot := if n == NULL then Absent else InNode(n);
    }

    /** `luaH_get`. */
    method Get(key: TValue) returns (v: TValue)
      requires Valid()
      ensures v == (if key in Contents() then Contents()[key] else Nil) && (v != Nil <==> key in Contents())
    {
      hide *;
      BeforeGet(key);
      if key == Nil {
        return Nil;
      }
      var slot := GetSlot(key);
      Found(slot, key);
      match slot
      case Absent => v := Nil;
      case InArr(i) => v := arr[i];
      case InNode(i) => v := node[i].val;
    }

    lemma BeforeGet(key: TValue)
      requires Valid()
      ensures key in Contents() <==> Value(arr, node, key) != Nil
      ensures key in Contents() ==> Contents()[key] == Value(arr, node, key)
      ensures Nil !in Contents()
    {
      EntriesAt(arr, node, key);
      EntriesAt(arr, node, Nil);
    }

    lemma Found(slot: Slot, key: TValue)
      requires Valid() && (slot != Absent ==> SlotOf(slot, key))
      requires slot == Absent ==> !InArray(|arr|, key) && forall i :: 0 <= i < |node| ==> node[i].key != Live(key)
      ensures slot == Absent ==> Value(arr, node, key) == Nil
      ensures slot.InArr? ==> slot.i < |arr| && Value(arr, node, key) == arr[slot.i]
      ensures slot.InNode? ==> slot.i < |node| && Value(arr, node, key) == node[slot.i].val
    {
      if slot.InNode? { ValueAt(node, slot.i, key); }
    }

    // ---------------------------------------------------------------- new keys

    /** `newkey`, when a free node is found: the colliding node moves, or the new key goes behind it. */
    method Collide(key: TValue, mp: nat, n: nat) returns (slot: nat)
      requires Chains(hash, node, rank) && Apart(|arr|, node) && mp == Main(hash, |node|, key) && node[mp].val != Nil
      requires n < |node| && node[n].key == NoKey && NewKeyOk(key)
      modifies this`node, this`rank
      ensures slot < |node| && node[slot].key == Live(key) && Added(hash, old(node), node, rank, |arr|, key, n)
    {
      hide *;
      InUse(mp, key);
      var othern := Main(hash, |node|, node[mp].key.k);
      if othern != mp {
        othern := FindPrevious(mp, othern);
        MoveAll(hash, node, rank, |arr|, mp, n, othern, key);
        slot := mp;
        rank := rank[n := rank[mp]];
        node := node[othern := Node(node[othern].key, node[othern].val, n)];
        node := node[n := node[mp]];
        node := node[mp := Node(node[mp].key, Nil, NULL)];
      } else {
        ChainAll(hash, node, rank, |arr|, mp, n, key);
        slot := n;
        rank := rank[n := Between(node, rank, mp)];
        node := node[n := Node(node[n].key, node[n].val, node[mp].next)];
        node := node[mp := Node(node[mp].key, node[mp].val, n)];
      }
      node := node[slot := Node(Live(key), node[slot].val, node[slot].next)];
    }

    lemma InUse(mp: nat, key: TValue)
      requires Chains(hash, node, rank) && mp < |node| && node[mp].val != Nil && NewKeyOk(key)
      ensures |node| > 0 && node[mp].key != NoKey && (HomeIs(hash, node, mp, mp) <==> Main(hash, |node|, node[mp].key.k) == mp)
      ensures key != Nil && key != NaN && !InArray(|arr|, key) && forall i :: 0 <= i < |node| ==> node[i].key != Live(key)
    {
    }

    /** A key that is not in the table and may come into its hash part. */
    ghost predicate NewKeyOk(key: TValue)
      reads this`node, this`arr
    {
      key != Nil && key != NaN && !InArray(|arr|, key) && forall i :: 0 <= i < |node| ==> node[i].key != Live(key)
    }

    /** The main position of a new key is taken, and no node is free. */
    ghost predicate NeedsRehash(key: TValue)
      reads this
    {
      NewKeyOk(key) && !HasFree() && (isdummy || (|node| > 0 && node[Main(hash, |node|, key)].val != Nil))
    }

    lemma NeedsMeans(key: TValue)
      requires Valid() && NewKeyOk(key)
      ensures |node| > 0 && (NeedsRehash(key) <==> (isdummy || |Used(node)| >= |node|) && (isdummy || node[Main(hash, |node|, key)].val != Nil))
      ensures HasFree() ==> !NeedsRehash(key)
    {
    }

    /** Along the chain from `first`, the node before `mp`. */
    method FindPrevious(mp: nat, first: nat) returns (othern: nat)
      requires Chains(hash, node, rank) && mp < |node| && node[mp].key != NoKey
      requires first == Main(hash, |node|, node[mp].key.k) != mp
      ensures othern < |node| && othern != mp && node[othern].next == mp
    {
      othern := first;
      assert HomeIs(hash, node, mp, first);
      ReachRanks(node, rank, first, mp);
      while node[othern].next != mp
        invariant othern < |node| && othern != mp && Reaches(node, othern, mp) && node[othern].next != NULL
        decreases |AtLeast(rank, rank[othern])|
      {
        ReachRanks(node, rank, othern, mp);
        AtLeastShrinks(rank, othern, node[othern].next);
        othern := node[othern].next;
        ReachRanks(node, rank, othern, mp);
      }
    }

    /** `newkey`. A caller that knows of a free node (`deep` is false) gets no rehash. */
    method NewKey(key: TValue, ghost deep: bool) returns (slot: Slot, st: Status)
      requires Valid() && NewKeyOk(key) && (deep || HasFree())
      modifies this
      ensures Valid() && Contents() == old(Contents()) && (st == Ok ==> SlotOf(slot, key))
      ensures !deep ==> st == Ok && OneMore(old(arr), old(node), old(isdummy))
      ensures st == Ok || (st == Overflow && node == old(node) && OnlyGrown(old(arr), arr))
      ensures st == Overflow <==> old(NeedsRehash(key)) && Overflows(old(Keys(arr, node)) + {key})
      decreases deep, 2
    {
      hide *;
      InTable(key);
      NeedsMeans(key);
      slot := Absent;
      var mp := Main(hash, |node|, key);
      if node[mp].val != Nil || isdummy {
        var n := GetFreePos();
        FreeTells(n, old(node), old(isdummy));
        if n < 0 {
          NoneFree(deep, old(node), old(isdummy));
          st := Rehash(key);
          if st == Ok {
            slot, st := SetSlot(key, false);
          }
          return;
        }
        BeforeCollide(key, mp, n);
        var i := Collide(key, mp, n);
        AfterCollide(old(node), key, n);
        IsSlot(i, key);
        AreOneMore(old(arr), old(node), old(isdummy));
        slot := InNode(i);
      } else {
        RekeyAll(hash, node, rank, |arr|, mp, key);
        node := node[mp := Node(Live(key), node[mp].val, node[mp].next)];
        AfterRekey(old(node), key, mp);
        IsSlot(mp, key);
        AreOneMore(old(arr), old(node), old(isdummy));
        slot := InNode(mp);
      }
      st := Ok;
    }

    lemma IsSlot(i: nat, key: TValue)
      requires i < |node| && node[i].key == Live(key) && !InArray(|arr|, key)
      ensures SlotOf(InNode(i), key)
    {
    }

    lemma ValidKey(slot: Slot, key: TValue)
      requires Valid() && SlotOf(slot, key)
      ensures key != Nil && key != NaN
    {
    }

    /** What one new key may change when there is no rehash: one more node has a key. */
    ghost predicate OneMore(arr0: seq<TValue>, node0: Nodes, dummy0: bool)
      reads this
    {
      arr == arr0 && |node| == |node0| && isdummy == dummy0 && |Used(node)| <= |Used(node0)| + 1
    }

    /** `luaH_set`: the place of the value of a key. */
    method SetSlot(key: TValue, ghost deep: bool) returns (slot: Slot, st: Status)
      requires Valid() && (deep || InArray(|arr|, key) || (HasFree() && key != Nil && key != NaN))
      modifies this
      ensures Valid() && Contents() == old(Contents()) && (st == Ok ==> SlotOf(slot, key))
      ensures !deep ==> st == Ok && OneMore(old(arr), old(node), old(isdummy)) && (InArray(|arr|, key) ==> node == old(node))
      ensures st == KeyIsNil || st == KeyIsNaN ==> node == old(node) && arr == old(arr)
      ensures st == KeyIsNil <==> key == Nil
      ensures st == KeyIsNaN <==> key == NaN
      ensures st == Overflow ==> node == old(node) && OnlyGrown(old(arr), arr)
      ensures st == Overflow <==> old(NeedsRehash(key)) && Overflows(old(Keys(arr, node)) + {key})
      decreases deep, 3
    {
      hide Valid, Contents, Overflows, Keys, Main, Used;
      SetSelf();
      slot := GetSlot(key);
      if slot != Absent {
        ValidKey(slot, key);
        st := Ok;
      } else if key == Nil {
        st := KeyIsNil;
      } else if key == NaN {
        st := KeyIsNaN;
      } else {
        slot, st := NewKey(key, deep);
      }
    }

    lemma SetSelf()
      ensures OneMore(arr, node, isdummy)
    {
    }

    lemma InTable(key: TValue)
      requires Valid() && NewKeyOk(key)
      ensures |node| > 0 && Chains(hash, node, rank) && Apart(|arr|, node) && |rank| == |node|
      ensures key != Nil && key != NaN && !InArray(|arr|, key) && forall i :: 0 <= i < |node| ==> node[i].key != Live(key)
      ensures forall i :: isdummy && 0 <= i < |node| ==> node[i].val == Nil
      ensures KeysOk(node) && |arr| <= MAXASIZE && Contents() == Entries(arr, node)
      ensures !isdummy ==> IsSize(|node|) && lastfree <= |node| && forall i :: 0 <= i < |node| && lastfree <= i ==> node[i].key != NoKey
      ensures HasFree() == (!isdummy && |Used(node)| < |node|)
    {
    }

    lemma AreOneMore(arr0: seq<TValue>, node0: Nodes, dummy0: bool)
      requires arr == arr0 && |node| == |node0| && isdummy == dummy0 && |Used(node)| <= |Used(node0)| + 1
      ensures OneMore(arr0, node0, dummy0)
    {
    }

    /** A free node that the caller knows of would have been found. */
    lemma NoneFree(deep: bool, ns: Nodes, dummy: bool)
      requires Valid() && (deep || (!dummy && |Used(ns)| < |ns|)) && ns == node && dummy == isdummy
      requires isdummy || forall i :: 0 <= i < |node| ==> node[i].key != NoKey
      ensures deep
    {
      FullWhenUsed(node);
    }

    lemma FreeTells(n: int, ns: Nodes, dummy: bool)
      requires n >= 0 ==> n < |ns| && ns[n].key == NoKey && !dummy
      requires n < 0 ==> dummy || forall i :: 0 <= i < |ns| ==> ns[i].key != NoKey
      ensures n < 0 <==> dummy || |Used(ns)| >= |ns|
    {
      FullWhenUsed(ns);
    }

    lemma BeforeCollide(key: TValue, mp: nat, n: int)
      requires |node| > 0 && mp == Main(hash, |node|, key) && !isdummy && (node[mp].val != Nil || isdummy)
      ensures node[mp].val != Nil
    {
    }

    lemma AfterCollide(ns: Nodes, key: TValue, n: nat)
      requires Added(hash, ns, node, rank, |arr|, key, n) && KeysOk(ns) && Apart(|arr|, ns)
      requires |arr| <= MAXASIZE && !isdummy && IsSize(|ns|) && lastfree == n && forall i :: n < i < |ns| ==> ns[i].key != NoKey
      ensures Valid() && Contents() == Entries(arr, ns) && |node| == |ns| && |Used(node)| <= |Used(ns)| + 1
    {
      SameContents(arr, ns, node, key);
    }

    lemma AfterRekey(ns: Nodes, key: TValue, mp: nat)
      requires mp < |ns| && node == ns[mp := Node(Live(key), ns[mp].val, ns[mp].next)] && Chains(hash, node, rank) && Apart(|arr|, node) && SameBut(ns, node, key)
      requires KeysOk(ns) && Apart(|arr|, ns) && |arr| <= MAXASIZE && !isdummy
      requires IsSize(|ns|) && lastfree <= |ns| && forall i :: 0 <= i < |ns| && lastfree <= i ==> ns[i].key != NoKey
      ensures Valid() && Contents() == Entries(arr, ns) && |node| == |ns| && |Used(node)| <= |Used(ns)| + 1
    {
      SameContents(arr, ns, node, key);
      UsedGrows(ns, node, mp);
    }

    // ---------------------------------------------------------------- storing

    /** A value into its place. */
    method Store(slot: Slot, key: TValue, v: TValue)
      requires Valid() && SlotOf(slot, key)
      modifies this`arr, this`node
      ensures Valid() && Contents() == if v == Nil then old(Contents()) - {key} else old(Contents())[key := v]
      ensures |arr| == old(|arr|) && |node| == old(|node|) && Used(node) == old(Used(node)) && (InArray(|arr|, key) ==> node == old(node))
      ensures slot.InArr? ==> arr == old(arr)[slot.i := v] && node == old(node)
      ensures slot.InNode? ==> arr == old(arr) && node == old(node)[slot.i := Node(old(node)[slot.i].key, v, old(node)[slot.i].next)]
    {
      hide *;
      Stored(slot, key);
      match slot
      case Absent =>
      case InArr(i) =>
        StoreArr(arr, node, i, v);
        arr := arr[i := v];
        StillValid();
      case InNode(i) =>
        StoreNode(hash, arr, node, rank, i, key, v);
        SizedStays(isdummy, node, lastfree, i, v);
        node := node[i := Node(node[i].key, v, node[i].next)];
        StillValid();
    }

    lemma StillValid()
      requires Chains(hash, node, rank) && Apart(|arr|, node) && |arr| <= MAXASIZE && Sized(isdummy, node, lastfree)
      ensures Valid() && Contents() == Entries(arr, node)
    {
    }

    lemma Stored(slot: Slot, key: TValue)
      requires Valid() && SlotOf(slot, key)
      ensures slot != Absent && Contents() == Entries(arr, node)
      ensures Chains(hash, node, rank) && KeysOk(node) && Apart(|arr|, node) && |arr| <= MAXASIZE && Sized(isdummy, node, lastfree)
      ensures slot.InArr? ==> slot.i < |arr| && key == Int(slot.i + 1)
      ensures slot.InNode? ==> slot.i < |node| && node[slot.i].key == Live(key) && !InArray(|arr|, key)
    {
    }

    /** `luaH_set` and the assignment to the place that it returns. */
    method Set(key: TValue, v: TValue, ghost deep: bool) returns (st: Status)
      requires Valid() && (deep || InArray(|arr|, key) || (HasFree() && key != Nil && key != NaN))
      modifies this
      ensures Valid() && (st != Ok ==> Contents() == old(Contents()))
      ensures st == Ok ==> Contents() == if v == Nil then old(Contents()) - {key} else old(Contents())[key := v]
      ensures !deep ==> st == Ok && |arr| == old(|arr|) && |node| == old(|node|) && isdummy == old(isdummy)
      ensures !deep ==> |Used(node)| <= old(|Used(node)|) + if InArray(|arr|, key) then 0 else 1
      ensures st == KeyIsNil || st == KeyIsNaN ==> node == old(node) && arr == old(arr)
      ensures st == KeyIsNil <==> key == Nil
      ensures st == KeyIsNaN <==> key == NaN
      ensures st == Overflow ==> node == old(node) && OnlyGrown(old(arr), arr)
      ensures st == Overflow <==> old(NeedsRehash(key)) && Overflows(old(Keys(arr, node)) + {key})
      decreases deep, 4
    {
      hide Valid;
      hide Contents;
      hide Used;
      hide HasFree;
      hide NeedsRehash, Overflows, Keys;
      var slot: Slot;
      slot, st := SetSlot(key, deep);
      if st == Ok {
        Store(slot, key, v);
      }
    }

    // ---------------------------------------------------------------- rehash

    /** `numusearray`: the keys of the array part, slice by slice. */
    method NumUseArray(nums0: seq<int>) returns (nums: seq<int>, ause: int)
      requires |arr| <= MAXASIZE && Counts(nums0, {})
      ensures Counts(nums, Ints(ArrKeys(arr))) && ause == |ArrKeys(arr)|
    {
      nums, ause := nums0, 0;
      var lg, ttlg, i := 0, 1, 1;
      NoneCounted(arr);
      MaxIsPow2();
      assert Pow2(0) == 1;
      hide *;
      while lg <= MAXBITS
        invariant 0 <= lg <= MAXBITS + 1 && ttlg == Pow2(lg) && 1 <= i <= |arr| + 1
        invariant i == 1 + if lg == 0 then 0 else if Pow2(lg - 1) <= |arr| then Pow2(lg - 1) else |arr|
        invariant Counted(arr, i - 1, nums, ause)
        decreases MAXBITS + 1 - lg
      {
        NextPow2(lg);
        var lim := ttlg;
        if lim > |arr| {
          lim := |arr|;
          if i > lim {
            break;
          }
        }
        nums, ause := CountSlice(lg, i, lim, nums, ause);
        i := lim + 1;
        lg, ttlg := lg + 1, ttlg * 2;
      }
      AllCountedUp(arr, i, nums, ause);
    }

    /** The inner loop of `numusearray`: the elements from `i` to `lim`, all in slice `lg`. */
    method CountSlice(lg: nat, i0: nat, lim: nat, nums0: seq<int>, ause0: int) returns (nums: seq<int>, ause: int)
      requires lim <= |arr| <= MAXASIZE && lim <= Pow2(lg) && (lg > 0 ==> Pow2(lg - 1) < i0) && 1 <= i0 <= lim + 1 && lg <= MAXBITS
      requires Counted(arr, i0 - 1, nums0, ause0)
      ensures Counted(arr, lim, nums, ause)
    {
      var lc, i := 0, i0;
      assert |nums0| == MAXBITS + 1;
      assert nums0[lg := nums0[lg] + 0] == nums0;
      hide *;
      while i <= lim
        invariant i0 <= i <= lim + 1 && Counted(arr, i - 1, nums0[lg := nums0[lg] + lc], ause0 + lc)
      {
        if arr[i - 1] != Nil {
          CountedOne(arr, i, nums0, ause0, lg, lc);
          lc := lc + 1;
        } else {
          CountedNone(arr, i, nums0[lg := nums0[lg] + lc], ause0 + lc);
        }
        i := i + 1;
      }
      nums := nums0[lg := nums0[lg] + lc];
      ause := ause0 + lc;
    }

    /** `countint`. */
    static method CountInt(key: TValue, nums0: seq<int>, ghost s: set<int>) returns (nums: seq<int>, one: int)
      requires Counts(nums0, s) && (key.Int? ==> key.i !in s)
      ensures Counts(nums, s + Ints({key})) && one == |Ints({key})|
    {
      if key.Int? && 0 < key.i <= MAXASIZE {
        CountOne(nums0, s, key.i);
        assert Ints({key}) == {key.i};
        nums, one := nums0[CeilLog2(key.i) := nums0[CeilLog2(key.i)] + 1], 1;
      } else {
        assert Ints({key}) == {} && s + {} == s;
        nums, one := nums0, 0;
      }
    }

    /** `numusehash`: the keys of the hash part, and those of them that could live in an array part. */
    method NumUseHash(nums0: seq<int>) returns (nums: seq<int>, totaluse: int, ause: int)
      requires Valid() && Counts(nums0, Ints(ArrKeys(arr)))
      ensures Counts(nums, Ints(ArrKeys(arr)) + Ints(NodeKeys(node, 0)))
      ensures totaluse == |NodeKeys(node, 0)| && ause == |Ints(NodeKeys(node, 0))|
    {
      nums, totaluse, ause := nums0, 0, 0;
      IsCountable();
      hide *;
      var i := |node|;
      NoNodes(arr, node, nums);
      while i > 0
        invariant 0 <= i <= |node| && HashCounted(arr, node, i, nums, totaluse, ause)
        decreases i
      {
        i := i - 1;
        if node[i].val != Nil {
          ghost var s := Ints(ArrKeys(arr)) + Ints(NodeKeys(node, i + 1));
          BeforeCount(arr, node, i, nums, totaluse, ause);
          var one;
          nums, one := CountInt(node[i].key.k, nums, s);
          HashCountedOne(arr, node, i, nums, totaluse, ause, one);
          ause := ause + one;
          totaluse := totaluse + 1;
        } else {
          HashCountedNone(arr, node, i, nums, totaluse, ause);
        }
      }
      HashCountedAll(arr, node, nums, totaluse, ause);
    }

    lemma IsCountable()
      requires Valid()
      ensures Countable(arr, node)
    {
    }

    /** `rehash`: after it there is a place for the extra key `ek`; it overflows exactly if the hash part would be too large. */
    method Rehash(ek: TValue) returns (st: Status)
      requires Valid() && NewKeyOk(ek)
      modifies this
      ensures Valid() && Contents() == old(Contents()) && (st == Ok ==> InArray(|arr|, ek) || HasFree())
      ensures st == Ok || (st == Overflow && node == old(node) && OnlyGrown(old(arr), arr))
      ensures st == Overflow <==> Overflows(old(Keys(arr, node)) + {ek})
      decreases true, 1
    {
      hide *;
      InRehash(ek);
      var nasize, nhsize;
      ghost var na;
      nasize, nhsize, na := CountKeys(ek);
      ghost var arr0, keys := arr, Keys(arr, node);
      OverflowsWhen(keys + {ek}, nasize, na);
      st := Resize(nasize, nhsize);
      RoomForOne(ek, keys, nasize, nhsize, st);
      if st == Overflow { AfterOverflow(arr0, ek, nasize); }
    }

    /** The first half of `rehash`: the sizes of the array part and of the hash part with the extra key. */
    method CountKeys(ek: TValue) returns (nasize: int, nhsize: int, ghost na: int)
      requires Valid() && NewKeyOk(ek)
      ensures 0 <= nasize <= MAXASIZE && Optimal(Ints(Keys(arr, node) + {ek}), nasize, na)
      ensures nhsize == |Hashed(Keys(arr, node) + {ek}, nasize)| == |Hashed(Keys(arr, node), nasize)| + if InArray(nasize, ek) then 0 else 1
    {
      hide *;
      InRehash(ek);
      var nums := seq(MAXBITS + 1, _ => 0);
      NoCounts(nums);
      var totaluse, more, one, free: int;
      nums, nasize := NumUseArray(nums);
      totaluse := nasize;
      nums, more, one := NumUseHash(nums);
      totaluse := totaluse + more;
      nasize := nasize + one;
      nums, one := CountInt(ek, nums, Ints(ArrKeys(arr)) + Ints(NodeKeys(node, 0)));
      nasize := nasize + one;
      totaluse := totaluse + 1;
      TotalCount(arr, node, ek);
      ghost var s := Ints(ArrKeys(arr)) + Ints(NodeKeys(node, 0)) + Ints({ek});
      nasize, free := ComputeSizes(nums, nasize, s);
      HashedWithout(Keys(arr, node), ek, nasize, free, s);
      nhsize := totaluse - free;
      na := free;
    }

    lemma AfterOverflow(arr0: seq<TValue>, ek: TValue, n: nat)
      requires Chains(hash, node, rank) && Apart(|arr0|, node) && |arr0| <= MAXASIZE && Sized(isdummy, node, lastfree)
      requires OnlyGrown(arr0, arr) && |arr| == (if n > |arr0| then n else |arr0|) && n <= MAXASIZE
      requires |Hashed(Keys(arr0, node) + {ek}, n)| > 0x400_0000
      ensures Valid() && Contents() == Entries(arr0, node)
    {
      SizedFew(isdummy, node, lastfree);
      OverflowKeeps(arr0, arr, node, ek, n);
    }

    lemma InRehash(ek: TValue)
      requires Valid() && NewKeyOk(ek)
      ensures KeysOk(node) && Apart(|arr|, node) && |arr| <= MAXASIZE && ek !in Keys(arr, node)
      ensures Chains(hash, node, rank) && Sized(isdummy, node, lastfree) && Contents() == Entries(arr, node)
      ensures ek.Int? ==> ek.i !in Ints(ArrKeys(arr)) + Ints(NodeKeys(node, 0))
    {
      EntriesAt(arr, node, ek);
      forall k | k in Keys(arr, node)
        ensures k != ek
      {
      }
    }

    lemma RoomForOne(ek: TValue, keys: set<TValue>, nasize: int, nhsize: int, st: Status)
      requires st == Ok ==> |arr| == nasize && nhsize <= |node| && (isdummy <==> nhsize == 0) && |Used(node)| <= |Hashed(keys, nasize)|
      requires 0 <= nasize && nhsize == |Hashed(keys, nasize)| + if InArray(nasize, ek) then 0 else 1
      ensures st == Ok ==> InArray(|arr|, ek) || HasFree()
    {
    }

    /** `setarrayvector`, for a part that grows. */
    method SetArrayVector(size: nat)
      requires size >= |arr|
      modifies this`arr
      ensures |arr| == size && OnlyGrown(old(arr), arr) && forall i :: 0 <= i < size ==> arr[i] == if i < old(|arr|) then old(arr)[i] else Nil
    {
      arr := arr + seq(size - |arr|, _ => Nil);
    }

    /** `setnodevector`: `size` free nodes, rounded up to a power of two, or the shared node. */
    method SetNodeVector(size: nat) returns (st: Status)
      modifies this`node, this`isdummy, this`lastfree, this`rank
      ensures st == Ok || (st == Overflow && node == old(node) && isdummy == old(isdummy) && lastfree == old(lastfree) && rank == old(rank))
      ensures st == Ok <==> size == 0 || CeilLog2(size) <= MAXBITS
      ensures st == Ok ==> Chains(hash, node, rank) && Sized(isdummy, node, lastfree) && |node| >= size && (isdummy <==> size == 0)
      ensures st == Ok ==> forall i :: 0 <= i < |node| ==> node[i] == FREE
    {
      if size == 0 {
        node, isdummy, lastfree, rank := [FREE], true, 0, [0.0];
      } else {
        var lsize := CeilLog2(size);
        if lsize > MAXBITS {
          return Overflow;
        }
        CeilLog2Bounds(size);
        node, isdummy, lastfree, rank := seq(Pow2(lsize), _ => FREE), false, Pow2(lsize), seq(Pow2(lsize), _ => 0.0);
      }
      st := Ok;
      FreshChains(hash, node, rank);
    }

    /** `resize`: every entry is inserted again, and none of these insertions causes another rehash. */
    method Resize(nasize: nat, nhsize: nat) returns (st: Status)
      requires Valid() && nasize <= MAXASIZE && |Hashed(Keys(arr, node), nasize)| <= nhsize
      modifies this
      ensures st == Ok ==> Valid() && Contents() == old(Contents()) && |arr| == nasize
      ensures st == Ok ==> nhsize <= |node| && (isdummy <==> nhsize == 0) && |Used(node)| <= |Hashed(old(Keys(arr, node)), nasize)|
      ensures st == Ok || (st == Overflow && node == old(node) && isdummy == old(isdummy) && lastfree == old(lastfree) && rank == old(rank))
      ensures st == Overflow ==> OnlyGrown(old(arr), arr) && |arr| == if nasize > old(|arr|) then nasize else old(|arr|)
      ensures st == Ok <==> nhsize == 0 || CeilLog2(nhsize) <= MAXBITS
      decreases true, 0
    {
      hide *;
      InResize(nasize, nhsize);
      var arr0, node0 := arr, node;
      GrownSelf(arr);
      if nasize > |arr| {
        SetArrayVector(nasize);
      }
      st := SetNodeVector(nhsize);
      if st != Ok {
        return;
      }
      if nasize < |arr0| {
        arr := arr[..nasize];
      }
      StartRefill(arr0, node0, nasize, nhsize);
      if nasize < |arr0| {
        RefillArray(arr0, node0, nasize, nhsize);
      }
      RefillNodes(arr0, node0, nasize, nhsize);
      AllBack(arr0, node0, nasize, nhsize);
    }

    /** Re-insertion in progress: of the entries of `arr0` and `node0` those with a key in `done` are back. */
    ghost predicate Refilled(arr0: seq<TValue>, node0: Nodes, nasize: nat, nhsize: nat, done: set<TValue>)
      reads this
    {
      && Valid() && |arr| == nasize && nhsize <= |node| && (isdummy <==> nhsize == 0)
      && Contents() == Only(Entries(arr0, node0), done)
      && |Used(node)| <= |Hashed(done, nasize)|
    }

    /** The elements of the vanishing slice of the array part. */
    method RefillArray(arr0: seq<TValue>, node0: Nodes, nasize: nat, nhsize: nat)
      requires Source(arr0, node0, nasize, nhsize) && nasize < |arr0|
      requires Refilled(arr0, node0, nasize, nhsize, ArrKeys(arr0[..nasize]))
      modifies this
      ensures Refilled(arr0, node0, nasize, nhsize, ArrKeys(arr0))
      decreases true, 0, 0
    {
      hide *;
      SourceParts(arr0, node0, nasize, nhsize);
      var i := nasize;
      while i < |arr0|
        invariant nasize <= i <= |arr0| && Refilled(arr0, node0, nasize, nhsize, ArrKeys(arr0[..i]))
      {
        ArrNext(arr0, node0, i);
        if arr0[i] != Nil {
          Reinsert(arr0, node0, nasize, nhsize, ArrKeys(arr0[..i]), Int(i + 1), arr0[i]);
        }
        i := i + 1;
      }
      assert arr0[..i] == arr0;
    }

    /** The entries of the old hash part, from the last node to the first. */
    method RefillNodes(arr0: seq<TValue>, node0: Nodes, nasize: nat, nhsize: nat)
      requires Source(arr0, node0, nasize, nhsize)
      requires Refilled(arr0, node0, nasize, nhsize, ArrKeys(arr0))
      modifies this
      ensures Refilled(arr0, node0, nasize, nhsize, Keys(arr0, node0))
      decreases true, 0, 0
    {
      hide *;
      SourceParts(arr0, node0, nasize, nhsize);
      NodesDone(arr0, node0);
      var i := |node0|;
      while i > 0
        invariant 0 <= i <= |node0| && Refilled(arr0, node0, nasize, nhsize, ArrKeys(arr0) + NodeKeys(node0, i))
      {
        i := i - 1;
        NodeNext(arr0, node0, i);
        if node0[i].val != Nil {
          Reinsert(arr0, node0, nasize, nhsize, ArrKeys(arr0) + NodeKeys(node0, i + 1), node0[i].key.k, node0[i].val);
        }
      }
    }

    method Reinsert(arr0: seq<TValue>, node0: Nodes, nasize: nat, nhsize: nat, ghost done: set<TValue>, k: TValue, v: TValue)
      requires Source(arr0, node0, nasize, nhsize)
      requires Refilled(arr0, node0, nasize, nhsize, done)
      requires k !in done && done <= Keys(arr0, node0) && k in Keys(arr0, node0) && v != Nil && Value(arr0, node0, k) == v
      modifies this
      ensures Refilled(arr0, node0, nasize, nhsize, done + {k})
      decreases false, 5
    {
      hide *;
      BeforeReinsert(arr0, node0, nasize, nhsize, done, k);
      RefilledParts(arr0, node0, nasize, nhsize, done);
      var st := Set(k, v, false);
      AfterReinsert(arr0, node0, nasize, nhsize, done, k, v, old(Contents()), old(|Used(node)|));
    }

    lemma InResize(nasize: nat, nhsize: nat)
      requires Valid() && |Hashed(Keys(arr, node), nasize)| <= nhsize
      ensures Source(arr, node, nasize, nhsize) && Contents() == Entries(arr, node)
    {
    }

    lemma StartRefill(arr0: seq<TValue>, node0: Nodes, nasize: nat, nhsize: nat)
      requires Source(arr0, node0, nasize, nhsize) && nasize <= MAXASIZE
      requires |arr| == nasize && forall i :: 0 <= i < nasize ==> arr[i] == if i < |arr0| then arr0[i] else Nil
      requires Chains(hash, node, rank) && Sized(isdummy, node, lastfree) && |node| >= nhsize && (isdummy <==> nhsize == 0)
      requires forall i :: 0 <= i < |node| ==> node[i] == FREE
      ensures Refilled(arr0, node0, nasize, nhsize, ArrKeys(if nasize < |arr0| then arr0[..nasize] else arr0))
    {
      hide *;
      var done := ArrKeys(if nasize < |arr0| then arr0[..nasize] else arr0);
      StartEntries(arr0, node0, nasize, nhsize, arr, node);
      StillValid();
      AreRefilled(arr0, node0, nasize, nhsize, done);
    }

    lemma AreRefilled(arr0: seq<TValue>, node0: Nodes, nasize: nat, nhsize: nat, done: set<TValue>)
      requires Valid() && |arr| == nasize && nhsize <= |node| && (isdummy <==> nhsize == 0)
      requires Contents() == Only(Entries(arr0, node0), done) && |Used(node)| <= |Hashed(done, nasize)|
      ensures Refilled(arr0, node0, nasize, nhsize, done)
    {
    }

    /** Before an insertion: the key goes to the array part, or a node is free. */
    lemma BeforeReinsert(arr0: seq<TValue>, node0: Nodes, nasize: nat, nhsize: nat, done: set<TValue>, k: TValue)
      requires Source(arr0, node0, nasize, nhsize) && Refilled(arr0, node0, nasize, nhsize, done)
      requires k !in done && done <= Keys(arr0, node0) && k in Keys(arr0, node0)
      ensures Valid() && (InArray(|arr|, k) || (HasFree() && k != Nil && k != NaN))
    {
      if !InArray(nasize, k) {
        assert Hashed(done, nasize) + {k} <= Hashed(Keys(arr0, node0), nasize);
        SubsetSize(Hashed(done, nasize) + {k}, Hashed(Keys(arr0, node0), nasize));
        assert |Hashed(done, nasize) + {k}| == |Hashed(done, nasize)| + 1;
      }
    }

    lemma AfterReinsert(arr0: seq<TValue>, node0: Nodes, nasize: nat, nhsize: nat, done: set<TValue>, k: TValue, v: TValue,
                        contents: map<TValue, TValue>, used: nat)
      requires Source(arr0, node0, nasize, nhsize)
      requires Valid() && |arr| == nasize && nhsize <= |node| && (isdummy <==> nhsize == 0)
      requires contents == Only(Entries(arr0, node0), done) && used <= |Hashed(done, nasize)|
      requires Contents() == contents[k := v] && |Used(node)| <= used + if InArray(|arr|, k) then 0 else 1
      requires k !in done && k in Keys(arr0, node0) && Value(arr0, node0, k) == v
      ensures Refilled(arr0, node0, nasize, nhsize, done + {k})
    {
      SourceParts(arr0, node0, nasize, nhsize);
      hide *;
      EntriesAt(arr0, node0, k);
      OneBack(Entries(arr0, node0), done, k, v, nasize);
      AreRefilled(arr0, node0, nasize, nhsize, done + {k});
    }

    lemma AllBack(arr0: seq<TValue>, node0: Nodes, nasize: nat, nhsize: nat)
      requires Source(arr0, node0, nasize, nhsize) && Refilled(arr0, node0, nasize, nhsize, Keys(arr0, node0))
      ensures Valid() && Contents() == Entries(arr0, node0) && |arr| == nasize
      ensures nhsize <= |node| && (isdummy <==> nhsize == 0) && |Used(node)| <= |Hashed(Keys(arr0, node0), nasize)|
    {
    }

    lemma RefilledParts(arr0: seq<TValue>, node0: Nodes, nasize: nat, nhsize: nat, done: set<TValue>)
      requires Refilled(arr0, node0, nasize, nhsize, done)
      ensures Valid() && |arr| == nasize && nhsize <= |node| && (isdummy <==> nhsize == 0)
      ensures Contents() == Only(Entries(arr0, node0), done)
      ensures |Used(node)| <= |Hashed(done, nasize)|
    {
    }

    // ---------------------------------------------------------------- removed entries and traversal

    /** `removeentry` of lua/lgc.c: the collector marks the key of an empty entry as dead. */
    method RemoveEntry(i: nat)
      requires Valid() && i < |node| && node[i].val == Nil && node[i].key.Live?
      modifies this`node
      ensures Valid() && Contents() == old(Contents())
      ensures node == if old(node)[i].key.k.Collectable() then old(node)[i := Node(Dead(old(node)[i].key.k), Nil, old(node)[i].next)] else old(node)
    {
      if node[i].key.k.Collectable() {
        KillKeeps(hash, node, rank, |arr|, i);
        KillSame(arr, node, i);
        node := node[i := Node(Dead(node[i].key.k), node[i].val, node[i].next)];
      }
    }

    /** Node `i` is where `luaH_next` may find the key: in use, or removed since. */
    predicate Keeps(i: int, key: TValue)
      reads this`node
    {
      0 <= i < |node| && (node[i].key == Live(key) || (node[i].key == Dead(key) && key.Collectable()))
    }

    /** `findindex`: the position of a key, or -1 for nil. It fails if the key was never in the table. */
    method FindIndex(key: TValue) returns (i: int, ok: bool)
      requires Valid()
      ensures key == Nil ==> ok && i == -1
      ensures InArray(|arr|, key) ==> ok && i == key.i - 1
      ensures key != Nil && !InArray(|arr|, key) && ok ==> |arr| <= i && Keeps(i - |arr|, key)
      ensures key != Nil && !InArray(|arr|, key) && ok ==> forall j :: Keeps(j, key) && j != i - |arr| ==> rank[i - |arr|] < rank[j]
      ensures !ok ==> forall j :: !Keeps(j, key)
    {
      if key == Nil {
        return -1, true;
      }
      if key.Int? && 0 < key.i <= |arr| {
        return key.i - 1, true;
      }
      var n := FindKept(key);
      if n == NULL {
        return 0, false;
      }
      i, ok := n + |arr|, true;
    }

    /** The first node on the chain of a key that keeps it. */
    method FindKept(key: TValue) returns (n: int)
      requires Valid()
      ensures n == NULL ==> forall j :: !Keeps(j, key)
      ensures n != NULL ==> Keeps(n, key) && |rank| == |node| && forall j :: Keeps(j, key) && j != n ==> rank[n] < rank[j]
    {
      StartOfChain(key);
      hide *;
      n := Main(hash, |node|, key);
      while n != NULL
        invariant n == NULL || 0 <= n < |node| == |rank|
        invariant OnChain(n, key)
        decreases if n == NULL then 0 else 1 + |AtLeast(rank, rank[n])|
      {
        NextOnChain(n, key);
        if node[n].key == Live(key) || (node[n].key == Dead(key) && key.Collectable()) {
          return;
        }
        n := node[n].next;
      }
      EndOfChain(key);
    }

    /** All nodes that keep the key lie on the chain from node `n` on. */
    ghost predicate OnChain(n: int, key: TValue)
      reads this`node
    {
      forall j :: Keeps(j, key) ==> Reaches(node, n, j)
    }

    lemma StartOfChain(key: TValue)
      requires Valid()
      ensures |node| == |rank| > 0 && OnChain(Main(hash, |node|, key), key)
    {
      assert forall j :: Keeps(j, key) ==> HomeIs(hash, node, j, Main(hash, |node|, key));
    }

    lemma NextOnChain(n: nat, key: TValue)
      requires Valid() && n < |node| && OnChain(n, key)
      ensures node[n].next == NULL || 0 <= node[n].next < |node| == |rank|
      ensures node[n].next != NULL ==> |AtLeast(rank, rank[node[n].next])| < |AtLeast(rank, rank[n])|
      ensures Keeps(n, key) <==> (node[n].key == Live(key) || (node[n].key == Dead(key) && key.Collectable()))
      ensures |rank| == |node| && forall j :: Keeps(j, key) && j != n ==> 0 <= j < |node| && rank[n] < rank[j]
      ensures !Keeps(n, key) ==> OnChain(node[n].next, key)
    {
      forall j | Keeps(j, key) && j != n
        ensures rank[n] < rank[j] && Reaches(node, node[n].next, j)
      {
        ReachRanks(node, rank, n, j);
      }
      if node[n].next != NULL { AtLeastShrinks(rank, n, node[n].next); }
    }

    lemma EndOfChain(key: TValue)
      requires OnChain(NULL, key)
      ensures forall j :: !Keeps(j, key)
    {
      forall j | 0 <= j < |node|
        ensures !Keeps(j, key)
      {
        NoReachFromNull(node, j);
      }
    }

    /** `luaH_next`: the entry after a key, in the order of positions; `more` is false after the last. */
    method Next(key: TValue) returns (more: bool, k: TValue, v: TValue, ghost at: int, ok: bool, ghost from: int)
      requires Valid()
      ensures !ok ==> key != Nil && !InArray(|arr|, key) && forall j :: !Keeps(j, key)
      ensures ok && key == Nil ==> from == -1
      ensures ok && InArray(|arr|, key) ==> from == key.i - 1
      ensures ok && key != Nil && !InArray(|arr|, key) ==> |arr| <= from && Keeps(from - |arr|, key)
      ensures ok && key != Nil && !InArray(|arr|, key) ==> forall j :: Keeps(j, key) && j != from - |arr| ==> rank[from - |arr|] < rank[j]
      ensures ok && more ==> from < at < |arr| + |node| && (k, v) == EntryAt(arr, node, at) && v != Nil
      ensures ok ==> forall p :: 0 <= p && from < p < (if more then at else |arr| + |node|) ==> EntryAt(arr, node, p).1 == Nil
    {
      hide Valid, Keeps;
      more, k, v, at := false, Nil, Nil, 0;
      var i: int;
      i, ok := FindIndex(key);
      from := i;
      if !ok {
        return;
      }
      i := i + 1;
      while i < |arr|
        invariant from < i && (i <= |arr| || i == from + 1) && 0 <= i
        invariant forall p :: 0 <= p && from < p < i ==> EntryAt(arr, node, p).1 == Nil
        decreases |arr| - i
      {
        if arr[i] != Nil {
          return true, Int(i + 1), arr[i], i, true, from;
        }
        i := i + 1;
      }
      i := i - |arr|;
      while i < |node|
        invariant from < i + |arr| && 0 <= i
        invariant forall p :: 0 <= p && from < p < i + |arr| && p < |arr| + |node| ==> EntryAt(arr, node, p).1 == Nil
        decreases |node| - i
      {
        if node[i].val != Nil {
          ValueHasKey(i);
          return true, node[i].key.k, node[i].val, i + |arr|, true, from;
        }
        i := i + 1;
      }
    }

    lemma ValueHasKey(i: nat)
      requires Valid() && i < |node| && node[i].val != Nil
      ensures node[i].key.Live?
    {
    }

    method Disturb(c: Change)
      requires Valid()
      modifies this`arr, this`node
      ensures Valid() && Steady(old(arr), old(node), arr, node) && Contents() == Changed(old(Contents()), c)
      ensures c.Collect? && c.i < |old(node)| && old(node)[c.i].val == Nil && old(node)[c.i].key.Live? && old(node)[c.i].key.k.Collectable() ==>
        c.i < |node| && node[c.i].key.Dead?
    {
      hide *;
      SteadySelf(arr, node);
      ChangedMeans(Contents(), c);
      match c
      case Assign(key, v) =>
        var slot := GetSlot(key);
        SlotBounds(slot, key);
        if slot != Absent && (if slot.InArr? then arr[slot.i] else node[slot.i].val) != Nil {
          Store(slot, key, v);
          StoreSteady(old(arr), old(node), arr, node, slot, v);
        }
      case Collect(i) =>
        if i < |node| && node[i].val == Nil && node[i].key.Live? {
          RemoveEntry(i);
          KillSteady(arr, old(node), node, i);
        }
    }

    lemma ChangedMeans(m: map<TValue, TValue>, c: Change)
      ensures c.Collect? ==> Changed(m, c) == m
      ensures c.Assign? ==> Changed(m, c) == if c.key !in m then m else if c.v == Nil then m - {c.key} else m[c.key := c.v]
    {
    }

    /** A field exists when its place holds a value. */
    lemma SlotBounds(slot: Slot, key: TValue)
      requires Valid() && (slot != Absent ==> SlotOf(slot, key))
      requires slot == Absent ==> !InArray(|arr|, key) && forall i :: 0 <= i < |node| ==> node[i].key != Live(key)
      ensures slot == Absent ==> key !in Contents()
      ensures slot.InArr? ==> slot.i < |arr| && (key in Contents() <==> arr[slot.i] != Nil)
      ensures slot.InNode? ==> slot.i < |node| && (key in Contents() <==> node[slot.i].val != Nil)
    {
      BeforeGet(key);
      Found(slot, key);
    }

    method DisturbAll(cs: seq<Change>)
      requires Valid()
      modifies this`arr, this`node
      ensures Valid() && Steady(old(arr), old(node), arr, node) && Contents() == ChangedAll(old(Contents()), cs)
    {
      hide *;
      SteadySelf(arr, node);
      AllChanged(Contents(), cs, 0);
      var i := 0;
      while i < |cs|
        invariant 0 <= i <= |cs| && Valid() && Steady(old(arr), old(node), arr, node)
        invariant Contents() == ChangedAll(old(Contents()), cs[..i])
        decreases |cs| - i
      {
        ghost var a, ns := arr, node;
        Disturb(cs[i]);
        SteadyThen(old(arr), old(node), a, ns, arr, node);
        AllChanged(old(Contents()), cs, i + 1);
        i := i + 1;
      }
      assert cs[..i] == cs;
    }

    lemma AllChanged(m: map<TValue, TValue>, cs: seq<Change>, i: nat)
      requires i <= |cs|
      ensures ChangedAll(m, cs[..i]) == if i == 0 then m else Changed(ChangedAll(m, cs[..i - 1]), cs[i - 1])
    {
      if i > 0 { assert cs[..i][..i - 1] == cs[..i - 1]; }
    }

    /**
     * A traversal with `luaH_next` from nil. After visit `j` the changes `rounds[j]` are made: existing fields are assigned to
     * or cleared, and keys collected, but no entry is added. Each visit gives the value of that moment, no key comes twice,
     * and every key that is there at the end was visited.
     */
    method Traverse(rounds: seq<seq<Change>>) returns (visited: seq<(TValue, TValue)>)
      requires Valid()
      modifies this`arr, this`node
      ensures Valid() && Contents() == Before(old(Contents()), rounds, |visited|)
      ensures forall i, j :: 0 <= i < j < |visited| ==> visited[i].0 != visited[j].0
      ensures forall i :: 0 <= i < |visited| ==> Gives(Before(old(Contents()), rounds, i), visited[i])
      ensures forall k :: k in Contents() ==> exists i :: 0 <= i < |visited| && visited[i].0 == k
    {
      hide *;
      visited := [];
      var key := Nil;
      ghost var ps: seq<int> := [];
      ghost var pos := -1;
      ghost var arr0, node0 := arr, node;
      StartTraversal();
      BeforeMeans(Contents(), rounds, 0);
      while true
        invariant Valid() && Steady(arr0, node0, arr, node)
        invariant StandsAt(key, pos) && Visited(arr0, node0, arr, node, visited, ps, pos)
        invariant Contents() == Before(old(Contents()), rounds, |visited|)
        invariant forall i :: 0 <= i < |visited| ==> Gives(Before(old(Contents()), rounds, i), visited[i])
        invariant -1 <= pos < |arr| + |node|
        decreases |arr| + |node| - pos
      {
        var more, k, v, ok;
        ghost var at, from;
        more, k, v, at, ok, from := Next(key);
        FoundAgain(key, pos, ok, from);
        if !more {
          EndTraversal(arr0, node0, visited, ps, pos);
          return;
        }
        AtNext(arr0, node0, visited, ps, pos, at, k, v);
        visited := visited + [(k, v)];
        ps := ps + [at];
        key, pos := k, at;
        BeforeMeans(old(Contents()), rounds, |visited|);
        if |visited| <= |rounds| {
          StandsMeans(key, pos);
          ghost var a, ns := arr, node;
          DisturbAll(rounds[|visited| - 1]);
          AfterDisturb(arr0, node0, a, ns, visited, ps, pos, key);
        }
      }
    }

    lemma BeforeMeans(m: map<TValue, TValue>, rounds: seq<seq<Change>>, i: nat)
      ensures i == 0 ==> Before(m, rounds, i) == m
      ensures i > 0 ==> Before(m, rounds, i) == if i <= |rounds| then ChangedAll(Before(m, rounds, i - 1), rounds[i - 1]) else Before(m, rounds, i - 1)
    {
    }

    /** The last key given out is at position `pos`, and the search from its main position finds it there first. */
    ghost predicate StandsAt(key: TValue, pos: int)
      reads this`arr, this`node, this`rank
    {
      if pos == -1 then key == Nil
      else
        && key != Nil && 0 <= pos < |arr| + |node| && EntryAt(arr, node, pos).0 == key && |rank| == |node|
        && (InArray(|arr|, key) <==> pos < |arr|)
        && (pos >= |arr| ==> First(node, rank, pos - |arr|, key))
    }

    lemma StartTraversal()
      requires Valid()
      ensures StandsAt(Nil, -1) && Visited(arr, node, arr, node, [], [], -1) && Steady(arr, node, arr, node)
      ensures Countable(arr, node) && Contents() == Entries(arr, node)
    {
    }

    lemma FoundAgain(key: TValue, pos: int, ok: bool, from: int)
      requires Valid() && StandsAt(key, pos)
      requires !ok ==> key != Nil && !InArray(|arr|, key) && forall j :: !Keeps(j, key)
      requires ok && key == Nil ==> from == -1
      requires ok && InArray(|arr|, key) ==> from == key.i - 1
      requires ok && key != Nil && !InArray(|arr|, key) ==> |arr| <= from && Keeps(from - |arr|, key)
      requires ok && key != Nil && !InArray(|arr|, key) ==> forall j :: Keeps(j, key) && j != from - |arr| ==> rank[from - |arr|] < rank[j]
      ensures ok && from == pos
    {
      if pos >= |arr| {
        assert Keeps(pos - |arr|, key);
      }
    }

    lemma AtNext(arr0: seq<TValue>, node0: Nodes, visited: seq<(TValue, TValue)>, ps: seq<int>, pos: int, at: int, k: TValue, v: TValue)
      requires Valid() && Visited(arr0, node0, arr, node, visited, ps, pos) && Steady(arr0, node0, arr, node)
      requires -1 <= pos < at < |arr| + |node| && (k, v) == EntryAt(arr, node, at) && v != Nil
      requires forall p :: 0 <= p && pos < p < at ==> EntryAt(arr, node, p).1 == Nil
      ensures StandsAt(k, at) && Visited(arr0, node0, arr, node, visited + [(k, v)], ps + [at], at)
      ensures Gives(Contents(), (k, v))
    {
      hide *;
      VisitedMore(arr0, node0, arr, node, visited, ps, pos, at, k, v);
      ValueStands(at, k, v);
    }

    /** A node with a value is the first with its key on its chain. */
    lemma ValueStands(at: nat, k: TValue, v: TValue)
      requires Valid() && at < |arr| + |node| && (k, v) == EntryAt(arr, node, at) && v != Nil
      ensures StandsAt(k, at) && Gives(Contents(), (k, v))
    {
      AtPosition(arr, node, at);
      if at >= |arr| {
        assert node[at - |arr|].key == Live(k);
        assert First(node, rank, at - |arr|, k);
      }
    }

    lemma AfterDisturb(arr0: seq<TValue>, node0: Nodes, a: seq<TValue>, ns: Nodes, visited: seq<(TValue, TValue)>, ps: seq<int>, pos: int, key: TValue)
      requires Steady(arr0, node0, a, ns) && Steady(a, ns, arr, node) && |rank| == |ns| && 0 <= pos < |a| + |ns|
      requires Visited(arr0, node0, a, ns, visited, ps, pos)
      requires key != Nil && EntryAt(a, ns, pos).0 == key && (InArray(|a|, key) <==> pos < |a|) && (pos >= |a| ==> First(ns, rank, pos - |a|, key))
      ensures Steady(arr0, node0, arr, node) && Visited(arr0, node0, arr, node, visited, ps, pos) && StandsAt(key, pos)
      ensures |arr| == |a| && |node| == |ns|
    {
      hide *;
      SteadyThen(arr0, node0, a, ns, arr, node);
      VisitedStays(arr0, node0, a, ns, arr, node, visited, ps, pos);
      FirstStays(a, ns, arr, node, rank, pos, key);
      Stands(key, pos);
    }

    lemma StandsMeans(key: TValue, pos: int)
      requires StandsAt(key, pos) && pos >= 0
      ensures key != Nil && pos < |arr| + |node| && EntryAt(arr, node, pos).0 == key && |rank| == |node|
      ensures (InArray(|arr|, key) <==> pos < |arr|) && (pos >= |arr| ==> First(node, rank, pos - |arr|, key))
    {
    }

    lemma Stands(key: TValue, pos: int)
      requires key != Nil && 0 <= pos < |arr| + |node| && EntryAt(arr, node, pos).0 == key && |rank| == |node|
      requires (InArray(|arr|, key) <==> pos < |arr|) && (pos >= |arr| ==> First(node, rank, pos - |arr|, key))
      ensures StandsAt(key, pos)
    {
    }

    lemma EndTraversal(arr0: seq<TValue>, node0: Nodes, visited: seq<(TValue, TValue)>, ps: seq<int>, pos: int)
      requires Valid() && Visited(arr0, node0, arr, node, visited, ps, pos) && Steady(arr0, node0, arr, node)
      requires forall p :: 0 <= p && pos < p < |arr| + |node| ==> EntryAt(arr, node, p).1 == Nil
      requires Countable(arr0, node0)
      ensures forall i, j :: 0 <= i < j < |visited| ==> visited[i].0 != visited[j].0
      ensures forall k :: k in Contents() ==> exists i :: 0 <= i < |visited| && visited[i].0 == k
    {
      forall i, j | 0 <= i < j < |visited|
        ensures visited[i].0 != visited[j].0
      {
        Distinct(arr0, node0, ps[i], ps[j]);
      }
      forall k | k in Contents()
        ensures exists i :: 0 <= i < |visited| && visited[i].0 == k
      {
        var p := PositionOf(arr, node, k);
        var i :| 0 <= i < |ps| && ps[i] == p;
        assert visited[i].0 == k;
      }
    }

    // ---------------------------------------------------------------- the border

    /** A border: t[n] is not nil, or n is 0, and t[n + 1] is nil. */
    ghost predicate Border(n: int)
      reads this`arr, this`node
    {
      n >= 0 && (n == 0 || Int(n) in Contents()) && Int(n + 1) !in Contents()
    }

    /** `luaH_getn`, the length operator. */
    method GetN() returns (n: int)
      requires Valid()
      ensures Border(n)
    {
      var j := |arr|;
      if j > 0 && arr[j - 1] == Nil {
        var i := 0;
        while j - i > 1
          invariant 0 <= i < j <= |arr| && arr[j - 1] == Nil && (i == 0 || arr[i - 1] != Nil)
          decreases j - i
        {
          var m := (i + j) / 2;
          if arr[m - 1] == Nil { j := m; } else { i := m; }
        }
        EntriesAt(arr, node, Int(i));
        EntriesAt(arr, node, Int(i + 1));
        return i;
      }
      EntriesAt(arr, node, Int(j));
      if isdummy {
        EntriesAt(arr, node, Int(j + 1));
        return j;
      }
      n := UnboundSearch(j);
    }

    method UnboundSearch(j0: nat) returns (n: int)
      requires Valid() && (j0 == 0 || Int(j0) in Contents()) && j0 < MAX_INT
      ensures Border(n)
    {
      hide *;
      var i, j := j0, j0 + 1;
      var v := Get(Int(j));
      while v != Nil
        invariant 0 <= i < j && j <= MAX_INT && (i == 0 || Int(i) in Contents())
        invariant v != Nil <==> Int(j) in Contents()
        decreases MAX_INT - j
      {
        i := j;
        j := j * 2;
        if j > MAX_INT {
          n := LinearSearch();
          return;
        }
        v := Get(Int(j));
      }
      while j - i > 1
        invariant 0 <= i < j && (i == 0 || Int(i) in Contents()) && Int(j) !in Contents()
        decreases j - i
      {
        var m := (i + j) / 2;
        v := Get(Int(m));
        if v == Nil { j := m; } else { i := m; }
      }
      n := i;
      IsBorder(n);
    }

    lemma IsBorder(n: int)
      requires n >= 0 && (n == 0 || Int(n) in Contents()) && Int(n + 1) !in Contents()
      ensures Border(n)
    {
    }

    method LinearSearch() returns (n: int)
      requires Valid()
      ensures Border(n)
    {
      hide *;
      var i := 1;
      var v := Get(Int(i));
      ghost var left := Contents().Keys;
      while v != Nil
        invariant i >= 1 && (i == 1 || Int(i - 1) in Contents())
        invariant v != Nil <==> Int(i) in Contents()
        invariant forall k :: k in Contents() && k.Int? && k.i >= i ==> k in left
        decreases |left|
      {
        left := left - {Int(i)};
        i := i + 1;
        v := Get(Int(i));
      }
      n := i - 1;
      IsBorder(n);
    }
  }
}
