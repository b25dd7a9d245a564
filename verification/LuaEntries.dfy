/** What a Lua table holds: the contents of its array and hash parts as one finite map, and how the steps of lua/ltable.c change it. */
module LuaEntries {
  import opened Basics
  import opened LuaNodes
  import opened LuaSizes

  ghost predicate Holds(ns: Nodes, i: int, k: TValue) {
    0 <= i < |ns| && ns[i].key == Live(k)
  }

  /** The value of a key in the hash part. */
  ghost function NodeValue(ns: Nodes, k: TValue): TValue {
    if exists i :: Holds(ns, i, k) then (var i :| Holds(ns, i, k); ns[i].val) else Nil
  }

  /** An integer key that the array part of this size covers. */
  predicate InArray(size: nat, k: TValue) {
    k.Int? && 1 <= k.i <= size
  }

  ghost function Value(arr: seq<TValue>, ns: Nodes, k: TValue): TValue {
    if InArray(|arr|, k) then arr[k.i - 1] else NodeValue(ns, k)
  }

  /** The hash part has no value whose key belongs to the array part. */
  ghost predicate Apart(size: nat, ns: Nodes) {
    forall i :: 0 <= i < |ns| && ns[i].key.Live? && ns[i].val != Nil ==> !InArray(size, ns[i].key.k)
  }

  ghost function ArrKeys(arr: seq<TValue>): set<TValue> {
    set i | 0 <= i < |arr| && arr[i] != Nil :: Int(i + 1)
  }

  /** The keys with a value in the nodes from the `j`-th on. */
  ghost function NodeKeys(ns: Nodes, j: nat): set<TValue> {
    set i | j <= i < |ns| && ns[i].key.Live? && ns[i].val != Nil :: ns[i].key.k
  }

  ghost function Keys(arr: seq<TValue>, ns: Nodes): set<TValue> {
    ArrKeys(arr) + NodeKeys(ns, 0)
  }

  /** The finite map that a table stands for. */
  ghost function Entries(arr: seq<TValue>, ns: Nodes): map<TValue, TValue> {
    map k | k in Keys(arr, ns) :: Value(arr, ns, k)
  }

  lemma ValueAt(ns: Nodes, i: int, k: TValue)
    requires KeysOk(ns) && Holds(ns, i, k)
    ensures NodeValue(ns, k) == ns[i].val
  {
    forall j | Holds(ns, j, k)
      ensures j == i
    {
      assert ns[i].key == ns[j].key;
    }
  }

  /** The keys are those with a value. */
  lemma KeysHaveValues(arr: seq<TValue>, ns: Nodes, k: TValue)
    requires KeysOk(ns) && Apart(|arr|, ns)
    ensures k in Keys(arr, ns) <==> Value(arr, ns, k) != Nil
  {
    if k in NodeKeys(ns, 0) {
      var i :| 0 <= i < |ns| && ns[i].key.Live? && ns[i].val != Nil && ns[i].key.k == k;
      ValueAt(ns, i, k);
    }
    if InArray(|arr|, k) {
      assert arr[k.i - 1] != Nil ==> Int((k.i - 1) + 1) in ArrKeys(arr);
    } else if NodeValue(ns, k) != Nil {
      var i :| Holds(ns, i, k) && NodeValue(ns, k) == ns[i].val;
      assert ns[i].key.k in NodeKeys(ns, 0);
    }
  }

  lemma EntriesAt(arr: seq<TValue>, ns: Nodes, k: TValue)
    requires KeysOk(ns) && Apart(|arr|, ns)
    ensures k in Entries(arr, ns) <==> Value(arr, ns, k) != Nil
    ensures k in Entries(arr, ns) ==> Entries(arr, ns)[k] == Value(arr, ns, k)
    ensures k in Keys(arr, ns) <==> k in Entries(arr, ns)
  {
    KeysHaveValues(arr, ns, k);
  }

  /** A map with one value changed. */
  lemma EntriesUpdate(arr: seq<TValue>, ns: Nodes, arr': seq<TValue>, ns': Nodes, key: TValue, v: TValue)
    requires KeysOk(ns) && Apart(|arr|, ns) && KeysOk(ns') && Apart(|arr'|, ns')
    requires forall k :: Value(arr', ns', k) == if k == key then v else Value(arr, ns, k)
    ensures Entries(arr', ns') == if v == Nil then Entries(arr, ns) - {key} else Entries(arr, ns)[key := v]
  {
    hide *;
    forall k
      ensures k in Entries(arr, ns) <==> Value(arr, ns, k) != Nil
      ensures k in Entries(arr, ns) ==> Entries(arr, ns)[k] == Value(arr, ns, k)
      ensures k in Entries(arr', ns') <==> Value(arr', ns', k) != Nil
      ensures k in Entries(arr', ns') ==> Entries(arr', ns')[k] == Value(arr', ns', k)
    {
      EntriesAt(arr, ns, k);
      EntriesAt(arr', ns', k);
    }
  }

  /** Same values, same map. */
  lemma EntriesSame(arr: seq<TValue>, ns: Nodes, arr': seq<TValue>, ns': Nodes)
    requires KeysOk(ns) && Apart(|arr|, ns) && KeysOk(ns') && Apart(|arr'|, ns')
    requires forall k :: Value(arr', ns', k) == Value(arr, ns, k)
    ensures Entries(arr', ns') == Entries(arr, ns)
  {
    hide *;
    forall k
      ensures k in Entries(arr, ns) <==> k in Entries(arr', ns')
      ensures k in Entries(arr, ns) ==> Entries(arr', ns')[k] == Entries(arr, ns)[k]
    {
      EntriesAt(arr, ns, k);
      EntriesAt(arr', ns', k);
    }
  }

  // ---------------------------------------------------------------- what `newkey` does to the contents

  /** The entries with a value are in the nodes of both, by a renaming of nodes; the new key `key` has no value yet. */
  ghost predicate SameBut(ns: Nodes, ns': Nodes, key: TValue) {
    && (forall i :: 0 <= i < |ns| && ns[i].key.Live? && ns[i].val != Nil ==> exists j :: Holds(ns', j, ns[i].key.k) && ns'[j].val == ns[i].val)
    && (forall j :: 0 <= j < |ns'| && ns'[j].key.Live? && ns'[j].val != Nil ==> exists i :: Holds(ns, i, ns'[j].key.k) && ns[i].val == ns'[j].val)
    && NodeValue(ns, key) == Nil
  }

  lemma SameButValues(ns: Nodes, ns': Nodes, key: TValue, k: TValue)
    requires KeysOk(ns) && KeysOk(ns') && SameBut(ns, ns', key)
    ensures NodeValue(ns', k) == NodeValue(ns, k)
  {
    if NodeValue(ns, k) != Nil {
      var i :| Holds(ns, i, k) && ns[i].val == NodeValue(ns, k);
      var j :| Holds(ns', j, ns[i].key.k) && ns'[j].val == ns[i].val;
      ValueAt(ns', j, k);
    } else if NodeValue(ns', k) != Nil {
      var j :| Holds(ns', j, k) && ns'[j].val == NodeValue(ns', k);
      var i :| Holds(ns, i, ns'[j].key.k) && ns[i].val == ns'[j].val;
      ValueAt(ns, i, k);
    }
  }

  lemma RekeySame(ns: Nodes, mp: nat, k: TValue)
    requires KeysOk(ns) && mp < |ns| && ns[mp].val == Nil && forall i :: 0 <= i < |ns| ==> ns[i].key != Live(k)
    ensures SameBut(ns, Rekeyed(ns, mp, k), k)
  {
    var ns' := Rekeyed(ns, mp, k);
    forall i | 0 <= i < |ns| && ns[i].key.Live? && ns[i].val != Nil
      ensures exists j :: Holds(ns', j, ns[i].key.k) && ns'[j].val == ns[i].val
    {
      assert Holds(ns', i, ns[i].key.k);
    }
    forall j | 0 <= j < |ns'| && ns'[j].key.Live? && ns'[j].val != Nil
      ensures exists i :: Holds(ns, i, ns'[j].key.k) && ns[i].val == ns'[j].val
    {
      assert Holds(ns, j, ns'[j].key.k);
    }
  }

  lemma ChainSame(ns: Nodes, mp: nat, n: nat, k: TValue)
    requires KeysOk(ns) && mp < |ns| && n < |ns| && mp != n && ns[n].key == NoKey && forall i :: 0 <= i < |ns| ==> ns[i].key != Live(k)
    ensures SameBut(ns, Chained(ns, mp, n, k), k)
  {
    var ns' := Chained(ns, mp, n, k);
    forall i | 0 <= i < |ns| && ns[i].key.Live? && ns[i].val != Nil
      ensures exists j :: Holds(ns', j, ns[i].key.k) && ns'[j].val == ns[i].val
    {
      assert Holds(ns', i, ns[i].key.k);
    }
    forall j | 0 <= j < |ns'| && ns'[j].key.Live? && ns'[j].val != Nil
      ensures exists i :: Holds(ns, i, ns'[j].key.k) && ns[i].val == ns'[j].val
    {
      assert Holds(ns, j, ns'[j].key.k);
    }
  }

  lemma MoveSame(ns: Nodes, mp: nat, n: nat, prev: nat, k: TValue)
    requires KeysOk(ns) && mp < |ns| && n < |ns| && prev < |ns| && mp != n && prev != n && prev != mp
    requires ns[n].key == NoKey && forall i :: 0 <= i < |ns| ==> ns[i].key != Live(k)
    ensures SameBut(ns, Moved(ns, mp, n, prev, k), k)
  {
    var ns' := Moved(ns, mp, n, prev, k);
    forall i | 0 <= i < |ns| && ns[i].key.Live? && ns[i].val != Nil
      ensures exists j :: Holds(ns', j, ns[i].key.k) && ns'[j].val == ns[i].val
    {
      assert Holds(ns', Shift(mp, n, i), ns[i].key.k);
    }
    forall j | 0 <= j < |ns'| && ns'[j].key.Live? && ns'[j].val != Nil
      ensures exists i :: Holds(ns, i, ns'[j].key.k) && ns[i].val == ns'[j].val
    {
      assert Holds(ns, if j == n then mp else j, ns'[j].key.k);
    }
  }

  // ---------------------------------------------------------------- room

  /** The nodes that have a key. */
  ghost function Used(ns: Nodes): set<nat> {
    set i | i in Range(|ns|) && ns[i].key != NoKey
  }

  function Range(n: nat): (s: set<nat>)
    ensures |s| == n && forall i: nat :: i in s <==> i < n
  {
    if n == 0 then {} else Range(n - 1) + {n - 1}
  }

  /** Every node has a key exactly when as many keys were set as there are nodes. */
  lemma FullWhenUsed(ns: Nodes)
    ensures |Used(ns)| <= |ns| && (|Used(ns)| == |ns| <==> forall i :: 0 <= i < |ns| ==> ns[i].key != NoKey)
  {
    var all := Range(|ns|);
    assert all == Used(ns) + (all - Used(ns));
    assert |all| == |Used(ns)| + |all - Used(ns)|;
    forall i: nat | i < |ns|
      ensures ns[i].key == NoKey <==> i in all - Used(ns)
    {
    }
  }

  lemma UsedGrows(ns: Nodes, ns': Nodes, n: nat)
    requires |ns'| == |ns| && n < |ns| && forall i :: 0 <= i < |ns| && i != n && ns'[i].key != NoKey ==> ns[i].key != NoKey
    ensures |Used(ns')| <= |Used(ns)| + 1 && (ns[n].key != NoKey ==> |Used(ns')| <= |Used(ns)|)
  {
    assert Used(ns') <= Used(ns) + {n};
    SubsetSize(Used(ns'), Used(ns) + {n});
    if ns[n].key != NoKey { assert Used(ns) + {n} == Used(ns); }
  }

  // ---------------------------------------------------------------- counting keys

  ghost function Ints(keys: set<TValue>): set<int> {
    set k | k in keys && k.Int? && 0 < k.i <= 0x400_0000 :: k.i
  }

  /** The keys of a set that stay out of an array part of this size. */
  ghost function Hashed(keys: set<TValue>, size: int): set<TValue> {
    set k | k in keys && !(k.Int? && 1 <= k.i <= size)
  }

  /** The keys are those that go to the array part, as many as integers up to its size, and those that go to the hash part. */
  lemma {:induction false} HashedCount(keys: set<TValue>, size: int)
    requires size <= MAXASIZE
    ensures |keys| == |Hashed(keys, size)| + |UpTo(Ints(keys), size)|
    decreases keys
  {
    if keys == {} {
      assert Hashed(keys, size) == {} && UpTo(Ints(keys), size) == {};
    } else {
      var k :| k in keys;
      HashedCount(keys - {k}, size);
      HashedOne(keys - {k}, k, size);
      assert keys == keys - {k} + {k};
    }
  }

  lemma HashedOne(rest: set<TValue>, k: TValue, size: int)
    requires size <= MAXASIZE && k !in rest
    ensures |Hashed(rest + {k}, size)| + |UpTo(Ints(rest + {k}), size)| == |Hashed(rest, size)| + |UpTo(Ints(rest), size)| + 1
  {
    if k.Int? && 1 <= k.i <= size {
      assert Hashed(rest + {k}, size) == Hashed(rest, size);
      assert UpTo(Ints(rest + {k}), size) == UpTo(Ints(rest), size) + {k.i};
      assert k.i !in Ints(rest);
    } else {
      assert Hashed(rest + {k}, size) == Hashed(rest, size) + {k};
      assert UpTo(Ints(rest + {k}), size) == UpTo(Ints(rest), size);
    }
  }
}
