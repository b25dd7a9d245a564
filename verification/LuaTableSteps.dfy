/** The steps of lua/ltable.c on the parts of a table: what each does to the chains, the contents, the counts and the positions. */
module LuaTableSteps {
  import opened Basics
  import opened LuaNodes
  import opened LuaSizes
  import opened LuaEntries

  datatype Status = Ok | Overflow | KeyIsNil | KeyIsNaN

  /** Where a value is stored. */
  datatype Slot = Absent | InArr(i: nat) | InNode(i: nat)

  const FREE := Node(NoKey, Nil, NULL)

  /** Free places were added at the end. */
  ghost predicate OnlyGrown(arr0: seq<TValue>, arr: seq<TValue>) {
    arr0 <= arr && forall i :: |arr0| <= i < |arr| ==> arr[i] == Nil
  }

  lemma GrownSelf(arr: seq<TValue>)
    ensures OnlyGrown(arr, arr)
  {
  }

  /** As many keys as nodes. */
  lemma {:induction false} FewNodeKeys(ns: Nodes, j: nat)
    requires j <= |ns|
    ensures |NodeKeys(ns, j)| <= |ns| - j
    decreases |ns| - j
  {
    if j == |ns| {
      assert NodeKeys(ns, j) == {};
    } else {
      FewNodeKeys(ns, j + 1);
      var one := if ns[j].key.Live? && ns[j].val != Nil then {ns[j].key.k} else {};
      assert NodeKeys(ns, j) == NodeKeys(ns, j + 1) + one;
    }
  }

  /** With a key of the hash part in an array part of size `n`, the other keys fit into the nodes that there are. */
  lemma OneLessHashed(arr: seq<TValue>, ns: Nodes, ek: TValue, n: int, k: TValue)
    requires |arr| <= n && k in NodeKeys(ns, 0) && InArray(n, k)
    ensures |Hashed(Keys(arr, ns) + {ek}, n)| <= |ns|
  {
    FewNodeKeys(ns, 0);
    var others := NodeKeys(ns, 0) - {k} + {ek};
    forall x | x in Hashed(Keys(arr, ns) + {ek}, n)
      ensures x in others
    {
    }
    SubsetSize(Hashed(Keys(arr, ns) + {ek}, n), others);
  }

  /**
   * After a "table overflow" the array part may have grown while the hash part is the old one. No entry is lost: if the
   * larger array part covered a key of the hash part, the hash part would not have had to grow.
   */
  lemma OverflowKeeps(arr0: seq<TValue>, arr: seq<TValue>, ns: Nodes, ek: TValue, n: int)
    requires KeysOk(ns) && Apart(|arr0|, ns) && OnlyGrown(arr0, arr)
    requires 0 <= n && |arr| == (if n > |arr0| then n else |arr0|)
    requires |ns| <= 0x400_0000 < |Hashed(Keys(arr0, ns) + {ek}, n)|
    ensures Apart(|arr|, ns) && Entries(arr, ns) == Entries(arr0, ns)
  {
    forall i | 0 <= i < |ns| && ns[i].key.Live? && ns[i].val != Nil
      ensures !InArray(|arr|, ns[i].key.k)
    {
      if InArray(|arr|, ns[i].key.k) { OneLessHashed(arr0, ns, ek, n, ns[i].key.k); }
    }
    forall k
      ensures Value(arr, ns, k) == Value(arr0, ns, k)
    {
      if InArray(|arr|, k) { InNoNode(arr, ns, k); }
    }
    EntriesSame(arr0, ns, arr, ns);
  }

  lemma InNoNode(arr: seq<TValue>, ns: Nodes, k: TValue)
    requires KeysOk(ns) && Apart(|arr|, ns) && InArray(|arr|, k)
    ensures NodeValue(ns, k) == Nil
  {
  }

  /** With the optimal size for the array part, the hash part of a table with these keys would be too large. */
  ghost predicate Overflows(keys: set<TValue>) {
    exists n: int, na: int :: Optimal(Ints(keys), n, na) && |Hashed(keys, n)| > 0x400_0000
  }

  lemma OverflowsWhen(keys: set<TValue>, n: int, na: int)
    requires Optimal(Ints(keys), n, na)
    ensures Overflows(keys) <==> |Hashed(keys, n)| > 0x400_0000
    ensures Overflows(keys) <==> !(|Hashed(keys, n)| == 0 || CeilLog2(|Hashed(keys, n)|) <= MAXBITS)
  {
    forall n': int, na': int | Optimal(Ints(keys), n', na')
      ensures n' == n
    {
      OptimalIsUnique(Ints(keys), n, na, n', na');
    }
    MaxIsPow2();
    if |Hashed(keys, n)| > 0 { CeilLog2Tells(|Hashed(keys, n)|, MAXBITS); }
  }

  ghost predicate IsSize(n: nat) {
    exists e: nat :: e <= MAXBITS && n == Pow2(e)
  }

  /** All nodes from `lastfree` on have a key; the table without hash part has one shared node, which is never written. */
  ghost predicate Sized(isdummy: bool, ns: Nodes, lastfree: int) {
    if isdummy then ns == [FREE] && lastfree <= 0
    else IsSize(|ns|) && lastfree <= |ns| && forall i :: 0 <= i < |ns| && lastfree <= i ==> ns[i].key != NoKey
  }

  lemma SizedFew(isdummy: bool, ns: Nodes, lastfree: int)
    requires Sized(isdummy, ns, lastfree)
    ensures |ns| <= 0x400_0000
  {
    if !isdummy {
      MaxIsPow2();
      var e: nat :| e <= MAXBITS && |ns| == Pow2(e);
      Pow2Grows(e, MAXBITS);
    }
  }

  /** The keys of the nodes after a new key, which has no value yet: at most node `n` is no longer free. */
  ghost predicate AddedKeys(ns: Nodes, ns': Nodes, size: nat, key: TValue, n: nat) {
    && |ns'| == |ns| && n < |ns| && Apart(size, ns')
    && (forall i :: 0 <= i < |ns| && i != n ==> (ns'[i].key == NoKey <==> ns[i].key == NoKey))
    && ns'[n].key != NoKey && |Used(ns')| <= |Used(ns)| + 1
    && forall i :: 0 <= i < |ns| && ns'[i].key == Live(key) ==> ns'[i].val == Nil
  }

  /** The chains and the contents are as they were, but for the new key. */
  ghost predicate Added(hash: Hash, ns: Nodes, ns': Nodes, rank: seq<real>, size: nat, key: TValue, n: nat) {
    AddedKeys(ns, ns', size, key, n) && Chains(hash, ns', rank) && SameBut(ns, ns', key)
  }

  lemma AddedWhen(hash: Hash, ns: Nodes, ns': Nodes, rank: seq<real>, size: nat, key: TValue, n: nat)
    requires AddedKeys(ns, ns', size, key, n) && Chains(hash, ns', rank) && SameBut(ns, ns', key)
    ensures Added(hash, ns, ns', rank, size, key, n)
  {
  }

  lemma MovedKeys(ns: Nodes, rank: seq<real>, size: nat, mp: nat, n: nat, prev: nat, k: TValue)
    requires Linked(ns, rank) && Apart(size, ns) && mp < |ns| && n < |ns| && prev < |ns| && ns[prev].next == mp && ns[mp].key != NoKey
    requires ns[n].key == NoKey && !InArray(size, k) && forall i :: 0 <= i < |ns| ==> ns[i].key != Live(k)
    ensures AddedKeys(ns, Moved(ns, mp, n, prev, k), size, k, n) && prev != mp && prev != n && mp != n
    ensures Moved(ns, mp, n, prev, k) == ns[prev := Node(ns[prev].key, ns[prev].val, n)][n := ns[mp]][mp := Node(ns[mp].key, Nil, NULL)][mp := Node(Live(k), Nil, NULL)]
  {
    var ns' := Moved(ns, mp, n, prev, k);
    assert prev != mp && prev != n && mp != n;
    hide Linked;
    KeysAdded(ns, ns', size, k, n, mp);
  }

  /** The new key is at `slot`; if that is not the free node `n`, the key that was there is at `n`. */
  lemma KeysAdded(ns: Nodes, ns': Nodes, size: nat, key: TValue, n: nat, slot: nat)
    requires |ns'| == |ns| && slot < |ns| && n < |ns| && ns[n].key == NoKey && (slot != n ==> ns[slot].key != NoKey && ns'[n].key == ns[slot].key && ns'[n].val == ns[slot].val)
    requires forall i :: 0 <= i < |ns| && i != slot && i != n ==> ns'[i].key == ns[i].key && ns'[i].val == ns[i].val
    requires ns'[slot].key == Live(key) && ns'[slot].val == Nil
    requires Apart(size, ns) && !InArray(size, key) && forall i :: 0 <= i < |ns| ==> ns[i].key != Live(key)
    ensures AddedKeys(ns, ns', size, key, n)
  {
    UsedGrows(ns, ns', n);
  }

  lemma MoveAll(hash: Hash, ns: Nodes, rank: seq<real>, size: nat, mp: nat, n: nat, prev: nat, k: TValue)
    requires Chains(hash, ns, rank) && Apart(size, ns) && mp < |ns| && n < |ns| && prev < |ns| && mp == Main(hash, |ns|, k)
    requires ns[prev].next == mp && ns[mp].key != NoKey && !HomeIs(hash, ns, mp, mp) && ns[n].key == NoKey
    requires k != Nil && k != NaN && !InArray(size, k) && forall i :: 0 <= i < |ns| ==> ns[i].key != Live(k)
    ensures |rank| == |ns| && prev != mp && prev != n && mp != n
    ensures Added(hash, ns, ns[prev := Node(ns[prev].key, ns[prev].val, n)][n := ns[mp]][mp := Node(ns[mp].key, Nil, NULL)][mp := Node(Live(k), Nil, NULL)],
                  rank[n := rank[mp]], size, k, n)
  {
    hide *;
    ChainsInto(hash, ns, rank);
    MovedKeys(ns, rank, size, mp, n, prev, k);
    MoveKeeps(hash, ns, rank, mp, n, prev, k);
    MoveSame(ns, mp, n, prev, k);
    AddedWhen(hash, ns, Moved(ns, mp, n, prev, k), rank[n := rank[mp]], size, k, n);
  }

  lemma ChainedKeys(ns: Nodes, rank: seq<real>, size: nat, mp: nat, n: nat, k: TValue)
    requires Linked(ns, rank) && Apart(size, ns) && mp < |ns| && n < |ns| && ns[mp].val != Nil && ns[mp].key != NoKey
    requires ns[n].key == NoKey && !InArray(size, k) && forall i :: 0 <= i < |ns| ==> ns[i].key != Live(k)
    ensures AddedKeys(ns, Chained(ns, mp, n, k), size, k, n) && mp != n && ns[n].val == Nil && ns[mp].next < |ns|
    ensures Chained(ns, mp, n, k) == ns[n := Node(NoKey, Nil, ns[mp].next)][mp := Node(ns[mp].key, ns[mp].val, n)][n := Node(Live(k), Nil, ns[mp].next)]
  {
    KeysAdded(ns, Chained(ns, mp, n, k), size, k, n, n);
  }

  lemma ChainAll(hash: Hash, ns: Nodes, rank: seq<real>, size: nat, mp: nat, n: nat, k: TValue)
    requires Chains(hash, ns, rank) && Apart(size, ns) && mp < |ns| && n < |ns| && mp == Main(hash, |ns|, k)
    requires HomeIs(hash, ns, mp, mp) && ns[mp].val != Nil && ns[mp].key != NoKey && ns[n].key == NoKey
    requires k != Nil && k != NaN && !InArray(size, k) && forall i :: 0 <= i < |ns| ==> ns[i].key != Live(k)
    ensures ns[mp].next < |ns| == |rank| && mp != n && ns[n].val == Nil
    ensures Added(hash, ns, ns[n := Node(NoKey, Nil, ns[mp].next)][mp := Node(ns[mp].key, ns[mp].val, n)][n := Node(Live(k), Nil, ns[mp].next)],
                  rank[n := Between(ns, rank, mp)], size, k, n)
  {
    hide *;
    ChainsInto(hash, ns, rank);
    ChainedKeys(ns, rank, size, mp, n, k);
    ChainKeeps(hash, ns, rank, mp, n, k);
    ChainSame(ns, mp, n, k);
    AddedWhen(hash, ns, Chained(ns, mp, n, k), rank[n := Between(ns, rank, mp)], size, k, n);
  }

  lemma SameContents(arr: seq<TValue>, ns: Nodes, ns': Nodes, key: TValue)
    requires KeysOk(ns) && KeysOk(ns') && Apart(|arr|, ns) && Apart(|arr|, ns') && SameBut(ns, ns', key)
    ensures Entries(arr, ns') == Entries(arr, ns)
  {
    forall k
      ensures Value(arr, ns', k) == Value(arr, ns, k)
    {
      SameButValues(ns, ns', key, k);
    }
    EntriesSame(arr, ns, arr, ns');
  }

  lemma RekeyAll(hash: Hash, ns: Nodes, rank: seq<real>, size: nat, mp: nat, k: TValue)
    requires Chains(hash, ns, rank) && Apart(size, ns) && mp < |ns| && mp == Main(hash, |ns|, k) && ns[mp].val == Nil
    requires k != Nil && k != NaN && !InArray(size, k) && forall i :: 0 <= i < |ns| ==> ns[i].key != Live(k)
    ensures var ns' := ns[mp := Node(Live(k), ns[mp].val, ns[mp].next)];
            Chains(hash, ns', rank) && Apart(size, ns') && SameBut(ns, ns', k)
  {
    RekeyKeeps(hash, ns, rank, mp, k);
    RekeySame(ns, mp, k);
  }

  lemma SizedStays(isdummy: bool, ns: Nodes, lastfree: int, i: nat, v: TValue)
    requires Sized(isdummy, ns, lastfree) && i < |ns| && ns[i].key.Live?
    ensures Sized(isdummy, ns[i := Node(ns[i].key, v, ns[i].next)], lastfree)
  {
  }

  lemma StoreArr(arr: seq<TValue>, ns: Nodes, i: nat, v: TValue)
    requires KeysOk(ns) && Apart(|arr|, ns) && i < |arr|
    ensures Entries(arr[i := v], ns) == if v == Nil then Entries(arr, ns) - {Int(i + 1)} else Entries(arr, ns)[Int(i + 1) := v]
  {
    EntriesUpdate(arr, ns, arr[i := v], ns, Int(i + 1), v);
  }

  lemma StoreNode(hash: Hash, arr: seq<TValue>, ns: Nodes, rank: seq<real>, i: nat, key: TValue, v: TValue)
    requires Chains(hash, ns, rank) && Apart(|arr|, ns) && i < |ns| && ns[i].key == Live(key) && !InArray(|arr|, key)
    ensures var ns' := ns[i := Node(ns[i].key, v, ns[i].next)];
            && Chains(hash, ns', rank) && Apart(|arr|, ns') && Used(ns') == Used(ns)
            && Entries(arr, ns') == if v == Nil then Entries(arr, ns) - {key} else Entries(arr, ns)[key := v]
  {
    hide *;
    ChainsInto(hash, ns, rank);
    StoreChains(hash, ns, rank, |arr|, i, v);
    StoredEntries(arr, ns, i, key, v);
  }

  lemma StoreChains(hash: Hash, ns: Nodes, rank: seq<real>, size: nat, i: nat, v: TValue)
    requires Chains(hash, ns, rank) && Apart(size, ns) && i < |ns| && ns[i].key.Live? && !InArray(size, ns[i].key.k)
    ensures var ns' := ns[i := Node(ns[i].key, v, ns[i].next)];
            Chains(hash, ns', rank) && Apart(size, ns') && Used(ns') == Used(ns)
  {
    hide *;
    ChainsInto(hash, ns, rank);
    StoreHomed(hash, ns, i, v);
    StoreLinked(ns, rank, i, v);
    StoreKeys(ns, rank, size, i, v);
    ChainsFrom(hash, ns[i := Node(ns[i].key, v, ns[i].next)], rank);
  }

  lemma StoreLinked(ns: Nodes, rank: seq<real>, i: nat, v: TValue)
    requires Linked(ns, rank) && i < |ns| && ns[i].key.Live?
    ensures Linked(ns[i := Node(ns[i].key, v, ns[i].next)], rank)
  {
  }

  lemma StoreKeys(ns: Nodes, rank: seq<real>, size: nat, i: nat, v: TValue)
    requires KeysOk(ns) && Apart(size, ns) && |rank| == |ns| && LiveFirst(ns, rank)
    requires i < |ns| && ns[i].key.Live? && !InArray(size, ns[i].key.k)
    ensures var ns' := ns[i := Node(ns[i].key, v, ns[i].next)]; KeysOk(ns') && Apart(size, ns') && LiveFirst(ns', rank) && Used(ns') == Used(ns)
  {
  }

  lemma StoreHomed(hash: Hash, ns: Nodes, i: nat, v: TValue)
    requires Homed(hash, ns) && i < |ns| && ns[i].key.Live?
    ensures Homed(hash, ns[i := Node(ns[i].key, v, ns[i].next)])
  {
    var ns' := ns[i := Node(ns[i].key, v, ns[i].next)];
    forall j, m | HomeIs(hash, ns', j, m)
      ensures Reaches(ns', m, j) && HomeIs(hash, ns', m, m)
    {
      assert HomeIs(hash, ns, j, m);
      ReachSame(ns, ns', m, j);
    }
  }

  lemma StoredEntries(arr: seq<TValue>, ns: Nodes, i: nat, key: TValue, v: TValue)
    requires KeysOk(ns) && Apart(|arr|, ns) && i < |ns| && ns[i].key == Live(key) && !InArray(|arr|, key)
    ensures var ns' := ns[i := Node(ns[i].key, v, ns[i].next)];
            Entries(arr, ns') == if v == Nil then Entries(arr, ns) - {key} else Entries(arr, ns)[key := v]
  {
    var ns' := ns[i := Node(ns[i].key, v, ns[i].next)];
    assert KeysOk(ns') && Apart(|arr|, ns') && !InArray(|arr|, key);
    forall k
      ensures Value(arr, ns', k) == if k == key then v else Value(arr, ns, k)
    {
      StoredValue(ns, i, v, k);
    }
    EntriesUpdate(arr, ns, arr, ns', key, v);
  }

  lemma StoredValue(ns: Nodes, i: nat, v: TValue, k: TValue)
    requires KeysOk(ns) && i < |ns| && ns[i].key.Live?
    ensures var ns' := ns[i := Node(ns[i].key, v, ns[i].next)];
            NodeValue(ns', k) == if k == ns[i].key.k then v else NodeValue(ns, k)
  {
    var ns' := ns[i := Node(ns[i].key, v, ns[i].next)];
    assert KeysOk(ns');
    if k == ns[i].key.k {
      ValueAt(ns', i, k);
    } else if j :| Holds(ns, j, k) {
      ValueAt(ns, j, k);
      ValueAt(ns', j, k);
    } else {
      assert forall j :: !Holds(ns', j, k) by { assert forall j :: Holds(ns', j, k) ==> Holds(ns, j, k); }
    }
  }

  ghost function AtLeast(rank: seq<real>, r: real): set<nat> {
    set i | i in Range(|rank|) && rank[i] >= r
  }

  lemma AtLeastShrinks(rank: seq<real>, i: nat, j: nat)
    requires i < |rank| && j < |rank| && rank[i] < rank[j]
    ensures |AtLeast(rank, rank[j])| < |AtLeast(rank, rank[i])|
  {
    var a, b := AtLeast(rank, rank[j]), AtLeast(rank, rank[i]);
    assert b == a + (b - a) && i in b - a;
  }

  lemma NoReachFromNull(ns: Nodes, i: nat)
    ensures !Reaches(ns, NULL, i)
  {
    forall n: nat
      ensures Walk(ns, NULL, n) == NULL
    {
      WalkStops(ns, NULL, n);
    }
  }

  lemma FreshChains(hash: Hash, ns: Nodes, rank: seq<real>)
    requires |ns| > 0 && |rank| == |ns| && forall i :: 0 <= i < |ns| ==> ns[i] == FREE
    ensures Chains(hash, ns, rank)
  {
  }

  /** A table to be resized, and a hash part that is large enough for it. */
  ghost predicate Source(arr0: seq<TValue>, node0: Nodes, nasize: nat, nhsize: nat) {
    Countable(arr0, node0) && |Hashed(Keys(arr0, node0), nasize)| <= nhsize
  }

  /** Distinct keys, and no values without keys. */
  ghost predicate Countable(arr: seq<TValue>, ns: Nodes) {
    KeysOk(ns) && Apart(|arr|, ns) && forall i :: 0 <= i < |ns| && ns[i].val != Nil ==> ns[i].key.Live?
  }

  lemma SourceParts(arr0: seq<TValue>, node0: Nodes, nasize: nat, nhsize: nat)
    requires Source(arr0, node0, nasize, nhsize)
    ensures Countable(arr0, node0) && KeysOk(node0) && Apart(|arr0|, node0) && |Hashed(Keys(arr0, node0), nasize)| <= nhsize
  {
  }

  ghost function Only(m: map<TValue, TValue>, done: set<TValue>): map<TValue, TValue> {
    map k | k in m && k in done :: m[k]
  }

  lemma OneBack(m: map<TValue, TValue>, done: set<TValue>, k: TValue, v: TValue, nasize: nat)
    requires k in m && m[k] == v && k !in done
    ensures Only(m, done)[k := v] == Only(m, done + {k})
    ensures |Hashed(done + {k}, nasize)| == |Hashed(done, nasize)| + if InArray(nasize, k) then 0 else 1
  {
    if InArray(nasize, k) {
      assert Hashed(done + {k}, nasize) == Hashed(done, nasize);
    } else {
      assert Hashed(done + {k}, nasize) == Hashed(done, nasize) + {k};
    }
  }

  /** After the new parts are in place the table holds what stays in the array part. */
  lemma StartEntries(arr0: seq<TValue>, node0: Nodes, nasize: nat, nhsize: nat, arr: seq<TValue>, ns: Nodes)
    requires Source(arr0, node0, nasize, nhsize)
    requires |arr| == nasize && forall i :: 0 <= i < nasize ==> arr[i] == if i < |arr0| then arr0[i] else Nil
    requires forall i :: 0 <= i < |ns| ==> ns[i] == FREE
    ensures Entries(arr, ns) == Only(Entries(arr0, node0), ArrKeys(if nasize < |arr0| then arr0[..nasize] else arr0))
    ensures KeysOk(ns) && Apart(|arr|, ns) && |Used(ns)| == 0
  {
    var done := ArrKeys(if nasize < |arr0| then arr0[..nasize] else arr0);
    assert Used(ns) == {};
    forall k
      ensures k in Entries(arr, ns) <==> k in Entries(arr0, node0) && k in done
      ensures k in Entries(arr, ns) ==> Entries(arr, ns)[k] == Entries(arr0, node0)[k]
    {
      EntriesAt(arr0, node0, k);
      EntriesAt(arr, ns, k);
      StartKey(arr0, node0, nasize, arr, ns, k);
    }
  }

  lemma StartKey(arr0: seq<TValue>, node0: Nodes, nasize: nat, arr: seq<TValue>, ns: Nodes, k: TValue)
    requires |arr| == nasize && forall i :: 0 <= i < nasize ==> arr[i] == if i < |arr0| then arr0[i] else Nil
    requires forall i :: 0 <= i < |ns| ==> ns[i] == FREE
    ensures var done := ArrKeys(if nasize < |arr0| then arr0[..nasize] else arr0);
            && (Value(arr, ns, k) != Nil <==> k in done) && (k in done ==> Value(arr, ns, k) == Value(arr0, node0, k) != Nil)
  {
    var kept := if nasize < |arr0| then arr0[..nasize] else arr0;
    assert forall i :: !Holds(ns, i, k);
    if InArray(|kept|, k) {
      assert kept[k.i - 1] == arr0[k.i - 1];
      assert kept[k.i - 1] != Nil ==> Int((k.i - 1) + 1) in ArrKeys(kept);
    }
  }

  lemma ArrNext(arr0: seq<TValue>, node0: Nodes, i: nat)
    requires Countable(arr0, node0) && i < |arr0|
    ensures arr0[i] == Nil ==> ArrKeys(arr0[..i + 1]) == ArrKeys(arr0[..i])
    ensures arr0[i] != Nil ==> ArrKeys(arr0[..i + 1]) == ArrKeys(arr0[..i]) + {Int(i + 1)}
    ensures Int(i + 1) !in ArrKeys(arr0[..i]) && ArrKeys(arr0[..i]) <= Keys(arr0, node0)
    ensures arr0[i] != Nil ==> Int(i + 1) in Keys(arr0, node0) && Value(arr0, node0, Int(i + 1)) == arr0[i]
  {
    var a, b := ArrKeys(arr0[..i]), ArrKeys(arr0[..i + 1]);
    forall k
      ensures k in b <==> k in a || (arr0[i] != Nil && k == Int(i + 1))
      ensures k in a ==> k in ArrKeys(arr0)
    {
      if k.Int? && 1 <= k.i <= i {
        assert arr0[k.i - 1] != Nil ==> Int((k.i - 1) + 1) in a && Int((k.i - 1) + 1) in b && Int((k.i - 1) + 1) in ArrKeys(arr0);
      }
    }
  }

  lemma NodesDone(arr0: seq<TValue>, node0: Nodes)
    ensures ArrKeys(arr0) + NodeKeys(node0, |node0|) == ArrKeys(arr0)
    ensures ArrKeys(arr0) + NodeKeys(node0, 0) == Keys(arr0, node0)
  {
  }

  lemma NodeNext(arr0: seq<TValue>, node0: Nodes, i: nat)
    requires Countable(arr0, node0) && i < |node0|
    ensures node0[i].val == Nil ==> NodeKeys(node0, i) == NodeKeys(node0, i + 1)
    ensures node0[i].val != Nil ==> node0[i].key.Live?
    ensures node0[i].val != Nil ==> node0[i].key.k in NodeKeys(node0, i) && NodeKeys(node0, i) - {node0[i].key.k} == NodeKeys(node0, i + 1)
    ensures node0[i].val != Nil ==> ArrKeys(arr0) + NodeKeys(node0, i) == ArrKeys(arr0) + NodeKeys(node0, i + 1) + {node0[i].key.k}
    ensures node0[i].val != Nil ==> node0[i].key.k !in ArrKeys(arr0) + NodeKeys(node0, i + 1) && node0[i].key.k in Keys(arr0, node0)
    ensures node0[i].val != Nil ==> Value(arr0, node0, node0[i].key.k) == node0[i].val
    ensures ArrKeys(arr0) + NodeKeys(node0, i + 1) <= Keys(arr0, node0)
  {
    if node0[i].val != Nil {
      ValueAt(node0, i, node0[i].key.k);
      assert node0[i].key.k in NodeKeys(node0, 0);
      forall j | i + 1 <= j < |node0| && node0[j].key.Live?
        ensures node0[j].key.k != node0[i].key.k
      {
        assert node0[j].key == node0[i].key ==> i == j;
      }
    }
  }

  // ---------------------------------------------------------------- counting

  lemma NoCounts(nums: seq<int>)
    requires nums == seq(MAXBITS + 1, _ => 0)
    ensures Counts(nums, {})
  {
    assert forall i: nat :: Slice({}, i) == {};
  }

  lemma SliceIs(k: nat, lg: nat)
    requires 0 < k <= Pow2(lg) && (lg > 0 ==> Pow2(lg - 1) < k)
    ensures CeilLog2(k) == lg
  {
    CeilLog2Bounds(k);
    var c := CeilLog2(k);
    if c < lg { Pow2Grows(c, lg - 1); }
    if lg < c { Pow2Grows(lg, c - 1); }
  }

  lemma ArrCount(arr: seq<TValue>, i: nat)
    requires 1 <= i <= |arr| <= MAXASIZE
    ensures arr[i - 1] == Nil ==> ArrKeys(arr[..i]) == ArrKeys(arr[..i - 1])
    ensures arr[i - 1] != Nil ==> Ints(ArrKeys(arr[..i])) == Ints(ArrKeys(arr[..i - 1])) + {i}
    ensures arr[i - 1] != Nil ==> |ArrKeys(arr[..i])| == |ArrKeys(arr[..i - 1])| + 1 && i !in Ints(ArrKeys(arr[..i - 1]))
  {
    var a, b := ArrKeys(arr[..i - 1]), ArrKeys(arr[..i]);
    forall k
      ensures k in b <==> k in a || (arr[i - 1] != Nil && k == Int(i))
    {
      if k.Int? && 1 <= k.i <= i - 1 {
        assert arr[k.i - 1] != Nil ==> Int((k.i - 1) + 1) in a && Int((k.i - 1) + 1) in b;
      } else if k == Int(i) {
        assert arr[i - 1] != Nil ==> Int((i - 1) + 1) in b;
      }
    }
    if arr[i - 1] != Nil {
      assert b == a + {Int(i)} && Int(i) !in a;
      OneInt(a, Int(i));
    } else {
      assert b == a;
    }
  }

  lemma OneInt(keys: set<TValue>, k: TValue)
    ensures Ints(keys + {k}) == Ints(keys) + Ints({k})
    ensures k.Int? && 0 < k.i <= MAXASIZE ==> Ints({k}) == {k.i}
    ensures !(k.Int? && 0 < k.i <= MAXASIZE) ==> Ints({k}) == {}
  {
  }

  /** The nodes from the `i`-th on are counted. */
  ghost predicate HashCounted(arr: seq<TValue>, ns: Nodes, i: nat, nums: seq<int>, totaluse: int, ause: int) {
    && Counts(nums, Ints(ArrKeys(arr)) + Ints(NodeKeys(ns, i)))
    && totaluse == |NodeKeys(ns, i)| && ause == |Ints(NodeKeys(ns, i))|
  }

  lemma NoNodes(arr: seq<TValue>, ns: Nodes, nums: seq<int>)
    requires Counts(nums, Ints(ArrKeys(arr)))
    ensures HashCounted(arr, ns, |ns|, nums, 0, 0)
  {
    assert NodeKeys(ns, |ns|) == {} && Ints(NodeKeys(ns, |ns|)) == {};
    assert Ints(ArrKeys(arr)) + {} == Ints(ArrKeys(arr));
  }

  lemma HashCountedAll(arr: seq<TValue>, ns: Nodes, nums: seq<int>, totaluse: int, ause: int)
    requires HashCounted(arr, ns, 0, nums, totaluse, ause)
    ensures Counts(nums, Ints(ArrKeys(arr)) + Ints(NodeKeys(ns, 0))) && totaluse == |NodeKeys(ns, 0)| && ause == |Ints(NodeKeys(ns, 0))|
  {
  }

  lemma HashCountedNone(arr: seq<TValue>, ns: Nodes, i: nat, nums: seq<int>, totaluse: int, ause: int)
    requires Countable(arr, ns) && i < |ns| && ns[i].val == Nil
    requires HashCounted(arr, ns, i + 1, nums, totaluse, ause)
    ensures HashCounted(arr, ns, i, nums, totaluse, ause)
  {
    NodeNext(arr, ns, i);
  }

  lemma BeforeCount(arr: seq<TValue>, ns: Nodes, i: nat, nums: seq<int>, totaluse: int, ause: int)
    requires Countable(arr, ns) && i < |ns| && ns[i].val != Nil
    requires HashCounted(arr, ns, i + 1, nums, totaluse, ause)
    ensures Counts(nums, Ints(ArrKeys(arr)) + Ints(NodeKeys(ns, i + 1))) && ns[i].key.Live?
    ensures ns[i].key.k.Int? ==> ns[i].key.k.i !in Ints(ArrKeys(arr)) + Ints(NodeKeys(ns, i + 1))
  {
    NodeNext(arr, ns, i);
    IntsApart(ArrKeys(arr), NodeKeys(ns, i + 1), ns[i].key.k);
  }

  lemma HashCountedOne(arr: seq<TValue>, ns: Nodes, i: nat, nums: seq<int>, totaluse: int, ause: int, one: int)
    requires Countable(arr, ns) && i < |ns| && ns[i].val != Nil && ns[i].key.Live?
    requires totaluse == |NodeKeys(ns, i + 1)| && ause == |Ints(NodeKeys(ns, i + 1))| && one == |Ints({ns[i].key.k})|
    requires Counts(nums, Ints(ArrKeys(arr)) + Ints(NodeKeys(ns, i + 1)) + Ints({ns[i].key.k}))
    ensures HashCounted(arr, ns, i, nums, totaluse + 1, ause + one)
  {
    hide *;
    NodeNext(arr, ns, i);
    IntsGrow(ArrKeys(arr), NodeKeys(ns, i + 1), NodeKeys(ns, i), ns[i].key.k);
    AreHashCounted(arr, ns, i, nums, totaluse + 1, ause + one);
  }

  lemma AreHashCounted(arr: seq<TValue>, ns: Nodes, i: nat, nums: seq<int>, totaluse: int, ause: int)
    requires Counts(nums, Ints(ArrKeys(arr)) + Ints(NodeKeys(ns, i))) && totaluse == |NodeKeys(ns, i)| && ause == |Ints(NodeKeys(ns, i))|
    ensures HashCounted(arr, ns, i, nums, totaluse, ause)
  {
  }

  lemma IntsGrow(a: set<TValue>, b: set<TValue>, b': set<TValue>, k: TValue)
    requires k in b' && b' - {k} == b && k !in a + b
    ensures |b'| == |b| + 1 && |Ints(b')| == |Ints(b)| + |Ints({k})| && Ints(a) + Ints(b) + Ints({k}) == Ints(a) + Ints(b')
  {
    hide *;
    IntsApart(a, b, k);
    OneInt(b, k);
    assert b' == b + {k};
    var x, y, z := Ints(a), Ints(b), Ints({k});
    SetSums(x, y, z);
  }

  lemma SetSums<T>(x: set<T>, y: set<T>, z: set<T>)
    requires y !! z
    ensures |y + z| == |y| + |z| && x + y + z == x + (y + z)
  {
  }

  lemma IntsApart(a: set<TValue>, b: set<TValue>, k: TValue)
    requires k !in a + b
    ensures Ints(b) !! Ints({k}) && (k.Int? ==> k.i !in Ints(a) && k.i !in Ints(b))
  {
  }

  /** The first `n` elements of the array part are counted. */
  ghost predicate Counted(arr: seq<TValue>, n: nat, nums: seq<int>, ause: int) {
    n <= |arr| && Counts(nums, Ints(ArrKeys(arr[..n]))) && ause == |ArrKeys(arr[..n])|
  }

  lemma NoneCounted(arr: seq<TValue>)
    ensures forall nums :: Counts(nums, {}) ==> Counted(arr, 0, nums, 0)
  {
    assert arr[..0] == [] && ArrKeys(arr[..0]) == {} && Ints(ArrKeys(arr[..0])) == {};
  }

  lemma AllCountedUp(arr: seq<TValue>, i: nat, nums: seq<int>, ause: int)
    requires i == |arr| + 1 && Counted(arr, i - 1, nums, ause)
    ensures Counts(nums, Ints(ArrKeys(arr))) && ause == |ArrKeys(arr)|
  {
    assert arr[..|arr|] == arr;
  }

  lemma NextPow2(lg: nat)
    ensures Pow2(lg + 1) == Pow2(lg) * 2 && Pow2(lg) > 0 && (lg > 0 ==> Pow2(lg - 1) < Pow2(lg)) && (lg == 0 ==> Pow2(lg) == 1)
  {
  }

  lemma CountedOne(arr: seq<TValue>, i: nat, nums0: seq<int>, ause0: int, lg: nat, lc: int)
    requires 1 <= i <= |arr| <= MAXASIZE && arr[i - 1] != Nil && lg < |nums0|
    requires i <= Pow2(lg) && (lg > 0 ==> Pow2(lg - 1) < i)
    requires Counted(arr, i - 1, nums0[lg := nums0[lg] + lc], ause0 + lc)
    ensures Counted(arr, i, nums0[lg := nums0[lg] + (lc + 1)], ause0 + (lc + 1))
  {
    ArrCount(arr, i);
    SliceIs(i, lg);
    var nums := nums0[lg := nums0[lg] + lc];
    CountOne(nums, Ints(ArrKeys(arr[..i - 1])), i);
    assert nums[lg := nums[lg] + 1] == nums0[lg := nums0[lg] + (lc + 1)];
  }

  lemma CountedNone(arr: seq<TValue>, i: nat, nums: seq<int>, ause: int)
    requires 1 <= i <= |arr| <= MAXASIZE && arr[i - 1] == Nil && Counted(arr, i - 1, nums, ause)
    ensures Counted(arr, i, nums, ause)
  {
    ArrCount(arr, i);
  }

  /** The number of all integer keys, with the extra one. */
  lemma TotalCount(arr: seq<TValue>, ns: Nodes, ek: TValue)
    requires KeysOk(ns) && Apart(|arr|, ns) && |arr| <= MAXASIZE && ek !in Keys(arr, ns)
    requires ek.Int? ==> ek.i !in Ints(ArrKeys(arr)) + Ints(NodeKeys(ns, 0))
    ensures Ints(Keys(arr, ns) + {ek}) == Ints(ArrKeys(arr)) + Ints(NodeKeys(ns, 0)) + Ints({ek})
    ensures |Ints(Keys(arr, ns) + {ek})| == |ArrKeys(arr)| + |Ints(NodeKeys(ns, 0))| + |Ints({ek})|
    ensures |Keys(arr, ns)| == |ArrKeys(arr)| + |NodeKeys(ns, 0)|
  {
    OneInt(Keys(arr, ns), ek);
    assert ArrKeys(arr) !! NodeKeys(ns, 0);
    assert Ints(ArrKeys(arr)) !! Ints(NodeKeys(ns, 0));
    assert Ints(Keys(arr, ns)) == Ints(ArrKeys(arr)) + Ints(NodeKeys(ns, 0));
    IntsOfArr(arr);
  }

  lemma IntsOfArr(arr: seq<TValue>)
    requires |arr| <= MAXASIZE
    ensures |Ints(ArrKeys(arr))| == |ArrKeys(arr)|
  {
    HashedCount(ArrKeys(arr), MAXASIZE);
    assert Hashed(ArrKeys(arr), MAXASIZE) == {};
    assert UpTo(Ints(ArrKeys(arr)), MAXASIZE) == Ints(ArrKeys(arr));
  }

  /** What is left for the hash part, without the extra key. */
  lemma HashedWithout(keys: set<TValue>, ek: TValue, nasize: int, na: int, s: set<int>)
    requires ek !in keys && nasize / 2 <= na <= nasize <= MAXASIZE && s == Ints(keys + {ek}) && Optimal(s, nasize, na)
    ensures nasize >= 0
    ensures |keys| + 1 - na == |Hashed(keys + {ek}, nasize)| == |Hashed(keys, nasize)| + if InArray(nasize, ek) then 0 else 1
  {
    HashedCount(keys + {ek}, nasize);
    if InArray(nasize, ek) {
      assert Hashed(keys + {ek}, nasize) == Hashed(keys, nasize);
    } else {
      assert Hashed(keys + {ek}, nasize) == Hashed(keys, nasize) + {ek};
    }
  }

  /** The key and value at a position: array elements come first, then nodes. */
  function EntryAt(arr: seq<TValue>, ns: Nodes, p: int): (TValue, TValue)
    requires 0 <= p < |arr| + |ns|
  {
    if p < |arr| then (Int(p + 1), arr[p])
    else (if ns[p - |arr|].key == NoKey then Nil else ns[p - |arr|].key.k, ns[p - |arr|].val)
  }

  lemma KillKeeps(hash: Hash, ns: Nodes, rank: seq<real>, size: nat, i: nat)
    requires Chains(hash, ns, rank) && Apart(size, ns) && i < |ns| && ns[i].val == Nil && ns[i].key.Live? && ns[i].key.k.Collectable()
    ensures var ns' := ns[i := Node(Dead(ns[i].key.k), ns[i].val, ns[i].next)]; Chains(hash, ns', rank) && Apart(size, ns')
    ensures forall b, f :: Sized(b, ns, f) ==> Sized(b, ns[i := Node(Dead(ns[i].key.k), ns[i].val, ns[i].next)], f)
  {
    hide *;
    ChainsInto(hash, ns, rank);
    KillHomed(hash, ns, i);
    KillKeys(ns, rank, size, i);
    ChainsFrom(hash, ns[i := Node(Dead(ns[i].key.k), ns[i].val, ns[i].next)], rank);
  }

  lemma KillHomed(hash: Hash, ns: Nodes, i: nat)
    requires Homed(hash, ns) && i < |ns| && ns[i].key.Live?
    ensures Homed(hash, ns[i := Node(Dead(ns[i].key.k), ns[i].val, ns[i].next)])
  {
    var ns' := ns[i := Node(Dead(ns[i].key.k), ns[i].val, ns[i].next)];
    forall j, m | HomeIs(hash, ns', j, m)
      ensures Reaches(ns', m, j) && HomeIs(hash, ns', m, m)
    {
      assert HomeIs(hash, ns, j, m);
      ReachSame(ns, ns', m, j);
    }
  }

  lemma KillKeys(ns: Nodes, rank: seq<real>, size: nat, i: nat)
    requires Linked(ns, rank) && KeysOk(ns) && Apart(size, ns) && LiveFirst(ns, rank)
    requires i < |ns| && ns[i].val == Nil && ns[i].key.Live? && ns[i].key.k.Collectable()
    ensures var ns' := ns[i := Node(Dead(ns[i].key.k), ns[i].val, ns[i].next)];
            Linked(ns', rank) && KeysOk(ns') && Apart(size, ns') && LiveFirst(ns', rank)
    ensures forall b, f :: Sized(b, ns, f) ==> Sized(b, ns[i := Node(Dead(ns[i].key.k), ns[i].val, ns[i].next)], f)
  {
  }

  lemma KillSame(arr: seq<TValue>, ns: Nodes, i: nat)
    requires KeysOk(ns) && Apart(|arr|, ns) && i < |ns| && ns[i].val == Nil && ns[i].key.Live? && ns[i].key.k.Collectable()
    ensures Entries(arr, ns[i := Node(Dead(ns[i].key.k), ns[i].val, ns[i].next)]) == Entries(arr, ns)
  {
    var ns' := ns[i := Node(Dead(ns[i].key.k), ns[i].val, ns[i].next)];
    assert KeysOk(ns') && Apart(|arr|, ns');
    forall k
      ensures Value(arr, ns', k) == Value(arr, ns, k)
    {
      if j :| Holds(ns, j, k) {
        ValueAt(ns, j, k);
        if j != i { ValueAt(ns', j, k); } else { assert forall q :: Holds(ns', q, k) ==> Holds(ns, q, k) && q != i; assert forall q :: Holds(ns, q, k) ==> q == i; }
      } else {
        assert forall q :: Holds(ns', q, k) ==> Holds(ns, q, k);
      }
    }
    EntriesSame(arr, ns, arr, ns');
  }

  // ---------------------------------------------------------------- traversal

  /** What may happen to a table between two steps of a traversal: an assignment to an existing field (nil clears it), or the
      collection of a key. */
  datatype Change = Assign(key: TValue, v: TValue) | Collect(i: nat)

  ghost function Changed(m: map<TValue, TValue>, c: Change): map<TValue, TValue> {
    match c
    case Assign(key, v) => if key !in m then m else if v == Nil then m - {key} else m[key := v]
    case Collect(_) => m
  }

  ghost function ChangedAll(m: map<TValue, TValue>, cs: seq<Change>): map<TValue, TValue>
    decreases |cs|
  {
    if cs == [] then m else Changed(ChangedAll(m, cs[..|cs| - 1]), cs[|cs| - 1])
  }

  /** The contents before visit `i`, with `rounds[j]` done after visit `j`. */
  ghost function Before(m: map<TValue, TValue>, rounds: seq<seq<Change>>, i: nat): map<TValue, TValue> {
    if i == 0 then m
    else
      var m' := Before(m, rounds, i - 1);
      if i <= |rounds| then ChangedAll(m', rounds[i - 1]) else m'
  }

  /** What a visit gives is in the table. */
  ghost predicate Gives(m: map<TValue, TValue>, e: (TValue, TValue)) {
    e.0 in m && m[e.0] == e.1
  }

  /** No entry has come, and nothing has moved. */
  ghost predicate Steady(arr0: seq<TValue>, ns0: Nodes, arr: seq<TValue>, ns: Nodes) {
    && |arr| == |arr0| && |ns| == |ns0|
    && (forall p :: 0 <= p < |arr| + |ns| ==> EntryAt(arr, ns, p).0 == EntryAt(arr0, ns0, p).0)
    && (forall p :: 0 <= p < |arr| + |ns| && EntryAt(arr0, ns0, p).1 == Nil ==> EntryAt(arr, ns, p).1 == Nil)
  }

  lemma StoreSteady(arr0: seq<TValue>, ns0: Nodes, arr: seq<TValue>, ns: Nodes, slot: Slot, v: TValue)
    requires slot.InArr? ==> slot.i < |arr0| && arr0[slot.i] != Nil && arr == arr0[slot.i := v] && ns == ns0
    requires slot.InNode? ==> slot.i < |ns0| && ns0[slot.i].val != Nil && arr == arr0 && ns == ns0[slot.i := Node(ns0[slot.i].key, v, ns0[slot.i].next)]
    requires slot != Absent
    ensures Steady(arr0, ns0, arr, ns)
  {
  }

  lemma KillSteady(arr: seq<TValue>, ns0: Nodes, ns: Nodes, i: nat)
    requires i < |ns0| && ns0[i].val == Nil && ns0[i].key.Live?
    requires ns == ns0 || ns == ns0[i := Node(Dead(ns0[i].key.k), Nil, ns0[i].next)]
    ensures Steady(arr, ns0, arr, ns)
  {
  }

  /** The entry at a position. */
  lemma AtPosition(arr: seq<TValue>, ns: Nodes, p: int)
    requires Countable(arr, ns) && 0 <= p < |arr| + |ns| && EntryAt(arr, ns, p).1 != Nil
    ensures var e := EntryAt(arr, ns, p); e.0 in Entries(arr, ns) && Entries(arr, ns)[e.0] == e.1
  {
    var e := EntryAt(arr, ns, p);
    EntriesAt(arr, ns, e.0);
    if p >= |arr| { ValueAt(ns, p - |arr|, e.0); }
  }

  lemma Distinct(arr: seq<TValue>, ns: Nodes, p: int, q: int)
    requires Countable(arr, ns) && 0 <= p < q < |arr| + |ns| && EntryAt(arr, ns, p).1 != Nil && EntryAt(arr, ns, q).1 != Nil
    ensures EntryAt(arr, ns, p).0 != EntryAt(arr, ns, q).0
  {
  }

  lemma PositionOf(arr: seq<TValue>, ns: Nodes, k: TValue) returns (p: int)
    requires KeysOk(ns) && Apart(|arr|, ns) && k in Entries(arr, ns)
    ensures 0 <= p < |arr| + |ns| && EntryAt(arr, ns, p) == (k, Entries(arr, ns)[k]) && EntryAt(arr, ns, p).1 != Nil
    ensures p >= |arr| ==> ns[p - |arr|].key != NoKey
  {
    EntriesAt(arr, ns, k);
    if InArray(|arr|, k) {
      p := k.i - 1;
    } else {
      var i :| Holds(ns, i, k);
      ValueAt(ns, i, k);
      p := i + |arr|;
    }
  }

  lemma SteadySelf(arr: seq<TValue>, ns: Nodes)
    ensures Steady(arr, ns, arr, ns)
  {
  }

  lemma SteadyThen(arr0: seq<TValue>, ns0: Nodes, arr1: seq<TValue>, ns1: Nodes, arr: seq<TValue>, ns: Nodes)
    requires Steady(arr0, ns0, arr1, ns1) && Steady(arr1, ns1, arr, ns)
    ensures Steady(arr0, ns0, arr, ns)
  {
  }

  /** Among the nodes that have or had the key, `n` is the first. */
  ghost predicate First(ns: Nodes, rank: seq<real>, n: int, key: TValue)
    requires |rank| == |ns|
  {
    && 0 <= n < |ns| && ns[n].key != NoKey && ns[n].key.k == key
    && forall j :: 0 <= j < |ns| && j != n && ns[j].key != NoKey && ns[j].key.k == key ==> rank[n] < rank[j]
  }

  /** `ps` are the positions visited, in order, up to `pos`: what still has a value there was visited. */
  ghost predicate Visited(arr0: seq<TValue>, ns0: Nodes, arr: seq<TValue>, ns: Nodes, visited: seq<(TValue, TValue)>, ps: seq<int>, pos: int) {
    && |ps| == |visited| && -1 <= pos < |arr0| + |ns0| && |arr| == |arr0| && |ns| == |ns0|
    && (forall i :: 0 <= i < |ps| ==> 0 <= ps[i] <= pos && visited[i].0 == EntryAt(arr0, ns0, ps[i]).0 && EntryAt(arr0, ns0, ps[i]).1 != Nil)
    && (forall i, j :: 0 <= i < j < |ps| ==> ps[i] < ps[j])
    && (forall p :: 0 <= p <= pos && EntryAt(arr, ns, p).1 != Nil ==> p in ps)
  }

  lemma VisitedMore(arr0: seq<TValue>, ns0: Nodes, arr: seq<TValue>, ns: Nodes, visited: seq<(TValue, TValue)>, ps: seq<int>,
                    pos: int, at: int, k: TValue, v: TValue)
    requires Steady(arr0, ns0, arr, ns) && Visited(arr0, ns0, arr, ns, visited, ps, pos)
    requires -1 <= pos < at < |arr| + |ns| && (k, v) == EntryAt(arr, ns, at) && v != Nil
    requires forall p :: 0 <= p && pos < p < at ==> EntryAt(arr, ns, p).1 == Nil
    ensures Visited(arr0, ns0, arr, ns, visited + [(k, v)], ps + [at], at)
  {
    forall p | 0 <= p <= at && EntryAt(arr, ns, p).1 != Nil
      ensures p in ps + [at]
    {
      if p <= pos { assert p in ps; }
    }
  }

  lemma VisitedStays(arr0: seq<TValue>, ns0: Nodes, a: seq<TValue>, ns: Nodes, a': seq<TValue>, ns': Nodes,
                     visited: seq<(TValue, TValue)>, ps: seq<int>, pos: int)
    requires Steady(a, ns, a', ns') && Visited(arr0, ns0, a, ns, visited, ps, pos)
    ensures Visited(arr0, ns0, a', ns', visited, ps, pos)
  {
    forall p | 0 <= p <= pos && EntryAt(a', ns', p).1 != Nil
      ensures p in ps
    {
      assert EntryAt(a, ns, p).1 != Nil;
    }
  }

  lemma FirstStays(a: seq<TValue>, ns: Nodes, a': seq<TValue>, ns': Nodes, rank: seq<real>, pos: int, key: TValue)
    requires Steady(a, ns, a', ns') && |rank| == |ns| && key != Nil && 0 <= pos < |a| + |ns|
    requires EntryAt(a, ns, pos).0 == key && (pos >= |a| ==> First(ns, rank, pos - |a|, key))
    ensures |a'| == |a| && |ns'| == |ns| && EntryAt(a', ns', pos).0 == key && (pos >= |a| ==> First(ns', rank, pos - |a|, key))
  {
    assert EntryAt(a', ns', pos).0 == EntryAt(a, ns, pos).0;
    forall j | 0 <= j < |ns'| && ns'[j].key != NoKey && ns'[j].key.k == key
      ensures ns[j].key != NoKey && ns[j].key.k == key
    {
      assert EntryAt(a', ns', j + |a|).0 == EntryAt(a, ns, j + |a|).0;
    }
  }
}
