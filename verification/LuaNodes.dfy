/** The hash part of a Lua table (lua/ltable.c): a chained scatter table with Brent's variation. */
module LuaNodes {

  /** Lua values. Numbers are those that convert to an integer, the others, and NaN; objects are compared by identity. */
  datatype TValue = Nil | Boolean(b: bool) | Int(i: int) | Num(num: nat) | NaN | Light(p: nat) | Str(str: nat) | Object(o: nat) {
    predicate Collectable() { Str? || Object? }
  }

  /** The key of a node: never set, in use, or the key of a removed entry that the collector has seen. */
  datatype NKey = NoKey | Live(k: TValue) | Dead(k: TValue)

  const NULL := -1

  datatype Node = Node(key: NKey, val: TValue, next: int)

  type Nodes = seq<Node>

  type Hash = TValue -> nat

  /** `hashpow2` for strings and booleans, `hashmod` for the rest, and 0 for the number 0. */
  function Main(hash: Hash, size: nat, k: TValue): (m: nat)
    requires size > 0
    ensures m < size
  {
    if k == Int(0) then 0
    else if k.Str? || k.Boolean? then hash(k) % size
    else if size == 1 then 0 else hash(k) % (size - 1)
  }

  // ---------------------------------------------------------------- chains

  /** `n` steps along the `next` fields. */
  function Walk(ns: Nodes, a: int, n: nat): int
    decreases n
  {
    if n == 0 || a < 0 || a >= |ns| then a else Walk(ns, ns[a].next, n - 1)
  }

  ghost predicate Reaches(ns: Nodes, a: int, b: int) {
    exists n: nat :: Walk(ns, a, n) == b
  }

  /** The links: in range, without two links to one node, along growing ranks and so without cycles, and none to a free node. */
  ghost predicate Linked(ns: Nodes, rank: seq<real>) {
    && |rank| == |ns|
    && (forall i :: 0 <= i < |ns| ==> ns[i].next == NULL || (0 <= ns[i].next < |ns| && ns[ns[i].next].key != NoKey && rank[i] < rank[ns[i].next]))
    && (forall i, j :: 0 <= i < |ns| && 0 <= j < |ns| && ns[i].next == ns[j].next != NULL ==> i == j)
    && (forall i :: 0 <= i < |ns| && ns[i].key == NoKey ==> ns[i].next == NULL && ns[i].val == Nil)
  }

  /** The keys: valid, each in use at most once; removed entries have no value. */
  ghost predicate KeysOk(ns: Nodes) {
    && (forall i :: 0 <= i < |ns| && ns[i].key != NoKey ==> ns[i].key.k != Nil && ns[i].key.k != NaN)
    && (forall i :: 0 <= i < |ns| && ns[i].key.Dead? ==> ns[i].val == Nil && ns[i].key.k.Collectable())
    && (forall i, j :: 0 <= i < |ns| && 0 <= j < |ns| && ns[i].key.Live? && ns[i].key == ns[j].key ==> i == j)
  }

  /** The key of node `i` belongs to main position `m`. */
  predicate HomeIs(hash: Hash, ns: Nodes, i: int, m: int) {
    0 <= i < |ns| && ns[i].key != NoKey && Main(hash, |ns|, ns[i].key.k) == m
  }

  /** Every key, in use or removed, is reachable from its main position; if it is not there, a key that belongs there is. */
  ghost predicate Homed(hash: Hash, ns: Nodes) {
    forall i, m :: HomeIs(hash, ns, i, m) ==> Reaches(ns, m, i) && HomeIs(hash, ns, m, m)
  }

  /** A key in use comes before removed entries with the same key. */
  ghost predicate LiveFirst(ns: Nodes, rank: seq<real>)
    requires |rank| == |ns|
  {
    forall i, j :: 0 <= i < |ns| && 0 <= j < |ns| && ns[i].key.Live? && ns[j].key == Dead(ns[i].key.k) ==> rank[i] < rank[j]
  }

  ghost predicate Chains(hash: Hash, ns: Nodes, rank: seq<real>) {
    |ns| > 0 && Linked(ns, rank) && KeysOk(ns) && Homed(hash, ns) && LiveFirst(ns, rank)
  }

  lemma WalkStops(ns: Nodes, a: int, m: nat)
    requires a < 0 || a >= |ns|
    ensures Walk(ns, a, m) == a
  {
  }

  /** Ranks grow along a walk. */
  lemma {:induction false} WalkRanks(ns: Nodes, rank: seq<real>, a: int, n: nat)
    requires Linked(ns, rank) && 0 <= a < |ns| && 0 <= Walk(ns, a, n) < |ns|
    ensures rank[a] <= rank[Walk(ns, a, n)] && (a != Walk(ns, a, n) ==> rank[a] < rank[Walk(ns, a, n)])
    decreases n
  {
    WalkStops(ns, NULL, if n == 0 then 0 else n - 1);
    if n > 0 && ns[a].next != NULL {
      WalkRanks(ns, rank, ns[a].next, n - 1);
    }
  }

  lemma ReachRanks(ns: Nodes, rank: seq<real>, a: int, b: int)
    requires Linked(ns, rank) && 0 <= a < |ns| && 0 <= b < |ns| && Reaches(ns, a, b)
    ensures a == b || (rank[a] < rank[b] && ns[a].next != NULL && Reaches(ns, ns[a].next, b))
  {
    var n: nat :| Walk(ns, a, n) == b;
    WalkRanks(ns, rank, a, n);
    WalkStops(ns, NULL, if n == 0 then 0 else n - 1);
    if n > 0 { assert Walk(ns, ns[a].next, n - 1) == b; }
  }

  /** Walks depend on the links only. */
  lemma {:induction false} SameLinks(ns: Nodes, ns': Nodes, a: int, n: nat)
    requires |ns| == |ns'| && forall i :: 0 <= i < |ns| ==> ns'[i].next == ns[i].next
    ensures Walk(ns', a, n) == Walk(ns, a, n)
    decreases n
  {
    if n > 0 && 0 <= a < |ns| {
      SameLinks(ns, ns', ns[a].next, n - 1);
    }
  }

  // ---------------------------------------------------------------- a key into a node without value

  function Rekeyed(ns: Nodes, mp: nat, k: TValue): Nodes
    requires mp < |ns|
  {
    ns[mp := Node(Live(k), ns[mp].val, ns[mp].next)]
  }

  /** The main position has no value: the key goes there, whatever chains run through it. */
  lemma RekeyKeeps(hash: Hash, ns: Nodes, rank: seq<real>, mp: nat, k: TValue)
    requires Chains(hash, ns, rank) && mp < |ns| && mp == Main(hash, |ns|, k) && ns[mp].val == Nil
    requires k != Nil && k != NaN && forall i :: 0 <= i < |ns| ==> ns[i].key != Live(k)
    ensures Chains(hash, Rekeyed(ns, mp, k), rank)
  {
    RekeyHomed(hash, ns, mp, k);
    RekeyLive(hash, ns, rank, mp, k);
    RekeyKeys(ns, rank, mp, k);
    hide Homed, LiveFirst, Main, Linked, KeysOk, Rekeyed;
  }

  lemma RekeyKeys(ns: Nodes, rank: seq<real>, mp: nat, k: TValue)
    requires Linked(ns, rank) && KeysOk(ns) && mp < |ns| && ns[mp].val == Nil
    requires k != Nil && k != NaN && forall i :: 0 <= i < |ns| ==> ns[i].key != Live(k)
    ensures Linked(Rekeyed(ns, mp, k), rank) && KeysOk(Rekeyed(ns, mp, k)) && |Rekeyed(ns, mp, k)| == |ns|
  {
  }

  lemma RekeyLive(hash: Hash, ns: Nodes, rank: seq<real>, mp: nat, k: TValue)
    requires |rank| == |ns| && Linked(ns, rank) && Homed(hash, ns) && LiveFirst(ns, rank) && mp < |ns| && mp == Main(hash, |ns|, k)
    requires forall i :: 0 <= i < |ns| ==> ns[i].key != Live(k)
    ensures LiveFirst(Rekeyed(ns, mp, k), rank)
  {
    hide Homed, Linked;
    forall j | 0 <= j < |ns| && j != mp && ns[j].key == Dead(k)
      ensures rank[mp] < rank[j]
    {
      assert HomeIs(hash, ns, j, mp);
      HomedAt(hash, ns, j, mp);
      ReachRanks(ns, rank, mp, j);
    }
    hide HomeIs, Main;
  }

  lemma HomedAt(hash: Hash, ns: Nodes, i: int, m: int)
    requires Homed(hash, ns) && HomeIs(hash, ns, i, m)
    ensures Reaches(ns, m, i)
  {
  }

  lemma RekeyHomed(hash: Hash, ns: Nodes, mp: nat, k: TValue)
    requires Homed(hash, ns) && mp < |ns| && mp == Main(hash, |ns|, k)
    ensures Homed(hash, Rekeyed(ns, mp, k))
  {
    var ns' := Rekeyed(ns, mp, k);
    hide Main;
    forall i, m | HomeIs(hash, ns', i, m)
      ensures Reaches(ns', m, i) && HomeIs(hash, ns', m, m)
    {
      if i == mp {
        assert Walk(ns', mp, 0) == mp;
      } else {
        assert HomeIs(hash, ns, i, m);
        ReachSame(ns, ns', m, i);
        assert HomeIs(hash, ns, m, m);
      }
    }
  }

  lemma ReachSame(ns: Nodes, ns': Nodes, a: int, b: int)
    requires |ns| == |ns'| && (forall i :: 0 <= i < |ns| ==> ns'[i].next == ns[i].next) && Reaches(ns, a, b)
    ensures Reaches(ns', a, b)
  {
    var n: nat :| Walk(ns, a, n) == b;
    SameLinks(ns, ns', a, n);
  }

  // ---------------------------------------------------------------- a key into a free node behind its main position

  function Chained(ns: Nodes, mp: nat, n: nat, k: TValue): Nodes
    requires mp < |ns| && n < |ns|
  {
    ns[n := Node(Live(k), Nil, ns[mp].next)][mp := Node(ns[mp].key, ns[mp].val, n)]
  }

  function Between(ns: Nodes, rank: seq<real>, mp: nat): real
    requires mp < |ns| == |rank| && ns[mp].next < |ns|
  {
    if ns[mp].next < 0 then rank[mp] + 1.0 else (rank[mp] + rank[ns[mp].next]) / 2.0
  }

  /** What was reachable still is, over one more node at most. */
  lemma {:induction false} ChainWalk(ns: Nodes, mp: nat, n: nat, k: TValue, a: int, steps: nat)
    requires mp < |ns| && n < |ns| && mp != n && a != n
    requires forall i :: 0 <= i < |ns| ==> ns[i].next != n
    ensures Reaches(Chained(ns, mp, n, k), a, Walk(ns, a, steps))
    decreases steps
  {
    var ns' := Chained(ns, mp, n, k);
    if steps == 0 || a < 0 || a >= |ns| {
      assert Walk(ns', a, 0) == a;
    } else {
      var b := Walk(ns, a, steps);
      ChainWalk(ns, mp, n, k, ns[a].next, steps - 1);
      var m: nat :| Walk(ns', ns[a].next, m) == b;
      if a == mp {
        assert Walk(ns', n, m + 1) == b;
        assert Walk(ns', a, m + 2) == b;
      } else {
        assert Walk(ns', a, m + 1) == b;
      }
    }
  }

  lemma ChainKeeps(hash: Hash, ns: Nodes, rank: seq<real>, mp: nat, n: nat, k: TValue)
    requires Chains(hash, ns, rank) && mp < |ns| && n < |ns| && mp == Main(hash, |ns|, k)
    requires HomeIs(hash, ns, mp, mp) && ns[mp].val != Nil && ns[n].key == NoKey
    requires k != Nil && k != NaN && forall i :: 0 <= i < |ns| ==> ns[i].key != Live(k)
    ensures Chains(hash, Chained(ns, mp, n, k), rank[n := Between(ns, rank, mp)])
  {
    var ns' := Chained(ns, mp, n, k);
    ChainLinked(ns, rank, mp, n, k);
    ChainKeys(ns, mp, n, k);
    ChainLiveFirst(hash, ns, rank, mp, n, k);
    forall i, m | HomeIs(hash, ns', i, m)
      ensures Reaches(ns', m, i) && HomeIs(hash, ns', m, m)
    {
      if i == n {
        assert Walk(ns', mp, 1) == n;
      } else {
        assert HomeIs(hash, ns, i, m) && HomeIs(hash, ns, m, m);
        var s: nat :| Walk(ns, m, s) == i;
        ChainWalk(ns, mp, n, k, m, s);
      }
    }
  }

  lemma ChainLinked(ns: Nodes, rank: seq<real>, mp: nat, n: nat, k: TValue)
    requires Linked(ns, rank) && mp < |ns| && n < |ns| && ns[mp].key != NoKey && ns[n].key == NoKey
    ensures Linked(Chained(ns, mp, n, k), rank[n := Between(ns, rank, mp)])
  {
    assert forall i :: 0 <= i < |ns| ==> ns[i].next != n;
  }

  lemma ChainKeys(ns: Nodes, mp: nat, n: nat, k: TValue)
    requires KeysOk(ns) && mp < |ns| && n < |ns| && ns[mp].val != Nil && ns[n].key == NoKey && mp != n
    requires k != Nil && k != NaN && forall i :: 0 <= i < |ns| ==> ns[i].key != Live(k)
    ensures KeysOk(Chained(ns, mp, n, k))
  {
  }

  lemma ChainLiveFirst(hash: Hash, ns: Nodes, rank: seq<real>, mp: nat, n: nat, k: TValue)
    requires Chains(hash, ns, rank) && mp < |ns| && n < |ns| && mp == Main(hash, |ns|, k)
    requires ns[mp].val != Nil && ns[n].key == NoKey
    requires forall i :: 0 <= i < |ns| ==> ns[i].key != Live(k)
    ensures LiveFirst(Chained(ns, mp, n, k), rank[n := Between(ns, rank, mp)])
  {
    forall j | 0 <= j < |ns| && ns[j].key == Dead(k)
      ensures Between(ns, rank, mp) < rank[j]
    {
      assert HomeIs(hash, ns, j, mp);
      ReachRanks(ns, rank, mp, j);
      ReachRanks(ns, rank, ns[mp].next, j);
    }
  }

  // ---------------------------------------------------------------- the colliding node moves

  /** The node at `mp` goes to the free node `n`; `prev` is the one before it in its chain. */
  function Moved(ns: Nodes, mp: nat, n: nat, prev: nat, k: TValue): Nodes
    requires mp < |ns| && n < |ns| && prev < |ns|
  {
    ns[prev := Node(ns[prev].key, ns[prev].val, n)][n := ns[mp]][mp := Node(Live(k), Nil, NULL)]
  }

  function Shift(mp: nat, n: nat, x: int): int {
    if x == mp then n else x
  }

  /** Chains are the same, with `n` in place of `mp`. */
  lemma {:induction false} MoveWalk(ns: Nodes, rank: seq<real>, mp: nat, n: nat, prev: nat, k: TValue, a: int, steps: nat)
    requires Linked(ns, rank) && mp < |ns| && n < |ns| && prev < |ns| && ns[prev].next == mp && ns[n].key == NoKey && a != n
    ensures Walk(Moved(ns, mp, n, prev, k), Shift(mp, n, a), steps) == Shift(mp, n, Walk(ns, a, steps))
    decreases steps
  {
    if steps > 0 && 0 <= a < |ns| {
      assert ns[a].next != n;
      MoveWalk(ns, rank, mp, n, prev, k, ns[a].next, steps - 1);
    }
  }

  lemma ChainsFrom(hash: Hash, ns: Nodes, rank: seq<real>)
    requires |ns| > 0 && Linked(ns, rank) && KeysOk(ns) && Homed(hash, ns) && |rank| == |ns| && LiveFirst(ns, rank)
    ensures Chains(hash, ns, rank)
  {
  }

  lemma ChainsInto(hash: Hash, ns: Nodes, rank: seq<real>)
    requires Chains(hash, ns, rank)
    ensures |ns| > 0 && Linked(ns, rank) && KeysOk(ns) && Homed(hash, ns) && |rank| == |ns| && LiveFirst(ns, rank)
  {
  }

  lemma MoveKeeps(hash: Hash, ns: Nodes, rank: seq<real>, mp: nat, n: nat, prev: nat, k: TValue)
    requires Chains(hash, ns, rank) && mp < |ns| && n < |ns| && prev < |ns| && mp == Main(hash, |ns|, k)
    requires ns[prev].next == mp && ns[mp].key != NoKey && !HomeIs(hash, ns, mp, mp) && ns[n].key == NoKey
    requires k != Nil && k != NaN && forall i :: 0 <= i < |ns| ==> ns[i].key != Live(k)
    ensures Chains(hash, Moved(ns, mp, n, prev, k), rank[n := rank[mp]])
  {
    hide *;
    ChainsInto(hash, ns, rank);
    PrevIsOther(ns, rank, mp, n, prev);
    MoveLinked(ns, rank, mp, n, prev, k);
    MoveKeys(ns, mp, n, prev, k);
    MoveHomed(hash, ns, rank, mp, n, prev, k);
    MoveLiveFirst(hash, ns, rank, mp, n, prev, k);
    MovedLength(ns, mp, n, prev, k);
    ChainsFrom(hash, Moved(ns, mp, n, prev, k), rank[n := rank[mp]]);
  }

  lemma MovedLength(ns: Nodes, mp: nat, n: nat, prev: nat, k: TValue)
    requires mp < |ns| && n < |ns| && prev < |ns|
    ensures |Moved(ns, mp, n, prev, k)| == |ns|
  {
  }

  lemma PrevIsOther(ns: Nodes, rank: seq<real>, mp: nat, n: nat, prev: nat)
    requires Linked(ns, rank) && mp < |ns| && n < |ns| && prev < |ns| && ns[prev].next == mp && ns[mp].key != NoKey && ns[n].key == NoKey
    ensures prev != mp && prev != n && mp != n
  {
  }

  lemma MoveHomed(hash: Hash, ns: Nodes, rank: seq<real>, mp: nat, n: nat, prev: nat, k: TValue)
    requires Linked(ns, rank) && Homed(hash, ns) && mp < |ns| && n < |ns| && prev < |ns| && mp == Main(hash, |ns|, k)
    requires ns[prev].next == mp && ns[mp].key != NoKey && !HomeIs(hash, ns, mp, mp) && ns[n].key == NoKey
    requires prev != mp && prev != n && mp != n
    ensures Homed(hash, Moved(ns, mp, n, prev, k))
  {
    var ns' := Moved(ns, mp, n, prev, k);
    hide Linked, Main;
    forall i, m | HomeIs(hash, ns', i, m)
      ensures Reaches(ns', m, i) && HomeIs(hash, ns', m, m)
    {
      if i == mp {
        assert Walk(ns', mp, 0) == mp;
      } else {
        var i0 := if i == n then mp else i;
        assert HomeIs(hash, ns, i0, m) && HomeIs(hash, ns, m, m);
        assert m != mp && m != n;
        var s: nat :| Walk(ns, m, s) == i0;
        MoveWalk(ns, rank, mp, n, prev, k, m, s);
        assert ns'[m].key == ns[m].key;
      }
    }
  }

  lemma MoveLiveFirst(hash: Hash, ns: Nodes, rank: seq<real>, mp: nat, n: nat, prev: nat, k: TValue)
    requires Homed(hash, ns) && |rank| == |ns| && LiveFirst(ns, rank)
    requires mp < |ns| && n < |ns| && prev < |ns| && mp == Main(hash, |ns|, k) && prev != mp && prev != n && mp != n
    requires ns[mp].key != NoKey && !HomeIs(hash, ns, mp, mp) && ns[n].key == NoKey
    requires k != Nil && k != NaN && forall i :: 0 <= i < |ns| ==> ns[i].key != Live(k)
    ensures LiveFirst(Moved(ns, mp, n, prev, k), rank[n := rank[mp]])
  {
    var ns' := Moved(ns, mp, n, prev, k);
    hide Main;
    forall j | 0 <= j < |ns|
      ensures ns'[j].key != Dead(k)
    {
      assert HomeIs(hash, ns, if j == n then mp else j, mp) ==> HomeIs(hash, ns, mp, mp);
    }
  }

  lemma MoveLinked(ns: Nodes, rank: seq<real>, mp: nat, n: nat, prev: nat, k: TValue)
    requires Linked(ns, rank) && mp < |ns| && n < |ns| && prev < |ns|
    requires ns[prev].next == mp && ns[mp].key != NoKey && ns[n].key == NoKey
    ensures Linked(Moved(ns, mp, n, prev, k), rank[n := rank[mp]])
  {
    var ns', rank' := Moved(ns, mp, n, prev, k), rank[n := rank[mp]];
    assert prev != mp && prev != n && mp != n && forall i :: 0 <= i < |ns| ==> ns[i].next != n;
    forall i | 0 <= i < |ns|
      ensures ns'[i].next == NULL || (0 <= ns'[i].next < |ns| && ns'[ns'[i].next].key != NoKey && rank'[i] < rank'[ns'[i].next])
      ensures ns'[i].key == NoKey ==> ns'[i].next == NULL && ns'[i].val == Nil
    {
      MovedNext(ns, rank, mp, n, prev, k, i);
    }
    forall i, j | 0 <= i < |ns| && 0 <= j < |ns| && ns'[i].next == ns'[j].next != NULL
      ensures i == j
    {
      MovedNext(ns, rank, mp, n, prev, k, i);
      MovedNext(ns, rank, mp, n, prev, k, j);
    }
  }

  lemma MovedNext(ns: Nodes, rank: seq<real>, mp: nat, n: nat, prev: nat, k: TValue, i: nat)
    requires Linked(ns, rank) && mp < |ns| && n < |ns| && prev < |ns| && i < |ns|
    requires ns[prev].next == mp && ns[mp].key != NoKey && ns[n].key == NoKey && prev != mp && prev != n && mp != n
    ensures var next := Moved(ns, mp, n, prev, k)[i].next;
            && next == (if i == mp then NULL else if i == prev then n else if i == n then ns[mp].next else ns[i].next)
            && next != mp && (i != prev ==> ns[i].next != mp && ns[i].next != n)
  {
  }

  lemma MoveKeys(ns: Nodes, mp: nat, n: nat, prev: nat, k: TValue)
    requires KeysOk(ns) && mp < |ns| && n < |ns| && prev < |ns| && mp != n && prev != n
    requires k != Nil && k != NaN && forall i :: 0 <= i < |ns| ==> ns[i].key != Live(k)
    ensures KeysOk(Moved(ns, mp, n, prev, k))
  {
  }
}
