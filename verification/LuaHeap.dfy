/** Collectable objects, their mark bits, and the facts about a heap that the collector of lua/lgc.c keeps. */
module LuaHeap {
  import opened Basics

  type Ref = nat

  function Somes<T>(s: seq<Option<T>>): seq<T> {
    if s == [] then [] else (if s[0].Some? then [s[0].value] else []) + Somes(s[1..])
  }

  lemma {:induction false} SomesOf<T>(s: seq<Option<T>>)
    ensures forall x :: x in Somes(s) <==> Some(x) in s
  {
    if s != [] {
      SomesOf(s[1..]);
      assert s == [s[0]] + s[1..];
    }
  }

  lemma SomesOfNone<T>(s: seq<Option<T>>)
    requires forall i :: 0 <= i < |s| ==> s[i].None?
    ensures Somes(s) == []
  {
  }

  datatype Kind = String(bytes: string) | Userdata | Upval | Function | Table | Thread | Proto

  /** An object: its kind, the objects it refers to strongly, and bits 0, 1, 2 and 5 of `marked`. */
  datatype Obj = Obj(kind: Kind, refs: seq<Ref>, white0: bool, white1: bool, black: bool, fixed: bool) {
    predicate IsWhite() { white0 || white1 }
    predicate IsGray() { !black && !IsWhite() }

    /** It carries the other white: not `cur`, the white of new objects (`false` for bit 0). */
    predicate IsDead(cur: bool) { if cur then white0 else white1 }

    function MakeWhite(cur: bool): Obj { Obj(kind, refs, !cur, cur, false, fixed) }
    function ChangeWhite(): Obj { Obj(kind, refs, !white0, !white1, black, fixed) }
    function WhiteToGray(): Obj { Obj(kind, refs, false, false, black, fixed) }
    function GrayToBlack(): Obj { Obj(kind, refs, white0, white1, true, fixed) }
    function BlackToGray(): Obj { Obj(kind, refs, white0, white1, false, fixed) }
    function WithRefs(rs: seq<Ref>): Obj { Obj(kind, rs, white0, white1, black, fixed) }

    /** The kinds that are linked into `gray` or `grayagain` while they are gray. */
    predicate Listed() { kind.Function? || kind.Table? || kind.Thread? || kind.Proto? }
  }

  type Heap = map<Ref, Obj>

  ghost predicate SameContents(a: Obj, b: Obj) {
    a.kind == b.kind && a.refs == b.refs && a.fixed == b.fixed
  }

  /** No object has two colours; only strings and the main thread are fixed; threads are never black. */
  ghost predicate WellFormed(h: Heap, main: Ref) {
    && (forall r :: r in h ==> !(h[r].white0 && h[r].white1) && (h[r].black ==> !h[r].IsWhite()))
    && (forall r :: r in h && h[r].kind.String? ==> h[r].refs == [] && !h[r].black)
    && (forall r :: r in h && h[r].fixed ==> h[r].kind.String? || r == main)
    && (forall r :: r in h && h[r].kind.Thread? ==> r == main)
    && main in h && h[main].kind.Thread? && !h[main].black && |h[main].refs| > 0
  }

  // ---------------------------------------------------------------- reachability

  /** `s` is closed under the references of the objects in it. */
  ghost predicate RefsWithin(h: Heap, s: set<Ref>) {
    forall r, c :: r in s && r in h && c in h[r].refs ==> c in s
  }

  /** Reachable: in every set that holds the roots and is closed under references. */
  ghost predicate Reachable(h: Heap, roots: set<Ref>, r: Ref) {
    forall s: set<Ref> :: roots <= s && RefsWithin(h, s) ==> r in s
  }

  ghost function Reach(h: Heap, roots: set<Ref>): set<Ref> {
    set r | r in h && Reachable(h, roots, r)
  }

  /** When some closed set of allocated objects holds the roots, the reachable ones are the least such set. */
  lemma ReachIsLeast(h: Heap, roots: set<Ref>, s: set<Ref>)
    requires roots <= s && RefsWithin(h, s) && s <= h.Keys
    ensures forall r :: Reachable(h, roots, r) <==> r in Reach(h, roots)
    ensures roots <= Reach(h, roots) <= s && RefsWithin(h, Reach(h, roots))
  {
    forall r | r in roots
      ensures Reachable(h, roots, r)
    {
    }
    forall r, c | r in Reach(h, roots) && c in h[r].refs
      ensures Reachable(h, roots, c)
    {
      assert Reachable(h, roots, r);
    }
  }

  /** The objects in `s` are all still there, with the same contents. */
  ghost predicate Kept(h: Heap, h': Heap, s: set<Ref>) {
    forall r :: r in s && r in h ==> r in h' && SameContents(h[r], h'[r])
  }

  /** What is reachable depends only on the reachable objects. */
  lemma ReachIsStable(h: Heap, h': Heap, roots: set<Ref>)
    requires roots <= Reach(h, roots) && RefsWithin(h, Reach(h, roots))
    requires Kept(h, h', Reach(h, roots))
    ensures Reach(h', roots) == Reach(h, roots)
  {
    var s := Reach(h, roots);
    forall r | r in s
      ensures r in Reach(h', roots)
    {
      forall t: set<Ref> | roots <= t && RefsWithin(h', t)
        ensures r in t
      {
        assert RefsWithin(h, s * t);
        assert Reachable(h, roots, r);
      }
    }
    forall r | r in Reach(h', roots)
      ensures r in s
    {
      assert RefsWithin(h', s);
      assert Reachable(h', roots, r);
    }
  }

  // ---------------------------------------------------------------- marking

  ghost predicate NoDup(s: seq<Ref>) {
    forall i, j :: 0 <= i < j < |s| ==> s[i] != s[j]
  }

  /** References lead to allocated objects. */
  ghost predicate Points(h: Heap) {
    forall r, c :: r in h && c in h[r].refs ==> c in h
  }

  /** No reference of `r` leads to a white object. */
  ghost predicate Clean(h: Heap, r: Ref) {
    r in h && forall c :: c in h[r].refs && c in h ==> !h[c].IsWhite()
  }

  /** Its references have been followed: black, or a kind that is never queued. */
  predicate Done(o: Obj) {
    !o.IsWhite() && !(o.IsGray() && o.Listed())
  }

  /** The tri-colour invariant, but for the objects in `ex` that are being traversed. */
  ghost predicate TriColour(h: Heap, ex: set<Ref>) {
    && (forall r :: r in h && r !in ex && Done(h[r]) ==> Clean(h, r))
    && (forall r :: r in h && r !in ex && (h[r].kind.Userdata? || h[r].kind.Upval?) ==> !h[r].IsGray())
  }

  /** The two gray lists hold exactly the gray objects that must still be traversed, each once. */
  ghost predicate GrayLists(h: Heap, gray: seq<Ref>, again: seq<Ref>) {
    && NoDup(gray) && NoDup(again)
    && (forall r :: r in gray ==> r !in again)
    && (forall r :: r in h && h[r].IsGray() && h[r].Listed() ==> r in gray || r in again)
    && (forall r :: r in gray || r in again ==> r in h && h[r].IsGray() && h[r].Listed())
    && (forall r :: r in again ==> h[r].kind.Table? || h[r].kind.Thread?)
  }

  ghost predicate NoneDead(h: Heap, cur: bool) {
    forall r :: r in h ==> !h[r].IsDead(cur)
  }

  /** Everything marked lies in `s`. */
  ghost predicate MarkedWithin(h: Heap, s: set<Ref>) {
    forall r :: r in h && !h[r].IsWhite() ==> r in s
  }

  ghost predicate Marking(h: Heap, main: Ref, cur: bool, gray: seq<Ref>, again: seq<Ref>, ex: set<Ref>, s: set<Ref>) {
    && WellFormed(h, main) && Points(h) && NoneDead(h, cur)
    && TriColour(h, ex) && GrayLists(h, gray, again)
    && MarkedWithin(h, s) && RefsWithin(h, s)
  }

  /** Marking changes colours only, and never back to white. */
  ghost predicate Darker(h: Heap, h': Heap) {
    h.Keys == h'.Keys
    && forall r :: r in h ==> SameContents(h[r], h'[r]) && (!h[r].IsWhite() ==> !h'[r].IsWhite())
  }

  /** Marking from white objects only: the others do not change. */
  ghost predicate OnlyWhites(h: Heap, h': Heap) {
    Darker(h, h') && forall r :: r in h && !h[r].IsWhite() ==> h'[r] == h[r]
  }

  ghost function Whites(h: Heap): set<Ref> {
    set r | r in h && h[r].IsWhite()
  }

  /** What a marking does: it changes white objects only, and queues only such objects. */
  ghost predicate MarkRun(h: Heap, gray: seq<Ref>, h': Heap, gray': seq<Ref>) {
    OnlyWhites(h, h') && forall r :: r in gray' ==> r in gray || r in Whites(h)
  }

  /** Marking in two parts. */
  lemma MarkThen(h0: Heap, h1: Heap, h2: Heap, g0: seq<Ref>, g1: seq<Ref>, g2: seq<Ref>)
    requires MarkRun(h0, g0, h1, g1) && MarkRun(h1, g1, h2, g2)
    ensures MarkRun(h0, g0, h2, g2) && Whites(h2) <= Whites(h1) <= Whites(h0) && |Whites(h2)| <= |Whites(h1)| <= |Whites(h0)|
  {
    WhitesShrink(h0, h1);
    WhitesShrink(h1, h2);
  }

  /** The references up to the `i`-th lead to objects that are marked. */
  ghost predicate MarkedTo(h: Heap, rs: seq<Ref>, i: nat) {
    forall j :: 0 <= j < i < |rs| + 1 ==> rs[j] in h && !h[rs[j]].IsWhite()
  }

  lemma MarkedNext(h: Heap, g: seq<Ref>, h': Heap, g': seq<Ref>, rs: seq<Ref>, i: nat)
    requires MarkRun(h, g, h', g') && MarkedTo(h, rs, i) && i < |rs| && rs[i] in h' && !h'[rs[i]].IsWhite()
    ensures MarkedTo(h', rs, i + 1)
  {
  }

  lemma MarkedAll(h: Heap, g: seq<Ref>, h': Heap, g': seq<Ref>, o: Ref)
    requires MarkRun(h, g, h', g') && o in h && MarkedTo(h', h[o].refs, |h[o].refs|)
    ensures Clean(h', o)
  {
  }

  lemma WhitesShrink(h: Heap, h': Heap)
    requires Darker(h, h')
    ensures Whites(h') <= Whites(h) && |Whites(h')| <= |Whites(h)|
  {
    SubsetSize(Whites(h'), Whites(h));
  }

  /** One object takes another colour that is not white. */
  lemma RecolourOne(h: Heap, main: Ref, cur: bool, ex: set<Ref>, s: set<Ref>, o: Ref, x: Obj)
    requires WellFormed(h, main) && Points(h) && NoneDead(h, cur) && MarkedWithin(h, s) && RefsWithin(h, s)
    requires o in h && o in s && SameContents(h[o], x) && !x.IsWhite()
    requires x.black ==> !x.kind.String? && !x.kind.Thread?
    ensures var h' := h[o := x];
            && WellFormed(h', main) && Points(h') && NoneDead(h', cur) && MarkedWithin(h', s) && RefsWithin(h', s)
            && Darker(h, h')
  {
  }

  lemma RecolourTriColour(h: Heap, ex: set<Ref>, o: Ref, x: Obj)
    requires TriColour(h, ex) && o in h && SameContents(h[o], x) && !x.IsWhite()
    requires o in ex || (!Done(x) && x.Listed()) || (x.refs == [] && x.kind.String?)
    ensures TriColour(h[o := x], ex)
  {
    var h' := h[o := x];
    forall r | r in h' && r !in ex && Done(h'[r])
      ensures Clean(h', r)
    {
      if r != o { assert Clean(h, r); }
    }
  }

  /** `reallymarkobject`, first half: a white object turns gray, and is queued if its kind is. */
  lemma GrayOne(h: Heap, main: Ref, cur: bool, gray: seq<Ref>, again: seq<Ref>, ex: set<Ref>, s: set<Ref>, o: Ref)
    requires Marking(h, main, cur, gray, again, ex, s) && o in h && h[o].IsWhite() && o in s
    ensures Marking(h[o := h[o].WhiteToGray()], main, cur, if h[o].Listed() then [o] + gray else gray, again,
                    if h[o].Listed() || h[o].kind.String? then ex else ex + {o}, s)
    ensures MarkRun(h, gray, h[o := h[o].WhiteToGray()], if h[o].Listed() then [o] + gray else gray)
    ensures |Whites(h[o := h[o].WhiteToGray()])| < |Whites(h)|
  {
    var x := h[o].WhiteToGray();
    assert Whites(h[o := x]) == Whites(h) - {o} && Whites(h) == Whites(h[o := x]) + {o};
    RecolourOne(h, main, cur, ex, s, o, x);
    assert TriColour(h, ex + {o});
    RecolourTriColour(h, if h[o].Listed() || h[o].kind.String? then ex else ex + {o}, o, x);
    GrayListed(h, gray, again, o);
  }

  lemma GrayListed(h: Heap, gray: seq<Ref>, again: seq<Ref>, o: Ref)
    requires GrayLists(h, gray, again) && o in h && h[o].IsWhite() && !h[o].black
    ensures GrayLists(h[o := h[o].WhiteToGray()], if h[o].Listed() then [o] + gray else gray, again)
  {
    assert o !in gray && o !in again;
  }

  /** An object outside the lists turns black. */
  lemma BlackOne(h: Heap, main: Ref, cur: bool, gray: seq<Ref>, again: seq<Ref>, ex: set<Ref>, s: set<Ref>, o: Ref)
    requires Marking(h, main, cur, gray, again, ex, s) && o in h && !h[o].IsWhite() && (h[o].kind.Userdata? || h[o].kind.Upval?)
    requires o in ex
    ensures Marking(h[o := h[o].GrayToBlack()], main, cur, gray, again, ex, s)
  {
    var x := h[o].GrayToBlack();
    RecolourOne(h, main, cur, ex, s, o, x);
    RecolourTriColour(h, ex, o, x);
  }

  /** Blackening an object that was white when the marking began, or one whose blackening begins it. */
  lemma BlackRun(h0: Heap, g0: seq<Ref>, h: Heap, g: seq<Ref>, o: Ref)
    requires MarkRun(h0, g0, h, g) && o in h && !h[o].IsWhite() && o in h0 && h0[o].IsWhite()
    ensures MarkRun(h0, g0, h[o := h[o].GrayToBlack()], g)
    ensures |Whites(h[o := h[o].GrayToBlack()])| == |Whites(h)|
    ensures Clean(h, o) ==> Clean(h[o := h[o].GrayToBlack()], o)
  {
    assert Whites(h[o := h[o].GrayToBlack()]) == Whites(h);
  }

  /** A traversed object whose references are all marked keeps the invariant again. */
  lemma Settle(h: Heap, main: Ref, cur: bool, gray: seq<Ref>, again: seq<Ref>, ex: set<Ref>, s: set<Ref>, o: Ref)
    requires Marking(h, main, cur, gray, again, ex + {o}, s) && Clean(h, o)
    requires h[o].kind.Userdata? || h[o].kind.Upval? ==> !h[o].IsGray()
    ensures Marking(h, main, cur, gray, again, ex, s)
  {
  }

  lemma TakeListed(h: Heap, gray: seq<Ref>, again: seq<Ref>)
    requires GrayLists(h, gray, again) && gray != [] && gray[0] in h
    ensures var o := gray[0];
            && o !in gray[1..]
            && GrayLists(if h[o].kind.Thread? then h else h[o := h[o].GrayToBlack()], gray[1..],
                         if h[o].kind.Thread? then [o] + again else again)
  {
    assert forall r :: r in gray <==> r == gray[0] || r in gray[1..];
  }

  /** `propagatemark` takes the first gray object: it turns black, but for a thread, which waits for the atomic phase. */
  lemma TakeGray(h: Heap, main: Ref, cur: bool, gray: seq<Ref>, again: seq<Ref>, s: set<Ref>)
    requires Marking(h, main, cur, gray, again, {}, s) && gray != []
    ensures gray[0] in h
    ensures var o := gray[0];
            var h' := if h[o].kind.Thread? then h else h[o := h[o].GrayToBlack()];
            && Marking(h', main, cur, gray[1..], if h[o].kind.Thread? then [o] + again else again, {o}, s)
            && Darker(h, h') && Whites(h') == Whites(h) && o !in gray[1..]
  {
    var o := gray[0];
    var x := if h[o].kind.Thread? then h[o] else h[o].GrayToBlack();
    assert h[o := h[o]] == h;
    RecolourOne(h, main, cur, {o}, s, o, x);
    assert TriColour(h, {o});
    RecolourTriColour(h, {o}, o, x);
    TakeListed(h, gray, again);
  }

  /** What is still to be traversed. */
  ghost function Pending(h: Heap, g: seq<Ref>): set<Ref> {
    set r | r in h && (h[r].IsWhite() || r in g)
  }

  lemma PendingShrinks(h0: Heap, g0: seq<Ref>, h1: Heap, g1: seq<Ref>, h2: Heap, g2: seq<Ref>)
    requires g0 != [] && g0[0] in h0 && !h0[g0[0]].IsWhite() && g1 == g0[1..] && g0[0] !in g1
    requires Darker(h0, h1) && Whites(h1) == Whites(h0) && MarkRun(h1, g1, h2, g2)
    ensures Darker(h0, h2) && Pending(h2, g2) < Pending(h0, g0)
  {
    assert g0[0] in Pending(h0, g0) && g0[0] !in Pending(h2, g2);
    forall r | r in Pending(h2, g2)
      ensures r in Pending(h0, g0)
    {
      assert r in g2 ==> r in g1 || r in Whites(h1);
    }
  }

  /** A collection starts with every object white and nothing queued. */
  lemma StartMarking(h: Heap, main: Ref, roots: set<Ref>, cur: bool, s: set<Ref>)
    requires WellFormed(h, main) && Sound(h, roots, cur) && AllFresh(h, cur) && RefsWithin(h, s)
    ensures Marking(h, main, cur, [], [], {}, s) && roots <= h.Keys
  {
    FreshIsClosed(h, roots, cur);
  }

  lemma DarkerThen(h0: Heap, h1: Heap, h2: Heap, rs: seq<Ref>)
    requires Darker(h0, h1) && Darker(h1, h2) && MarkedTo(h1, rs, |rs|)
    ensures Darker(h0, h2) && MarkedTo(h2, rs, |rs|)
  {
  }

  lemma DarkerAll(h: Heap, h': Heap, q: Ref, rs: seq<Ref>)
    requires Darker(h, h') && q in h && !h[q].IsWhite() && forall i :: 0 <= i < |rs| ==> rs[i] in h
    ensures q in h' && !h'[q].IsWhite() && forall i :: 0 <= i < |rs| ==> rs[i] in h'
  {
  }

  lemma DarkerAfter(h0: Heap, h1: Heap, h2: Heap)
    requires Darker(h0, h1) && Darker(h1, h2)
    ensures Darker(h0, h2)
  {
  }

  lemma DarkerSelf(h: Heap)
    ensures Darker(h, h)
  {
  }

  lemma DarkerKeepsClean(h: Heap, h': Heap)
    requires Darker(h, h')
    ensures forall r :: Clean(h, r) ==> Clean(h', r)
  {
  }

  lemma RootsMarked(h: Heap, rs: seq<Ref>, all: seq<Ref>, q: Ref)
    requires |rs| > 0 && all == [rs[0], q] + rs[1..] && MarkedTo(h, rs, |rs|) && q in h && !h[q].IsWhite()
    ensures MarkedTo(h, all, |all|)
  {
  }

  lemma RunIsDarker(h: Heap, g: seq<Ref>, h': Heap, g': seq<Ref>)
    requires MarkRun(h, g, h', g')
    ensures Darker(h, h')
  {
  }

  // ---------------------------------------------------------------- sweeping

  /** What a collection may not free: everything that does not carry the other white. */
  ghost function Live(h: Heap, cur: bool): set<Ref> {
    set r | r in h && !h[r].IsDead(cur)
  }

  /** The safety core: the live objects hold the roots and everything they refer to. */
  ghost predicate Sound(h: Heap, roots: set<Ref>, cur: bool) {
    roots <= Live(h, cur) && RefsWithin(h, Live(h, cur))
  }

  /** All objects have the current white: the state between two collections. */
  ghost predicate AllFresh(h: Heap, cur: bool) {
    forall r :: r in h ==> h[r].IsWhite() && !h[r].IsDead(cur)
  }

  /** A reachable object is allocated and not dead. */
  lemma ReachableIsLive(h: Heap, roots: set<Ref>, cur: bool, r: Ref)
    requires Sound(h, roots, cur) && Reachable(h, roots, r)
    ensures r in h && !h[r].IsDead(cur)
  {
    assert r in Live(h, cur);
  }

  /** Sweeping: an object that is dead and not fixed goes; the others may turn to the current white. */
  ghost predicate Swept(h: Heap, h': Heap, cur: bool) {
    && h'.Keys <= h.Keys
    && (forall r :: r in h' ==> h'[r] == h[r] || (h'[r] == h[r].MakeWhite(cur) && (!h[r].IsDead(cur) || h[r].fixed)))
    && (forall r :: r in h && r !in h' ==> h[r].IsDead(cur) && !h[r].fixed)
  }

  lemma SweptKeeps(h: Heap, h': Heap, main: Ref, roots: set<Ref>, cur: bool)
    requires Swept(h, h', cur) && WellFormed(h, main) && Sound(h, roots, cur) && main in roots
    ensures WellFormed(h', main) && Sound(h', roots, cur) && Kept(h, h', Live(h, cur))
  {
    assert main in Live(h, cur);
    forall r, c | r in Live(h', cur) && r in h' && c in h'[r].refs
      ensures c in Live(h', cur)
    {
      assert r in Live(h, cur);
      assert c in Live(h, cur);
    }
  }

  /** With everything in the current white nothing is dead, and references lead to allocated objects. */
  lemma FreshIsClosed(h: Heap, roots: set<Ref>, cur: bool)
    requires Sound(h, roots, cur) && AllFresh(h, cur)
    ensures NoneDead(h, cur) && Points(h) && roots <= h.Keys
  {
    assert Live(h, cur) == h.Keys;
  }

  /** Without dead objects, closed references are all that safety asks for. */
  lemma NoneDeadIsSound(h: Heap, roots: set<Ref>, cur: bool)
    requires NoneDead(h, cur) && Points(h) && roots <= h.Keys
    ensures Sound(h, roots, cur)
  {
    assert Live(h, cur) == h.Keys;
  }

  // ---------------------------------------------------------------- the lists through `next`

  const MINSTRTABSIZE: nat := 32

  ghost predicate IsPow2(n: nat) {
    exists k: nat :: n == Pow2(k)
  }

  lemma HalfIsPow2(n: nat)
    requires IsPow2(n) && n > 1
    ensures IsPow2(n / 2)
  {
    var k: nat :| n == Pow2(k);
    assert n / 2 == Pow2(k - 1);
  }

  lemma DoubleIsPow2(n: nat)
    requires IsPow2(n)
    ensures IsPow2(2 * n)
  {
    var k: nat :| n == Pow2(k);
    assert 2 * n == Pow2(k + 1);
  }

  /** The hash of a string of lua/lstring.c: all its bytes, or, when it is long, every `step`-th from the end. */
  function HashFrom(s: string, l1: nat, step: nat, h: bv32): bv32
    requires step > 0 && l1 <= |s|
  {
    if l1 < step then h
    else HashFrom(s, l1 - step, step, h ^ ((h << 5) + (h >> 2) + (s[l1 - 1] as int % 256) as bv32))
  }

  function Hash(s: string): nat {
    HashFrom(s, |s|, |s| / 32 + 1, (|s| % 0x1_0000_0000) as bv32) as nat
  }

  /** `lmod`: the sizes are powers of two. */
  function Bucket(hash: nat, size: nat): (b: nat)
    requires size > 0
    ensures b < size
  {
    hash % size
  }

  /** List -1 is `rootgc`, with everything but strings; list b is bucket b of the string table. */
  predicate InList(o: Obj, b: int, size: nat) {
    if b < 0 then !o.kind.String? else o.kind.String? && size > 0 && Bucket(Hash(o.kind.bytes), size) == b
  }

  ghost predicate ListOf(h: Heap, list: seq<Ref>, b: int, size: nat) {
    NoDup(list) && forall r :: r in list <==> r in h && InList(h[r], b, size)
  }

  function Chain(rootgc: seq<Ref>, strt: seq<seq<Ref>>, b: int): seq<Ref>
    requires b < |strt|
  {
    if b < 0 then rootgc else strt[b]
  }

  ghost predicate Linked(h: Heap, rootgc: seq<Ref>, strt: seq<seq<Ref>>) {
    forall b :: -1 <= b < |strt| ==> ListOf(h, Chain(rootgc, strt, b), b, |strt|)
  }

  ghost function Strings(h: Heap): set<Ref> {
    set r | r in h && h[r].kind.String?
  }

  /** No two strings with the same bytes. */
  ghost predicate Unique(h: Heap) {
    forall r, q :: r in h && q in h && h[r].kind.String? && h[r].kind == h[q].kind ==> r == q
  }

  /** The first `p` objects of the list have the current white. */
  ghost predicate FreshTo(h: Heap, cur: bool, list: seq<Ref>, p: nat) {
    p <= |list| && forall i :: 0 <= i < p ==> list[i] in h && h[list[i]].IsWhite() && !h[list[i]].IsDead(cur)
  }

  /** The lists through `next`, and the string table: unique strings, and a size that is a power of two. */
  ghost predicate ListsOk(h: Heap, rootgc: seq<Ref>, strt: seq<seq<Ref>>, nuse: int) {
    Linked(h, rootgc, strt) && Unique(h) && nuse == |Strings(h)| && IsPow2(|strt|) && |strt| >= MINSTRTABSIZE
  }

  /** The lists depend on the kinds of the objects only. */
  lemma DarkerLists(h: Heap, h': Heap, rootgc: seq<Ref>, strt: seq<seq<Ref>>, nuse: int)
    requires Darker(h, h')
    requires ListsOk(h, rootgc, strt, nuse)
    ensures ListsOk(h', rootgc, strt, nuse)
  {
    assert Strings(h') == Strings(h);
  }

  /** Everything that a sweep will keep, but for fixed objects, lies in `s`. */
  ghost predicate LiveWithin(h: Heap, cur: bool, s: set<Ref>) {
    forall r :: r in h && !h[r].IsDead(cur) && !h[r].fixed ==> r in s
  }

  /** The end of marking: nothing is left to traverse, so the marked objects are closed; the flip makes the white ones dead. */
  lemma Flip(h: Heap, main: Ref, cur: bool, again: seq<Ref>, s: set<Ref>, roots: set<Ref>)
    requires Marking(h, main, cur, [], again, {}, s) && forall r :: r in again ==> Clean(h, r)
    requires roots <= h.Keys && forall r :: r in roots ==> !h[r].IsWhite()
    ensures Sound(h, roots, !cur) && LiveWithin(h, !cur, s)
  {
    forall r | r in Live(h, !cur)
      ensures !h[r].IsWhite() && Clean(h, r)
    {
    }
  }

  // ---------------------------------------------------------------- one list swept

  /** The state of a sweep of list `b` that began with heap `h0`: `p` objects are behind it. */
  ghost predicate Sweeping(h0: Heap, h: Heap, cur: bool, list: seq<Ref>, p: nat, b: int, size: nat) {
    && Swept(h0, h, cur) && ListOf(h, list, b, size) && FreshTo(h, cur, list, p)
    && forall r :: r in h0 && !InList(h0[r], b, size) ==> r in h && h[r] == h0[r]
  }

  lemma SweepStarts(h: Heap, cur: bool, list: seq<Ref>, p: nat, b: int, size: nat)
    requires ListOf(h, list, b, size) && FreshTo(h, cur, list, p)
    ensures Sweeping(h, h, cur, list, p, b, size) && p <= |list|
  {
  }

  lemma SweepNext(h0: Heap, h: Heap, cur: bool, list: seq<Ref>, p: nat, b: int, size: nat)
    requires Sweeping(h0, h, cur, list, p, b, size) && p < |list|
    ensures list[p] in h
  {
    assert list[p] in list;
  }

  /** Recolouring keeps the list, and turns one more object to the current white. */
  lemma ListKeeps(h: Heap, cur: bool, list: seq<Ref>, p: nat, b: int, size: nat)
    requires ListOf(h, list, b, size) && FreshTo(h, cur, list, p) && p < |list|
    ensures list[p] in h && InList(h[list[p]], b, size)
    ensures var h' := h[list[p] := h[list[p]].MakeWhite(cur)];
            ListOf(h', list, b, size) && FreshTo(h', cur, list, p + 1) && Strings(h') == Strings(h)
  {
    assert list[p] in list;
    hide InList;
  }

  lemma SweepKeeps(h0: Heap, h: Heap, cur: bool, list: seq<Ref>, p: nat, b: int, size: nat)
    requires Sweeping(h0, h, cur, list, p, b, size) && p < |list|
    requires !h[list[p]].IsDead(cur) || h[list[p]].fixed
    ensures Sweeping(h0, h[list[p] := h[list[p]].MakeWhite(cur)], cur, list, p + 1, b, size)
    ensures Strings(h[list[p] := h[list[p]].MakeWhite(cur)]) == Strings(h)
  {
    ListKeeps(h, cur, list, p, b, size);
    hide ListOf, FreshTo, Strings;
  }

  lemma SweepErases(h0: Heap, h: Heap, cur: bool, list: seq<Ref>, p: nat, b: int, size: nat)
    requires Sweeping(h0, h, cur, list, p, b, size) && p < |list|
    requires h[list[p]].IsDead(cur) && !h[list[p]].fixed
    ensures Sweeping(h0, h - {list[p]}, cur, list[..p] + list[p + 1..], p, b, size)
    ensures Strings(h - {list[p]}) == Strings(h) - {list[p]}
  {
    ListErases(h, list, p, b, size);
    assert list[p] in list && InList(h[list[p]], b, size);
    hide ListOf;
    hide InList;
  }

  lemma ListErases(h: Heap, list: seq<Ref>, p: nat, b: int, size: nat)
    requires ListOf(h, list, b, size) && p < |list|
    ensures ListOf(h - {list[p]}, list[..p] + list[p + 1..], b, size)
    ensures forall i :: 0 <= i < p ==> list[i] != list[p]
  {
    var list' := list[..p] + list[p + 1..];
    assert forall r :: r in list' <==> r in list && r != list[p];
  }

  /** The other lists are as they were. */
  lemma OtherList(h0: Heap, h: Heap, cur: bool, list: seq<Ref>, p: nat, b: int, other: seq<Ref>, c: int, size: nat)
    requires Sweeping(h0, h, cur, list, p, b, size) && ListOf(h0, other, c, size) && -1 <= b && -1 <= c && b != c
    ensures ListOf(h, other, c, size)
  {
    forall r
      ensures r in other <==> r in h && InList(h[r], c, size)
    {
      if r in h { assert h[r].kind == h0[r].kind; }
    }
  }

  lemma SweptLists(h0: Heap, h: Heap, cur: bool, rootgc: seq<Ref>, strt: seq<seq<Ref>>, list: seq<Ref>, p: nat, b: int)
    requires Linked(h0, rootgc, strt) && Unique(h0) && -1 <= b < |strt|
    requires Sweeping(h0, h, cur, list, p, b, |strt|)
    ensures Linked(h, if b < 0 then list else rootgc, if b < 0 then strt else strt[b := list]) && Unique(h)
  {
    hide Sweeping;
    hide ListOf;
    var rootgc', strt' := if b < 0 then list else rootgc, if b < 0 then strt else strt[b := list];
    forall c | -1 <= c < |strt'|
      ensures ListOf(h, Chain(rootgc', strt', c), c, |strt'|)
    {
      if c == b {
        SweepingList(h0, h, cur, list, p, b, |strt|);
      } else {
        OtherList(h0, h, cur, list, p, b, Chain(rootgc, strt, c), c, |strt|);
      }
    }
    SweepingList(h0, h, cur, list, p, b, |strt|);
  }

  lemma SweepingList(h0: Heap, h: Heap, cur: bool, list: seq<Ref>, p: nat, b: int, size: nat)
    requires Sweeping(h0, h, cur, list, p, b, size)
    ensures ListOf(h, list, b, size) && (Unique(h0) ==> Unique(h))
  {
  }

  lemma SweptWithin(h: Heap, h': Heap, cur: bool, s: set<Ref>)
    requires Swept(h, h', cur) && LiveWithin(h, cur, s)
    ensures LiveWithin(h', cur, s)
  {
  }

  lemma OtherFresh(h0: Heap, h: Heap, cur: bool, list: seq<Ref>, p: nat, b: int, other: seq<Ref>, c: int, size: nat)
    requires Sweeping(h0, h, cur, list, p, b, size) && -1 <= b && -1 <= c && b != c
    requires ListOf(h0, other, c, size) && FreshTo(h0, cur, other, |other|)
    ensures FreshTo(h, cur, other, |other|)
  {
    forall i | 0 <= i < |other|
      ensures other[i] in h && h[other[i]] == h0[other[i]]
    {
      assert other[i] in other;
    }
  }

  /** All strings have the current white. */
  ghost predicate FreshStrings(h: Heap, cur: bool) {
    forall r :: r in h && h[r].kind.String? ==> h[r].IsWhite() && !h[r].IsDead(cur)
  }

  ghost predicate FreshBuckets(h: Heap, cur: bool, strt: seq<seq<Ref>>, n: nat) {
    forall b :: 0 <= b < n <= |strt| ==> FreshTo(h, cur, strt[b], |strt[b]|)
  }

  lemma AllBucketsFresh(h: Heap, cur: bool, rootgc: seq<Ref>, strt: seq<seq<Ref>>, nuse: int)
    requires ListsOk(h, rootgc, strt, nuse) && FreshBuckets(h, cur, strt, |strt|)
    ensures FreshStrings(h, cur)
  {
    forall r | r in h && h[r].kind.String?
      ensures h[r].IsWhite() && !h[r].IsDead(cur)
    {
      var b := Bucket(Hash(h[r].kind.bytes), |strt|);
      assert ListOf(h, Chain(rootgc, strt, b), b, |strt|) && InList(h[r], b, |strt|);
      assert r in strt[b] && FreshTo(h, cur, strt[b], |strt[b]|);
    }
  }

  lemma AllListsFresh(h: Heap, cur: bool, rootgc: seq<Ref>, strt: seq<seq<Ref>>, nuse: int)
    requires ListsOk(h, rootgc, strt, nuse) && FreshStrings(h, cur) && FreshTo(h, cur, rootgc, |rootgc|)
    ensures AllFresh(h, cur)
  {
    forall r | r in h && !h[r].kind.String?
      ensures h[r].IsWhite() && !h[r].IsDead(cur)
    {
      assert ListOf(h, Chain(rootgc, strt, -1), -1, |strt|) && InList(h[r], -1, |strt|);
      assert r in rootgc;
    }
  }

  /** A bucket swept: what `ListsOk` says, and the buckets before it are still fresh. */
  lemma BucketSwept(h0: Heap, h: Heap, cur: bool, rootgc: seq<Ref>, strt: seq<seq<Ref>>, nuse0: int, nuse: int, list: seq<Ref>, b: nat)
    requires ListsOk(h0, rootgc, strt, nuse0) && b < |strt| && FreshBuckets(h0, cur, strt, b)
    requires Sweeping(h0, h, cur, list, |list|, b, |strt|) && nuse == |Strings(h)|
    ensures ListsOk(h, rootgc, strt[b := list], nuse) && FreshBuckets(h, cur, strt[b := list], b + 1)
  {
    SweptLists(h0, h, cur, rootgc, strt, list, |list|, b);
    forall c | 0 <= c < b
      ensures FreshTo(h, cur, strt[c], |strt[c]|)
    {
      assert ListOf(h0, Chain(rootgc, strt, c), c, |strt|);
      OtherFresh(h0, h, cur, list, |list|, b, strt[c], c, |strt|);
    }
  }

  lemma RootSwept(h0: Heap, h: Heap, cur: bool, rootgc: seq<Ref>, strt: seq<seq<Ref>>, nuse0: int, nuse: int, list: seq<Ref>, p: nat)
    requires ListsOk(h0, rootgc, strt, nuse0) && FreshStrings(h0, cur)
    requires Sweeping(h0, h, cur, list, p, -1, |strt|) && nuse == |Strings(h)|
    ensures ListsOk(h, list, strt, nuse) && FreshStrings(h, cur) && FreshTo(h, cur, list, p)
  {
    SweptLists(h0, h, cur, rootgc, strt, list, p, -1);
  }

  // ---------------------------------------------------------------- the string table

  /** The objects in `done` are chained in the buckets of a table under construction. */
  ghost predicate Rehashed(h: Heap, done: set<Ref>, newhash: seq<seq<Ref>>) {
    forall b :: 0 <= b < |newhash| ==> NoDup(newhash[b]) && forall r :: r in newhash[b] <==> r in done && r in h && InList(h[r], b, |newhash|)
  }

  lemma RehashOne(h: Heap, done: set<Ref>, newhash: seq<seq<Ref>>, p: Ref)
    requires Rehashed(h, done, newhash) && |newhash| > 0 && p in h && p !in done && h[p].kind.String?
    ensures var h1 := Bucket(Hash(h[p].kind.bytes), |newhash|); Rehashed(h, done + {p}, newhash[h1 := [p] + newhash[h1]])
  {
    var h1 := Bucket(Hash(h[p].kind.bytes), |newhash|);
    assert p !in newhash[h1];
  }

  /** The strings of the buckets before `i`. */
  ghost function StringsBefore(h: Heap, size: nat, i: nat): set<Ref> {
    set r | r in h && h[r].kind.String? && size > 0 && Bucket(Hash(h[r].kind.bytes), size) < i
  }

  lemma NextBucket(h: Heap, rootgc: seq<Ref>, strt: seq<seq<Ref>>, nuse: int, i: nat)
    requires ListsOk(h, rootgc, strt, nuse) && i < |strt|
    ensures NoDup(strt[i]) && forall r :: r in strt[i] ==> r in h && h[r].kind.String? && r !in StringsBefore(h, |strt|, i)
    ensures StringsBefore(h, |strt|, i + 1) == StringsBefore(h, |strt|, i) + (set r | r in strt[i])
  {
    assert ListOf(h, Chain(rootgc, strt, i), i, |strt|);
  }

  lemma RehashDone(h: Heap, rootgc: seq<Ref>, strt: seq<seq<Ref>>, nuse: int, newhash: seq<seq<Ref>>)
    requires ListsOk(h, rootgc, strt, nuse) && Rehashed(h, StringsBefore(h, |strt|, |strt|), newhash)
    requires IsPow2(|newhash|) && |newhash| >= MINSTRTABSIZE
    ensures ListsOk(h, rootgc, newhash, nuse)
  {
    assert StringsBefore(h, |strt|, |strt|) == Strings(h);
    assert ListOf(h, Chain(rootgc, strt, -1), -1, |strt|);
    forall b | 0 <= b < |newhash|
      ensures ListOf(h, newhash[b], b, |newhash|)
    {
    }
  }

  // ---------------------------------------------------------------- a step, seen by the program

  /** Only dead objects are freed, and the contents of the others stay. */
  ghost predicate FreesOnlyDead(h: Heap, h': Heap, cur: bool) {
    h'.Keys <= h.Keys && (forall r :: r in h' ==> SameContents(h[r], h'[r])) && forall r :: r in h && (!h[r].IsDead(cur) || h[r].fixed) ==> r in h'
  }

  lemma DarkerSize(h: Heap, h': Heap)
    requires Darker(h, h')
    ensures h'.Keys == h.Keys && |h'.Keys| == |h.Keys|
  {
  }

  lemma DarkerFreesNone(h: Heap, h': Heap, cur: bool)
    requires Darker(h, h')
    ensures FreesOnlyDead(h, h', cur)
  {
  }

  lemma SweepFreesDead(h: Heap, h': Heap, cur: bool, list: seq<Ref>, p: nat, b: int, size: nat)
    requires Sweeping(h, h', cur, list, p, b, size)
    ensures FreesOnlyDead(h, h', cur) && Swept(h, h', cur)
  {
  }

  ghost function Fixed(h: Heap): set<Ref> {
    set r | r in h && h[r].fixed
  }

  /** Nothing reachable or fixed is freed or changed, and so the same objects are reachable after the step. */
  lemma StepIsSafe(h: Heap, h': Heap, cur: bool, roots: set<Ref>)
    requires Sound(h, roots, cur) && FreesOnlyDead(h, h', cur)
    ensures Reach(h', roots) == Reach(h, roots) && Fixed(h') == Fixed(h) && Kept(h, h', Reach(h, roots) + Fixed(h))
    ensures forall r :: Reachable(h, roots, r) <==> r in Reach(h, roots)
  {
    ReachIsLeast(h, roots, Live(h, cur));
    ReachIsStable(h, h', roots);
  }

  lemma StillWithin(h: Heap, h': Heap, cur: bool, s: set<Ref>)
    requires FreesOnlyDead(h, h', cur) && RefsWithin(h, s)
    ensures RefsWithin(h', s)
  {
  }

  lemma NothingFreed(h: Heap, cur: bool)
    ensures FreesOnlyDead(h, h, cur)
  {
  }

  lemma KeptThen(h0: Heap, h1: Heap, h2: Heap, s: set<Ref>)
    requires Kept(h0, h1, s) && Kept(h1, h2, s)
    ensures Kept(h0, h2, s)
  {
  }

  lemma KeptSelf(h: Heap, s: set<Ref>)
    ensures Kept(h, h, s)
  {
  }
}
