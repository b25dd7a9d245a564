/** The collector's invariant state by state, and why the program's writes and allocations keep it. */
module LuaPhase {
  import opened Basics
  import opened LuaHeap

  datatype GCState = Pause | Propagate | SweepString | Sweep | Finalize

  /** What holds in each state of the collector; in the mark phase, but for the objects in `ex` that are being written or traversed. */
  ghost predicate Phase(g: GCState, h: Heap, main: Ref, registry: Ref, cur: bool, gray: seq<Ref>, again: seq<Ref>,
                        rootgc: seq<Ref>, sweepgc: nat, strt: seq<seq<Ref>>, sweepstrgc: nat, ex: set<Ref>)
  {
    match g
    case Pause => AllFresh(h, cur)
    case Finalize => AllFresh(h, cur)
    case Propagate =>
      && Marking(h, main, cur, gray, again, ex, h.Keys)
      && main in h && !h[main].IsWhite() && registry in h && !h[registry].IsWhite()
    case SweepString => sweepgc == 0 && sweepstrgc < |strt| && FreshBuckets(h, cur, strt, sweepstrgc)
    case Sweep => FreshTo(h, cur, rootgc, sweepgc) && FreshStrings(h, cur)
  }

  // ---------------------------------------------------------------- writes

  /** Object `o` is written: among its references `v` may be new. */
  ghost predicate Writes(h: Heap, cur: bool, o: Ref, rs: seq<Ref>, v: Option<Ref>) {
    && o in h && !h[o].IsDead(cur) && !h[o].kind.String?
    && (v.Some? ==> v.value in h && !h[v.value].IsDead(cur))
    && forall c :: c in rs ==> c in h[o].refs || v == Some(c)
  }

  lemma WriteKeepsHeap(h: Heap, main: Ref, roots: set<Ref>, cur: bool, o: Ref, rs: seq<Ref>, v: Option<Ref>)
    requires WellFormed(h, main) && Sound(h, roots, cur) && Writes(h, cur, o, rs, v) && (o == main ==> |rs| > 0)
    ensures WellFormed(h[o := h[o].WithRefs(rs)], main) && Sound(h[o := h[o].WithRefs(rs)], roots, cur)
  {
    var h' := h[o := h[o].WithRefs(rs)];
    assert Live(h', cur) == Live(h, cur);
    forall r, c | r in Live(h', cur) && c in h'[r].refs
      ensures c in Live(h', cur)
    {
      assert r in Live(h, cur);
      if c in h[r].refs { assert c in Live(h, cur); }
    }
  }

  /** The kinds of the objects are the same: all that the lists through `next` depend on. */
  ghost predicate SameKinds(h: Heap, h': Heap) {
    h.Keys == h'.Keys && forall r :: r in h ==> h'[r].kind == h[r].kind
  }

  lemma SameLists(h: Heap, h': Heap, rootgc: seq<Ref>, strt: seq<seq<Ref>>, nuse: int)
    requires SameKinds(h, h') && ListsOk(h, rootgc, strt, nuse)
    ensures ListsOk(h', rootgc, strt, nuse)
  {
    assert Strings(h') == Strings(h);
  }

  /** Only `o` differs, and it is as fresh as before. */
  ghost predicate AsFresh(h: Heap, h': Heap, cur: bool, o: Ref) {
    && h.Keys == h'.Keys && o in h && h'[o].kind == h[o].kind
    && (forall r :: r in h && r != o ==> h'[r] == h[r])
    && (h[o].IsWhite() && !h[o].IsDead(cur) ==> h'[o].IsWhite() && !h'[o].IsDead(cur))
  }

  lemma StaysFresh(g: GCState, h: Heap, h': Heap, main: Ref, registry: Ref, cur: bool, gray: seq<Ref>, again: seq<Ref>, again': seq<Ref>,
                   rootgc: seq<Ref>, sweepgc: nat, strt: seq<seq<Ref>>, sweepstrgc: nat, ex: set<Ref>, ex': set<Ref>, o: Ref)
    requires Phase(g, h, main, registry, cur, gray, again, rootgc, sweepgc, strt, sweepstrgc, ex) && g != Propagate
    requires AsFresh(h, h', cur, o)
    ensures Phase(g, h', main, registry, cur, gray, again', rootgc, sweepgc, strt, sweepstrgc, ex')
  {
    if g == SweepString {
      forall b | 0 <= b < sweepstrgc
        ensures FreshTo(h', cur, strt[b], |strt[b]|)
      {
        assert FreshTo(h, cur, strt[b], |strt[b]|);
      }
    }
  }

  /** The write needs a barrier: a black object gets a reference to a white one. */
  predicate NeedsBarrier(h: Heap, o: Ref, v: Option<Ref>)
    requires o in h && (v.Some? ==> v.value in h)
  {
    v.Some? && h[o].black && h[v.value].IsWhite()
  }

  /** The mark phase after a write: only a black object may now refer to a white one. */
  lemma WriteMarking(h: Heap, main: Ref, cur: bool, gray: seq<Ref>, again: seq<Ref>, o: Ref, rs: seq<Ref>, v: Option<Ref>)
    requires Marking(h, main, cur, gray, again, {}, h.Keys) && Writes(h, cur, o, rs, v) && (o == main ==> |rs| > 0)
    ensures var h' := h[o := h[o].WithRefs(rs)];
            Marking(h', main, cur, gray, again, if NeedsBarrier(h, o, v) then {o} else {}, h'.Keys)
    ensures h[o].black ==> CleanBut(h[o := h[o].WithRefs(rs)], o, v)
  {
    var h' := h[o := h[o].WithRefs(rs)];
    assert h'.Keys == h.Keys;
    WriteTriColour(h, o, rs, v);
    WriteListed(h, gray, again, o, rs);
    WriteRest(h, main, cur, o, rs, v);
  }

  /** The references of `o`, but for `v`, lead to marked objects. */
  ghost predicate CleanBut(h: Heap, o: Ref, v: Option<Ref>) {
    o in h && forall c :: c in h[o].refs && c in h && v != Some(c) ==> !h[c].IsWhite()
  }

  lemma WriteRest(h: Heap, main: Ref, cur: bool, o: Ref, rs: seq<Ref>, v: Option<Ref>)
    requires WellFormed(h, main) && Points(h) && NoneDead(h, cur) && Writes(h, cur, o, rs, v) && (o == main ==> |rs| > 0)
    ensures var h' := h[o := h[o].WithRefs(rs)];
            WellFormed(h', main) && Points(h') && NoneDead(h', cur) && MarkedWithin(h', h.Keys) && RefsWithin(h', h.Keys)
  {
  }

  lemma WriteTriColour(h: Heap, o: Ref, rs: seq<Ref>, v: Option<Ref>)
    requires TriColour(h, {}) && o in h && !h[o].kind.String? && (v.Some? ==> v.value in h)
    requires forall c :: c in rs ==> c in h[o].refs || v == Some(c)
    ensures TriColour(h[o := h[o].WithRefs(rs)], if NeedsBarrier(h, o, v) then {o} else {})
    ensures h[o].black && !h[o].IsWhite() ==> CleanBut(h[o := h[o].WithRefs(rs)], o, v)
  {
    var h' := h[o := h[o].WithRefs(rs)];
    if h[o].black && !h[o].IsWhite() { assert Clean(h, o); }
    forall r | r in h' && r != o && Done(h'[r])
      ensures Clean(h', r)
    {
      assert Clean(h, r);
    }
  }

  lemma WriteListed(h: Heap, gray: seq<Ref>, again: seq<Ref>, o: Ref, rs: seq<Ref>)
    requires GrayLists(h, gray, again) && o in h
    ensures GrayLists(h[o := h[o].WithRefs(rs)], gray, again)
  {
  }

  /** `luaC_barrierback`: a black table goes back to gray, to be traversed again in the atomic phase. */
  lemma BackMarking(h: Heap, main: Ref, cur: bool, gray: seq<Ref>, again: seq<Ref>, o: Ref)
    requires Marking(h, main, cur, gray, again, {o}, h.Keys) && o in h && h[o].black && h[o].kind.Table?
    ensures Marking(h[o := h[o].BlackToGray()], main, cur, gray, [o] + again, {}, h[o := h[o].BlackToGray()].Keys)
  {
    var h' := h[o := h[o].BlackToGray()];
    RecolourOne(h, main, cur, {o}, h.Keys, o, h'[o]);
    forall r | r in h' && r != o && Done(h'[r])
      ensures Clean(h', r)
    {
      assert Clean(h, r);
    }
    BackListed(h, gray, again, o);
    assert h'.Keys == h.Keys;
  }

  lemma BackListed(h: Heap, gray: seq<Ref>, again: seq<Ref>, o: Ref)
    requires GrayLists(h, gray, again) && o in h && h[o].black && !h[o].IsWhite() && h[o].kind.Table?
    ensures GrayLists(h[o := h[o].BlackToGray()], gray, [o] + again)
  {
    assert o !in gray && o !in again;
  }

  /** Colours may differ, but not the contents. */
  ghost predicate SameShape(h: Heap, h': Heap) {
    h.Keys == h'.Keys && forall r :: r in h ==> SameContents(h[r], h'[r])
  }

  /** Only `o` has other references. */
  ghost predicate SameBut(h: Heap, h': Heap, o: Ref) {
    && h.Keys == h'.Keys && o in h && h'[o].kind == h[o].kind && h'[o].fixed == h[o].fixed
    && forall r :: r in h && r != o ==> SameContents(h[r], h'[r])
  }

  lemma SameButThen(h: Heap, h1: Heap, h': Heap, o: Ref)
    requires SameBut(h, h1, o) && SameShape(h1, h')
    ensures SameBut(h, h', o) && h'[o].refs == h1[o].refs
  {
  }

  /** The forward barrier has marked the new reference: the written object is clean. */
  lemma ForwardCleans(h0: Heap, g0: seq<Ref>, h: Heap, g: seq<Ref>, o: Ref, v: Ref)
    requires MarkRun(h0, g0, h, g) && CleanBut(h0, o, Some(v)) && v in h && !h[v].IsWhite() && Points(h)
    ensures Clean(h, o) && SameShape(h0, h) && Darker(h0, h)
  {
  }

  /** Turning an object to the current white, or back to gray while sweeping, keeps everything but the mark phase. */
  lemma RecolourSweep(h: Heap, main: Ref, roots: set<Ref>, cur: bool, rootgc: seq<Ref>, strt: seq<seq<Ref>>, nuse: int, o: Ref, x: Obj)
    requires WellFormed(h, main) && ListsOk(h, rootgc, strt, nuse) && Sound(h, roots, cur)
    requires o in h && !h[o].IsDead(cur) && !h[o].kind.String? && (x == h[o].MakeWhite(cur) || (x == h[o].BlackToGray() && h[o].black))
    ensures var h' := h[o := x];
            WellFormed(h', main) && ListsOk(h', rootgc, strt, nuse) && Sound(h', roots, cur) && SameShape(h, h') && AsFresh(h, h', cur, o)
  {
    RecolourSound(h, roots, cur, o, x);
    RecolourFormed(h, main, o, x, cur);
    SameLists(h, h[o := x], rootgc, strt, nuse);
    hide WellFormed, ListsOk, Sound;
  }

  lemma RecolourSound(h: Heap, roots: set<Ref>, cur: bool, o: Ref, x: Obj)
    requires Sound(h, roots, cur)
    requires o in h && !h[o].IsDead(cur) && (x == h[o].MakeWhite(cur) || (x == h[o].BlackToGray() && h[o].black))
    ensures Sound(h[o := x], roots, cur)
  {
    assert Live(h[o := x], cur) == Live(h, cur);
  }

  lemma RecolourFormed(h: Heap, main: Ref, o: Ref, x: Obj, cur: bool)
    requires WellFormed(h, main) && o in h && !h[o].kind.String? && (x == h[o].MakeWhite(cur) || (x == h[o].BlackToGray() && h[o].black))
    ensures WellFormed(h[o := x], main)
  {
  }

  // ---------------------------------------------------------------- allocation

  function NewObj(kind: Kind, rs: seq<Ref>, cur: bool): Obj {
    Obj(kind, rs, !cur, cur, false, false)
  }

  /** A new object has the current white, and refers to objects that are not dead. */
  ghost predicate Allocates(h: Heap, cur: bool, r: Ref, o: Obj) {
    && r !in h && !o.kind.Thread? && !o.fixed && !o.black && o.IsWhite() && !o.IsDead(cur) && !(o.white0 && o.white1)
    && (o.kind.String? ==> o.refs == [])
    && forall c :: c in o.refs ==> c in Live(h, cur)
  }

  lemma AllocKeepsHeap(h: Heap, main: Ref, roots: set<Ref>, cur: bool, r: Ref, o: Obj)
    requires WellFormed(h, main) && Sound(h, roots, cur) && Allocates(h, cur, r, o)
    ensures WellFormed(h[r := o], main) && Sound(h[r := o], roots, cur)
  {
    var h' := h[r := o];
    assert Live(h', cur) == Live(h, cur) + {r};
  }

  lemma AllocMarking(h: Heap, main: Ref, cur: bool, gray: seq<Ref>, again: seq<Ref>, r: Ref, o: Obj)
    requires Marking(h, main, cur, gray, again, {}, h.Keys) && Allocates(h, cur, r, o)
    ensures Marking(h[r := o], main, cur, gray, again, {}, h[r := o].Keys)
  {
    var h' := h[r := o];
    assert h'.Keys == h.Keys + {r};
    assert Live(h, cur) == h.Keys;
    AllocTriColour(h, r, o);
    AllocListed(h, gray, again, r, o);
  }

  lemma AllocTriColour(h: Heap, r: Ref, o: Obj)
    requires TriColour(h, {}) && Points(h) && r !in h && o.IsWhite() && !o.black
    ensures TriColour(h[r := o], {})
  {
    forall q | q in h && Done(h[q])
      ensures Clean(h[r := o], q)
    {
      assert Clean(h, q);
    }
  }

  lemma AllocListed(h: Heap, gray: seq<Ref>, again: seq<Ref>, r: Ref, o: Obj)
    requires GrayLists(h, gray, again) && r !in h && o.IsWhite()
    ensures GrayLists(h[r := o], gray, again)
  {
  }

  /** A new object keeps what the state of the collector asks for, if its list grows where no sweep has been. */
  lemma AllocPhase(g: GCState, h: Heap, main: Ref, registry: Ref, cur: bool, gray: seq<Ref>, again: seq<Ref>,
                   rootgc: seq<Ref>, sweepgc: nat, strt: seq<seq<Ref>>, sweepstrgc: nat,
                   rootgc': seq<Ref>, sweepgc': nat, strt': seq<seq<Ref>>, r: Ref, o: Obj)
    requires Phase(g, h, main, registry, cur, gray, again, rootgc, sweepgc, strt, sweepstrgc, {}) && Allocates(h, cur, r, o)
    requires |strt'| == |strt| && forall b :: 0 <= b < |strt| ==> strt'[b] == strt[b] || strt'[b] == [r] + strt[b]
    requires (sweepgc' == 0 && g != Sweep) || FreshAlso(rootgc, sweepgc, rootgc', sweepgc', r)
    requires sweepgc == 0 <==> sweepgc' == 0
    ensures Phase(g, h[r := o], main, registry, cur, gray, again, rootgc', sweepgc', strt', sweepstrgc, {})
  {
    if g == Propagate {
      AllocMarking(h, main, cur, gray, again, r, o);
    } else if g == SweepString {
      forall b | 0 <= b < sweepstrgc
        ensures FreshTo(h[r := o], cur, strt'[b], |strt'[b]|)
      {
        assert FreshTo(h, cur, strt[b], |strt[b]|);
      }
    }
  }

  /** The swept part of a list that grew: as before, but for the new object. */
  ghost predicate FreshAlso(list: seq<Ref>, p: nat, list': seq<Ref>, p': nat, r: Ref) {
    p <= |list| ==> p' <= |list'| && forall i :: 0 <= i < p' ==> list'[i] == r || list'[i] in list[..p]
  }

  /** Linked into `rootgc` at the `i`-th place; a sweep that stands behind that place moves with its object. */
  lemma LinkRoot(h: Heap, rootgc: seq<Ref>, sweepgc: nat, strt: seq<seq<Ref>>, nuse: int, i: nat, r: Ref, o: Obj)
    requires ListsOk(h, rootgc, strt, nuse) && r !in h && !o.kind.String? && i <= |rootgc|
    ensures var rootgc' := rootgc[..i] + [r] + rootgc[i..];
            var sweepgc' := if sweepgc > i then sweepgc + 1 else sweepgc;
            ListsOk(h[r := o], rootgc', strt, nuse) && FreshAlso(rootgc, sweepgc, rootgc', sweepgc', r)
  {
    var h', rootgc' := h[r := o], rootgc[..i] + [r] + rootgc[i..];
    assert Strings(h') == Strings(h);
    assert ListOf(h, Chain(rootgc, strt, -1), -1, |strt|);
    assert forall q :: q in rootgc' <==> q == r || q in rootgc;
    forall b | -1 <= b < |strt|
      ensures ListOf(h', Chain(rootgc', strt, b), b, |strt|)
    {
      assert ListOf(h, Chain(rootgc, strt, b), b, |strt|);
    }
  }

  /** A new string, at the head of its bucket. */
  lemma LinkString(h: Heap, rootgc: seq<Ref>, strt: seq<seq<Ref>>, nuse: int, r: Ref, o: Obj)
    requires ListsOk(h, rootgc, strt, nuse) && r !in h && o.kind.String?
    requires forall q :: q in h ==> h[q].kind != o.kind
    ensures var b := Bucket(Hash(o.kind.bytes), |strt|);
            ListsOk(h[r := o], rootgc, strt[b := [r] + strt[b]], nuse + 1)
  {
    var h', b := h[r := o], Bucket(Hash(o.kind.bytes), |strt|);
    var strt' := strt[b := [r] + strt[b]];
    assert Strings(h') == Strings(h) + {r};
    forall c | -1 <= c < |strt'|
      ensures ListOf(h', Chain(rootgc, strt', c), c, |strt'|)
    {
      LinkList(h, Chain(rootgc, strt, c), c, |strt|, r, o);
    }
  }

  lemma LinkList(h: Heap, list: seq<Ref>, c: int, size: nat, r: Ref, o: Obj)
    requires ListOf(h, list, c, size) && r !in h
    ensures ListOf(h[r := o], if InList(o, c, size) then [r] + list else list, c, size)
  {
    assert r !in list;
  }

  // ---------------------------------------------------------------- writes into the main thread

  lemma StackKeepsHeap(h: Heap, main: Ref, roots: set<Ref>, cur: bool, rs: seq<Ref>)
    requires WellFormed(h, main) && Sound(h, roots, cur) && |rs| > 0 && forall c :: c in rs ==> c in h && !h[c].IsDead(cur)
    ensures WellFormed(h[main := h[main].WithRefs(rs)], main) && Sound(h[main := h[main].WithRefs(rs)], roots, cur)
  {
    var h' := h[main := h[main].WithRefs(rs)];
    assert Live(h', cur) == Live(h, cur);
  }

  /** The main thread is never black: whatever it refers to, the mark phase will look at it again. */
  lemma StackMarking(h: Heap, main: Ref, cur: bool, gray: seq<Ref>, again: seq<Ref>, rs: seq<Ref>)
    requires Marking(h, main, cur, gray, again, {}, h.Keys) && |rs| > 0 && forall c :: c in rs ==> c in h
    ensures var h' := h[main := h[main].WithRefs(rs)]; Marking(h', main, cur, gray, again, {}, h'.Keys)
  {
    var h' := h[main := h[main].WithRefs(rs)];
    assert h'.Keys == h.Keys;
    WriteListed(h, gray, again, main, rs);
    forall r | r in h' && Done(h'[r])
      ensures r != main && Clean(h', r)
    {
      assert Clean(h, r);
    }
  }

  /** A dead string is found again: it gets the current white. */
  lemma ReviveKeeps(h: Heap, main: Ref, roots: set<Ref>, cur: bool, r: Ref)
    requires WellFormed(h, main) && Sound(h, roots, cur) && r in h && h[r].IsDead(cur) && h[r].kind.String?
    ensures var h' := h[r := h[r].ChangeWhite()];
            WellFormed(h', main) && Sound(h', roots, cur) && SameShape(h, h') && SameKinds(h, h') && AsFresh(h, h', cur, r)
    ensures h[r].ChangeWhite().IsWhite() && !h[r].ChangeWhite().IsDead(cur)
  {
    var h' := h[r := h[r].ChangeWhite()];
    assert Live(h', cur) == Live(h, cur) + {r};
  }

  lemma DeadMeansSweep(g: GCState, h: Heap, main: Ref, registry: Ref, cur: bool, gray: seq<Ref>, again: seq<Ref>,
                       rootgc: seq<Ref>, sweepgc: nat, strt: seq<seq<Ref>>, sweepstrgc: nat, r: Ref)
    requires Phase(g, h, main, registry, cur, gray, again, rootgc, sweepgc, strt, sweepstrgc, {}) && r in h && h[r].IsDead(cur)
    ensures g == SweepString || g == Sweep
  {
  }

  lemma FirstHeap(main: Ref, globals: Ref, reg: Ref, h: Heap)
    requires main != globals && globals != reg && reg != main
    requires h == map[main := Obj(Thread, [globals], true, false, false, true),
                      globals := Obj(Table, [], true, false, false, false), reg := Obj(Table, [], true, false, false, false)]
    ensures h.Keys == {main, globals, reg} == Live(h, false) && WellFormed(h, main) && AllFresh(h, false)
    ensures Sound(h, {main, reg}, false) && Reach(h, {main, reg}) == {main, globals, reg}
  {
    assert h.Keys == {main, globals, reg};
    ReachIsLeast(h, {main, reg}, h.Keys);
    assert globals in h[main].refs;
  }

  lemma FirstLists(main: Ref, globals: Ref, reg: Ref, h: Heap, strt: seq<seq<Ref>>)
    requires main != globals && globals != reg && reg != main && h.Keys == {main, globals, reg}
    requires forall r :: r in h ==> !h[r].kind.String?
    requires |strt| == MINSTRTABSIZE && forall b :: 0 <= b < |strt| ==> strt[b] == []
    ensures ListsOk(h, [reg, globals, main], strt, 0)
  {
    assert MINSTRTABSIZE == Pow2(5);
    assert Strings(h) == {};
    assert ListOf(h, [reg, globals, main], -1, |strt|);
  }
}
