/** The incremental collector of lua/lgc.c with its write barriers, and the string table of lua/lstring.c that it sweeps. */
module LuaGC {
  import opened Basics
  import opened LuaHeap
  import opened LuaPhase
  import opened LuaWorld

  const GCSWEEPMAX: nat := 40

  class GlobalState {
    var heap: Heap
    var gcstate: GCState
    var currentwhite: bool
    var gray: seq<Ref>
    var grayagain: seq<Ref>
    var rootgc: seq<Ref>
    var sweepgc: nat
    var strt: seq<seq<Ref>>
    var nuse: int
    var sweepstrgc: nat
    var mt: seq<Option<Ref>>
    const mainthread: Ref
    const registry: Ref

    /** The root set in the order of `markroot`, but for the globals, which the main thread refers to. */
    function RootList(): seq<Ref>
      reads this`mt
    {
      [mainthread, registry] + Somes(mt)
    }

    ghost function Roots(): set<Ref>
      reads this`mt
    {
      set r | r in RootList()
    }

    /** An object that the program may hold: allocated and not dead. Every reachable object is one. */
    predicate Usable(r: Ref)
      reads this`heap, this`currentwhite
    {
      r in heap && !heap[r].IsDead(currentwhite)
    }

    ghost function Reached(): set<Ref>
      reads this`heap, this`mt
    {
      Reach(heap, Roots())
    }

    /** What a collection may not free. */
    ghost function Survivors(): set<Ref>
      reads this`heap, this`mt
    {
      Reached() + Fixed(heap)
    }

    ghost predicate Marks(ex: set<Ref>, s: set<Ref>)
      reads this`heap, this`currentwhite, this`gray, this`grayagain
    {
      Marking(heap, mainthread, currentwhite, gray, grayagain, ex, s)
    }

    ghost predicate Sane(ex: set<Ref>)
      reads this
    {
      && WellFormed(heap, mainthread) && ListsOk(heap, rootgc, strt, nuse) && Sound(heap, Roots(), currentwhite)
      && Phase(gcstate, heap, mainthread, registry, currentwhite, gray, grayagain, rootgc, sweepgc, strt, sweepstrgc, ex)
    }

    /** The collector's invariant: it holds between any two steps, of the collector or of the program. */
    ghost predicate Valid()
      reads this
    {
      Sane({})
    }

    // ---------------------------------------------------------------- marking

    method MarkObject(t: Ref, ghost ex: set<Ref>, ghost s: set<Ref>)
      requires Marks(ex, s) && t in heap && t in s
      modifies this`heap, this`gray
      ensures Marks(ex, s) && t in heap && !heap[t].IsWhite()
      ensures MarkRun(old(heap), old(gray), heap, gray)
      decreases |Whites(heap)|, 1
    {
      if heap[t].IsWhite() {
        ReallyMarkObject(t, ex, s);
      }
    }

    method ReallyMarkObject(o: Ref, ghost ex: set<Ref>, ghost s: set<Ref>)
      requires Marks(ex, s) && o in heap && o in s && heap[o].IsWhite()
      modifies this`heap, this`gray
      ensures Marks(ex, s) && o in heap && !heap[o].IsWhite()
      ensures MarkRun(old(heap), old(gray), heap, gray)
      decreases |Whites(heap)|, 0
    {
      assert !heap[o].IsDead(currentwhite);
      hide Marking;
      hide MarkRun;
      GrayOne(heap, mainthread, currentwhite, gray, grayagain, ex, s, o);
      heap := heap[o := heap[o].WhiteToGray()];
      match heap[o].kind
      case String(_) =>
      case Userdata => MarkUserdata(o, ex, s, old(heap));
      case Upval => MarkUpval(o, ex, s, old(heap));
      case _ => gray := [o] + gray;
    }

    /** Userdata are never gray: `o` is black while its metatable and environment are marked. */
    method MarkUserdata(o: Ref, ghost ex: set<Ref>, ghost s: set<Ref>, ghost h0: Heap)
      requires Marks(ex + {o}, s) && o in heap && o in s && heap[o].kind.Userdata? && !heap[o].IsWhite()
      requires MarkRun(h0, gray, heap, gray) && o in h0 && h0[o].IsWhite()
      modifies this`heap, this`gray
      ensures Marks(ex, s) && o in heap && !heap[o].IsWhite()
      ensures MarkRun(h0, old(gray), heap, gray)
      decreases |Whites(heap)|, 4
    {
      hide Marking;
      hide MarkRun;
      BlackOne(heap, mainthread, currentwhite, gray, grayagain, ex + {o}, s, o);
      BlackRun(h0, gray, heap, gray, o);
      heap := heap[o := heap[o].GrayToBlack()];
      ghost var h1 := heap;
      MarkRefs(o, ex + {o}, s);
      MarkThen(h0, h1, heap, old(gray), old(gray), gray);
      Settle(heap, mainthread, currentwhite, gray, grayagain, ex, s, o);
    }

    /** A closed upvalue turns black when its value is marked. */
    method MarkUpval(o: Ref, ghost ex: set<Ref>, ghost s: set<Ref>, ghost h0: Heap)
      requires Marks(ex + {o}, s) && o in heap && o in s && heap[o].kind.Upval? && !heap[o].IsWhite()
      requires MarkRun(h0, gray, heap, gray) && o in h0 && h0[o].IsWhite()
      modifies this`heap, this`gray
      ensures Marks(ex, s) && o in heap && !heap[o].IsWhite()
      ensures MarkRun(h0, old(gray), heap, gray)
      decreases |Whites(heap)|, 4
    {
      hide Marking;
      hide MarkRun;
      ghost var h1 := heap;
      MarkRefs(o, ex + {o}, s);
      MarkThen(h0, h1, heap, old(gray), old(gray), gray);
      BlackOne(heap, mainthread, currentwhite, gray, grayagain, ex + {o}, s, o);
      BlackRun(h0, old(gray), heap, gray, o);
      heap := heap[o := heap[o].GrayToBlack()];
      Settle(heap, mainthread, currentwhite, gray, grayagain, ex, s, o);
    }

    /** The marking loops of `markmt`, `reallymarkobject` and the `traverse` functions. */
    method MarkAll(rs: seq<Ref>, ghost ex: set<Ref>, ghost s: set<Ref>)
      requires Marks(ex, s) && forall j :: 0 <= j < |rs| ==> rs[j] in heap && rs[j] in s
      modifies this`heap, this`gray
      ensures Marks(ex, s) && MarkedTo(heap, rs, |rs|)
      ensures MarkRun(old(heap), old(gray), heap, gray)
      decreases |Whites(heap)|, 2
    {
      assert MarkRun(heap, gray, heap, gray);
      var i := 0;
      hide Marking;
      while i < |rs|
        invariant 0 <= i <= |rs|
        invariant Marks(ex, s)
        invariant MarkRun(old(heap), old(gray), heap, gray)
        invariant MarkedTo(heap, rs, i)
      {
        ghost var h, g := heap, gray;
        WhitesShrink(old(heap), heap);
        MarkObject(rs[i], ex, s);
        MarkedNext(h, g, heap, gray, rs, i);
        MarkThen(old(heap), h, heap, old(gray), g, gray);
        i := i + 1;
      }
    }

    /** Everything that `o` refers to. */
    method MarkRefs(o: Ref, ghost ex: set<Ref>, ghost s: set<Ref>)
      requires Marks(ex, s) && o in heap && o in s && !heap[o].IsWhite()
      modifies this`heap, this`gray
      ensures Marks(ex, s) && Clean(heap, o) && heap[o] == old(heap[o])
      ensures MarkRun(old(heap), old(gray), heap, gray)
      decreases |Whites(heap)|, 3
    {
      var rs := heap[o].refs;
      assert forall j :: 0 <= j < |rs| ==> rs[j] in heap[o].refs && rs[j] in heap && rs[j] in s;
      MarkAll(rs, ex, s);
      MarkedAll(old(heap), old(gray), heap, gray, o);
    }

    /** `propagatemark`: one gray object is traversed. */
    method PropagateMark(ghost s: set<Ref>)
      requires Marks({}, s) && gray != []
      modifies this`heap, this`gray, this`grayagain
      ensures Marks({}, s) && Darker(old(heap), heap)
      ensures Pending(heap, gray) < old(Pending(heap, gray))
      ensures forall r :: r in grayagain ==> r in old(grayagain) || Clean(heap, r)
    {
      var o := gray[0];
      assert heap[o].IsGray() && o in s;
      TakeGray(heap, mainthread, currentwhite, gray, grayagain, s);
      hide Marking;
      hide Darker;
      gray := gray[1..];
      grayagain := if heap[o].kind.Thread? then [o] + grayagain else grayagain;
      heap := if heap[o].kind.Thread? then heap else heap[o := heap[o].GrayToBlack()];
      ghost var h, g := heap, gray;
      MarkRefs(o, {o}, s);
      Settle(heap, mainthread, currentwhite, gray, grayagain, {}, s, o);
      hide Clean;
      hide MarkRun;
      PendingShrinks(old(heap), old(gray), h, g, heap, gray);
    }

    method PropagateAll(ghost s: set<Ref>)
      requires Marks({}, s)
      modifies this`heap, this`gray, this`grayagain
      ensures Marks({}, s) && Darker(old(heap), heap) && gray == []
      ensures forall r :: r in grayagain ==> r in old(grayagain) || Clean(heap, r)
    {
      hide *;
      DarkerSelf(heap);
      while gray != []
        invariant Marks({}, s) && Darker(old(heap), heap)
        invariant forall r :: r in grayagain ==> r in old(grayagain) || Clean(heap, r)
        decreases Pending(heap, gray)
      {
        ghost var h := heap;
        PropagateMark(s);
        DarkerAfter(old(heap), h, heap);
        DarkerKeepsClean(h, heap);
      }
    }

    /** `markroot`: a new collection starts with every object white. */
    method MarkRoot(ghost s: set<Ref>)
      requires Valid() && (gcstate.Pause? || gcstate.Finalize?)
      requires Roots() <= s && RefsWithin(heap, s)
      modifies this`heap, this`gray, this`grayagain, this`gcstate
      ensures Valid() && gcstate == Propagate
      ensures Darker(old(heap), heap) && MarkedWithin(heap, s)
    {
      hide ListsOk;
      hide MarkRun;
      hide MarkedTo;
      StartMarking(heap, mainthread, Roots(), currentwhite, s);
      gray := [];
      grayagain := [];
      var globals := heap[mainthread].refs[0];
      assert globals in heap[mainthread].refs && globals in s && globals in heap;
      MarkRoots(globals, s);
      gcstate := Propagate;
      MarkedValid(old(heap), [], s);
    }

    method MarkRoots(globals: Ref, ghost s: set<Ref>)
      requires Marks({}, s) && Roots() <= heap.Keys && Roots() <= s && globals in heap && globals in s
      modifies this`heap, this`gray
      ensures Marks({}, s) && MarkRun(old(heap), old(gray), heap, gray)
      ensures MarkedTo(heap, RootList(), |RootList()|)
    {
      var rs := [globals] + RootList();
      assert forall j :: 0 <= j < |rs| ==> j == 0 || rs[j] in Roots();
      MarkAll(rs, {}, s);
      assert forall j :: 0 <= j < |RootList()| ==> RootList()[j] == rs[j + 1];
    }

    // ---------------------------------------------------------------- steps

    /** Marking keeps the lists through `next`, and in the state `Propagate` nothing else is asked for. */
    lemma MarkedValid(h: Heap, g: seq<Ref>, s: set<Ref>)
      requires Marks({}, s) && gcstate == Propagate && MarkRun(h, g, heap, gray) && MarkedTo(heap, RootList(), |RootList()|)
      requires ListsOk(h, rootgc, strt, nuse)
      ensures Valid() && MarkedWithin(heap, s) && Darker(h, heap)
    {
      assert RootList()[0] == mainthread && RootList()[1] == registry;
      NoneDeadIsSound(heap, Roots(), currentwhite);
      DarkerLists(h, heap, rootgc, strt, nuse);
    }

    lemma InPropagate(s: set<Ref>)
      requires Valid() && gcstate == Propagate
      requires MarkedWithin(heap, s) && RefsWithin(heap, s)
      ensures Marks({}, s) && ListsOk(heap, rootgc, strt, nuse)
      ensures Roots() <= heap.Keys && registry in heap && !heap[registry].IsWhite() && mainthread in heap && !heap[mainthread].IsWhite()
    {
      assert registry == RootList()[1];
    }

    /** The end of the mark phase, which the program cannot interrupt. */
    method Atomic(ghost s: set<Ref>)
      requires Valid() && gcstate == Propagate && gray == []
      requires MarkedWithin(heap, s) && RefsWithin(heap, s) && Roots() <= s
      modifies this`heap, this`gray, this`grayagain, this`currentwhite, this`sweepstrgc, this`sweepgc, this`gcstate
      ensures Valid() && gcstate == SweepString
      ensures Darker(old(heap), heap) && LiveWithin(heap, currentwhite, s)
    {
      hide *;
      InPropagate(s);
      Remark(s);
      ghost var h := heap;
      GrayAgain(s);
      PropagateAll(s);
      DarkerThen(old(heap), h, heap, RootList());
      DarkerLists(old(heap), heap, rootgc, strt, nuse);
      FlipNow(s);
    }

    method GrayAgain(ghost s: set<Ref>)
      requires Marks({}, s) && gray == []
      modifies this`gray, this`grayagain
      ensures Marks({}, s) && grayagain == []
    {
      gray := grayagain;
      grayagain := [];
    }

    method FlipNow(ghost s: set<Ref>)
      requires Marks({}, s) && gray == [] && ListsOk(heap, rootgc, strt, nuse)
      requires forall r :: r in grayagain ==> Clean(heap, r)
      requires MarkedTo(heap, RootList(), |RootList()|)
      modifies this`currentwhite, this`sweepstrgc, this`sweepgc, this`gcstate
      ensures Valid() && gcstate == SweepString && LiveWithin(heap, currentwhite, s)
    {
      Flip(heap, mainthread, currentwhite, grayagain, s, Roots());
      currentwhite := !currentwhite;
      sweepstrgc := 0;
      sweepgc := 0;
      gcstate := SweepString;
    }

    method Remark(ghost s: set<Ref>)
      requires Marks({}, s) && Roots() <= s && Roots() <= heap.Keys && !heap[registry].IsWhite()
      modifies this`heap, this`gray, this`grayagain
      ensures Marks({}, s) && gray == [] && Darker(old(heap), heap)
      ensures MarkedTo(heap, RootList(), |RootList()|)
    {
      hide *;
      var rs := [mainthread] + Somes(mt);
      RootsAgain(rs);
      PropagateAll(s);
      ghost var h1, g1 := heap, gray;
      DarkerAll(old(heap), h1, registry, rs);
      MarkAll(rs, {}, s);
      ghost var h2 := heap;
      RunIsDarker(h1, g1, h2, gray);
      DarkerAll(h1, h2, registry, rs);
      RootsMarked(h2, rs, RootList(), registry);
      PropagateAll(s);
      DarkerAfter(old(heap), h1, h2);
      DarkerThen(old(heap), h2, heap, RootList());
    }

    lemma RootsAgain(rs: seq<Ref>)
      requires rs == [mainthread] + Somes(mt)
      ensures forall i :: 0 <= i < |rs| ==> rs[i] in Roots()
      ensures RootList() == [rs[0], registry] + rs[1..] && registry in Roots()
    {
      assert registry == RootList()[1];
      assert forall i :: 0 <= i < |rs| ==> rs[i] in RootList();
    }

    /** `sweeplist` from the `p`-th object on: the dead go, the others become white for the next cycle. */
    method SweepList(list: seq<Ref>, p: nat, count: nat, ghost b: int) returns (list': seq<Ref>, p': nat)
      requires ListOf(heap, list, b, |strt|) && FreshTo(heap, currentwhite, list, p) && nuse == |Strings(heap)|
      requires WellFormed(heap, mainthread) && Usable(mainthread)
      modifies this`heap, this`nuse
      ensures Sweeping(old(heap), heap, currentwhite, list', p', b, |strt|) && nuse == |Strings(heap)|
      ensures |list'| - p' == if |list| - p <= count then 0 else |list| - p - count
    {
      hide *;
      list', p' := list, p;
      var n := count;
      SweepStarts(heap, currentwhite, list, p, b, |strt|);
      while p' < |list'| && n > 0
        invariant Sweeping(old(heap), heap, currentwhite, list', p', b, |strt|) && nuse == |Strings(heap)|
        invariant 0 <= n <= count && 0 <= |list'| - p' == |list| - p - (count - n)
        decreases n
      {
        var curr := list'[p'];
        SweepNext(old(heap), heap, currentwhite, list', p', b, |strt|);
        if !heap[curr].IsDead(currentwhite) || heap[curr].fixed {
          SweepKeeps(old(heap), heap, currentwhite, list', p', b, |strt|);
          heap := heap[curr := heap[curr].MakeWhite(currentwhite)];
          p' := p' + 1;
        } else {
          SweepErases(old(heap), heap, currentwhite, list', p', b, |strt|);
          FreeObj(curr);
          list' := list'[..p'] + list'[p' + 1..];
        }
        n := n - 1;
      }
    }

    method FreeObj(o: Ref)
      requires o in heap && nuse == |Strings(heap)|
      modifies this`heap, this`nuse
      ensures heap == old(heap) - {o} && nuse == |Strings(heap)|
    {
      assert Strings(heap - {o}) == Strings(heap) - {o};
      if heap[o].kind.String? {
        assert o in Strings(heap);
        nuse := nuse - 1;
      } else {
        assert o !in Strings(heap);
      }
      heap := heap - {o};
    }

    // ---------------------------------------------------------------- the string table

    method Resize(newsize: nat)
      requires ListsOk(heap, rootgc, strt, nuse) && IsPow2(newsize) && newsize >= MINSTRTABSIZE
      modifies this`strt
      ensures ListsOk(heap, rootgc, strt, nuse)
      ensures gcstate.SweepString? ==> strt == old(strt)
      ensures !gcstate.SweepString? ==> |strt| == newsize
    {
      if gcstate.SweepString? {
        return;
      }
      var newhash: seq<seq<Ref>> := seq(newsize, _ => []);
      assert StringsBefore(heap, |strt|, 0) == {} && Rehashed(heap, {}, newhash);
      hide *;
      var i := 0;
      while i < |strt|
        invariant 0 <= i <= |strt| && |newhash| == newsize && strt == old(strt)
        invariant Rehashed(heap, StringsBefore(heap, |strt|, i), newhash)
      {
        NextBucket(heap, rootgc, strt, nuse, i);
        newhash := RehashBucket(strt[i], newhash, StringsBefore(heap, |strt|, i));
        i := i + 1;
      }
      RehashDone(heap, rootgc, strt, nuse, newhash);
      strt := newhash;
    }

    method RehashBucket(list: seq<Ref>, hash: seq<seq<Ref>>, ghost before: set<Ref>) returns (newhash: seq<seq<Ref>>)
      requires Rehashed(heap, before, hash) && |hash| > 0
      requires NoDup(list) && forall r :: r in list ==> r in heap && heap[r].kind.String? && r !in before
      ensures |newhash| == |hash| && Rehashed(heap, before + (set r | r in list), newhash)
    {
      newhash := hash;
      hide Rehashed;
      hide InList;
      ghost var done := before;
      var j := 0;
      while j < |list|
        invariant 0 <= j <= |list| && |newhash| == |hash|
        invariant Rehashed(heap, done, newhash) && done == before + (set r | r in list[..j])
      {
        var p := list[j];
        assert p in list && p !in list[..j] && list[..j + 1] == list[..j] + [p];
        var h1 := Bucket(Hash(heap[p].kind.bytes), |newhash|);
        RehashOne(heap, done, newhash, p);
        newhash := newhash[h1 := [p] + newhash[h1]];
        done := done + {p};
        j := j + 1;
      }
      assert list[..j] == list;
    }

    // ---------------------------------------------------------------- steps of the collector

    /** What the collection in progress will keep, but for fixed objects, lies in `s`. */
    ghost predicate Tracks(s: set<Ref>)
      reads this`heap, this`currentwhite, this`gcstate
    {
      if gcstate == Propagate then MarkedWithin(heap, s) else LiveWithin(heap, currentwhite, s)
    }

    ghost function Rank(): nat
      reads this`gcstate
    {
      match gcstate
      case Pause => 0
      case Finalize => 1
      case Sweep => 2
      case SweepString => 3
      case Propagate => 4
    }

    ghost function Work(): nat
      reads this
    {
      match gcstate
      case Propagate => |Pending(heap, gray)|
      case SweepString => if sweepstrgc <= |strt| then |strt| - sweepstrgc else 0
      case Sweep => if sweepgc <= |rootgc| then |rootgc| - sweepgc else 0
      case _ => 0
    }

    /** An upper bound of the steps to the end of the collection in progress: in each phase one for every object, bucket or list
        cell that is left, and one for every phase. */
    ghost function ToGo(): nat
      reads this
    {
      match gcstate
      case Pause => 0
      case Finalize => 1
      case Sweep => Work() + 2
      case SweepString => Work() + |rootgc| + 3
      case Propagate => Work() + |strt| + |rootgc| + 4
    }

    /** An upper bound of the steps of a whole collection that begins now. */
    ghost function WholeCycle(): nat
      reads this
    {
      |heap.Keys| + |strt| + |rootgc| + 5
    }

    lemma MarkingBegins(strt0: nat, rootgc0: nat, size: nat)
      requires Valid() && gcstate == Propagate && |heap.Keys| == size && |strt| == strt0 && |rootgc| == rootgc0
      ensures ToGo() < size + strt0 + rootgc0 + 5
    {
      SubsetSize(Pending(heap, gray), heap.Keys);
    }

    method StepPropagate(ghost s: set<Ref>)
      requires Valid() && gcstate == Propagate && gray != [] && MarkedWithin(heap, s) && RefsWithin(heap, s)
      modifies this`heap, this`gray, this`grayagain
      ensures Valid() && MarkedWithin(heap, s) && FreesOnlyDead(old(heap), heap, currentwhite)
      ensures |Pending(heap, gray)| < old(|Pending(heap, gray)|)
    {
      hide *;
      InPropagate(s);
      PropagateMark(s);
      SubsetSize(Pending(heap, gray), old(Pending(heap, gray)));
      DarkerFreesNone(old(heap), heap, currentwhite);
      PropagateValid(old(heap), s);
    }

    lemma PropagateValid(h: Heap, s: set<Ref>)
      requires Marks({}, s) && gcstate == Propagate && Darker(h, heap) && ListsOk(h, rootgc, strt, nuse)
      requires mainthread in h && !h[mainthread].IsWhite() && registry in h && !h[registry].IsWhite() && Roots() <= h.Keys
      ensures Valid() && MarkedWithin(heap, s)
    {
      NoneDeadIsSound(heap, Roots(), currentwhite);
      DarkerLists(h, heap, rootgc, strt, nuse);
    }

    method StepSweepString(ghost s: set<Ref>)
      requires Valid() && gcstate == SweepString && LiveWithin(heap, currentwhite, s)
      modifies this`heap, this`strt, this`nuse, this`sweepstrgc, this`gcstate
      ensures Valid() && LiveWithin(heap, currentwhite, s) && FreesOnlyDead(old(heap), heap, currentwhite)
      ensures if sweepstrgc < |strt| then gcstate == SweepString && |strt| == old(|strt|) && sweepstrgc == old(sweepstrgc) + 1 else gcstate == Sweep
    {
      hide *;
      InSweep(sweepstrgc);
      var list, p := SweepList(strt[sweepstrgc], 0, |strt[sweepstrgc]|, sweepstrgc);
      SweepFreesDead(old(heap), heap, currentwhite, list, p, sweepstrgc, |strt|);
      SweptWithin(old(heap), heap, currentwhite, s);
      SweptKeeps(old(heap), heap, mainthread, Roots(), currentwhite);
      BucketSwept(old(heap), heap, currentwhite, rootgc, strt, old(nuse), nuse, list, sweepstrgc);
      strt := strt[sweepstrgc := list];
      sweepstrgc := sweepstrgc + 1;
      if sweepstrgc >= |strt| {
        AllBucketsFresh(heap, currentwhite, rootgc, strt, nuse);
        gcstate := Sweep;
      }
      SweepValid();
    }

    /** What the two sweep states offer to a sweep of list `b`. */
    lemma InSweep(b: int)
      requires Valid() && if b == -1 then gcstate == Sweep else gcstate == SweepString && b == sweepstrgc
      ensures -1 <= b < |strt|
      ensures WellFormed(heap, mainthread) && ListsOk(heap, rootgc, strt, nuse) && Sound(heap, Roots(), currentwhite)
      ensures ListOf(heap, Chain(rootgc, strt, b), b, |strt|) && nuse == |Strings(heap)|
      ensures Chain(rootgc, strt, b) == if b < 0 then rootgc else strt[b]
      ensures FreshTo(heap, currentwhite, Chain(rootgc, strt, b), 0)
      ensures Usable(mainthread) && mainthread in Roots() && GCSWEEPMAX == 40
      ensures gcstate == SweepString ==> sweepgc == 0 && sweepstrgc < |strt| && FreshBuckets(heap, currentwhite, strt, sweepstrgc)
      ensures gcstate == Sweep ==> sweepgc <= |rootgc| && FreshTo(heap, currentwhite, rootgc, sweepgc) && FreshStrings(heap, currentwhite)
    {
      assert mainthread == RootList()[0];
      assert mainthread in Live(heap, currentwhite);
    }

    lemma SweepValid()
      requires WellFormed(heap, mainthread) && ListsOk(heap, rootgc, strt, nuse) && Sound(heap, Roots(), currentwhite)
      requires gcstate == SweepString ==> sweepgc == 0 && sweepstrgc < |strt| && FreshBuckets(heap, currentwhite, strt, sweepstrgc)
      requires gcstate == Sweep ==> (sweepgc == 0 || FreshTo(heap, currentwhite, rootgc, sweepgc)) && FreshStrings(heap, currentwhite)
      requires gcstate == Finalize ==> AllFresh(heap, currentwhite)
      requires gcstate != Propagate && gcstate != Pause
      ensures Valid()
    {
    }

    method StepSweep(ghost s: set<Ref>)
      requires Valid() && gcstate == Sweep && LiveWithin(heap, currentwhite, s)
      modifies this`heap, this`rootgc, this`sweepgc, this`strt, this`nuse, this`gcstate
      ensures Valid() && LiveWithin(heap, currentwhite, s) && FreesOnlyDead(old(heap), heap, currentwhite)
      ensures if old(|rootgc| - sweepgc) <= 40 then gcstate == Finalize
              else gcstate == Sweep && sweepgc <= |rootgc| && |rootgc| - sweepgc == old(|rootgc| - sweepgc) - 40
      ensures if gcstate == Finalize && nuse < old(|strt|) / 4 && old(|strt|) > 64 then |strt| == old(|strt|) / 2 else strt == old(strt)
    {
      hide *;
      InSweep(-1);
      var list, p := SweepList(rootgc, sweepgc, GCSWEEPMAX, -1);
      SweepFreesDead(old(heap), heap, currentwhite, list, p, -1, |strt|);
      SweptWithin(old(heap), heap, currentwhite, s);
      SweptKeeps(old(heap), heap, mainthread, Roots(), currentwhite);
      RootSwept(old(heap), heap, currentwhite, rootgc, strt, old(nuse), nuse, list, p);
      rootgc, sweepgc := list, p;
      if sweepgc == |rootgc| {
        AllListsFresh(heap, currentwhite, rootgc, strt, nuse);
        CheckSizes();
        gcstate := Finalize;
      }
      SweepValid();
    }

    /** A table of strings that is too large is halved. */
    method CheckSizes()
      requires ListsOk(heap, rootgc, strt, nuse) && gcstate == Sweep
      modifies this`strt
      ensures ListsOk(heap, rootgc, strt, nuse)
      ensures if nuse < old(|strt|) / 4 && old(|strt|) > 64 then |strt| == old(|strt|) / 2 else strt == old(strt)
    {
      hide Linked;
      hide Unique;
      hide Strings;
      if nuse < |strt| / 4 && |strt| > MINSTRTABSIZE * 2 {
        HalfIsPow2(|strt|);
        Resize(|strt| / 2);
      }
    }

    /** Without userdata to finalize the collection ends. */
    method StepFinalize()
      requires Valid() && gcstate == Finalize
      modifies this`gcstate
      ensures Valid() && gcstate == Pause
    {
      gcstate := Pause;
    }

    /** One step of the collector, whatever state it is in. */
    method SingleStep(ghost s: set<Ref>)
      requires Valid() && Roots() <= s && RefsWithin(heap, s) && (gcstate == Pause || Tracks(s))
      modifies this
      ensures Valid() && Tracks(s) && RefsWithin(heap, s) && mt == old(mt)
      ensures Reached() == old(Reached()) && Survivors() == old(Survivors()) && Kept(old(heap), heap, Survivors())
      ensures Shrunk(old(heap), heap)
      ensures old(gcstate) == SweepString || old(gcstate) == Sweep ==> gcstate != Pause && gcstate != Propagate
      ensures old(gcstate) != Pause ==> Rank() < old(Rank()) || (Rank() == old(Rank()) && Work() < old(Work()))
      ensures if old(gcstate) == Pause then gcstate == Propagate && ToGo() < old(WholeCycle()) else ToGo() < old(ToGo())
    {
      hide Valid;
      hide Sane;
      hide Phase;
      hide Roots;
      hide RefsWithin;
      hide Reach;
      hide Kept;
      hide Sound;
      hide Pending;
      hide FreesOnlyDead;
      hide Shrunk;
      hide Fixed;
      hide MarkedWithin;
      hide LiveWithin;
      SafeNow();
      match gcstate {
        case Pause =>
          MarkRoot(s);
          DarkerSize(old(heap), heap);
          MarkingBegins(|strt|, |rootgc|, |heap.Keys|);
          DarkerFreesNone(old(heap), heap, currentwhite);
        case Propagate =>
          if gray != [] {
            StepPropagate(s);
          } else {
            Atomic(s);
            DarkerFreesNone(old(heap), heap, old(currentwhite));
          }
        case SweepString => StepSweepString(s);
        case Sweep => StepSweep(s);
        case Finalize =>
          StepFinalize();
          NothingFreed(heap, currentwhite);
      }
      OnlyShrunk(old(heap), heap, old(currentwhite));
      StepIsSafe(old(heap), heap, old(currentwhite), Roots());
      StillWithin(old(heap), heap, old(currentwhite), s);
    }

    lemma SafeNow()
      requires Valid()
      ensures Sound(heap, Roots(), currentwhite)
    {
    }

    /** The live objects are what a step keeps when nothing more is known. */
    lemma LiveTracks()
      requires Valid()
      ensures var s := Live(heap, currentwhite); Roots() <= s && RefsWithin(heap, s) && Tracks(s)
    {
    }

    /**
     * `luaC_step`: some steps, but none after the end of a collection; how many is the pacing's choice. What the collection was to
     * keep when marking began, `s`, and what is fixed, is all that is left at its end, and the end comes.
     */
    method Step(steps: nat, ghost s: set<Ref>)
      requires Valid() && Roots() <= s && RefsWithin(heap, s) && (gcstate == Pause || Tracks(s))
      modifies this
      ensures Valid() && mt == old(mt)
      ensures Reached() == old(Reached()) && Survivors() == old(Survivors()) && Kept(old(heap), heap, Survivors())
      ensures Shrunk(old(heap), heap)
      ensures steps > 0 || gcstate != Pause ==> Tracks(s)
      ensures old(gcstate) != Pause ==> gcstate == Pause || ToGo() + steps <= old(ToGo())
      ensures old(gcstate) == Pause && steps > 0 ==> gcstate == Pause || ToGo() + steps <= old(WholeCycle())
      ensures old(gcstate) == Pause && steps == 1 ==> gcstate == Propagate
      ensures gcstate == Pause && (old(gcstate) != Pause || steps > 0) ==> heap.Keys <= s + Fixed(heap)
    {
      hide *;
      ghost var reached, kept := Reached(), Survivors();
      KeptSelf(heap, kept);
      ShowsSelf(heap);
      var n := steps;
      while n > 0
        invariant Valid() && mt == old(mt) && Reached() == reached && Survivors() == kept && Kept(old(heap), heap, kept)
        invariant Roots() <= s && RefsWithin(heap, s) && (gcstate == Pause || Tracks(s)) && 0 <= n <= steps
        invariant Shrunk(old(heap), heap)
        invariant n < steps || old(gcstate) != Pause ==> Tracks(s)
        invariant if n == steps then gcstate == old(gcstate) && ToGo() == old(ToGo()) && WholeCycle() == old(WholeCycle())
                  else if gcstate == Pause then n == 0 else
                    ToGo() + (steps - n) <= if old(gcstate) == Pause then old(WholeCycle()) else old(ToGo())
        invariant n == steps - 1 && old(gcstate) == Pause ==> gcstate == Propagate
      {
        ghost var h := heap;
        SingleStep(s);
        KeptThen(old(heap), h, heap, kept);
        ShrunkThen(old(heap), h, heap);
        n := if gcstate == Pause then 0 else n - 1;
      }
      if gcstate == Pause { NothingToGo(s); }
    }

    lemma NothingToGo(s: set<Ref>)
      requires Valid() && gcstate == Pause
      ensures ToGo() == 0 && (Tracks(s) ==> heap.Keys <= s + Fixed(heap))
    {
    }

    /** The end of the collection in progress comes after so many steps. */
    method EndOfCycle(steps: nat)
      requires Valid() && gcstate != Pause && steps >= ToGo()
      modifies this
      ensures Valid() && gcstate == Pause && mt == old(mt)
      ensures Reached() == old(Reached()) && Survivors() == old(Survivors()) && Kept(old(heap), heap, Survivors())
    {
      hide *;
      LiveTracks();
      Step(steps, Live(heap, currentwhite));
      Ended();
    }

    /** And after so many more, when marking has begun, everything is gone that was neither reachable nor fixed then. */
    method WholeCycleFrees(steps: nat)
      requires Valid() && gcstate == Pause && steps >= WholeCycle()
      modifies this
      ensures Valid() && gcstate == Pause && mt == old(mt)
      ensures Reached() == old(Reached()) && Survivors() == old(Survivors()) && Kept(old(heap), heap, Survivors())
      ensures heap.Keys == old(Survivors())
    {
      hide *;
      ReachedIsClosed();
      ghost var reached := Reached();
      Begun();
      Step(steps, reached);
      Ended();
      AllTracked(reached);
    }

    lemma Ended()
      requires Valid()
      ensures gcstate != Pause ==> ToGo() > 0
    {
    }

    lemma Begun()
      ensures WholeCycle() > 0
    {
    }

    /** `luaC_fullgc` in the middle of a mark phase: every object is to be made white again. */
    method ResetSweep()
      requires Valid() && (gcstate == Pause || gcstate == Propagate)
      modifies this`sweepstrgc, this`sweepgc, this`gray, this`grayagain, this`gcstate
      ensures Valid() && gcstate == SweepString && sweepstrgc == sweepgc == 0 && gray == grayagain == []
    {
      hide WellFormed;
      hide Sound;
      hide Marking;
      hide AllFresh;
      sweepstrgc := 0;
      sweepgc := 0;
      gray := [];
      grayagain := [];
      gcstate := SweepString;
    }

    /** A full collection: afterwards what is allocated is exactly what was reachable or fixed. */
    method FullGC()
      requires Valid()
      modifies this
      ensures Valid() && gcstate == Pause && mt == old(mt)
      ensures Reached() == old(Reached()) && Survivors() == old(Survivors()) && Kept(old(heap), heap, Survivors())
      ensures heap.Keys == old(Survivors())
    {
      hide *;
      ghost var reached, kept := Reached(), Survivors();
      KeptSelf(heap, kept);
      if gcstate == Pause || gcstate == Propagate {
        ResetSweep();
      }
      while gcstate != Finalize
        invariant Valid() && gcstate != Pause && gcstate != Propagate && mt == old(mt)
        invariant Reached() == reached && Survivors() == kept && Kept(old(heap), heap, kept)
        decreases Rank(), Work()
      {
        assert gcstate == SweepString || gcstate == Sweep;
        ghost var h := heap;
        LiveTracks();
        SingleStep(Live(heap, currentwhite));
        KeptThen(old(heap), h, heap, kept);
      }
      ghost var h := heap;
      FullCycle(reached, kept);
      KeptThen(old(heap), h, heap, kept);
    }

    /** The second half of `luaC_fullgc`: a whole cycle, in which the program does not run. */
    method FullCycle(ghost reached: set<Ref>, ghost kept: set<Ref>)
      requires Valid() && gcstate == Finalize && reached == Reached() && kept == Survivors()
      modifies this
      ensures Valid() && gcstate == Pause && mt == old(mt)
      ensures Reached() == reached && Survivors() == kept && Kept(old(heap), heap, kept)
      ensures heap.Keys == kept
    {
      hide *;
      ReachedIsClosed();
      MarkRoot(reached);
      AfterMarkRoot(old(heap), reached, kept);
      while gcstate != Pause
        invariant Valid() && mt == old(mt) && Tracks(reached) && RefsWithin(heap, reached) && Roots() <= reached
        invariant Reached() == reached && Survivors() == kept && Kept(old(heap), heap, kept)
        decreases Rank(), Work()
      {
        ghost var h := heap;
        SingleStep(reached);
        KeptThen(old(heap), h, heap, kept);
      }
      AllTracked(reached);
    }

    lemma ReachedIsClosed()
      requires Valid()
      ensures Roots() <= Reached() && RefsWithin(heap, Reached()) && Reached() == Reach(heap, Roots()) && Survivors() == Reached() + Fixed(heap)
    {
      ReachIsLeast(heap, Roots(), Live(heap, currentwhite));
    }

    lemma AfterMarkRoot(h: Heap, reached: set<Ref>, kept: set<Ref>)
      requires Valid() && gcstate == Propagate && Darker(h, heap) && MarkedWithin(heap, reached)
      requires reached == Reach(h, Roots()) && kept == reached + Fixed(h) && Roots() <= reached && RefsWithin(h, reached)
      ensures Tracks(reached) && RefsWithin(heap, reached) && Reached() == reached && Survivors() == kept && Kept(h, heap, kept)
    {
      hide Sane;
      hide Reachable;
      ReachIsStable(h, heap, Roots());
    }

    lemma AllTracked(s: set<Ref>)
      requires Valid() && gcstate == Pause && Tracks(s) && s == Reached()
      ensures heap.Keys == Survivors()
    {
    }

    // ---------------------------------------------------------------- the program

    /** A write into a table, userdata, closure, upvalue or prototype, followed by its barrier. */
    method Write(o: Ref, rs: seq<Ref>, v: Option<Ref>)
      requires Valid() && Usable(o) && !heap[o].kind.String? && !heap[o].kind.Thread?
      requires v.Some? ==> Usable(v.value)
      requires forall c :: c in rs ==> c in heap[o].refs || v == Some(c)
      modifies this`heap, this`gray, this`grayagain
      ensures Valid() && SameBut(old(heap), heap, o) && heap[o].refs == rs
    {
      hide *;
      BeforeWrite(o, rs, v);
      var barrier := v.Some? && heap[o].black && heap[v.value].IsWhite();
      heap := heap[o := heap[o].WithRefs(rs)];
      ghost var h1 := heap;
      AfterWrite(old(heap), o, rs, v, barrier);
      if barrier {
        if heap[o].kind.Table? {
          BarrierBack(o);
        } else {
          BarrierF(o, v.value);
        }
        SameButThen(old(heap), h1, heap, o);
      }
    }

    lemma BeforeWrite(o: Ref, rs: seq<Ref>, v: Option<Ref>)
      requires Valid() && Usable(o) && !heap[o].kind.String? && !heap[o].kind.Thread?
      requires v.Some? ==> Usable(v.value)
      requires forall c :: c in rs ==> c in heap[o].refs || v == Some(c)
      ensures Facts(heap, {}) && Writes(heap, currentwhite, o, rs, v) && o != mainthread && (v.Some? ==> v.value in heap)
    {
    }

    /** `Sane`, with `h` for the heap. */
    ghost predicate Facts(h: Heap, ex: set<Ref>)
      reads this`gcstate, this`currentwhite, this`gray, this`grayagain, this`rootgc, this`sweepgc, this`strt, this`nuse, this`sweepstrgc, this`mt
    {
      && WellFormed(h, mainthread) && ListsOk(h, rootgc, strt, nuse) && Sound(h, Roots(), currentwhite)
      && Phase(gcstate, h, mainthread, registry, currentwhite, gray, grayagain, rootgc, sweepgc, strt, sweepstrgc, ex)
    }

    lemma AfterWrite(h: Heap, o: Ref, rs: seq<Ref>, v: Option<Ref>, barrier: bool)
      requires Facts(h, {}) && Writes(h, currentwhite, o, rs, v) && o != mainthread
      requires heap == h[o := h[o].WithRefs(rs)]
      requires barrier == (v.Some? && h[o].black && h[v.value].IsWhite())
      ensures Sane(if barrier then {o} else {}) && SameBut(h, heap, o) && heap[o].refs == rs
      ensures Usable(o) && (v.Some? ==> Usable(v.value))
      ensures barrier ==> heap[o].black && heap[v.value].IsWhite() && (gcstate == Propagate ==> CleanBut(heap, o, v))
      ensures heap[o].kind == h[o].kind && (!barrier ==> Valid())
    {
      hide Marking;
      hide ListsOk;
      hide AllFresh;
      hide FreshBuckets;
      hide FreshTo;
      hide FreshStrings;
      WriteKeepsHeap(h, mainthread, Roots(), currentwhite, o, rs, v);
      SameLists(h, heap, rootgc, strt, nuse);
      if gcstate == Propagate {
        WriteMarking(h, mainthread, currentwhite, gray, grayagain, o, rs, v);
      } else {
        StaysFresh(gcstate, h, heap, mainthread, registry, currentwhite, gray, grayagain, grayagain, rootgc, sweepgc, strt, sweepstrgc,
                   {}, if barrier then {o} else {}, o);
      }
    }

    /** `luaC_barrierf`: a black object `o` was made to refer to the white object `v`. */
    method BarrierF(o: Ref, v: Ref)
      requires Sane({o}) && Usable(o) && Usable(v) && heap[o].black && heap[v].IsWhite() && !heap[o].kind.Table?
      requires gcstate == Propagate ==> CleanBut(heap, o, Some(v))
      modifies this`heap, this`gray
      ensures Valid() && SameShape(old(heap), heap)
    {
      assert !heap[v].IsDead(currentwhite) && !heap[o].IsDead(currentwhite);
      assert gcstate != Finalize && gcstate != Pause;
      hide *;
      if gcstate == Propagate {
        ForwardPropagate(o, v);
      } else {
        InBarrier({o});
        heap := heap[o := heap[o].MakeWhite(currentwhite)];
        AfterForward(old(heap), o);
      }
    }

    method ForwardPropagate(o: Ref, v: Ref)
      requires Sane({o}) && gcstate == Propagate && v in heap && heap[v].IsWhite() && o in heap && heap[o].black
      requires CleanBut(heap, o, Some(v))
      modifies this`heap, this`gray
      ensures Valid() && SameShape(old(heap), heap)
    {
      hide *;
      InWrite(o);
      ReallyMarkObject(v, {o}, heap.Keys);
      MarkedBehind(old(heap), old(gray), o, v);
    }

    lemma InWrite(o: Ref)
      requires Sane({o}) && gcstate == Propagate && o in heap && heap[o].black
      ensures !heap[o].IsWhite() && Marks({o}, heap.Keys) && ListsOk(heap, rootgc, strt, nuse) && Roots() <= heap.Keys
      ensures registry in heap && !heap[registry].IsWhite() && mainthread in heap && !heap[mainthread].IsWhite()
    {
    }

    lemma MarkedBehind(h: Heap, g: seq<Ref>, o: Ref, v: Ref)
      requires Marks({o}, h.Keys) && gcstate == Propagate && MarkRun(h, g, heap, gray) && ListsOk(h, rootgc, strt, nuse)
      requires v in heap && !heap[v].IsWhite() && CleanBut(h, o, Some(v)) && h[o].black && !h[o].IsWhite()
      requires mainthread in h && !h[mainthread].IsWhite() && registry in h && !h[registry].IsWhite() && Roots() <= h.Keys
      ensures Valid() && SameShape(h, heap)
    {
      ForwardCleans(h, g, heap, gray, o, v);
      Settle(heap, mainthread, currentwhite, gray, grayagain, {}, h.Keys, o);
      PropagateValid(h, h.Keys);
    }

    /** `luaC_barrierback`: a black table was made to refer to a white object. */
    method BarrierBack(o: Ref)
      requires Sane({o}) && Usable(o) && heap[o].black && heap[o].kind.Table?
      modifies this`heap, this`grayagain
      ensures Valid() && SameShape(old(heap), heap)
    {
      assert gcstate != Finalize && gcstate != Pause;
      hide *;
      InBarrier({o});
      heap := heap[o := heap[o].BlackToGray()];
      grayagain := [o] + grayagain;
      AfterBack(old(heap), old(grayagain), o);
    }

    lemma InBarrier(ex: set<Ref>)
      requires Sane(ex)
      ensures WellFormed(heap, mainthread) && ListsOk(heap, rootgc, strt, nuse) && Sound(heap, Roots(), currentwhite)
      ensures Phase(gcstate, heap, mainthread, registry, currentwhite, gray, grayagain, rootgc, sweepgc, strt, sweepstrgc, ex)
    {
    }

    lemma AfterBack(h: Heap, again: seq<Ref>, o: Ref)
      requires WellFormed(h, mainthread) && ListsOk(h, rootgc, strt, nuse) && Sound(h, Roots(), currentwhite)
      requires Phase(gcstate, h, mainthread, registry, currentwhite, gray, again, rootgc, sweepgc, strt, sweepstrgc, {o})
      requires o in h && !h[o].IsDead(currentwhite) && h[o].black && h[o].kind.Table?
      requires heap == h[o := h[o].BlackToGray()] && grayagain == [o] + again
      ensures Valid() && SameShape(h, heap)
    {
      RecolourSweep(h, mainthread, Roots(), currentwhite, rootgc, strt, nuse, o, heap[o]);
      if gcstate == Propagate {
        BackMarking(h, mainthread, currentwhite, gray, again, o);
      } else {
        StaysFresh(gcstate, h, heap, mainthread, registry, currentwhite, gray, again, grayagain, rootgc, sweepgc, strt, sweepstrgc, {o}, {}, o);
      }
    }

    /** In the sweep states the forward barrier makes `o` white, so that it triggers no other barrier. */
    lemma AfterForward(h: Heap, o: Ref)
      requires WellFormed(h, mainthread) && ListsOk(h, rootgc, strt, nuse) && Sound(h, Roots(), currentwhite)
      requires Phase(gcstate, h, mainthread, registry, currentwhite, gray, grayagain, rootgc, sweepgc, strt, sweepstrgc, {o}) && gcstate != Propagate
      requires o in h && !h[o].IsDead(currentwhite) && h[o].black && heap == h[o := h[o].MakeWhite(currentwhite)]
      ensures Valid() && SameShape(h, heap)
    {
      RecolourSweep(h, mainthread, Roots(), currentwhite, rootgc, strt, nuse, o, heap[o]);
      StaysFresh(gcstate, h, heap, mainthread, registry, currentwhite, gray, grayagain, grayagain, rootgc, sweepgc, strt, sweepstrgc, {o}, {}, o);
    }

    /** Everything the program can reach it may use: nothing reachable is ever freed or dead. */
    lemma ReachableIsUsable(r: Ref)
      requires Valid() && Reachable(heap, Roots(), r)
      ensures Usable(r)
    {
      ReachableIsLive(heap, Roots(), currentwhite, r);
    }

    /** The facts about the heap before an operation of the program with the references `rs`. */
    lemma Ready(rs: seq<Ref>)
      requires Valid() && forall c :: c in rs ==> Usable(c)
      ensures Facts(heap, {}) && mainthread in heap && forall c :: c in rs ==> c in heap && !heap[c].IsDead(currentwhite)
      ensures WellFormed(heap, mainthread) && ListsOk(heap, rootgc, strt, nuse) && Sound(heap, Roots(), currentwhite)
      ensures Phase(gcstate, heap, mainthread, registry, currentwhite, gray, grayagain, rootgc, sweepgc, strt, sweepstrgc, {})
    {
    }

    /** Pushing and popping, and assigning the global table: writes into the main thread have no barrier. */
    method SetStack(rs: seq<Ref>)
      requires Valid() && |rs| > 0 && forall c :: c in rs ==> Usable(c)
      modifies this`heap
      ensures Valid() && SameBut(old(heap), heap, mainthread) && heap[mainthread].refs == rs
    {
      hide *;
      Ready(rs);
      ghost var h := heap;
      heap := heap[mainthread := heap[mainthread].WithRefs(rs)];
      AfterStack(h, rs);
    }

    lemma AfterStack(h: Heap, rs: seq<Ref>)
      requires Facts(h, {}) && |rs| > 0 && forall c :: c in rs ==> c in h && !h[c].IsDead(currentwhite)
      requires mainthread in h && heap == h[mainthread := h[mainthread].WithRefs(rs)]
      ensures Valid() && SameBut(h, heap, mainthread) && heap[mainthread].refs == rs
    {
      hide Marking;
      hide ListsOk;
      hide Sound;
      hide AllFresh;
      hide FreshBuckets;
      hide FreshTo;
      hide FreshStrings;
      StackKeepsHeap(h, mainthread, Roots(), currentwhite, rs);
      SameLists(h, heap, rootgc, strt, nuse);
      if gcstate == Propagate {
        StackMarking(h, mainthread, currentwhite, gray, grayagain, rs);
      } else {
        StaysFresh(gcstate, h, heap, mainthread, registry, currentwhite, gray, grayagain, grayagain, rootgc, sweepgc, strt, sweepstrgc, {}, {}, mainthread);
      }
    }

    /** `lua_setmetatable` for a basic type: no barrier either, since the atomic phase marks these tables again. */
    method SetMetatable(i: nat, t: Option<Ref>)
      requires Valid() && i < |mt| && (t.Some? ==> Usable(t.value))
      modifies this`mt
      ensures Valid() && mt == old(mt)[i := t]
    {
      ghost var before := Roots();
      SomesOf(mt);
      mt := mt[i := t];
      SomesOf(mt);
      hide Phase;
      hide ListsOk;
      hide WellFormed;
      assert Roots() <= before + (if t.Some? then {t.value} else {});
      assert mainthread == RootList()[0] && registry == RootList()[1];
    }

    /** `luaC_link`: a new object at the head of the list of all objects. */
    method NewObject(r: Ref, kind: Kind, rs: seq<Ref>)
      requires Valid() && r !in heap && (kind.Upval? || kind.Function? || kind.Table? || kind.Proto?)
      requires forall c :: c in rs ==> Usable(c)
      modifies this`heap, this`rootgc, this`sweepgc
      ensures Valid() && Usable(r) && heap == old(heap)[r := NewObj(kind, rs, currentwhite)]
    {
      hide *;
      LinkAt(0, r, kind, rs);
    }

    /** `luaS_newudata`: userdata are linked after the main thread. */
    method NewUserdata(r: Ref, rs: seq<Ref>)
      requires Valid() && r !in heap && forall c :: c in rs ==> Usable(c)
      modifies this`heap, this`rootgc, this`sweepgc
      ensures Valid() && Usable(r) && heap == old(heap)[r := NewObj(Userdata, rs, currentwhite)]
    {
      MainIsLinked();
      var m: nat :| m < |rootgc| && rootgc[m] == mainthread;
      hide *;
      LinkAt(m + 1, r, Userdata, rs);
    }

    lemma MainIsLinked()
      requires Valid()
      ensures exists m: nat :: m < |rootgc| && rootgc[m] == mainthread
    {
      assert ListOf(heap, Chain(rootgc, strt, -1), -1, |strt|) && InList(heap[mainthread], -1, |strt|);
      assert mainthread in rootgc;
    }

    method LinkAt(i: nat, r: Ref, kind: Kind, rs: seq<Ref>)
      requires Valid() && r !in heap && i <= |rootgc| && !kind.String? && !kind.Thread?
      requires forall c :: c in rs ==> Usable(c)
      modifies this`heap, this`rootgc, this`sweepgc
      ensures Valid() && Usable(r) && heap == old(heap)[r := NewObj(kind, rs, currentwhite)]
    {
      hide *;
      Ready(rs);
      ghost var h, list, p := heap, rootgc, sweepgc;
      heap := heap[r := NewObj(kind, rs, currentwhite)];
      rootgc := rootgc[..i] + [r] + rootgc[i..];
      sweepgc := if sweepgc > i then sweepgc + 1 else sweepgc;
      AfterLink(h, list, p, i, r, kind, rs);
    }

    lemma AfterLink(h: Heap, list: seq<Ref>, p: nat, i: nat, r: Ref, kind: Kind, rs: seq<Ref>)
      requires WellFormed(h, mainthread) && ListsOk(h, list, strt, nuse) && Sound(h, Roots(), currentwhite)
      requires Phase(gcstate, h, mainthread, registry, currentwhite, gray, grayagain, list, p, strt, sweepstrgc, {})
      requires r !in h && i <= |list| && !kind.String? && !kind.Thread?
      requires forall c :: c in rs ==> c in h && !h[c].IsDead(currentwhite)
      requires heap == h[r := NewObj(kind, rs, currentwhite)]
      requires rootgc == list[..i] + [r] + list[i..] && sweepgc == if p > i then p + 1 else p
      ensures Valid() && Usable(r)
    {
      var o := NewObj(kind, rs, currentwhite);
      AllocKeepsHeap(h, mainthread, Roots(), currentwhite, r, o);
      LinkRoot(h, list, p, strt, nuse, i, r, o);
      AllocPhase(gcstate, h, mainthread, registry, currentwhite, gray, grayagain, list, p, strt, sweepstrgc, rootgc, sweepgc, strt, r, o);
    }

    /** The hash loop of `luaS_newlstr`. */
    static method HashOf(str: string) returns (h: nat)
      ensures h == Hash(str)
    {
      var b := (|str| % 0x1_0000_0000) as bv32;
      var step := |str| / 32 + 1;
      var l1 := |str|;
      while l1 >= step
        invariant 0 <= l1 <= |str|
        invariant HashFrom(str, l1, step, b) == HashFrom(str, |str|, step, (|str| % 0x1_0000_0000) as bv32)
      {
        b := b ^ ((b << 5) + (b >> 2) + (str[l1 - 1] as int % 256) as bv32);
        l1 := l1 - step;
      }
      h := b as nat;
    }

    /** `luaS_newlstr`: the one string with these bytes, brought back if it was dead, or a new one at `addr`. */
    method NewLstr(str: string, addr: Ref) returns (r: Ref)
      requires Valid() && addr !in heap
      modifies this`heap, this`strt, this`nuse
      ensures Valid() && Usable(r) && heap[r].kind == String(str)
      ensures if r == addr then heap.Keys == old(heap.Keys) + {r} && forall q :: q in old(heap) ==> old(heap)[q].kind != String(str)
              else heap.Keys == old(heap.Keys)
      ensures r != addr ==> strt == old(strt) && nuse == old(nuse)
      ensures r != addr ==> heap == old(heap)[r := if old(heap)[r].IsDead(currentwhite) then old(heap)[r].ChangeWhite() else old(heap)[r]]
      ensures r == addr ==> heap == old(heap)[r := NewObj(String(str), [], currentwhite)]
      ensures r == addr ==> nuse == old(nuse) + 1 && |strt| == if old(Full()) then 2 * old(|strt|) else old(|strt|)
      ensures forall q :: q in old(heap) ==> SameContents(old(heap)[q], heap[q])
    {
      hide *;
      Ready([]);
      var hash := HashOf(str);
      HashedIn(str, hash);
      var list := strt[hash % |strt|];
      var i := 0;
      while i < |list|
        invariant 0 <= i <= |list| && forall j :: 0 <= j < i ==> heap[list[j]].kind != String(str)
      {
        if heap[list[i]].kind == String(str) {
          r := list[i];
          if heap[r].IsDead(currentwhite) {
            ghost var h := heap;
            heap := heap[r := heap[r].ChangeWhite()];
            Revived(h, r);
          } else {
            IsUsable(r);
          }
          return;
        }
        i := i + 1;
      }
      NotThere(str, list);
      r := addr;
      AddString(str, r);
    }

    lemma IsUsable(r: Ref)
      requires r in heap && !heap[r].IsDead(currentwhite)
      ensures Usable(r) && forall q :: q in heap ==> SameContents(heap[q], heap[q])
    {
    }

    lemma HashedIn(str: string, hash: nat)
      requires ListsOk(heap, rootgc, strt, nuse) && hash == Hash(str)
      ensures |strt| > 0 && hash % |strt| < |strt| && hash % |strt| == Bucket(Hash(str), |strt|)
      ensures forall r :: r in strt[hash % |strt|] ==> r in heap
      ensures forall r :: r in heap && heap[r].kind == String(str) ==> r in strt[hash % |strt|]
    {
      var b := Bucket(Hash(str), |strt|);
      assert ListOf(heap, Chain(rootgc, strt, b), b, |strt|);
      assert forall r :: r in heap && heap[r].kind == String(str) ==> InList(heap[r], b, |strt|);
    }

    lemma NotThere(str: string, list: seq<Ref>)
      requires forall j :: 0 <= j < |list| ==> list[j] in heap && heap[list[j]].kind != String(str)
      requires forall r :: r in heap && heap[r].kind == String(str) ==> r in list
      ensures forall q :: q in heap ==> heap[q].kind != String(str)
    {
    }

    lemma Revived(h: Heap, r: Ref)
      requires Facts(h, {}) && r in h && h[r].IsDead(currentwhite) && h[r].kind.String? && heap == h[r := h[r].ChangeWhite()]
      ensures Valid() && Usable(r) && heap[r].kind == h[r].kind && heap.Keys == h.Keys && forall q :: q in h ==> SameContents(h[q], heap[q])
    {
      hide WellFormed;
      hide Sound;
      hide ListsOk;
      ReviveKeeps(h, mainthread, Roots(), currentwhite, r);
      SameLists(h, heap, rootgc, strt, nuse);
      DeadMeansSweep(gcstate, h, mainthread, registry, currentwhite, gray, grayagain, rootgc, sweepgc, strt, sweepstrgc, r);
      hide Phase;
      StaysFresh(gcstate, h, heap, mainthread, registry, currentwhite, gray, grayagain, grayagain, rootgc, sweepgc, strt, sweepstrgc, {}, {}, r);
    }

    /** The table of strings is full, may still be doubled, and is not being swept. */
    predicate Full()
      reads this
    {
      nuse >= |strt| && |strt| <= 0x3fff_ffff && !gcstate.SweepString?
    }

    lemma FullMeans()
      ensures MAX_INT / 2 == 0x3fff_ffff && (Full() <==> nuse >= |strt| && |strt| <= 0x3fff_ffff && !gcstate.SweepString?)
    {
    }

    /** `newlstr`. */
    method AddString(str: string, r: Ref)
      requires Valid() && r !in heap && forall q :: q in heap ==> heap[q].kind != String(str)
      modifies this`heap, this`strt, this`nuse
      ensures Valid() && Usable(r) && heap == old(heap)[r := NewObj(String(str), [], currentwhite)]
      ensures heap[r].kind == String(str) && heap.Keys == old(heap.Keys) + {r} && forall q :: q in old(heap) ==> SameContents(old(heap)[q], heap[q])
      ensures nuse == old(nuse) + 1 && |strt| == if old(Full()) then 2 * old(|strt|) else old(|strt|)
    {
      hide *;
      Ready([]);
      NotEmpty();
      FullMeans();
      ghost var h, table := heap, strt;
      heap := heap[r := NewObj(String(str), [], currentwhite)];
      var b := Bucket(Hash(str), |strt|);
      strt := strt[b := [r] + strt[b]];
      nuse := nuse + 1;
      AfterAdd(h, table, r, str);
      if nuse > |strt| && |strt| <= MAX_INT / 2 {
        Ready([]);
        NotEmpty();
        DoubleIsPow2(|strt|);
        ghost var before := strt;
        Resize(|strt| * 2);
        AfterResize(before);
      }
    }

    lemma NotEmpty()
      requires ListsOk(heap, rootgc, strt, nuse)
      ensures |strt| >= MINSTRTABSIZE == 32 && IsPow2(|strt|)
    {
    }

    lemma AfterAdd(h: Heap, table: seq<seq<Ref>>, r: Ref, str: string)
      requires WellFormed(h, mainthread) && ListsOk(h, rootgc, table, nuse - 1) && Sound(h, Roots(), currentwhite)
      requires Phase(gcstate, h, mainthread, registry, currentwhite, gray, grayagain, rootgc, sweepgc, table, sweepstrgc, {})
      requires r !in h && forall q :: q in h ==> h[q].kind != String(str)
      requires heap == h[r := NewObj(String(str), [], currentwhite)]
      requires |table| > 0 && (var b := Bucket(Hash(str), |table|); strt == table[b := [r] + table[b]])
      ensures Valid() && Usable(r) && heap[r].kind == String(str)
      ensures heap.Keys == h.Keys + {r} && forall q :: q in h ==> SameContents(h[q], heap[q])
    {
      var o := NewObj(String(str), [], currentwhite);
      AllocKeepsHeap(h, mainthread, Roots(), currentwhite, r, o);
      LinkString(h, rootgc, table, nuse - 1, r, o);
      assert forall i :: 0 <= i < sweepgc <= |rootgc| ==> rootgc[i] in rootgc[..sweepgc];
      AllocPhase(gcstate, h, mainthread, registry, currentwhite, gray, grayagain, rootgc, sweepgc, table, sweepstrgc, rootgc, sweepgc, strt, r, o);
    }

    lemma AfterResize(before: seq<seq<Ref>>)
      requires WellFormed(heap, mainthread) && ListsOk(heap, rootgc, strt, nuse) && Sound(heap, Roots(), currentwhite)
      requires Phase(gcstate, heap, mainthread, registry, currentwhite, gray, grayagain, rootgc, sweepgc, before, sweepstrgc, {})
      requires gcstate.SweepString? ==> strt == before
      ensures Valid()
    {
    }

    /** `lua_newstate`: the main thread, the table of globals and the registry. */
    constructor (main: Ref, globals: Ref, reg: Ref)
      requires main != globals && globals != reg && reg != main
      ensures Valid() && gcstate == Pause && heap.Keys == {main, globals, reg}
      ensures mainthread == main && registry == reg && Reached() == {main, globals, reg} && |strt| == 32 && |mt| == 9
    {
      var thread := Obj(Thread, [globals], true, false, false, true);
      var table := Obj(Table, [], true, false, false, false);
      heap := map[main := thread, globals := table, reg := table];
      mainthread, registry := main, reg;
      gcstate, currentwhite := Pause, false;
      gray, grayagain := [], [];
      rootgc, sweepgc := [reg, globals, main], 0;
      strt, nuse, sweepstrgc := seq(MINSTRTABSIZE, _ => []), 0, 0;
      mt := seq(9, _ => None);
      new;
      NewState(globals);
    }

    lemma NewState(globals: Ref)
      requires mainthread != globals && globals != registry && registry != mainthread
      requires heap == map[mainthread := Obj(Thread, [globals], true, false, false, true),
                           globals := Obj(Table, [], true, false, false, false), registry := Obj(Table, [], true, false, false, false)]
      requires gcstate == Pause && !currentwhite && rootgc == [registry, globals, mainthread] && nuse == 0
      requires |strt| == MINSTRTABSIZE && (forall b :: 0 <= b < |strt| ==> strt[b] == []) && forall i :: 0 <= i < |mt| ==> mt[i] == None
      ensures Valid() && Reached() == {mainthread, globals, registry} && heap.Keys == {mainthread, globals, registry}
    {
      SomesOfNone(mt);
      assert Roots() == {mainthread, registry};
      hide *;
      FirstHeap(mainthread, globals, registry, heap);
      FirstLists(mainthread, globals, registry, heap, strt);
      FirstState();
    }

    lemma FirstState()
      requires gcstate == Pause && WellFormed(heap, mainthread) && ListsOk(heap, rootgc, strt, nuse)
      requires Sound(heap, Roots(), currentwhite) && AllFresh(heap, currentwhite)
      ensures Valid() && Reached() == Reach(heap, Roots())
    {
    }

    // ---------------------------------------------------------------- whole runs

    /** A program acts on what it can reach, or at least on what is not dead, and allocates at free addresses. */
    predicate Enabled(a: Action)
      reads this`heap, this`currentwhite, this`mt
    {
      match a
      case Collect(_) => true
      case CollectAll => true
      case Assign(o, rs, v) =>
        && Usable(o) && !heap[o].kind.String? && !heap[o].kind.Thread? && (v.Some? ==> Usable(v.value))
        && forall c | c in rs :: c in heap[o].refs || v == Some(c)
      case Stack(rs) => |rs| > 0 && forall c | c in rs :: Usable(c)
      case Metatable(i, t) => i < |mt| && (t.Some? ==> Usable(t.value))
      case Create(r, kind, rs) => r !in heap && (kind.Upval? || kind.Function? || kind.Table? || kind.Proto?) && forall c | c in rs :: Usable(c)
      case CreateUserdata(r, rs) => r !in heap && forall c | c in rs :: Usable(c)
      case InternString(_, addr) => addr !in heap
    }

    /** The world in which this state is all there is. */
    ghost function Here(): World
      reads this`heap, this`mt
    {
      World(heap, mt, mainthread, registry)
    }

    /** The world shows every object that is allocated, and the same roots. */
    ghost predicate Agrees(w: World)
      reads this`heap, this`mt
    {
      w.mt == mt && w.main == mainthread && w.registry == registry && Shows(w.objs, heap)
    }

    /** The program cannot tell that there is a collector: it reaches the same objects as in a world that keeps them all. */
    lemma SeesAll(w: World)
      requires Valid() && Agrees(w)
      ensures w.mt == mt && w.Roots() == Roots() && w.Reached() == Reached() <= heap.Keys
      ensures forall r :: r in Reached() ==> Usable(r) && SameContents(w.objs[r], heap[r])
    {
      SomesOf(mt);
      assert mainthread == RootList()[0] && registry == RootList()[1];
      SameRoots(w);
      hide Roots;
      ReachedIsClosed();
      SameReach(w.objs, heap, Roots());
      forall r | r in Reached()
        ensures Usable(r)
      {
        ReachableIsUsable(r);
      }
    }

    lemma SameRoots(w: World)
      requires Agrees(w) && forall x :: x in Somes(mt) <==> Some(x) in mt
      ensures w.Roots() == Roots()
    {
      forall r
        ensures r in w.Roots() <==> r in Roots()
      {
        if Some(r) in mt {
          var i :| 0 <= i < |mt| && mt[i] == Some(r);
          assert w.mt[i].value == r;
        }
        assert r in RootList() <==> r == mainthread || r == registry || r in Somes(mt);
      }
    }

    lemma SensibleIsEnabled(w: World, a: Action)
      requires Valid() && Agrees(w) && Sensible(w, a)
      ensures Enabled(a)
    {
      hide Valid, Reached, Roots, Reach, RefsWithin, Reachable;
      SeesAll(w);
    }

    /**
     * Over every interleaving of the collector and the program the program sees what it would see if nothing were ever freed: the log
     * tells what was done, every sensible action is, and what can be reached afterwards, with its contents, is what can be
     * reached in the world after these deeds. No two strings are equal.
     */
    method Run(script: seq<Action>) returns (ghost log: seq<Deed>)
      requires Valid()
      modifies this
      ensures Valid()
      ensures |log| == |script| && forall i :: 0 <= i < |log| ==> log[i].a == script[i]
      ensures Explained(old(Here()), log)
      ensures var w := After(old(Here()), log);
        && mt == w.mt && Reached() == w.Reached()
        && forall r :: r in w.Reached() ==> Usable(r) && SameContents(w.objs[r], heap[r])
      ensures forall r :: Reachable(heap, Roots(), r) ==> Usable(r)
      ensures forall r, q :: r in heap && q in heap && heap[r].kind.String? && heap[r].kind == heap[q].kind ==> r == q
      ensures script != [] && script[|script| - 1] == CollectAll ==> gcstate == Pause && heap.Keys == Survivors()
    {
      hide *;
      log := [];
      ghost var w0 := Here();
      ghost var w := w0;
      Starts(w0);
      var i := 0;
      while i < |script|
        invariant 0 <= i <= |script| && Valid() && Agrees(w) && w == After(w0, log) && Explained(w0, log)
        invariant |log| == i && forall j :: 0 <= j < i ==> log[j].a == script[j]
        invariant i > 0 && script[i - 1] == CollectAll ==> gcstate == Pause && heap.Keys == Survivors()
      {
        ghost var d := Turn(script[i], w);
        ExplainedMore(w0, log, d);
        w, log := Acted(w, d), log + [d];
        i := i + 1;
      }
      SeesAll(w);
      Distinct();
    }

    /** One turn of a run: an action that is not possible is passed over. */
    method Turn(a: Action, ghost w: World) returns (ghost d: Deed)
      requires Valid() && Agrees(w)
      modifies this
      ensures Valid() && d.a == a && Agrees(Acted(w, d)) && Explains(w, d)
      ensures a == CollectAll ==> gcstate == Pause && heap.Keys == Survivors()
    {
      hide *;
      if Enabled(a) {
        d := Perform(a, w);
      } else {
        d := Deed(a, false, mainthread);
        NotDone(w, d);
      }
    }

    lemma Starts(w: World)
      requires w == Here()
      ensures Agrees(w) && After(w, []) == w && Explained(w, [])
    {
      ShowsSelf(heap);
    }

    lemma NotDone(w: World, d: Deed)
      requires Valid() && Agrees(w) && !d.done && !Enabled(d.a)
      ensures Acted(w, d) == w && Explains(w, d) && d.a != CollectAll
    {
      if Sensible(w, d.a) { SensibleIsEnabled(w, d.a); }
    }

    lemma Distinct()
      requires Valid()
      ensures forall r :: Reachable(heap, Roots(), r) ==> Usable(r)
      ensures forall r, q :: r in heap && q in heap && heap[r].kind.String? && heap[r].kind == heap[q].kind ==> r == q
    {
      forall r | Reachable(heap, Roots(), r)
        ensures Usable(r)
      {
        ReachableIsUsable(r);
      }
    }

    /** What an action needs, and what it begins with. */
    lemma Before(w: World, a: Action)
      requires Valid() && Enabled(a) && Agrees(w)
      ensures Shows(w.objs, heap) && w.mt == mt && w.main == mainthread && w.registry == registry && Survivors() <= heap.Keys
      ensures match a
        case Assign(o, rs, v) =>
          && Usable(o) && !heap[o].kind.String? && !heap[o].kind.Thread? && (v.Some? ==> Usable(v.value))
          && forall c :: c in rs ==> c in heap[o].refs || v == Some(c)
        case Stack(rs) => |rs| > 0 && forall c :: c in rs ==> Usable(c)
        case Metatable(i, t) => i < |mt| && (t.Some? ==> Usable(t.value))
        case Create(r, kind, rs) => r !in heap && (kind.Upval? || kind.Function? || kind.Table? || kind.Proto?) && forall c :: c in rs ==> Usable(c)
        case CreateUserdata(r, rs) => r !in heap && forall c :: c in rs ==> Usable(c)
        case InternString(_, addr) => addr !in heap
        case _ => true
    {
      hide Valid;
    }

    lemma Collected(w: World, h: Heap, d: Deed)
      requires w.mt == mt && w.main == mainthread && w.registry == registry && Shows(w.objs, h) && Shrunk(h, heap)
      requires d.done && (d.a.Collect? || d.a.CollectAll?)
      ensures Agrees(Acted(w, d)) && Explains(w, d)
    {
      ShowsShrunk(w.objs, h, heap);
    }

    lemma Wrote(w: World, h: Heap, d: Deed)
      requires w.mt == mt && w.main == mainthread && w.registry == registry && Shows(w.objs, h) && d.done
      requires (d.a.Assign? && SameBut(h, heap, d.a.o) && heap[d.a.o].refs == d.a.rs)
            || (d.a.Stack? && SameBut(h, heap, mainthread) && heap[mainthread].refs == d.a.rs)
      ensures Agrees(Acted(w, d)) && Explains(w, d)
    {
      ShowsWritten(w.objs, h, heap, if d.a.Assign? then d.a.o else mainthread, d.a.rs);
    }

    lemma Rooted(w: World, d: Deed)
      requires w.main == mainthread && w.registry == registry && Shows(w.objs, heap) && d.done
      requires d.a.Metatable? && d.a.i < |w.mt| && mt == w.mt[d.a.i := d.a.t]
      ensures Agrees(Acted(w, d)) && Explains(w, d)
    {
    }

    lemma Made(w: World, h: Heap, d: Deed)
      requires w.mt == mt && w.main == mainthread && w.registry == registry && Shows(w.objs, h) && d.done
      requires (d.a.Create? && heap == h[d.a.r := NewObj(d.a.kind, d.a.rs, currentwhite)])
            || (d.a.CreateUserdata? && heap == h[d.a.r := NewObj(Userdata, d.a.rs, currentwhite)])
      ensures Agrees(Acted(w, d)) && Explains(w, d)
    {
      ShowsNew(w.objs, h, d.a.r, if d.a.Create? then d.a.kind else Userdata, d.a.rs, currentwhite);
    }

    /** The string is the one that was there, or a new one because there was none. */
    lemma Interned(w: World, h: Heap, d: Deed)
      requires Valid() && w.mt == mt && w.main == mainthread && w.registry == registry && Shows(w.objs, h) && d.done && d.a.InternString?
      requires d.a.addr !in h && d.r in heap && heap[d.r].kind == String(d.a.str) && h.Keys <= heap.Keys
      requires forall q :: q in h ==> SameContents(h[q], heap[q])
      requires if d.r == d.a.addr then heap == h[d.r := NewObj(String(d.a.str), [], currentwhite)] else heap.Keys == h.Keys
      requires w.Reached() <= h.Keys
      ensures Agrees(Acted(w, d)) && Explains(w, d)
    {
      Distinct();
      OneString(w, h, d);
      hide *;
      if d.r == d.a.addr {
        ShowsNew(w.objs, h, d.r, String(d.a.str), [], currentwhite);
      } else {
        ShowsShrunk(w.objs, h, heap) by { SameShrunk(h, heap); }
      }
      InternedAgrees(w, d);
    }

    lemma InternedAgrees(w: World, d: Deed)
      requires w.mt == mt && w.main == mainthread && w.registry == registry && d.done && d.a.InternString?
      requires Shows(if d.r == d.a.addr then w.objs[d.r := Obj(String(d.a.str), [], false, false, false, false)] else w.objs, heap)
      ensures Agrees(Acted(w, d))
    {
      hide Shows;
    }

    lemma OneString(w: World, h: Heap, d: Deed)
      requires Shows(w.objs, h) && d.a.InternString? && d.r in heap && heap[d.r].kind == String(d.a.str) && h.Keys <= heap.Keys
      requires forall q :: q in h ==> SameContents(h[q], heap[q])
      requires forall r, q :: r in heap && q in heap && heap[r].kind.String? && heap[r].kind == heap[q].kind ==> r == q
      requires d.done && (d.r == d.a.addr || d.r in h) && w.Reached() <= h.Keys
      ensures Explains(w, d)
    {
      hide Reach, Sensible;
    }

    /** An action is done in the heap as it is in the world `w`; those of the collector do their work and change nothing there. */
    method Perform(a: Action, ghost w: World) returns (ghost d: Deed)
      requires Valid() && Enabled(a) && Agrees(w)
      modifies this
      ensures Valid() && d.a == a && d.done && Agrees(Acted(w, d)) && Explains(w, d)
      ensures a.Collect? || a.CollectAll? ==> Reached() == old(Reached()) && Kept(old(heap), heap, Survivors())
      ensures a.Collect? && old(gcstate) != Pause ==> gcstate == Pause || ToGo() + a.steps <= old(ToGo())
      ensures a.Collect? && old(gcstate) == Pause && a.steps > 0 ==> gcstate == Pause || ToGo() + a.steps <= old(WholeCycle())
      ensures a.Collect? && old(gcstate) == Pause && a.steps == 1 ==> gcstate == Propagate
      ensures a.CollectAll? ==> gcstate == Pause && heap.Keys == Survivors() == old(Survivors())
    {
      hide *;
      ghost var h := heap;
      d := Deed(a, true, mainthread);
      Before(w, a);
      match a
      case Collect(steps) =>
        LiveTracks();
        Step(steps, Live(heap, currentwhite));
        Collected(w, h, d);
      case CollectAll =>
        FullGC();
        KeptShrunk(h, heap, Survivors());
        Collected(w, h, d);
      case Assign(o, rs, v) =>
        Write(o, rs, v);
        Wrote(w, h, d);
      case Stack(rs) =>
        SetStack(rs);
        Wrote(w, h, d);
      case Metatable(k, t) =>
        SetMetatable(k, t);
        Rooted(w, d);
      case Create(r, kind, rs) =>
        NewObject(r, kind, rs);
        Made(w, h, d);
      case CreateUserdata(r, rs) =>
        NewUserdata(r, rs);
        Made(w, h, d);
      case InternString(str, addr) =>
        SeesAll(w);
        var r := NewLstr(str, addr);
        d := Deed(a, true, r);
        Interned(w, h, d);
    }
  }
}
