/** What a program does with objects, as it looks to a machine that never frees anything. */
module LuaWorld {
  import opened Basics
  import opened LuaHeap
  import opened LuaPhase

  datatype Action =
    | Collect(steps: nat)
    | CollectAll
    | Assign(o: Ref, rs: seq<Ref>, v: Option<Ref>)
    | Stack(rs: seq<Ref>)
    | Metatable(i: nat, t: Option<Ref>)
    | Create(r: Ref, kind: Kind, rs: seq<Ref>)
    | CreateUserdata(r: Ref, rs: seq<Ref>)
    | InternString(str: string, addr: Ref)

  /** An action of a run, whether it was possible, and the string it gave. */
  datatype Deed = Deed(a: Action, done: bool, r: Ref)

  /** All objects that were ever made; their colours mean nothing. An address that is used again stands for the new object. */
  datatype World = World(objs: Heap, mt: seq<Option<Ref>>, main: Ref, registry: Ref) {
    ghost function Roots(): set<Ref> {
      {main, registry} + set i | 0 <= i < |mt| && mt[i].Some? :: mt[i].value
    }

    ghost function Reached(): set<Ref> {
      Reach(objs, Roots())
    }
  }

  function Refers(objs: Heap, o: Ref, rs: seq<Ref>): Heap {
    if o in objs then objs[o := objs[o].WithRefs(rs)] else objs
  }

  /** The world after an action. A string is new exactly if it has the address offered for it. */
  function Acted(w: World, d: Deed): World {
    if !d.done then w
    else
      match d.a
      case Collect(_) => w
      case CollectAll => w
      case Assign(o, rs, _) => w.(objs := Refers(w.objs, o, rs))
      case Stack(rs) => w.(objs := Refers(w.objs, w.main, rs))
      case Metatable(i, t) => if i < |w.mt| then w.(mt := w.mt[i := t]) else w
      case Create(r, kind, rs) => w.(objs := w.objs[r := Obj(kind, rs, false, false, false, false)])
      case CreateUserdata(r, rs) => w.(objs := w.objs[r := Obj(Userdata, rs, false, false, false, false)])
      case InternString(str, addr) => if d.r == addr then w.(objs := w.objs[addr := Obj(String(str), [], false, false, false, false)]) else w
  }

  function After(w: World, log: seq<Deed>): World {
    if log == [] then w else Acted(After(w, log[..|log| - 1]), log[|log| - 1])
  }

  /** What a program may always do: use what it can reach, and allocate at addresses never used. */
  ghost predicate Sensible(w: World, a: Action) {
    match a
    case Assign(o, rs, v) =>
      && o in w.Reached() && !w.objs[o].kind.String? && !w.objs[o].kind.Thread? && (v.Some? ==> v.value in w.Reached())
      && forall c :: c in rs ==> c in w.objs[o].refs || v == Some(c)
    case Stack(rs) => |rs| > 0 && forall c :: c in rs ==> c in w.Reached()
    case Metatable(i, t) => i < |w.mt| && (t.Some? ==> t.value in w.Reached())
    case Create(r, kind, rs) => r !in w.objs && (kind.Upval? || kind.Function? || kind.Table? || kind.Proto?) && forall c :: c in rs ==> c in w.Reached()
    case CreateUserdata(r, rs) => r !in w.objs && forall c :: c in rs ==> c in w.Reached()
    case InternString(_, addr) => addr !in w.objs
    case _ => true
  }

  /** A sensible action is done. A string that the program can reach is not made a second time. */
  ghost predicate Explains(w: World, d: Deed) {
    && (Sensible(w, d.a) ==> d.done)
    && (d.done && d.a.InternString? ==>
          && (d.r == d.a.addr || (d.r in w.objs && w.objs[d.r].kind == String(d.a.str)))
          && forall q :: q in w.Reached() && w.objs[q].kind == String(d.a.str) ==> d.r == q)
  }

  ghost predicate Explained(w: World, log: seq<Deed>) {
    forall i :: 0 <= i < |log| ==> Explains(After(w, log[..i]), log[i])
  }

  lemma ExplainedMore(w: World, log: seq<Deed>, d: Deed)
    requires Explained(w, log) && Explains(After(w, log), d)
    ensures Explained(w, log + [d]) && After(w, log + [d]) == Acted(After(w, log), d)
  {
    var log' := log + [d];
    assert log'[..|log|] == log;
    forall i | 0 <= i < |log'|
      ensures Explains(After(w, log'[..i]), log'[i])
    {
      if i < |log| { assert log'[..i] == log[..i]; }
    }
  }

  /** Every object of the heap is in the world, with the same contents. */
  ghost predicate Shows(objs: Heap, h: Heap) {
    forall r :: r in h ==> r in objs && SameContents(objs[r], h[r])
  }

  /** Objects may have gone, and the others have the same contents. */
  ghost predicate Shrunk(h: Heap, h': Heap) {
    h'.Keys <= h.Keys && forall r :: r in h' ==> SameContents(h[r], h'[r])
  }

  lemma ShrunkThen(h: Heap, h1: Heap, h': Heap)
    requires Shrunk(h, h1) && Shrunk(h1, h')
    ensures Shrunk(h, h')
  {
  }

  lemma OnlyShrunk(h: Heap, h': Heap, cur: bool)
    requires FreesOnlyDead(h, h', cur)
    ensures Shrunk(h, h')
  {
  }

  lemma ShowsSelf(h: Heap)
    ensures Shows(h, h) && Shrunk(h, h)
  {
  }

  lemma ShowsShrunk(objs: Heap, h: Heap, h': Heap)
    requires Shows(objs, h) && Shrunk(h, h')
    ensures Shows(objs, h')
  {
  }

  lemma SameShrunk(h: Heap, h': Heap)
    requires h'.Keys == h.Keys && forall r :: r in h ==> SameContents(h[r], h'[r])
    ensures Shrunk(h, h')
  {
  }

  lemma KeptShrunk(h: Heap, h': Heap, s: set<Ref>)
    requires Kept(h, h', s) && h'.Keys == s <= h.Keys
    ensures Shrunk(h, h')
  {
  }

  lemma ShowsWritten(objs: Heap, h: Heap, h': Heap, o: Ref, rs: seq<Ref>)
    requires Shows(objs, h) && SameBut(h, h', o) && h'[o].refs == rs
    ensures Shows(Refers(objs, o, rs), h')
  {
  }

  lemma ShowsNew(objs: Heap, h: Heap, r: Ref, kind: Kind, rs: seq<Ref>, cur: bool)
    requires Shows(objs, h)
    ensures Shows(objs[r := Obj(kind, rs, false, false, false, false)], h[r := NewObj(kind, rs, cur)])
  {
  }

  /** What can be reached in the heap and in the world is the same. */
  lemma SameReach(objs: Heap, h: Heap, roots: set<Ref>)
    requires Shows(objs, h) && roots <= Reach(h, roots) && RefsWithin(h, Reach(h, roots))
    ensures Reach(objs, roots) == Reach(h, roots)
  {
    ReachIsStable(h, objs, roots);
  }
}
