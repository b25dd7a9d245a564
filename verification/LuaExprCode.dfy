/** Putting the code of subexpressions together. */
module ExprCode {
  import opened LuaVM
  import opened PendingCode
  import opened JumpLists
  import opened BoolCode

  /** Exits that agree with the way the branch falls through now fall through, too. */
  function FallIn(ro: Roles, truth: bool): Roles {
    if truth then Roles(ro.h + ro.t, {}, ro.f) else Roles(ro.h + ro.f, ro.t, {})
  }

  ghost predicate Redirected(cx: Ctx, c: seq<Instr>, ro: Roles, c': seq<Instr>, ro': Roles) {
    && Shape(cx, c, ro) && |cx.code| < |c| && ro.h == {}
    && Relinked(c, c', ro.All())
    && ro'.All() == ro.All() && ro'.h !! ro'.t !! ro'.f && ro'.t <= ro.t && ro'.f <= ro.f
  }

  lemma RedirectedShape(cx: Ctx, c: seq<Instr>, ro: Roles, c': seq<Instr>, ro': Roles)
    requires Redirected(cx, c, ro, c', ro')
    ensures Shape(cx, c', ro') && Compatible(|cx.code|, c, ro, |c|, c', ro', |c'|)
    ensures forall p :: p in ro.All() ==> ProducesValue(c', p) == ProducesValue(c, p) && (p > 0 && p <= |c| && c[p - 1].TestSet? ==> c'[p - 1] == c[p - 1])
  {
    Boundary(cx, c, ro);
    assert forall q :: 0 <= q < |c| ==> (c'[q].Jmp? == c[q].Jmp? && (q !in ro.All() ==> c'[q] == c[q]));
    forall q | 0 <= q < |c'| && IsTest(c'[q])
      ensures q + 1 < |c'| && c'[q + 1].Jmp?
    {
      assert IsTest(c[q]);
    }
    forall q | |cx.code| <= q < |c|
      ensures CompatibleAt(c, ro, c', ro', q)
    {
    }
  }

  lemma RedirectAt(w: World, r: Regs, cx: Ctx, c: seq<Instr>, ro: Roles, c': seq<Instr>, e: Expr, n: nat, x: Reg, truth: bool)
    requires Redirected(cx, c, ro, c', FallIn(ro, truth))
    requires BranchesAt(w, r, c, ro, |cx.code|, e, n, x, truth)
    ensures BranchesAt(w, r, c', FallIn(ro, truth), |cx.code|, e, n, x, truth)
  {
    var ro' := FallIn(ro, truth);
    RedirectedShape(cx, c, ro, c', ro');
    Simulate(w, |cx.code|, c, ro, |c|, c', ro', |c'|, |cx.code|, r);
    ExitIsMember(w, c, ro, |c|, |cx.code|, r);
    var o := Exec(w, c, ro, |c|, |cx.code|, r);
    if !o.Fall? { assert ProducesValue(c', o.at) == ProducesValue(c, o.at); }
  }

  /** The end of `luaK_goiftrue` and `luaK_goiffalse`: one list of exits waits for the next
      instruction, the other is one list. */
  lemma Redirect(cx: Ctx, c: seq<Instr>, ro: Roles, c': seq<Instr>, e: Expr, n: nat, x: Reg, truth: bool)
    requires BranchOk(cx, c, ro, e, n, x, truth) && |cx.code| < |c| && ro.h == {}
    requires Relinked(c, c', ro.All())
    ensures BranchOk(cx, c', FallIn(ro, truth), e, n, x, truth)
  {
    var ro' := FallIn(ro, truth);
    RedirectedShape(cx, c, ro, c', ro');
    forall w: World, r: Regs
      ensures BranchesAt(w, r, c', ro', |cx.code|, e, n, x, truth)
    {
      assert BranchesAt(w, r, c, ro, |cx.code|, e, n, x, truth);
      RedirectAt(w, r, cx, c, ro, c', e, n, x, truth);
    }
  }

  /** `c2` is the code `c1` of a first operand with that of a second one behind it; `c'` is `c2`
      with the exits of both joined. */
  ghost predicate Joined(cx: Ctx, c1: seq<Instr>, ro1: Roles, c2: seq<Instr>, ro2: Roles, end: nat, c': seq<Instr>) {
    && Shape(cx, c1, ro1) && Shape(Ctx(c1, ro1.h), c2, ro2)
    && |c1| <= end <= |c2| && (c1 == c2 || |c1| < |c2|)
    && Relinked(c2, c', ro1.t + ro1.f + ro2.t + ro2.f)
  }

  function Union(ro1: Roles, ro2: Roles): Roles {
    Roles(ro2.h, ro2.t + ro1.t, ro2.f + ro1.f)
  }

  lemma JoinedAt(cx: Ctx, c1: seq<Instr>, ro1: Roles, c2: seq<Instr>, ro2: Roles, end: nat, c': seq<Instr>, q: nat)
    requires Joined(cx, c1, ro1, c2, ro2, end, c') && q < |c1|
    ensures CompatibleAt(c1, ro1, c', Union(ro1, ro2), q)
    ensures q in ro1.h ==> LandsAt(c', Union(ro1, ro2), end, q, |c1|)
    ensures IsTest(c'[q]) == IsTest(c1[q])
    ensures q in ro1.t + ro1.f ==> ProducesValue(c', q) == ProducesValue(c1, q) && (ProducesValue(c1, q) ==> c'[q - 1] == c1[q - 1])
  {
    if c2 != c1 {
      assert c2[q] == Landed(c1, ro1.h, |c1|)[q];
      if q > 0 { assert c2[q - 1] == Landed(c1, ro1.h, |c1|)[q - 1]; }
    }
  }

  lemma JoinedFirst(cx: Ctx, c1: seq<Instr>, ro1: Roles, c2: seq<Instr>, ro2: Roles, end: nat, c': seq<Instr>)
    requires Joined(cx, c1, ro1, c2, ro2, end, c')
    ensures Compatible(|cx.code|, c1, ro1, |c1|, c', Union(ro1, ro2), end)
  {
    var lo, ro' := |cx.code|, Union(ro1, ro2);
    Boundary(cx, c1, ro1);
    if 0 < lo <= |c1| { JoinedAt(cx, c1, ro1, c2, ro2, end, c', lo - 1); }
    forall q | lo <= q < |c1|
      ensures CompatibleAt(c1, ro1, c', ro', q)
    {
      JoinedAt(cx, c1, ro1, c2, ro2, end, c', q);
    }
    forall p | lo <= p < |c1| && p in ro1.h && p !in ro1.t + ro1.f
      ensures LandsAt(c', ro', end, p, |c1|)
    {
      JoinedAt(cx, c1, ro1, c2, ro2, end, c', p);
    }
  }

  lemma JoinedSecond(cx: Ctx, c1: seq<Instr>, ro1: Roles, c2: seq<Instr>, ro2: Roles, end: nat, c': seq<Instr>)
    requires Joined(cx, c1, ro1, c2, ro2, end, c')
    ensures Compatible(|c1|, c2, ro2, end, c', Union(ro1, ro2), end)
    ensures forall p :: p in ro2.t + ro2.f ==> ProducesValue(c', p) == ProducesValue(c2, p) && (ProducesValue(c2, p) ==> c'[p - 1] == c2[p - 1])
  {
    var lo, ro' := |c1|, Union(ro1, ro2);
    Boundary(Ctx(c1, ro1.h), c2, ro2);
    if 0 < lo { JoinedAt(cx, c1, ro1, c2, ro2, end, c', lo - 1); assert !IsTest(c1[lo - 1]); }
    forall q | lo <= q < end
      ensures CompatibleAt(c2, ro2, c', ro', q)
    {
      assert q !in ro1.t + ro1.f;
    }
    forall p | lo <= p < end && p in ro2.h && p !in ro2.t + ro2.f
      ensures LandsAt(c', ro', end, p, end)
    {
    }
  }

  lemma JoinedShape(cx: Ctx, c1: seq<Instr>, ro1: Roles, c2: seq<Instr>, ro2: Roles, end: nat, c': seq<Instr>)
    requires Joined(cx, c1, ro1, c2, ro2, end, c')
    ensures Shape(cx, c', Union(ro1, ro2))
  {
    assert forall q :: 0 <= q < |c2| ==> c'[q].Jmp? == c2[q].Jmp? && IsTest(c'[q]) == IsTest(c2[q]);
    forall q | 0 <= q < |c'| && IsTest(c'[q])
      ensures q + 1 < |c'| && c'[q + 1].Jmp?
    {
      assert IsTest(c2[q]);
    }
    assert ro1.t + ro1.f !! ro2.h by {
      if c1 != c2 { assert forall p :: p in ro2.h ==> |c1| <= p; }
    }
    JoinedExtends(cx, c1, ro1, c2, ro2, end, c');
  }

  lemma JoinedExtends(cx: Ctx, c1: seq<Instr>, ro1: Roles, c2: seq<Instr>, ro2: Roles, end: nat, c': seq<Instr>)
    requires Joined(cx, c1, ro1, c2, ro2, end, c')
    ensures Extends(cx, c', ro2.h)
  {
    assert forall q :: 0 <= q < |cx.code| ==> c'[q] == c2[q];
    if c1 == cx.code {
      if c2 == c1 { assert c' == cx.code; }
    } else {
      forall q | 0 <= q < |cx.code|
        ensures c'[q] == Landed(cx.code, cx.h, |cx.code|)[q]
      {
        assert c1[q] == Landed(cx.code, cx.h, |cx.code|)[q];
        if c2 != c1 {
          assert c2[q] == Landed(c1, ro1.h, |c1|)[q];
          if q + 1 == |cx.code| { Boundary(cx, c1, ro1); }
        }
      }
    }
  }

  lemma JoinedExit(w: World, cx: Ctx, c1: seq<Instr>, ro1: Roles, c2: seq<Instr>, ro2: Roles, end: nat, c': seq<Instr>, o: Outcome)
    requires Joined(cx, c1, ro1, c2, ro2, end, c')
    requires (o.ExitT? && o.at in ro1.t && o.at < |c1|) || (o.ExitF? && o.at in ro1.f && o.at < |c1|)
    ensures Take(w, c', Union(ro1, ro2), end, o.at, o.regs) == o
    ensures Carried(c', o.at, o.ExitT?, o.regs) == Carried(c1, o.at, o.ExitT?, o.regs)
  {
    JoinedAt(cx, c1, ro1, c2, ro2, end, c', o.at);
    assert o.at !in ro2.t + ro2.f;
  }

  lemma JoinedRunFirst(w: World, r: Regs, cx: Ctx, c1: seq<Instr>, ro1: Roles, c2: seq<Instr>, ro2: Roles, end: nat, c': seq<Instr>)
    requires Joined(cx, c1, ro1, c2, ro2, end, c')
    requires !Exec(w, c1, ro1, |c1|, |cx.code|, r).Stuck?
    ensures
      var o1, o' := Exec(w, c1, ro1, |c1|, |cx.code|, r), Exec(w, c', Union(ro1, ro2), end, |cx.code|, r);
      if o1.Fall? then o' == Exec(w, c', Union(ro1, ro2), end, |c1|, o1.regs)
      else o' == o1 && Carried(c', o1.at, o1.ExitT?, o1.regs) == Carried(c1, o1.at, o1.ExitT?, o1.regs)
  {
    var o1 := Exec(w, c1, ro1, |c1|, |cx.code|, r);
    assert Exec(w, c', Union(ro1, ro2), end, |cx.code|, r) == Continue(w, c', Union(ro1, ro2), end, |c1|, o1) by {
      JoinedFirst(cx, c1, ro1, c2, ro2, end, c');
      Simulate(w, |cx.code|, c1, ro1, |c1|, c', Union(ro1, ro2), end, |cx.code|, r);
    }
    if !o1.Fall? {
      ExitIsMember(w, c1, ro1, |c1|, |cx.code|, r);
      JoinedExit(w, cx, c1, ro1, c2, ro2, end, c', o1);
    }
  }

  lemma JoinedRunSecond(w: World, r: Regs, cx: Ctx, c1: seq<Instr>, ro1: Roles, c2: seq<Instr>, ro2: Roles, end: nat, c': seq<Instr>)
    requires Joined(cx, c1, ro1, c2, ro2, end, c')
    requires !Exec(w, c2, ro2, end, |c1|, r).Stuck?
    ensures
      var o2, o' := Exec(w, c2, ro2, end, |c1|, r), Exec(w, c', Union(ro1, ro2), end, |c1|, r);
      o' == o2 && (!o2.Fall? ==> Carried(c', o2.at, o2.ExitT?, o2.regs) == Carried(c2, o2.at, o2.ExitT?, o2.regs))
  {
    JoinedSecond(cx, c1, ro1, c2, ro2, end, c');
    Simulate(w, |c1|, c2, ro2, end, c', Union(ro1, ro2), end, |c1|, r);
    ExitIsMember(w, c2, ro2, end, |c1|, r);
  }

  /** The value of `l and r` or `l or r` once the left operand did not decide it. */
  function Connective(isAnd: bool, l: Expr, r: Expr): Expr {
    if isAnd then And(l, r) else Or(l, r)
  }

  /** The left operand's outcome, seen from the whole. */
  lemma ConnectFirst(w: World, r: Regs, c1: seq<Instr>, c': seq<Instr>, o: Outcome, isAnd: bool, e1: Expr, e2: Expr, n: nat, x: Reg)
    requires OutcomeOk(w, c1, e1, n, x, r, o) && !o.Fall? && o.ExitT? == !isAnd
    requires Carried(c', o.at, o.ExitT?, o.regs) == Carried(c1, o.at, o.ExitT?, o.regs)
    ensures OutcomeOk(w, c', Connective(isAnd, e1, e2), n, x, r, o)
  {
  }

  /** The right operand's outcome, seen from the whole. */
  lemma ConnectSecond(w: World, r: Regs, r1: Regs, c2: seq<Instr>, c': seq<Instr>, o: Outcome, isAnd: bool, e1: Expr, e2: Expr, n: nat, x: Reg)
    requires Agree(n, x, r, r1) && Truthy(Eval(w, e1, r)) == isAnd && Scoped(e2, n) && n <= x
    requires OutcomeOk(w, c2, e2, n, x, r1, o)
    requires !o.Fall? ==> Carried(c', o.at, o.ExitT?, o.regs) == Carried(c2, o.at, o.ExitT?, o.regs)
    ensures OutcomeOk(w, c', Connective(isAnd, e1, e2), n, x, r, o)
    ensures Eval(w, Connective(isAnd, e1, e2), r) == Eval(w, e2, r1)
  {
    EvalAgree(w, e2, n, x, r, r1);
  }

  lemma ConnectAt(w: World, r: Regs, cx: Ctx, c1: seq<Instr>, ro1: Roles, c2: seq<Instr>, ro2: Roles, k: Kind, end: nat, c': seq<Instr>,
                  isAnd: bool, e1: Expr, e2: Expr, n: nat, x: Reg)
    requires KindOk(|c1|, c2, k) && end == EndOf(c2, k) == EndOf(c', k) && KindOk(|c1|, c', k) && Joined(cx, c1, ro1, c2, ro2, end, c')
    requires forall r': Regs {:trigger Held(w, c', k, r')} :: Held(w, c', k, r') == Held(w, c2, k, r')
    requires if isAnd then ro1.t == {} else ro1.f == {}
    requires BranchesAt(w, r, c1, ro1, |cx.code|, e1, n, x, isAnd)
    requires forall r': Regs :: DenotesAt(w, r', c2, ro2, k, |c1|, e2, n, x)
    requires Scoped(e2, n) && n <= x
    ensures DenotesAt(w, r, c', Union(ro1, ro2), k, |cx.code|, Connective(isAnd, e1, e2), n, x)
  {
    JoinedRunFirst(w, r, cx, c1, ro1, c2, ro2, end, c');
    var o1 := Exec(w, c1, ro1, |c1|, |cx.code|, r);
    if o1.Fall? {
      assert DenotesAt(w, o1.regs, c2, ro2, k, |c1|, e2, n, x);
      JoinedRunSecond(w, o1.regs, cx, c1, ro1, c2, ro2, end, c');
      ConnectSecond(w, r, o1.regs, c2, c', Exec(w, c2, ro2, end, |c1|, o1.regs), isAnd, e1, e2, n, x);
    } else {
      ExitIsMember(w, c1, ro1, |c1|, |cx.code|, r);
      ConnectFirst(w, r, c1, c', o1, isAnd, e1, e2, n, x);
    }
  }

  /** `luaK_posfix` for `and` and `or`: the value is the second operand's, with the exits of both. */
  lemma Connect(cx: Ctx, c1: seq<Instr>, ro1: Roles, c2: seq<Instr>, ro2: Roles, k: Kind, c': seq<Instr>,
                isAnd: bool, e1: Expr, e2: Expr, n: nat, x: Reg)
    requires BranchOk(cx, c1, ro1, e1, n, x, isAnd) && (if isAnd then ro1.t == {} else ro1.f == {})
    requires ExpOk(Ctx(c1, ro1.h), c2, ro2, k, e2, n, x)
    requires Relinked(c2, c', ro1.t + ro1.f + ro2.t + ro2.f)
    requires Scoped(e2, n) && n <= x
    ensures ExpOk(cx, c', Union(ro1, ro2), k, Connective(isAnd, e1, e2), n, x)
  {
    var end: nat := EndOf(c2, k);
    var ro', e := Union(ro1, ro2), Connective(isAnd, e1, e2);
    assert Joined(cx, c1, ro1, c2, ro2, end, c');
    JoinedShape(cx, c1, ro1, c2, ro2, end, c');
    assert k.VReloc? ==> c'[k.pc] == c2[k.pc];
    assert k.VJmp? ==> c'[k.pc] == c2[k.pc] && c'[k.pc - 1] == c2[k.pc - 1];
    forall w: World, r: Regs
      ensures DenotesAt(w, r, c', ro', k, |cx.code|, e, n, x)
    {
      assert BranchesAt(w, r, c1, ro1, |cx.code|, e1, n, x, isAnd);
      ConnectAt(w, r, cx, c1, ro1, c2, ro2, k, end, c', isAnd, e1, e2, n, x);
    }
  }

  /** Two operands, both in registers: the code of the second keeps the value of the first. */
  lemma BothAt(w: World, r: Regs, cx: Ctx, c1: seq<Instr>, ro1: Roles, a: Reg, c2: seq<Instr>, ro2: Roles, b: Reg,
               e1: Expr, e2: Expr, n: nat, n2: nat, x: Reg)
    requires Joined(cx, c1, ro1, c2, ro2, |c2|, c2) && ro1 == Roles(ro1.h, {}, {}) && ro2 == Roles(ro2.h, {}, {})
    requires DenotesAt(w, r, c1, ro1, VNonReloc(a), |cx.code|, e1, n, x)
    requires forall r': Regs :: DenotesAt(w, r', c2, ro2, VNonReloc(b), |c1|, e2, n2, x)
    requires Scoped(e2, n) && n <= n2 <= x && a < n2
    ensures var o := Exec(w, c2, ro2, |c2|, |cx.code|, r);
      o.Fall? && Agree(n, x, r, o.regs) && o.regs[a] == Eval(w, e1, r) && o.regs[b] == Eval(w, e2, r)
  {
    assert Union(ro1, ro2) == ro2;
    JoinedRunFirst(w, r, cx, c1, ro1, c2, ro2, |c2|, c2);
    ExitIsMember(w, c1, ro1, |c1|, |cx.code|, r);
    var o1 := Exec(w, c1, ro1, |c1|, |cx.code|, r);
    assert DenotesAt(w, o1.regs, c2, ro2, VNonReloc(b), |c1|, e2, n2, x);
    ExitIsMember(w, c2, ro2, |c2|, |c1|, o1.regs);
    EvalAgree(w, e2, n, x, r, o1.regs);
  }

  /** `codecomp`: `>` and `>=` exchange the operands, `~=` negates the test. */
  function CompareInstr(op: BinOp, a: Reg, b: Reg): Instr {
    match op
    case EQ => Compare(OP_EQ, true, a, b)
    case NE => Compare(OP_EQ, false, a, b)
    case LT => Compare(OP_LT, true, a, b)
    case LE => Compare(OP_LE, true, a, b)
    case GT => Compare(OP_LT, true, b, a)
    case GE => Compare(OP_LE, true, b, a)
  }

  lemma CompareHeld(w: World, r: Regs, r': Regs, c': seq<Instr>, mid: nat, a: Reg, b: Reg, op: BinOp, e1: Expr, e2: Expr)
    requires |c'| == mid + 2 && c'[mid] == CompareInstr(op, a, b) && c'[mid + 1] == Jmp(NO_JUMP)
    requires r'[a] == Eval(w, e1, r) && r'[b] == Eval(w, e2, r)
    ensures Held(w, c', VJmp(mid + 1), r') == Eval(w, Comp(op, e1, e2), r)
  {
  }

  lemma CompareAt(w: World, r: Regs, r': Regs, lo: nat, a: Reg, b: Reg, op: BinOp, e1: Expr, e2: Expr, n: nat, x: Reg,
                  mid: nat, c': seq<Instr>, ro': Roles)
    requires |c'| == mid + 2 && lo <= mid && c'[mid] == CompareInstr(op, a, b) && c'[mid + 1] == Jmp(NO_JUMP)
    requires Exec(w, c', ro', mid, lo, r) == Fall(r')
    requires Agree(n, x, r, r') && r'[a] == Eval(w, e1, r) && r'[b] == Eval(w, e2, r)
    ensures DenotesAt(w, r, c', ro', VJmp(mid + 1), lo, Comp(op, e1, e2), n, x)
  {
    CompareHeld(w, r, r', c', mid, a, b, op, e1, e2);
  }

  /** `codecomp`. */
  lemma CompareOperands(cx: Ctx, c1: seq<Instr>, ro1: Roles, a: Reg, c2: seq<Instr>, ro2: Roles, b: Reg, op: BinOp,
                        e1: Expr, e2: Expr, n: nat, n2: nat, x: Reg, c': seq<Instr>)
    requires ExpOk(cx, c1, ro1, VNonReloc(a), e1, n, x) && ro1 == Roles(ro1.h, {}, {})
    requires ExpOk(Ctx(c1, ro1.h), c2, ro2, VNonReloc(b), e2, n2, x) && ro2 == Roles(ro2.h, {}, {})
    requires Scoped(e2, n) && n <= n2 <= x && a < n2
    requires c' == Landed(c2, ro2.h, |c2|) + [CompareInstr(op, a, b), Jmp(NO_JUMP)]
    ensures ExpOk(cx, c', Roles({}, {}, {}), VJmp(|c2| + 1), Comp(op, e1, e2), n, x)
  {
    var ro' := Roles({}, {}, {});
    var k, e := VJmp(|c2| + 1), Comp(op, e1, e2);
    assert Joined(cx, c1, ro1, c2, ro2, |c2|, c2);
    JoinedShape(cx, c1, ro1, c2, ro2, |c2|, c2);
    assert Union(ro1, ro2) == ro2;
    assert Emitted(cx, c2, ro2, |c2|, c', ro');
    EmitShape(cx, c2, ro2, |c2|, c', ro');
    forall w: World, r: Regs
      ensures DenotesAt(w, r, c', ro', k, |cx.code|, e, n, x)
    {
      assert DenotesAt(w, r, c1, ro1, VNonReloc(a), |cx.code|, e1, n, x);
      BothAt(w, r, cx, c1, ro1, a, c2, ro2, b, e1, e2, n, n2, x);
      EmitOutcome(w, r, cx, c2, ro2, |c2|, c', ro', |c2|);
      var r' := Exec(w, c2, ro2, |c2|, |cx.code|, r).regs;
      CompareAt(w, r, r', |cx.code|, a, b, op, e1, e2, n, x, |c2|, c', ro');
    }
  }

  /** Once the value is in a register that is free, it does not matter what else may have changed. */
  lemma ForgetTarget(cx: Ctx, c: seq<Instr>, ro: Roles, reg: Reg, e: Expr, n: nat, x: Reg)
    requires ExpOk(cx, c, ro, VNonReloc(reg), e, n, reg) && n <= reg && n <= x
    ensures ExpOk(cx, c, ro, VNonReloc(reg), e, n, x)
  {
    forall w: World, r: Regs
      ensures DenotesAt(w, r, c, ro, VNonReloc(reg), |cx.code|, e, n, x)
    {
      assert DenotesAt(w, r, c, ro, VNonReloc(reg), |cx.code|, e, n, reg);
    }
  }

  /** Instruction `q` after the exits are patched: to `vt` with the value in `reg`, or to the
      instruction that loads `true` or `false`. */
  ghost function Settled(c: seq<Instr>, ro: Roles, vt: nat, reg: Reg, pf: int, pt: int, q: nat): Instr
    requires q < |c|
  {
    if q in ro.t + ro.f && c[q].Jmp? then
      Jmp((if ProducesValue(c, q) then vt else if q in ro.t then pt else pf) - (q + 1))
    else if q + 1 in ro.t + ro.f && c[q].TestSet? then PatchTest(c[q], reg)
    else c[q]
  }

  /** `c'` is `c` up to `mid` with its exits settled; where a value must be loaded, it is. */
  ghost predicate Finished(cx: Ctx, c: seq<Instr>, ro: Roles, mid: nat, c': seq<Instr>, h': set<nat>, reg: Reg, pf: int, pt: int) {
    && Shape(cx, c, ro) && |cx.code| <= mid <= |c| && mid <= |c'|
    && (mid == |c| || ro.h == {}) && (forall p :: p in ro.t + ro.f ==> p < mid)
    && ro.h <= h' && (forall p :: p in h' && p !in ro.h ==> mid <= p)
    && (forall q :: 0 <= q < mid ==> c'[q] == Settled(c, ro, |c'|, reg, pf, pt, q))
    && (AllProduce(c, ro.t + ro.f) || Loads(c', mid, pf, pt, reg, h'))
    && (mid < |c'| ==> ro.h == {} || (c'[mid].Jmp? && mid in h'))
  }

  ghost predicate Loads(c': seq<Instr>, mid: nat, pf: int, pt: int, reg: Reg, h': set<nat>) {
    && mid <= pf && pt == pf + 1 && |c'| == pf + 2
    && c'[pf] == LoadBool(reg, false, true) && c'[pt] == LoadBool(reg, true, false)
  }

  lemma FinishedAt(cx: Ctx, c: seq<Instr>, ro: Roles, mid: nat, c': seq<Instr>, h': set<nat>, reg: Reg, pf: int, pt: int, q: nat)
    requires Finished(cx, c, ro, mid, c', h', reg, pf, pt) && q < mid && reg != NO_REG
    ensures CompatibleAt(c, ro, c', Roles(h', {}, {}), q)
    ensures q in ro.h ==> LandsAt(c', Roles(h', {}, {}), |c'|, q, mid)
    ensures IsTest(c'[q]) == IsTest(c[q]) && c'[q].Jmp? == c[q].Jmp?
    ensures q !in ro.t + ro.f && q + 1 !in ro.t + ro.f ==> c'[q] == c[q]
  {
    assert c'[q] == Settled(c, ro, |c'|, reg, pf, pt, q);
    if q in ro.h && mid < |c'| && mid > 0 {
      assert c'[mid - 1] == Settled(c, ro, |c'|, reg, pf, pt, mid - 1);
      assert !IsTest(c[|c| - 1]);
    }
  }

  lemma FinishedCompatible(cx: Ctx, c: seq<Instr>, ro: Roles, mid: nat, c': seq<Instr>, h': set<nat>, reg: Reg, pf: int, pt: int)
    requires Finished(cx, c, ro, mid, c', h', reg, pf, pt) && reg != NO_REG
    ensures Compatible(|cx.code|, c, ro, mid, c', Roles(h', {}, {}), |c'|)
  {
    var lo, ro' := |cx.code|, Roles(h', {}, {});
    Boundary(cx, c, ro);
    if 0 < lo <= mid { FinishedAt(cx, c, ro, mid, c', h', reg, pf, pt, lo - 1); }
    forall q | lo <= q < mid
      ensures CompatibleAt(c, ro, c', ro', q)
    {
      FinishedAt(cx, c, ro, mid, c', h', reg, pf, pt, q);
    }
    forall p | lo <= p < mid && p in ro.h && p !in ro.t + ro.f
      ensures LandsAt(c', ro', |c'|, p, mid)
    {
      FinishedAt(cx, c, ro, mid, c', h', reg, pf, pt, p);
    }
  }

  /** A jump to the end stores what its test produces. */
  lemma TakeStores(w: World, c': seq<Instr>, h': set<nat>, p: nat, r: Regs)
    requires 1 <= p < |c'| && p !in h' && c'[p].Jmp? && p + 1 + c'[p].off == |c'|
    ensures Take(w, c', Roles(h', {}, {}), |c'|, p, r) == Fall(if c'[p - 1].TestSet? then r[c'[p - 1].a := r[c'[p - 1].b]] else r)
  {
  }

  /** A jump to one of the two loads. */
  lemma TakeLoads(w: World, c': seq<Instr>, h': set<nat>, p: nat, ld: nat, reg: Reg, b: bool, r: Regs)
    requires p < ld < |c'| && p !in h' && c'[p].Jmp? && p + 1 + c'[p].off == ld && !ProducesValue(c', p)
    requires c'[ld] == LoadBool(reg, b, !b) && |c'| == if b then ld + 1 else ld + 2
    ensures Take(w, c', Roles(h', {}, {}), |c'|, p, r) == Fall(r[reg := Boolean(b)])
  {
    var ro' := Roles(h', {}, {});
    assert Exec(w, c', ro', |c'|, ld, r) == Exec(w, c', ro', |c'|, |c'|, Assign(w, c'[ld], r));
  }

  /** An exit that carries the value `v` ends with `v` in the register. */
  lemma FinishedExit(w: World, cx: Ctx, c: seq<Instr>, ro: Roles, mid: nat, c': seq<Instr>, h': set<nat>, reg: Reg, pf: int, pt: int,
                     o: Outcome)
    requires Finished(cx, c, ro, mid, c', h', reg, pf, pt) && reg != NO_REG
    requires (o.ExitT? && o.at in ro.t) || (o.ExitF? && o.at in ro.f)
    ensures o.at < mid && Take(w, c', Roles(h', {}, {}), |c'|, o.at, o.regs) == Fall(o.regs[reg := Carried(c, o.at, o.ExitT?, o.regs)])
  {
    var p := o.at;
    assert c'[p] == Settled(c, ro, |c'|, reg, pf, pt, p);
    if p > 0 { assert c'[p - 1] == Settled(c, ro, |c'|, reg, pf, pt, p - 1); }
    assert p !in h';
    if ProducesValue(c, p) {
      TakeStores(w, c', h', p, o.regs);
      if reg == c[p - 1].b { assert o.regs[reg := o.regs[reg]] == o.regs; }
    } else {
      assert Loads(c', mid, pf, pt, reg, h');
      TakeLoads(w, c', h', p, if o.ExitT? then pt else pf, reg, o.ExitT?, o.regs);
    }
  }

  /** Where the old code fell through with its value, the new code ends with that value in `reg`. */
  ghost predicate TailSettles(w: World, c: seq<Instr>, k: Kind, mid: nat, c': seq<Instr>, h': set<nat>, reg: Reg, r: Regs)
    requires KindOk(0, c, k) && mid <= |c'|
  {
    Exec(w, c', Roles(h', {}, {}), |c'|, mid, r) == Fall(r[reg := Held(w, c, k, r)])
  }

  /** The finished code always falls through, with in `reg` what the old code's outcome carried. */
  lemma FinishOutcome(w: World, r: Regs, cx: Ctx, c: seq<Instr>, ro: Roles, k: Kind, mid: nat, c': seq<Instr>, h': set<nat>, reg: Reg,
                      pf: int, pt: int, o: Outcome)
    requires KindOk(|cx.code|, c, k) && mid == EndOf(c, k) && |cx.code| <= mid
    requires Finished(cx, c, ro, mid, c', h', reg, pf, pt) && reg != NO_REG
    requires forall r': Regs :: TailSettles(w, c, k, mid, c', h', reg, r')
    requires o == Exec(w, c, ro, mid, |cx.code|, r) && !o.Stuck?
    ensures o.Fall? || o.at < mid
    ensures Exec(w, c', Roles(h', {}, {}), |c'|, |cx.code|, r)
         == Fall(o.regs[reg := if o.Fall? then Held(w, c, k, o.regs) else Carried(c, o.at, o.ExitT?, o.regs)])
  {
    FinishedCompatible(cx, c, ro, mid, c', h', reg, pf, pt);
    Simulate(w, |cx.code|, c, ro, mid, c', Roles(h', {}, {}), |c'|, |cx.code|, r);
    if o.Fall? {
      assert TailSettles(w, c, k, mid, c', h', reg, o.regs);
    } else {
      ExitIsMember(w, c, ro, mid, |cx.code|, r);
      FinishedExit(w, cx, c, ro, mid, c', h', reg, pf, pt, o);
    }
  }

  lemma FinishAt(w: World, r: Regs, cx: Ctx, c: seq<Instr>, ro: Roles, k: Kind, mid: nat, c': seq<Instr>, h': set<nat>, reg: Reg,
                 pf: int, pt: int, e: Expr, n: nat, x: Reg)
    requires KindOk(|cx.code|, c, k) && mid == EndOf(c, k)
    requires Finished(cx, c, ro, mid, c', h', reg, pf, pt) && reg != NO_REG && (x == reg || n <= x)
    requires DenotesAt(w, r, c, ro, k, |cx.code|, e, n, x)
    requires forall r': Regs :: TailSettles(w, c, k, mid, c', h', reg, r')
    ensures DenotesAt(w, r, c', Roles(h', {}, {}), VNonReloc(reg), |cx.code|, e, n, reg)
  {
    FinishOutcome(w, r, cx, c, ro, k, mid, c', h', reg, pf, pt, Exec(w, c, ro, mid, |cx.code|, r));
  }

  lemma FinishedShape(cx: Ctx, c: seq<Instr>, ro: Roles, mid: nat, c': seq<Instr>, h': set<nat>, reg: Reg, pf: int, pt: int)
    requires Finished(cx, c, ro, mid, c', h', reg, pf, pt) && reg != NO_REG
    requires |cx.code| < |c| <= |c'| || (c' == c && h' == ro.h)
    requires mid == |c| || !IsTest(c[mid]) || (mid + 1 < |c'| && c'[mid + 1].Jmp?)
    requires forall q :: mid <= q < |c'| && IsTest(c'[q]) ==> q + 1 < |c'| && c'[q + 1].Jmp?
    requires mid == 0 || mid == |c| || !IsTest(c[mid - 1])
    requires forall p :: p in h' && p !in ro.h ==> p < |c'| && c'[p].Jmp?
    ensures Shape(cx, c', Roles(h', {}, {}))
  {
    forall q | 0 <= q < mid
      ensures IsTest(c'[q]) == IsTest(c[q]) && c'[q].Jmp? == c[q].Jmp?
      ensures q !in ro.t + ro.f && q + 1 !in ro.t + ro.f ==> c'[q] == c[q]
    {
      FinishedAt(cx, c, ro, mid, c', h', reg, pf, pt, q);
    }
    forall q | 0 <= q < |c'| && IsTest(c'[q])
      ensures q + 1 < |c'| && c'[q + 1].Jmp?
    {
      if q < mid { assert IsTest(c[q]); assert c[q + 1].Jmp?; }
    }
    if c' != c || h' != ro.h {
      assert |cx.code| < |c|;
      Boundary(cx, c, ro);
      forall q | 0 <= q < |cx.code|
        ensures c'[q] == Landed(cx.code, cx.h, |cx.code|)[q]
      {
        assert c[q] == Landed(cx.code, cx.h, |cx.code|)[q];
        assert c'[q] == Settled(c, ro, |c'|, reg, pf, pt, q);
      }
    }
  }

  /** `exp2reg`: all exits patched, the value is in `reg` wherever execution comes from. */
  lemma Finish(cx: Ctx, c: seq<Instr>, ro: Roles, k: Kind, mid: nat, c': seq<Instr>, h': set<nat>, reg: Reg,
               pf: int, pt: int, e: Expr, n: nat, x: Reg)
    requires ExpOk(cx, c, ro, k, e, n, x) && mid == EndOf(c, k) && (x == reg || n <= x)
    requires Finished(cx, c, ro, mid, c', h', reg, pf, pt) && reg != NO_REG
    requires Shape(cx, c', Roles(h', {}, {}))
    requires forall w: World, r: Regs :: TailSettles(w, c, k, mid, c', h', reg, r)
    ensures ExpOk(cx, c', Roles(h', {}, {}), VNonReloc(reg), e, n, reg)
  {
    var ro' := Roles(h', {}, {});
    forall w: World, r: Regs
      ensures DenotesAt(w, r, c', ro', VNonReloc(reg), |cx.code|, e, n, reg)
    {
      assert DenotesAt(w, r, c, ro, k, |cx.code|, e, n, x);
      FinishAt(w, r, cx, c, ro, k, mid, c', h', reg, pf, pt, e, n, x);
    }
  }

  /** What `exp2reg` appends before patching: nothing, or the two loads, behind a jump over them
      if there is a value to keep. */
  ghost predicate TailOf(k: Kind, c: seq<Instr>, d: seq<Instr>, h: set<nat>, h': set<nat>, reg: Reg, pf: int, pt: int, need: bool) {
    if !need then
      |d| == |c| && h' == h && !k.VJmp?
    else
      && 0 <= pf && |d| == pf + 2 && pt == pf + 1
      && d[pf] == LoadBool(reg, false, true) && d[pt] == LoadBool(reg, true, false)
      && if k.VJmp? then pf == |c| && h' == h else pf == |c| + 1 && d[|c|].Jmp? && h' == h + {|c|}
  }

  /** The code of an expression, about to be settled: `d` is `c`, perhaps relinked, and a tail. */
  ghost predicate Unsettled(cx: Ctx, c: seq<Instr>, ro: Roles, k: Kind, d: seq<Instr>, h': set<nat>, reg: Reg, pf: int, pt: int, need: bool) {
    && Shape(cx, c, ro) && KindOk(|cx.code|, c, k) && (k == VNonReloc(reg) || k.VJmp?) && reg != NO_REG
    && (k.VJmp? ==> ro.h == {} && k.pc !in ro.t + ro.f)
    && |c| <= |d| && TailOf(k, c, d, ro.h, h', reg, pf, pt, need)
    && (forall q :: 0 <= q < |c| ==> if q in Exits(ro, k) then d[q].Jmp? else d[q] == c[q])
    && need == !AllProduce(c, Exits(ro, k))
    && |cx.code| < |c|
  }

  /** The jump of a pending comparison is one of the exits. */
  function Exits(ro: Roles, k: Kind): set<nat> {
    ro.t + ro.f + (if k.VJmp? then {k.pc} else {})
  }

  ghost predicate IsSettled(c: seq<Instr>, ro: Roles, k: Kind, d: seq<Instr>, c': seq<Instr>, reg: Reg, pf: int, pt: int) {
    var ro' := Roles(ro.h, ro.t + (if k.VJmp? then {k.pc} else {}), ro.f);
    && |c'| == |d|
    && forall q :: 0 <= q < |d| ==> c'[q] == Settled(d, ro', |d|, reg, pf, pt, q)
  }

  lemma SettledAt(cx: Ctx, c: seq<Instr>, ro: Roles, k: Kind, d: seq<Instr>, c': seq<Instr>, h': set<nat>, reg: Reg,
                  pf: int, pt: int, need: bool, q: nat)
    requires Unsettled(cx, c, ro, k, d, h', reg, pf, pt, need) && IsSettled(c, ro, k, d, c', reg, pf, pt) && q < EndOf(c, k)
    ensures c'[q] == Settled(c, ro, |c'|, reg, pf, pt, q)
  {
    var ro' := Roles(ro.h, ro.t + (if k.VJmp? then {k.pc} else {}), ro.f);
    assert c'[q] == Settled(d, ro', |d|, reg, pf, pt, q);
    assert q in ro'.t + ro'.f <==> q in ro.t + ro.f;
    assert q + 1 in ro'.t + ro'.f && c[q].TestSet? ==> q + 1 in ro.t + ro.f;
    if q in ro.t + ro.f {
      assert c[q].Jmp? && d[q].Jmp?;
      assert ProducesValue(d, q) == ProducesValue(c, q) by {
        if q > 0 && q - 1 in Exits(ro, k) { assert c[q - 1].Jmp? && d[q - 1].Jmp?; }
      }
    } else {
      assert d[q] == c[q];
    }
  }

  lemma SettledPrefix(cx: Ctx, c: seq<Instr>, ro: Roles, k: Kind, mid: nat, d: seq<Instr>, c': seq<Instr>, h': set<nat>, reg: Reg,
                      pf: int, pt: int, need: bool)
    requires Unsettled(cx, c, ro, k, d, h', reg, pf, pt, need) && IsSettled(c, ro, k, d, c', reg, pf, pt) && mid == EndOf(c, k)
    ensures forall q :: 0 <= q < mid ==> c'[q] == Settled(c, ro, |c'|, reg, pf, pt, q)
    ensures forall q :: |c| <= q < |c'| ==> c'[q] == d[q]
    ensures k.VJmp? ==> c'[mid] == c[mid] && c'[mid + 1] == Jmp(pt - (mid + 2))
  {
    var ro' := Roles(ro.h, ro.t + (if k.VJmp? then {k.pc} else {}), ro.f);
    forall q | 0 <= q < mid
      ensures c'[q] == Settled(c, ro, |c'|, reg, pf, pt, q)
    {
      SettledAt(cx, c, ro, k, d, c', h', reg, pf, pt, need, q);
    }
    forall q | |c| <= q < |c'|
      ensures c'[q] == d[q]
    {
      assert c'[q] == Settled(d, ro', |d|, reg, pf, pt, q);
      assert q !in ro'.t + ro'.f && q + 1 !in ro'.t + ro'.f;
    }
    if k.VJmp? {
      assert c'[mid] == Settled(d, ro', |d|, reg, pf, pt, mid);
      assert c'[mid + 1] == Settled(d, ro', |d|, reg, pf, pt, mid + 1);
      assert d[mid] == c[mid] && d[mid + 1].Jmp?;
    }
  }

  lemma TailRuns(w: World, cx: Ctx, c: seq<Instr>, k: Kind, mid: nat, c': seq<Instr>, h': set<nat>, reg: Reg, pf: int, pt: int, need: bool, r: Regs)
    requires KindOk(0, c, k) && mid == EndOf(c, k) && (k == VNonReloc(reg) || k.VJmp?) && |c| <= |c'|
    requires TailOf(k, c, c', {}, if need && !k.VJmp? then {|c|} else {}, reg, pf, pt, need)
    requires need && !k.VJmp? ==> |c| in h' && (|c| == 0 || !IsTest(c'[|c| - 1]))
    requires k.VJmp? ==> c'[mid] == c[mid] && c'[mid + 1] == Jmp(pt - (mid + 2)) && mid + 1 !in h'
    ensures TailSettles(w, c, k, mid, c', h', reg, r)
  {
    var ro' := Roles(h', {}, {});
    if k.VJmp? {
      if TestPasses(w, c'[mid], r) {
        TakeLoads(w, c', h', mid + 1, pt, reg, true, r);
      } else {
        assert Exec(w, c', ro', |c'|, mid + 2, r) == Exec(w, c', ro', |c'|, |c'|, Assign(w, c'[pf], r));
      }
    } else {
      assert r[reg := r[reg]] == r;
      if need {
        assert Take(w, c', ro', |c'|, |c|, r) == Fall(r);
      }
    }
  }

  lemma SettleFinished(cx: Ctx, c: seq<Instr>, ro: Roles, k: Kind, mid: nat, d: seq<Instr>, c': seq<Instr>, h': set<nat>, reg: Reg,
                       pf: int, pt: int, need: bool)
    requires Unsettled(cx, c, ro, k, d, h', reg, pf, pt, need) && IsSettled(c, ro, k, d, c', reg, pf, pt) && mid == EndOf(c, k)
    requires forall p :: p in ro.t + ro.f ==> p < mid
    ensures Finished(cx, c, ro, mid, c', h', reg, pf, pt)
  {
    SettledPrefix(cx, c, ro, k, mid, d, c', h', reg, pf, pt, need);
    assert need || AllProduce(c, ro.t + ro.f);
  }

  lemma SettleShape(cx: Ctx, c: seq<Instr>, ro: Roles, k: Kind, mid: nat, d: seq<Instr>, c': seq<Instr>, h': set<nat>, reg: Reg,
                    pf: int, pt: int, need: bool)
    requires Unsettled(cx, c, ro, k, d, h', reg, pf, pt, need) && IsSettled(c, ro, k, d, c', reg, pf, pt) && mid == EndOf(c, k)
    requires Finished(cx, c, ro, mid, c', h', reg, pf, pt)
    requires mid == 0 || mid == |c| || !IsTest(c[mid - 1])
    ensures Shape(cx, c', Roles(h', {}, {}))
  {
    SettledPrefix(cx, c, ro, k, mid, d, c', h', reg, pf, pt, need);
    assert forall q :: mid <= q < |c'| && IsTest(c'[q]) ==> q == mid && k.VJmp?;
    FinishedShape(cx, c, ro, mid, c', h', reg, pf, pt);
  }

  /** `exp2reg` from the value to the settled code. */
  lemma Settle(cx: Ctx, c: seq<Instr>, ro: Roles, k: Kind, d: seq<Instr>, c': seq<Instr>, h': set<nat>, reg: Reg,
               pf: int, pt: int, need: bool, e: Expr, n: nat, x: Reg)
    requires ExpOk(cx, c, ro, k, e, n, x) && (x == reg || n <= x)
    requires Unsettled(cx, c, ro, k, d, h', reg, pf, pt, need) && IsSettled(c, ro, k, d, c', reg, pf, pt)
    ensures ExpOk(cx, c', Roles(h', {}, {}), VNonReloc(reg), e, n, reg)
  {
    var mid: nat := EndOf(c, k);
    ExitsBeforeEnd(cx, c, ro, k, e, n, x);
    SettleFinished(cx, c, ro, k, mid, d, c', h', reg, pf, pt, need);
    SettleShape(cx, c, ro, k, mid, d, c', h', reg, pf, pt, need);
    SettleTails(cx, c, ro, k, mid, d, c', h', reg, pf, pt, need);
    Finish(cx, c, ro, k, mid, c', h', reg, pf, pt, e, n, x);
  }

  lemma SettleTails(cx: Ctx, c: seq<Instr>, ro: Roles, k: Kind, mid: nat, d: seq<Instr>, c': seq<Instr>, h': set<nat>, reg: Reg,
                    pf: int, pt: int, need: bool)
    requires Unsettled(cx, c, ro, k, d, h', reg, pf, pt, need) && IsSettled(c, ro, k, d, c', reg, pf, pt) && mid == EndOf(c, k)
    ensures forall w: World, r: Regs :: TailSettles(w, c, k, mid, c', h', reg, r)
  {
    SettledPrefix(cx, c, ro, k, mid, d, c', h', reg, pf, pt, need);
    if |c| > 0 && !k.VJmp? {
      assert !IsTest(c[|c| - 1]);
      assert c'[|c| - 1] == Settled(c, ro, |c'|, reg, pf, pt, |c| - 1);
    }
    forall w: World, r: Regs
      ensures TailSettles(w, c, k, mid, c', h', reg, r)
    {
      TailRuns(w, cx, c, k, mid, c', h', reg, pf, pt, need, r);
    }
  }
}
