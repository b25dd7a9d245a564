/** What the code generated for an expression must do, and how each rewriting of that code
    by lua/lcode.c keeps or changes it. */
module BoolCode {
  import opened LuaVM
  import opened PendingCode
  import opened JumpLists

  datatype BinOp = EQ | NE | LT | LE | GT | GE

  /** Expressions over the registers of local variables. */
  datatype Expr =
    | LocalVar(r: Reg)
    | Upvalue(u: nat)
    | NotE(e: Expr)
    | And(l: Expr, r2: Expr)
    | Or(l: Expr, r2: Expr)
    | Comp(op: BinOp, l: Expr, r2: Expr)

  /** Section 2.5.2 of the Lua 5.1 Reference Manual. */
  function CompareValues(w: World, op: BinOp, x: Value, y: Value): bool {
    match op
    case EQ => w.holds(OP_EQ, x, y)
    case NE => !w.holds(OP_EQ, x, y)
    case LT => w.holds(OP_LT, x, y)
    case LE => w.holds(OP_LE, x, y)
    case GT => w.holds(OP_LT, y, x)
    case GE => w.holds(OP_LE, y, x)
  }

  /** Section 2.2 of the Lua 5.1 Reference Manual. */
  predicate Truthy(v: Value) {
    match v
    case Nil => false
    case Boolean(b) => b
    case Object(_) => true
  }

  /** Section 2.5.3 of the Lua 5.1 Reference Manual. */
  function Eval(w: World, e: Expr, r: Regs): Value {
    match e
    case LocalVar(x) => r[x]
    case Upvalue(u) => w.upvalue(u)
    case NotE(a) => Boolean(!Truthy(Eval(w, a, r)))
    case And(a, b) => if Truthy(Eval(w, a, r)) then Eval(w, b, r) else Eval(w, a, r)
    case Or(a, b) => if Truthy(Eval(w, a, r)) then Eval(w, a, r) else Eval(w, b, r)
    case Comp(op, a, b) => Boolean(CompareValues(w, op, Eval(w, a, r), Eval(w, b, r)))
  }

  /** Every local variable of `e` lives in one of the first `n` registers. */
  predicate Scoped(e: Expr, n: nat) {
    match e
    case LocalVar(r) => r < n
    case Upvalue(u) => true
    case NotE(a) => Scoped(a, n)
    case And(a, b) => Scoped(a, n) && Scoped(b, n)
    case Or(a, b) => Scoped(a, n) && Scoped(b, n)
    case Comp(op, a, b) => Scoped(a, n) && Scoped(b, n)
  }

  /** `expkind` and `u.s.info`: where the value of an expression is, or will be. */
  datatype Kind = VLocal(r: Reg) | VUpval(u: nat) | VNonReloc(r: Reg) | VReloc(pc: nat) | VJmp(pc: nat)

  datatype ExpDesc = ExpDesc(k: Kind, t: int, f: int)

  /** The first `n` registers agree, except perhaps `x`. */
  ghost predicate Agree(n: nat, x: Reg, r: Regs, r': Regs) {
    forall i :: 0 <= i < n && i < 256 && i != x ==> r'[i] == r[i]
  }

  lemma {:induction false} EvalAgree(w: World, e: Expr, n: nat, x: Reg, r: Regs, r': Regs)
    requires Scoped(e, n) && n <= x && Agree(n, x, r, r')
    ensures Eval(w, e, r') == Eval(w, e, r)
  {
    match e
    case LocalVar(_) =>
    case Upvalue(_) =>
    case NotE(a) => EvalAgree(w, a, n, x, r, r');
    case And(a, b) => EvalAgree(w, a, n, x, r, r'); EvalAgree(w, b, n, x, r, r');
    case Or(a, b) => EvalAgree(w, a, n, x, r, r'); EvalAgree(w, b, n, x, r, r');
    case Comp(_, a, b) => EvalAgree(w, a, n, x, r, r'); EvalAgree(w, b, n, x, r, r');
  }

  /** The instructions that compute the value itself are still to be run. */
  function EndOf(code: seq<Instr>, k: Kind): int {
    match k
    case VReloc(_) => |code| - 1
    case VJmp(_) => |code| - 2
    case _ => |code|
  }

  /** The kind points into the code as it should, past `lo`. */
  predicate KindOk(lo: nat, code: seq<Instr>, k: Kind) {
    match k
    case VReloc(p) => lo <= p && |code| == p + 1 && (code[p].Not? || code[p].GetUpval?)
    case VJmp(p) => lo + 1 <= p && |code| == p + 1 && code[p - 1].Compare? && code[p] == Jmp(NO_JUMP)
    case _ => true
  }

  /** The value of an expression of kind `k` when execution reaches `EndOf`. */
  function Held(w: World, code: seq<Instr>, k: Kind, r: Regs): Value
    requires KindOk(0, code, k)
  {
    match k
    case VLocal(x) => r[x]
    case VUpval(u) => w.upvalue(u)
    case VNonReloc(x) => r[x]
    case VReloc(p) => if code[p].Not? then Boolean(IsFalse(r[code[p].b])) else w.upvalue(code[p].u)
    case VJmp(p) => Boolean(TestPasses(w, code[p - 1], r))
  }

  /** The value an exit through the jump `p` carries. */
  function Carried(code: seq<Instr>, p: nat, isTrue: bool, r: Regs): Value {
    if ProducesValue(code, p) then r[code[p - 1].b] else Boolean(isTrue)
  }

  ghost predicate ExitOk(w: World, code: seq<Instr>, e: Expr, n: nat, x: Reg, r: Regs, o: Outcome)
    requires o.ExitT? || o.ExitF?
  {
    && Agree(n, x, r, o.regs)
    && Truthy(Eval(w, e, r)) == o.ExitT?
    && Carried(code, o.at, o.ExitT?, o.regs) == Eval(w, e, r)
  }

  ghost predicate OutcomeOk(w: World, code: seq<Instr>, e: Expr, n: nat, x: Reg, r: Regs, o: Outcome) {
    match o
    case Fall(r') => Agree(n, x, r, r')
    case Stuck => false
    case _ => ExitOk(w, code, e, n, x, r, o)
  }

  ghost predicate DenotesAt(w: World, r: Regs, code: seq<Instr>, ro: Roles, k: Kind, lo: nat, e: Expr, n: nat, x: Reg)
    requires KindOk(lo, code, k) && lo <= |code|
  {
    var o := Exec(w, code, ro, EndOf(code, k), lo, r);
    OutcomeOk(w, code, e, n, x, r, o) && (o.Fall? ==> Held(w, code, k, o.regs) == Eval(w, e, r))
  }

  ghost predicate BranchesAt(w: World, r: Regs, code: seq<Instr>, ro: Roles, lo: nat, e: Expr, n: nat, x: Reg, truth: bool)
    requires lo <= |code|
  {
    var o := Exec(w, code, ro, |code|, lo, r);
    OutcomeOk(w, code, e, n, x, r, o) && (o.Fall? ==> Truthy(Eval(w, e, r)) == truth)
  }

  /** The code before an expression, with the jumps that wait for it to begin. */
  datatype Ctx = Ctx(code: seq<Instr>, h: set<nat>)

  ghost predicate JumpsIn(code: seq<Instr>, s: set<nat>, lo: nat) {
    forall p :: p in s ==> lo <= p < |code| && code[p].Jmp?
  }

  /** Every test is followed by its jump. */
  ghost predicate TestsPaired(code: seq<Instr>) {
    forall q :: 0 <= q < |code| && IsTest(code[q]) ==> q + 1 < |code| && code[q + 1].Jmp?
  }

  /** `code` begins with the code of the context: untouched if nothing was emitted since,
      otherwise with the waiting jumps patched to where it ended, and nothing else changed. */
  ghost predicate Extends(cx: Ctx, code: seq<Instr>, h: set<nat>) {
    || (code == cx.code && h == cx.h)
    || (&& |cx.code| < |code|
        && (forall q :: 0 <= q < |cx.code| ==> code[q] == Landed(cx.code, cx.h, |cx.code|)[q])
        && (forall p :: p in h ==> |cx.code| <= p))
  }

  ghost predicate Shape(cx: Ctx, code: seq<Instr>, ro: Roles) {
    && TestsPaired(cx.code) && JumpsIn(cx.code, cx.h, 0)
    && TestsPaired(code)
    && ro.h !! ro.t !! ro.f
    && JumpsIn(code, ro.h, 0) && JumpsIn(code, ro.t + ro.f, |cx.code|)
    && |cx.code| <= |code| && Extends(cx, code, ro.h)
  }

  /** The code after `cx` computes `e` into the place `k`, or leaves through an exit that carries
      the value; the first `n` registers, except perhaps `x`, keep their contents. */
  ghost predicate ExpOk(cx: Ctx, code: seq<Instr>, ro: Roles, k: Kind, e: Expr, n: nat, x: Reg) {
    && Shape(cx, code, ro) && KindOk(|cx.code|, code, k)
    && (k.VReloc? || k.VJmp? ==> ro.h == {})
    && (k.VJmp? ==> k.pc !in ro.t + ro.f)
    && forall w: World, r: Regs :: DenotesAt(w, r, code, ro, k, |cx.code|, e, n, x)
  }

  /** The code after `cx` falls through exactly when the truth of `e` is `truth`. */
  ghost predicate BranchOk(cx: Ctx, code: seq<Instr>, ro: Roles, e: Expr, n: nat, x: Reg, truth: bool) {
    && Shape(cx, code, ro)
    && forall w: World, r: Regs :: BranchesAt(w, r, code, ro, |cx.code|, e, n, x, truth)
  }

  lemma Boundary(cx: Ctx, code: seq<Instr>, ro: Roles)
    requires Shape(cx, code, ro)
    ensures |cx.code| == 0 || !IsTest(code[|cx.code| - 1])
  {
    if |cx.code| > 0 {
      var q := |cx.code| - 1;
      assert !IsTest(cx.code[q]);
      assert code[q] == cx.code[q] || code[q] == Landed(cx.code, cx.h, |cx.code|)[q];
    }
  }

  /** `c'` is `c` up to `mid`, with the waiting jumps patched to there, and something else
      after it; the exits of `c` are still exits, and new ones lie after `mid`. */
  ghost predicate Emitted(cx: Ctx, c: seq<Instr>, ro: Roles, mid: nat, c': seq<Instr>, ro': Roles) {
    && Shape(cx, c, ro) && |cx.code| <= mid <= |c| && mid < |c'|
    && (mid == |c| || ro.h == {})
    && (forall q :: 0 <= q < mid ==> c'[q] == Landed(c, ro.h, |c|)[q])
    && ro'.h == {} && ro'.t !! ro'.f && ro.t <= ro'.t && ro.f <= ro'.f
    && (forall p :: p in ro'.t + ro'.f && p !in ro.t + ro.f ==> mid <= p < |c'| && c'[p].Jmp?)
  }

  /** The new code behind `mid` is a place for a value, or a test with its jump. */
  ghost predicate TailOk(c': seq<Instr>, mid: nat) {
    && mid < |c'|
    && (forall q :: mid <= q < |c'| && IsTest(c'[q]) ==> q + 1 < |c'| && c'[q + 1].Jmp?)
    && !c'[mid].Jmp?
  }

  lemma EmitCompatibleAt(cx: Ctx, c: seq<Instr>, ro: Roles, mid: nat, c': seq<Instr>, ro': Roles, q: nat)
    requires Emitted(cx, c, ro, mid, c', ro') && q < mid
    ensures CompatibleAt(c, ro, c', ro', q)
  {
    assert c'[q] == Landed(c, ro.h, |c|)[q];
  }

  lemma EmitLands(cx: Ctx, c: seq<Instr>, ro: Roles, mid: nat, c': seq<Instr>, ro': Roles, end: nat, p: nat)
    requires Emitted(cx, c, ro, mid, c', ro') && mid <= end <= |c'| && p < mid && p in ro.h
    ensures LandsAt(c', ro', end, p, mid)
  {
    assert c'[p] == Landed(c, ro.h, |c|)[p];
    if p > 0 { assert c'[p - 1] == Landed(c, ro.h, |c|)[p - 1]; }
  }

  lemma EmitCompatible(cx: Ctx, c: seq<Instr>, ro: Roles, mid: nat, c': seq<Instr>, ro': Roles, end: nat)
    requires Emitted(cx, c, ro, mid, c', ro') && mid <= end <= |c'|
    ensures Compatible(|cx.code|, c, ro, mid, c', ro', end)
  {
    var lo := |cx.code|;
    Boundary(cx, c, ro);
    if lo > 0 { assert c'[lo - 1] == Landed(c, ro.h, |c|)[lo - 1]; }
    forall q | lo <= q < mid
      ensures CompatibleAt(c, ro, c', ro', q)
    {
      EmitCompatibleAt(cx, c, ro, mid, c', ro', q);
    }
    forall p | lo <= p < mid && p in ro.h && p !in ro.t + ro.f
      ensures LandsAt(c', ro', end, p, mid)
    {
      EmitLands(cx, c, ro, mid, c', ro', end, p);
    }
  }

  lemma EmitExtends(cx: Ctx, c: seq<Instr>, ro: Roles, mid: nat, c': seq<Instr>, ro': Roles)
    requires Emitted(cx, c, ro, mid, c', ro')
    ensures Extends(cx, c', {})
  {
    if c != cx.code {
      forall q | 0 <= q < |cx.code|
        ensures c'[q] == Landed(cx.code, cx.h, |cx.code|)[q]
      {
        assert c[q] == Landed(cx.code, cx.h, |cx.code|)[q];
        if q + 1 == |cx.code| { Boundary(cx, c, ro); }
      }
    }
  }

  lemma EmitShape(cx: Ctx, c: seq<Instr>, ro: Roles, mid: nat, c': seq<Instr>, ro': Roles)
    requires Emitted(cx, c, ro, mid, c', ro') && TailOk(c', mid) && (mid == 0 || mid == |c| || !IsTest(c[mid - 1]))
    requires forall p :: p in ro.t + ro.f ==> p < mid
    ensures Shape(cx, c', ro')
  {
    EmitExtends(cx, c, ro, mid, c', ro');
    forall q | 0 <= q < |c'| && IsTest(c'[q])
      ensures q + 1 < |c'| && c'[q + 1].Jmp?
    {
      if q < mid {
        assert IsTest(c[q]);
        assert c[q + 1].Jmp?;
      }
    }
  }

  lemma EmitOutcome(w: World, r: Regs, cx: Ctx, c: seq<Instr>, ro: Roles, mid: nat, c': seq<Instr>, ro': Roles, end: nat)
    requires Emitted(cx, c, ro, mid, c', ro') && mid <= end <= |c'|
    requires !Exec(w, c, ro, mid, |cx.code|, r).Stuck?
    ensures
      var o, o' := Exec(w, c, ro, mid, |cx.code|, r), Exec(w, c', ro', end, |cx.code|, r);
      if o.Fall? then o' == Exec(w, c', ro', end, mid, o.regs)
      else o' == o && Carried(c', o.at, o.ExitT?, o.regs) == Carried(c, o.at, o.ExitT?, o.regs)
  {
    EmitCompatible(cx, c, ro, mid, c', ro', end);
    Simulate(w, |cx.code|, c, ro, mid, c', ro', end, |cx.code|, r);
    ExitIsMember(w, c, ro, mid, |cx.code|, r);
    var o := Exec(w, c, ro, mid, |cx.code|, r);
    if !o.Fall? { EmitCarried(cx, c, ro, mid, c', ro', end, w, o); }
    hide Exec, Take, Emitted, Compatible, Carried;
  }

  /** An exit of the old code is one of the new code, and carries the same value. */
  lemma EmitCarried(cx: Ctx, c: seq<Instr>, ro: Roles, mid: nat, c': seq<Instr>, ro': Roles, end: nat, w: World, o: Outcome)
    requires Emitted(cx, c, ro, mid, c', ro') && mid <= end <= |c'|
    requires (o.ExitT? && o.at in ro.t && o.at < mid) || (o.ExitF? && o.at in ro.f && o.at < mid)
    ensures Take(w, c', ro', end, o.at, o.regs) == o
    ensures Carried(c', o.at, o.ExitT?, o.regs) == Carried(c, o.at, o.ExitT?, o.regs)
  {
    LandedSurvives(c, ro.h, |c|, o.at);
  }

  /** How an execution of the old code goes on in the new. */
  lemma EmitRun(w: World, r: Regs, cx: Ctx, c: seq<Instr>, ro: Roles, mid: nat, c': seq<Instr>, ro': Roles, end: nat,
                e: Expr, n: nat, x: Reg)
    requires Emitted(cx, c, ro, mid, c', ro') && mid <= end <= |c'|
    requires OutcomeOk(w, c, e, n, x, r, Exec(w, c, ro, mid, |cx.code|, r))
    ensures
      var o, o' := Exec(w, c, ro, mid, |cx.code|, r), Exec(w, c', ro', end, |cx.code|, r);
      if o.Fall? then o' == Exec(w, c', ro', end, mid, o.regs)
      else !o'.Fall? && OutcomeOk(w, c', e, n, x, r, o')
  {
    EmitOutcome(w, r, cx, c, ro, mid, c', ro', end);
  }

  lemma UpvalToRelocAt(w: World, r: Regs, cx: Ctx, c: seq<Instr>, ro: Roles, c': seq<Instr>, u: nat, e: Expr, n: nat, x: Reg)
    requires Emitted(cx, c, ro, |c|, c', Roles({}, ro.t, ro.f)) && |c'| == |c| + 1 && c'[|c|] == GetUpval(0, u)
    requires DenotesAt(w, r, c, ro, VUpval(u), |cx.code|, e, n, x)
    ensures DenotesAt(w, r, c', Roles({}, ro.t, ro.f), VReloc(|c|), |cx.code|, e, n, x)
  {
    EmitRun(w, r, cx, c, ro, |c|, c', Roles({}, ro.t, ro.f), |c|, e, n, x);
  }

  /** `luaK_dischargevars` on an upvalue. */
  lemma UpvalToReloc(cx: Ctx, c: seq<Instr>, ro: Roles, u: nat, e: Expr, n: nat, x: Reg)
    requires ExpOk(cx, c, ro, VUpval(u), e, n, x)
    ensures ExpOk(cx, Landed(c, ro.h, |c|) + [GetUpval(0, u)], Roles({}, ro.t, ro.f), VReloc(|c|), e, n, x)
  {
    var c', ro' := Landed(c, ro.h, |c|) + [GetUpval(0, u)], Roles({}, ro.t, ro.f);
    EmitShape(cx, c, ro, |c|, c', ro');
    forall w: World, r: Regs
      ensures DenotesAt(w, r, c', ro', VReloc(|c|), |cx.code|, e, n, x)
    {
      assert DenotesAt(w, r, c, ro, VUpval(u), |cx.code|, e, n, x);
      UpvalToRelocAt(w, r, cx, c, ro, c', u, e, n, x);
    }
  }

  lemma MoveToRegAt(w: World, r: Regs, cx: Ctx, c: seq<Instr>, ro: Roles, c': seq<Instr>, a: Reg, reg: Reg, e: Expr, n: nat, x: Reg)
    requires Emitted(cx, c, ro, |c|, c', Roles({}, ro.t, ro.f)) && |c'| == |c| + 1 && c'[|c|] == Move(reg, a)
    requires DenotesAt(w, r, c, ro, VNonReloc(a), |cx.code|, e, n, x) && n <= x
    ensures DenotesAt(w, r, c', Roles({}, ro.t, ro.f), VNonReloc(reg), |cx.code|, e, n, reg)
  {
    EmitRun(w, r, cx, c, ro, |c|, c', Roles({}, ro.t, ro.f), |c'|, e, n, x);
  }

  /** `discharge2reg` on a value in another register; from now on `reg` may have changed. */
  lemma MoveToReg(cx: Ctx, c: seq<Instr>, ro: Roles, a: Reg, reg: Reg, e: Expr, n: nat, x: Reg)
    requires ExpOk(cx, c, ro, VNonReloc(a), e, n, x) && n <= x
    ensures ExpOk(cx, Landed(c, ro.h, |c|) + [Move(reg, a)], Roles({}, ro.t, ro.f), VNonReloc(reg), e, n, reg)
  {
    var c', ro' := Landed(c, ro.h, |c|) + [Move(reg, a)], Roles({}, ro.t, ro.f);
    EmitShape(cx, c, ro, |c|, c', ro');
    forall w: World, r: Regs
      ensures DenotesAt(w, r, c', ro', VNonReloc(reg), |cx.code|, e, n, reg)
    {
      assert DenotesAt(w, r, c, ro, VNonReloc(a), |cx.code|, e, n, x);
      MoveToRegAt(w, r, cx, c, ro, c', a, reg, e, n, x);
    }
  }

  function WithA(i: Instr, reg: Reg): Instr
    requires i.Not? || i.GetUpval?
  {
    if i.Not? then Not(reg, i.b) else GetUpval(reg, i.u)
  }

  lemma RelocToRegAt(w: World, r: Regs, cx: Ctx, c: seq<Instr>, ro: Roles, p: nat, c': seq<Instr>, reg: Reg, e: Expr, n: nat, x: Reg)
    requires KindOk(|cx.code|, c, VReloc(p)) && Emitted(cx, c, ro, p, c', ro) && |c'| == p + 1 && c'[p] == WithA(c[p], reg)
    requires DenotesAt(w, r, c, ro, VReloc(p), |cx.code|, e, n, x) && n <= x
    ensures DenotesAt(w, r, c', ro, VNonReloc(reg), |cx.code|, e, n, reg)
  {
    EmitRun(w, r, cx, c, ro, p, c', ro, p + 1, e, n, x);
    var o := Exec(w, c, ro, p, |cx.code|, r);
    if o.Fall? {
      assert Exec(w, c', ro, p + 1, p, o.regs) == Fall(Assign(w, c'[p], o.regs));
    }
  }

  /** `discharge2reg` on a relocatable instruction. */
  lemma RelocToReg(cx: Ctx, c: seq<Instr>, ro: Roles, p: nat, reg: Reg, e: Expr, n: nat, x: Reg)
    requires ExpOk(cx, c, ro, VReloc(p), e, n, x) && n <= x
    ensures ExpOk(cx, c[p := WithA(c[p], reg)], ro, VNonReloc(reg), e, n, reg)
  {
    var c' := c[p := WithA(c[p], reg)];
    EmitShape(cx, c, ro, p, c', ro);
    forall w: World, r: Regs
      ensures DenotesAt(w, r, c', ro, VNonReloc(reg), |cx.code|, e, n, reg)
    {
      assert DenotesAt(w, r, c, ro, VReloc(p), |cx.code|, e, n, x);
      RelocToRegAt(w, r, cx, c, ro, p, c', reg, e, n, x);
    }
  }

  /** The test `tst` decides on the value of kind `k`: it passes when the value's truth is
      `cond`, and the value is then the one its jump carries. */
  ghost predicate Decides(w: World, c: seq<Instr>, k: Kind, tst: Instr, cond: bool, r: Regs)
    requires KindOk(0, c, k)
  {
    && IsTest(tst)
    && var v := Held(w, c, k, r);
      && TestPasses(w, tst, r) == (Truthy(v) == cond)
      && (TestPasses(w, tst, r) ==> v == if tst.TestSet? then r[tst.b] else Boolean(cond))
  }

  function AddExit(ro: Roles, p: nat, cond: bool): Roles {
    if cond then Roles({}, ro.t + {p}, ro.f) else Roles({}, ro.t, ro.f + {p})
  }

  /** A test at the end whose jump is an exit. */
  lemma ExecTest(w: World, c: seq<Instr>, ro: Roles, end: nat, q: nat, r: Regs)
    requires q + 2 == end <= |c| && IsTest(c[q]) && c[q + 1].Jmp?
    ensures Exec(w, c, ro, end, q, r) == if TestPasses(w, c[q], r) then Take(w, c, ro, end, q + 1, r) else Fall(r)
  {
  }

  lemma DecideTail(w: World, c: seq<Instr>, k: Kind, tst: Instr, cond: bool, c': seq<Instr>, ro': Roles, mid: nat, r: Regs)
    requires KindOk(0, c, k) && Decides(w, c, k, tst, cond, r)
    requires |c'| == mid + 2 && c'[mid] == tst && c'[mid + 1] == Jmp(NO_JUMP)
    requires mid + 1 in (if cond then ro'.t else ro'.f) && mid + 1 !in (if cond then ro'.f else ro'.t)
    ensures
      var o, v := Exec(w, c', ro', |c'|, mid, r), Held(w, c, k, r);
      && !o.Stuck? && o.regs == r
      && (o.Fall? ==> Truthy(v) == !cond)
      && (!o.Fall? ==> o.ExitT? == Truthy(v) == cond && Carried(c', o.at, o.ExitT?, r) == v)
  {
    ExecTest(w, c', ro', |c'|, mid, r);
    assert ProducesValue(c', mid + 1) == tst.TestSet?;
  }

  lemma JumpOnAt(w: World, r: Regs, cx: Ctx, c: seq<Instr>, ro: Roles, k: Kind, tst: Instr, cond: bool, mid: nat,
                 c': seq<Instr>, ro': Roles, e: Expr, n: nat, x: Reg)
    requires KindOk(|cx.code|, c, k) && mid == EndOf(c, k) && ro' == AddExit(ro, mid + 1, cond)
    requires forall r': Regs :: Decides(w, c, k, tst, cond, r')
    requires Emitted(cx, c, ro, mid, c', ro') && |c'| == mid + 2 && c'[mid] == tst && c'[mid + 1] == Jmp(NO_JUMP)
    requires DenotesAt(w, r, c, ro, k, |cx.code|, e, n, x)
    ensures BranchesAt(w, r, c', ro', |cx.code|, e, n, x, !cond)
  {
    EmitRun(w, r, cx, c, ro, mid, c', ro', mid + 2, e, n, x);
    var o := Exec(w, c, ro, mid, |cx.code|, r);
    if o.Fall? {
      DecideTail(w, c, k, tst, cond, c', ro', mid, o.regs);
    }
  }

  lemma JumpOnShape(cx: Ctx, c: seq<Instr>, ro: Roles, k: Kind, tst: Instr, cond: bool, e: Expr, n: nat, x: Reg,
                    mid: nat, c': seq<Instr>)
    requires ExpOk(cx, c, ro, k, e, n, x) && IsTest(tst) && mid == EndOf(c, k)
    requires |c'| == mid + 2 && c'[mid] == tst && c'[mid + 1] == Jmp(NO_JUMP)
    requires forall q :: 0 <= q < mid ==> c'[q] == Landed(c, ro.h, |c|)[q]
    ensures Emitted(cx, c, ro, mid, c', AddExit(ro, mid + 1, cond)) && Shape(cx, c', AddExit(ro, mid + 1, cond))
  {
    var ro' := AddExit(ro, mid + 1, cond);
    assert mid + 1 !in ro.t + ro.f;
    assert forall p :: p in ro.t + ro.f ==> p < mid by {
      forall p | p in ro.t + ro.f
        ensures p < mid
      {
        assert p < |c| && c[p].Jmp?;
      }
    }
    assert Emitted(cx, c, ro, mid, c', ro');
    EmitShape(cx, c, ro, mid, c', ro');
  }

  /** `jumponcond`, and the comparison branch of `luaK_goiftrue` and `luaK_goiffalse`: the value is
      tested where it stands, and the jump leaves when its truth is `cond`. */
  lemma JumpOn(cx: Ctx, c: seq<Instr>, ro: Roles, k: Kind, tst: Instr, cond: bool, e: Expr, n: nat, x: Reg,
               mid: nat, c': seq<Instr>)
    requires ExpOk(cx, c, ro, k, e, n, x) && IsTest(tst) && mid == EndOf(c, k)
    requires forall w: World, r: Regs :: Decides(w, c, k, tst, cond, r)
    requires |c'| == mid + 2 && c'[mid] == tst && c'[mid + 1] == Jmp(NO_JUMP)
    requires forall q :: 0 <= q < mid ==> c'[q] == Landed(c, ro.h, |c|)[q]
    ensures BranchOk(cx, c', AddExit(ro, mid + 1, cond), e, n, x, !cond)
  {
    var ro', truth := AddExit(ro, mid + 1, cond), !cond;
    JumpOnShape(cx, c, ro, k, tst, cond, e, n, x, mid, c');
    forall w: World, r: Regs
      ensures BranchesAt(w, r, c', ro', |cx.code|, e, n, x, truth)
    {
      assert DenotesAt(w, r, c, ro, k, |cx.code|, e, n, x);
      JumpOnAt(w, r, cx, c, ro, k, tst, cond, mid, c', ro', e, n, x);
    }
  }

  /** `removevalues`: the tests of the jumps `s` no longer store anything. */
  ghost function Stripped(code: seq<Instr>, s: set<nat>): (r: seq<Instr>)
    ensures |r| == |code|
  {
    seq(|code|, i requires 0 <= i < |code| =>
      if i + 1 in s && code[i].TestSet? then Test(code[i].b, code[i].on) else code[i])
  }

  lemma FrameStripped(c: seq<Instr>, lo: nat, m: nat, s: set<nat>, l: set<nat>)
    requires InFrame(c, lo, m, s)
    ensures InFrame(Stripped(c, l), lo, m, s)
  {
    forall q | lo <= q < |c|
      ensures InstrFits(Stripped(c, l)[q], m, q + 1 in s)
    {
      assert InstrFits(c[q], m, q + 1 in s);
    }
  }

  /** Code that goes on behind `c1`: what was there is in the frame, too. */
  lemma FrameJoined(lo: nat, c1: seq<Instr>, h1: set<nat>, ss: set<nat>, c2: seq<Instr>, ro2: Roles, m: nat)
    requires InFrame(c1, lo, m, h1 + ss) && Shape(Ctx(c1, h1), c2, ro2) && InFrame(c2, |c1|, m, ro2.All())
    ensures InFrame(c2, lo, m, ro2.All() + ss)
  {
    forall q | lo <= q < |c2|
      ensures InstrFits(c2[q], m, q + 1 in ro2.All() + ss)
    {
      if q < |c1| {
        assert InstrFits(c1[q], m, q + 1 in h1 + ss);
        if c2 != c1 || ro2.h != h1 { assert c2[q] == Landed(c1, h1, |c1|)[q]; }
      } else {
        assert InstrFits(c2[q], m, q + 1 in ro2.All());
      }
    }
  }

  lemma StripNone(code: seq<Instr>)
    ensures Stripped(code, {}) == code
  {
  }

  lemma StripOneMore(c0: seq<Instr>, s: set<nat>, p: nat)
    requires p < |c0| && c0[p].Jmp? && p !in s
    ensures var c := Stripped(c0, s);
      && c[p] == c0[p] && ProducesValue(c, p) == ProducesValue(c0, p)
      && Stripped(c0, s + {p}) == if ProducesValue(c, p) then c[p - 1 := PatchTest(c[p - 1], NO_REG)] else c
  {
    var c := Stripped(c0, s);
    var d := if ProducesValue(c, p) then c[p - 1 := PatchTest(c[p - 1], NO_REG)] else c;
    assert forall i :: 0 <= i < |c0| ==> Stripped(c0, s + {p})[i] == d[i];
  }

  /** `c'` is `c` up to `mid` without the values of its exits, which change sides. */
  ghost predicate Negated(cx: Ctx, c: seq<Instr>, ro: Roles, mid: nat, c': seq<Instr>, ro': Roles) {
    && Shape(cx, c, ro) && |cx.code| <= mid <= |c| && mid < |c'|
    && (mid == |c| || ro.h == {})
    && ro' == Roles({}, ro.f, ro.t)
    && (forall q :: 0 <= q < mid ==> c'[q] == Stripped(Landed(c, ro.h, |c|), ro.t + ro.f)[q])
  }

  lemma NegatedAt(cx: Ctx, c: seq<Instr>, ro: Roles, mid: nat, c': seq<Instr>, ro': Roles, end: nat, q: nat)
    requires Negated(cx, c, ro, mid, c', ro') && mid <= end <= |c'| && q < mid
    ensures CompatibleAt(c, ro, c', ro', q)
    ensures q in ro.h ==> LandsAt(c', ro', end, q, mid)
    ensures q in ro.t + ro.f ==> !ProducesValue(c', q)
    ensures IsTest(c'[q]) == IsTest(c[q]) && c'[q].Jmp? == c[q].Jmp?
  {
    var d := Landed(c, ro.h, |c|);
    assert c'[q] == Stripped(d, ro.t + ro.f)[q];
    if q > 0 { assert c'[q - 1] == Stripped(d, ro.t + ro.f)[q - 1]; }
  }

  lemma NegatedCompatible(cx: Ctx, c: seq<Instr>, ro: Roles, mid: nat, c': seq<Instr>, ro': Roles, end: nat)
    requires Negated(cx, c, ro, mid, c', ro') && mid <= end <= |c'|
    ensures Compatible(|cx.code|, c, ro, mid, c', ro', end)
  {
    var lo := |cx.code|;
    Boundary(cx, c, ro);
    if lo > 0 && lo - 1 < mid { NegatedAt(cx, c, ro, mid, c', ro', end, lo - 1); }
    forall q | lo <= q < mid
      ensures CompatibleAt(c, ro, c', ro', q)
    {
      NegatedAt(cx, c, ro, mid, c', ro', end, q);
    }
    forall p | lo <= p < mid && p in ro.h && p !in ro.t + ro.f
      ensures LandsAt(c', ro', end, p, mid)
    {
      NegatedAt(cx, c, ro, mid, c', ro', end, p);
    }
  }

  lemma NegatedShape(cx: Ctx, c: seq<Instr>, ro: Roles, mid: nat, c': seq<Instr>, ro': Roles)
    requires Negated(cx, c, ro, mid, c', ro') && TailOk(c', mid) && (mid == 0 || mid == |c| || !IsTest(c[mid - 1]))
    requires forall p :: p in ro.t + ro.f ==> p < mid
    ensures Shape(cx, c', ro')
  {
    forall q | 0 <= q < mid
      ensures IsTest(c'[q]) == IsTest(c[q]) && c'[q].Jmp? == c[q].Jmp?
    {
      NegatedAt(cx, c, ro, mid, c', ro', mid, q);
    }
    forall q | 0 <= q < |c'| && IsTest(c'[q])
      ensures q + 1 < |c'| && c'[q + 1].Jmp?
    {
      if q < mid { assert IsTest(c[q]); assert c[q + 1].Jmp?; }
    }
    if c != cx.code {
      forall q | 0 <= q < |cx.code|
        ensures c'[q] == Landed(cx.code, cx.h, |cx.code|)[q]
      {
        assert c[q] == Landed(cx.code, cx.h, |cx.code|)[q];
        assert c'[q] == Stripped(Landed(c, ro.h, |c|), ro.t + ro.f)[q];
        if q + 1 == |cx.code| { Boundary(cx, c, ro); }
      }
    }
  }

  lemma NegatedRun(w: World, r: Regs, cx: Ctx, c: seq<Instr>, ro: Roles, mid: nat, c': seq<Instr>, ro': Roles, end: nat,
                   e: Expr, n: nat, x: Reg)
    requires Negated(cx, c, ro, mid, c', ro') && mid <= end <= |c'|
    requires OutcomeOk(w, c, e, n, x, r, Exec(w, c, ro, mid, |cx.code|, r))
    ensures
      var o, o' := Exec(w, c, ro, mid, |cx.code|, r), Exec(w, c', ro', end, |cx.code|, r);
      if o.Fall? then o' == Exec(w, c', ro', end, mid, o.regs)
      else !o'.Fall? && OutcomeOk(w, c', NotE(e), n, x, r, o')
  {
    NegatedCompatible(cx, c, ro, mid, c', ro', end);
    Simulate(w, |cx.code|, c, ro, mid, c', ro', end, |cx.code|, r);
    ExitIsMember(w, c, ro, mid, |cx.code|, r);
    var o := Exec(w, c, ro, mid, |cx.code|, r);
    if !o.Fall? { NegatedAt(cx, c, ro, mid, c', ro', end, o.at); }
  }

  lemma NegateAt(w: World, r: Regs, cx: Ctx, c: seq<Instr>, ro: Roles, k: Kind, mid: nat, c': seq<Instr>, ro': Roles, k': Kind,
                 e: Expr, n: nat, x: Reg)
    requires KindOk(|cx.code|, c, k) && mid == EndOf(c, k) && KindOk(|cx.code|, c', k') && mid == EndOf(c', k')
    requires Negated(cx, c, ro, mid, c', ro')
    requires forall r': Regs :: Opposite(w, c, k, c', k', r')
    requires DenotesAt(w, r, c, ro, k, |cx.code|, e, n, x)
    ensures DenotesAt(w, r, c', ro', k', |cx.code|, NotE(e), n, x)
  {
    NegatedRun(w, r, cx, c, ro, mid, c', ro', mid, e, n, x);
    var o := Exec(w, c, ro, mid, |cx.code|, r);
    if o.Fall? { assert Opposite(w, c, k, c', k', o.regs); }
  }

  ghost predicate Opposite(w: World, c: seq<Instr>, k: Kind, c': seq<Instr>, k': Kind, r: Regs)
    requires KindOk(0, c, k) && KindOk(0, c', k')
  {
    Held(w, c', k', r) == Boolean(IsFalse(Held(w, c, k, r)))
  }

  /** `codenot`: the value is negated, the exits change sides and lose their values. */
  lemma Negate(cx: Ctx, c: seq<Instr>, ro: Roles, k: Kind, mid: nat, c': seq<Instr>, k': Kind, e: Expr, n: nat, x: Reg)
    requires ExpOk(cx, c, ro, k, e, n, x) && mid == EndOf(c, k)
    requires KindOk(|cx.code|, c', k') && mid == EndOf(c', k') && (k'.VJmp? || k'.VReloc?)
    requires forall q :: 0 <= q < mid ==> c'[q] == Stripped(Landed(c, ro.h, |c|), ro.t + ro.f)[q]
    requires forall w: World, r: Regs :: Opposite(w, c, k, c', k', r)
    ensures ExpOk(cx, c', Roles({}, ro.f, ro.t), k', NotE(e), n, x)
  {
    var ro' := Roles({}, ro.f, ro.t);
    assert Negated(cx, c, ro, mid, c', ro');
    ExitsBeforeEnd(cx, c, ro, k, e, n, x);
    NegatedShape(cx, c, ro, mid, c', ro');
    forall w: World, r: Regs
      ensures DenotesAt(w, r, c', ro', k', |cx.code|, NotE(e), n, x)
    {
      assert DenotesAt(w, r, c, ro, k, |cx.code|, e, n, x);
      NegateAt(w, r, cx, c, ro, k, mid, c', ro', k', e, n, x);
    }
  }

  lemma ExitsBeforeEnd(cx: Ctx, c: seq<Instr>, ro: Roles, k: Kind, e: Expr, n: nat, x: Reg)
    requires ExpOk(cx, c, ro, k, e, n, x)
    ensures forall p :: p in ro.t + ro.f ==> p < EndOf(c, k)
    ensures var mid := EndOf(c, k); mid == 0 || mid == |c| || !IsTest(c[mid - 1])
  {
    forall p | p in ro.t + ro.f
      ensures p < EndOf(c, k)
    {
      assert p < |c| && c[p].Jmp?;
    }
  }
}
