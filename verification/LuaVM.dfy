/** The opcodes that boolean expressions compile to, and what the interpreter loop of
    lua/lvm.c does for each of them.  One frame has 256 registers; a value is nil, a
    boolean, or anything else (only its identity matters here). */
module LuaVM {

  datatype Value = Nil | Boolean(b: bool) | Object(id: nat)

  predicate IsFalse(v: Value) {
    v == Nil || v == Boolean(false)
  }

  type Reg = r: nat | r < 256

  /** Fits in the 8-bit field A, but is never a register of a frame. */
  const NO_REG: Reg := 255

  type Regs = s: seq<Value> | |s| == 256 witness seq(256, _ => Nil)

  datatype CmpOp = OP_EQ | OP_LT | OP_LE

  /** What the code cannot see: how values compare, and what the upvalues hold. */
  datatype World = World(holds: (CmpOp, Value, Value) -> bool, upvalue: nat -> Value)

  datatype Instr =
    | Move(a: Reg, b: Reg)
    | LoadBool(a: Reg, v: bool, skip: bool)
    | GetUpval(a: Reg, u: nat)
    | Not(a: Reg, b: Reg)
    | Jmp(off: int)
    | Compare(op: CmpOp, cond: bool, b: Reg, c: Reg)
    | Test(a: Reg, on: bool)
    | TestSet(a: Reg, b: Reg, on: bool)

  /** `testTMode`: the next instruction must be a jump. */
  predicate IsTest(i: Instr) {
    i.Compare? || i.Test? || i.TestSet?
  }

  /** The condition under which a test takes the jump that follows it. */
  predicate TestPasses(w: World, i: Instr, r: Regs)
    requires IsTest(i)
  {
    match i
    case Compare(op, cond, b, c) => w.holds(op, r[b], r[c]) == cond
    case Test(a, on) => IsFalse(r[a]) != on
    case TestSet(a, b, on) => IsFalse(r[b]) != on
  }

  /** Registers after an instruction that falls through to the next one. */
  function Assign(w: World, i: Instr, r: Regs): Regs
    requires !IsTest(i) && !i.Jmp?
  {
    match i
    case Move(a, b) => r[a := r[b]]
    case LoadBool(a, v, _) => r[a := Boolean(v)]
    case GetUpval(a, u) => r[a := w.upvalue(u)]
    case Not(a, b) => r[a := Boolean(IsFalse(r[b]))]
  }

  datatype Frame = Frame(pc: int, regs: Regs)

  /** One turn of the interpreter loop.  A test reads the jump behind it, which is in the
      code whenever `pc + 1` is. */
  function Step(w: World, code: seq<Instr>, fr: Frame): Frame
    requires 0 <= fr.pc < |code|
    requires IsTest(code[fr.pc]) ==> fr.pc + 1 < |code| && code[fr.pc + 1].Jmp?
  {
    var i := code[fr.pc];
    if i.Jmp? then
      Frame(fr.pc + 1 + i.off, fr.regs)
    else if IsTest(i) then
      if TestPasses(w, i, fr.regs) then
        Frame(fr.pc + 2 + code[fr.pc + 1].off, if i.TestSet? then fr.regs[i.a := fr.regs[i.b]] else fr.regs)
      else
        Frame(fr.pc + 2, fr.regs)
    else
      Frame(if i.LoadBool? && i.skip then fr.pc + 2 else fr.pc + 1, Assign(w, i, fr.regs))
  }

  /** After exactly `n` turns the interpreter is at `to`. */
  ghost predicate RunsIn(w: World, code: seq<Instr>, n: nat, from: Frame, to: Frame) {
    if n == 0 then
      from == to
    else
      && 0 <= from.pc < |code|
      && (IsTest(code[from.pc]) ==> from.pc + 1 < |code| && code[from.pc + 1].Jmp?)
      && RunsIn(w, code, n - 1, Step(w, code, from), to)
  }

  ghost predicate Runs(w: World, code: seq<Instr>, from: Frame, to: Frame) {
    exists n: nat :: RunsIn(w, code, n, from, to)
  }
}

/** Code with jump lists still pending: an execution either falls off the end, or leaves
    through a pending jump. */
module PendingCode {
  import opened LuaVM

  /** The pending jumps of a piece of code: those to be patched to its end (`h`), and the
      exits when the expression is true (`t`) or false (`f`). */
  datatype Roles = Roles(h: set<nat>, t: set<nat>, f: set<nat>) {
    function All(): set<nat> { h + t + f }
  }

  datatype Outcome = Fall(regs: Regs) | ExitT(at: nat, regs: Regs) | ExitF(at: nat, regs: Regs) | Stuck

  /** `getjumpcontrol(p)` is a TESTSET. */
  predicate ProducesValue(code: seq<Instr>, p: int) {
    1 <= p <= |code| && code[p - 1].TestSet?
  }

  /** The jump at `p` is taken with registers `r`. */
  ghost function Take(w: World, code: seq<Instr>, ro: Roles, end: nat, p: nat, r: Regs): Outcome
    requires p < end <= |code|
    decreases end - p, 0
  {
    if p in ro.t then ExitT(p, r)
    else if p in ro.f then ExitF(p, r)
    else if p in ro.h then Fall(r)
    else if code[p].Jmp? && p < p + 1 + code[p].off <= end then
      Exec(w, code, ro, end, p + 1 + code[p].off,
           if ProducesValue(code, p) then r[code[p - 1].a := r[code[p - 1].b]] else r)
    else Stuck
  }

  /** Runs the code from `pc` up to `end`. */
  ghost function Exec(w: World, code: seq<Instr>, ro: Roles, end: nat, pc: nat, r: Regs): Outcome
    requires pc <= end <= |code|
    decreases end - pc, 1
  {
    if pc == end then Fall(r)
    else
      var i := code[pc];
      if i.Jmp? then
        if 1 <= pc && IsTest(code[pc - 1]) then Stuck else Take(w, code, ro, end, pc, r)
      else if IsTest(i) then
        if pc + 1 < end && code[pc + 1].Jmp? then
          if TestPasses(w, i, r) then Take(w, code, ro, end, pc + 1, r)
          else Exec(w, code, ro, end, pc + 2, r)
        else Stuck
      else
        var next := if i.LoadBool? && i.skip then pc + 2 else pc + 1;
        if next <= end then Exec(w, code, ro, end, next, Assign(w, i, r)) else Stuck
  }

  /** Code without pending jumps does what the interpreter does. */
  lemma {:induction false} ExecRuns(w: World, code: seq<Instr>, end: nat, pc: nat, r: Regs)
    requires pc <= end <= |code|
    requires Exec(w, code, Roles({}, {}, {}), end, pc, r).Fall?
    ensures Runs(w, code, Frame(pc, r), Frame(end, Exec(w, code, Roles({}, {}, {}), end, pc, r).regs))
    decreases end - pc
  {
    var to := Frame(end, Exec(w, code, Roles({}, {}, {}), end, pc, r).regs);
    if pc == end {
      assert RunsIn(w, code, 0, Frame(pc, r), to);
    } else {
      var fr := Step(w, code, Frame(pc, r));
      ExecRuns(w, code, end, fr.pc, fr.regs);
      var n: nat :| RunsIn(w, code, n, fr, to);
      assert RunsIn(w, code, n + 1, Frame(pc, r), to);
    }
  }

  /** Instruction `q` of `c1` does what that of `c0` does, except that a jump pending in `c0`
      may have been patched, and its test stripped of its value or given another register. */
  ghost predicate CompatibleAt(c0: seq<Instr>, ro0: Roles, c1: seq<Instr>, ro1: Roles, q: nat)
    requires q < |c0| && q < |c1|
  {
    match c0[q]
    case Jmp(off) => c1[q].Jmp? && (q !in ro0.All() ==> c1[q] == c0[q] && q !in ro1.All())
    case TestSet(a, b, on) =>
      || c1[q] == c0[q]
      || (q + 1 in ro0.All() && (c1[q] == Test(b, on) || (c1[q].TestSet? && c1[q].b == b && c1[q].on == on)))
    case _ => c1[q] == c0[q]
  }

  /** The jumps to the end of `c0` still lead there in `c1`, or to where the jump found there leads. */
  ghost predicate LandsAt(c1: seq<Instr>, ro1: Roles, end1: nat, p: nat, end0: nat)
    requires p < |c1| && end0 <= end1 <= |c1|
  {
    if p in ro1.All() then
      && p in ro1.h && p !in ro1.t + ro1.f
      && (end1 == end0 || (c1[end0].Jmp? && end0 in ro1.h && end0 !in ro1.t + ro1.f && (end0 == 0 || !IsTest(c1[end0 - 1]))))
    else
      c1[p].Jmp? && p + 1 + c1[p].off == end0 && !ProducesValue(c1, p)
  }

  /** From `lo` on, `c1` is `c0` with pending jumps patched and instructions appended. */
  ghost predicate Compatible(lo: nat, c0: seq<Instr>, ro0: Roles, end0: nat, c1: seq<Instr>, ro1: Roles, end1: nat) {
    && lo <= end0 <= |c0| && end0 <= end1 <= |c1|
    && (lo == 0 || (!IsTest(c0[lo - 1]) && !IsTest(c1[lo - 1])))
    && (forall q :: lo <= q < end0 ==> CompatibleAt(c0, ro0, c1, ro1, q))
    && (forall p :: lo <= p < end0 && p in ro0.h && p !in ro0.t + ro0.f ==> LandsAt(c1, ro1, end1, p, end0))
  }

  /** The outcome in `c1` of an execution that has outcome `o` in `c0`. */
  ghost function Continue(w: World, c1: seq<Instr>, ro1: Roles, end1: nat, end0: nat, o: Outcome): Outcome
    requires end0 <= end1 <= |c1|
  {
    match o
    case Fall(r) => Exec(w, c1, ro1, end1, end0, r)
    case ExitT(p, r) => if p < end0 then Take(w, c1, ro1, end1, p, r) else Stuck
    case ExitF(p, r) => if p < end0 then Take(w, c1, ro1, end1, p, r) else Stuck
    case Stuck => Stuck
  }

  /** Patching pending jumps and appending code only extends what the code did before. */
  lemma {:induction false} Simulate(w: World, lo: nat, c0: seq<Instr>, ro0: Roles, end0: nat,
                                    c1: seq<Instr>, ro1: Roles, end1: nat, pc: nat, r: Regs)
    requires lo <= pc <= end0 && Compatible(lo, c0, ro0, end0, c1, ro1, end1)
    requires !Exec(w, c0, ro0, end0, pc, r).Stuck?
    ensures Exec(w, c1, ro1, end1, pc, r) == Continue(w, c1, ro1, end1, end0, Exec(w, c0, ro0, end0, pc, r))
    decreases end0 - pc, 1
  {
    if pc < end0 {
      assert CompatibleAt(c0, ro0, c1, ro1, pc);
      var i := c0[pc];
      if i.Jmp? {
        if lo < pc { assert CompatibleAt(c0, ro0, c1, ro1, pc - 1); }
        SimulateTake(w, lo, c0, ro0, end0, c1, ro1, end1, pc, r);
      } else if IsTest(i) {
        assert CompatibleAt(c0, ro0, c1, ro1, pc + 1);
        if TestPasses(w, i, r) {
          SimulateTake(w, lo, c0, ro0, end0, c1, ro1, end1, pc + 1, r);
        } else {
          Simulate(w, lo, c0, ro0, end0, c1, ro1, end1, pc + 2, r);
        }
      } else {
        Simulate(w, lo, c0, ro0, end0, c1, ro1, end1, if i.LoadBool? && i.skip then pc + 2 else pc + 1, Assign(w, i, r));
      }
    }
  }

  lemma {:induction false} SimulateTake(w: World, lo: nat, c0: seq<Instr>, ro0: Roles, end0: nat,
                                        c1: seq<Instr>, ro1: Roles, end1: nat, p: nat, r: Regs)
    requires lo <= p < end0 && Compatible(lo, c0, ro0, end0, c1, ro1, end1)
    requires !Take(w, c0, ro0, end0, p, r).Stuck?
    ensures Take(w, c1, ro1, end1, p, r) == Continue(w, c1, ro1, end1, end0, Take(w, c0, ro0, end0, p, r))
    decreases end0 - p, 0
  {
    assert CompatibleAt(c0, ro0, c1, ro1, p);
    if p in ro0.t || p in ro0.f {
    } else if p in ro0.h {
      assert LandsAt(c1, ro1, end1, p, end0);
      if p in ro1.All() && end0 < end1 { assert Take(w, c1, ro1, end1, end0, r) == Fall(r); }
    } else {
      if lo < p { assert CompatibleAt(c0, ro0, c1, ro1, p - 1); }
      assert ProducesValue(c0, p) == ProducesValue(c1, p);
      Simulate(w, lo, c0, ro0, end0, c1, ro1, end1, p + 1 + c0[p].off,
               if ProducesValue(c0, p) then r[c0[p - 1].a := r[c0[p - 1].b]] else r);
    }
  }

  /** Exits leave through members of their lists. */
  lemma {:induction false} ExitIsMember(w: World, code: seq<Instr>, ro: Roles, end: nat, pc: nat, r: Regs)
    requires pc <= end <= |code|
    ensures var o := Exec(w, code, ro, end, pc, r);
      && (o.ExitT? ==> o.at in ro.t && pc <= o.at < end)
      && (o.ExitF? ==> o.at in ro.f && pc <= o.at < end)
    decreases end - pc, 1
  {
    if pc < end {
      var i := code[pc];
      if i.Jmp? {
        TakeIsMember(w, code, ro, end, pc, r);
      } else if IsTest(i) {
        if pc + 1 < end && code[pc + 1].Jmp? {
          if TestPasses(w, i, r) { TakeIsMember(w, code, ro, end, pc + 1, r); }
          else { ExitIsMember(w, code, ro, end, pc + 2, r); }
        }
      } else {
        var next := if i.LoadBool? && i.skip then pc + 2 else pc + 1;
        if next <= end { ExitIsMember(w, code, ro, end, next, Assign(w, i, r)); }
      }
    }
  }

  lemma {:induction false} TakeIsMember(w: World, code: seq<Instr>, ro: Roles, end: nat, p: nat, r: Regs)
    requires p < end <= |code|
    ensures var o := Take(w, code, ro, end, p, r);
      && (o.ExitT? ==> o.at in ro.t && p <= o.at < end)
      && (o.ExitF? ==> o.at in ro.f && p <= o.at < end)
    decreases end - p, 0
  {
    if p !in ro.All() && code[p].Jmp? && p < p + 1 + code[p].off <= end {
      ExitIsMember(w, code, ro, end, p + 1 + code[p].off,
                   if ProducesValue(code, p) then r[code[p - 1].a := r[code[p - 1].b]] else r);
    }
  }
}
