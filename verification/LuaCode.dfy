/** Jump lists: the pending jumps of the code generator (lua/lcode.c), threaded through the
    offsets of the jump instructions themselves. */
module JumpLists {
  import opened LuaVM
  import opened PendingCode

  const NO_JUMP: int := -1
  const MAXARG_SBX: int := 131071
  const MAXSTACK: int := 250

  /** The jump after `p` in the list that `p` is in. */
  function GetJump(code: seq<Instr>, p: nat): int
    requires p < |code| && code[p].Jmp?
  {
    if code[p].off == NO_JUMP then NO_JUMP else p + 1 + code[p].off
  }

  ghost function Elems(s: seq<nat>): set<nat> {
    set x | x in s
  }

  function After(s: seq<nat>, i: nat): int {
    if i + 1 < |s| then s[i + 1] else NO_JUMP
  }

  /** The list that starts at `head` consists of the jumps `s`, each one once, and ends. */
  ghost predicate IsList(code: seq<Instr>, head: int, s: seq<nat>) {
    && head == (if s == [] then NO_JUMP else s[0])
    && (forall i :: 0 <= i < |s| ==> s[i] < |code| && code[s[i]].Jmp?)
    && (forall i {:trigger After(s, i)} :: 0 <= i < |s| ==> GetJump(code, s[i]) == After(s, i))
    && (forall i, j :: 0 <= i < j < |s| ==> s[i] != s[j])
  }

  ghost predicate AllProduce(code: seq<Instr>, s: set<nat>) {
    forall p :: p in s ==> ProducesValue(code, p)
  }

  function PatchTest(i: Instr, reg: Reg): Instr
    requires i.TestSet?
  {
    if reg != NO_REG && reg != i.b then TestSet(reg, i.b, i.on) else Test(i.b, i.on)
  }

  /** The code after patching the jumps `s`: those that produce a value lead to `vt` and
      store it in `reg`, the others lead to `dt`.  No other instruction changes. */
  ghost function Patched(code: seq<Instr>, s: set<nat>, vt: int, reg: Reg, dt: int): (r: seq<Instr>)
    ensures |r| == |code|
  {
    seq(|code|, i requires 0 <= i < |code| =>
      if i in s && code[i].Jmp? then Jmp((if ProducesValue(code, i) then vt else dt) - (i + 1))
      else if i + 1 in s && code[i].TestSet? then PatchTest(code[i], reg)
      else code[i])
  }

  /** All of `s` patched to lead to `here`, their values dropped. */
  ghost function Landed(code: seq<Instr>, s: set<nat>, here: int): (r: seq<Instr>)
    ensures |r| == |code|
  {
    seq(|code|, i requires 0 <= i < |code| =>
      if i in s && code[i].Jmp? then Jmp(here - (i + 1))
      else if i + 1 in s && code[i].TestSet? then Test(code[i].b, code[i].on)
      else code[i])
  }

  lemma LandedIsPatched(code: seq<Instr>, s: set<nat>, here: int)
    ensures Landed(code, s, here) == Patched(code, s, here, NO_REG, here)
  {
  }

  /** `c1` differs from `c0` only in where the jumps of `s` lead. */
  ghost predicate Relinked(c0: seq<Instr>, c1: seq<Instr>, s: set<nat>) {
    && |c0| == |c1|
    && forall q :: 0 <= q < |c0| ==> if q in s then c0[q].Jmp? && c1[q].Jmp? else c1[q] == c0[q]
  }

  /** A list is determined by its head: no jump but its members can be reached from there. */
  lemma {:induction false} ListIsUnique(code: seq<Instr>, head: int, s: seq<nat>, s': seq<nat>, k: nat)
    requires IsList(code, head, s) && IsList(code, head, s')
    ensures k < |s| <==> k < |s'|
    ensures k < |s| ==> s[k] == s'[k]
  {
    if k > 0 {
      ListIsUnique(code, head, s, s', k - 1);
      if k - 1 < |s| { assert After(s, k - 1) == GetJump(code, s[k - 1]) == After(s', k - 1); }
    }
  }

  lemma ListFrame(c0: seq<Instr>, c1: seq<Instr>, head: int, s: seq<nat>)
    requires IsList(c0, head, s) && |c0| <= |c1|
    requires forall p :: p in s && p < |c0| ==> c1[p] == c0[p]
    ensures IsList(c1, head, s)
  {
    forall i | 0 <= i < |s|
      ensures s[i] < |c1| && c1[s[i]] == c0[s[i]]
    {
      assert s[i] in s;
    }
  }

  /** Linking the end of one list to the head of another joins them. */
  lemma ListJoin(c0: seq<Instr>, c1: seq<Instr>, l1: int, s1: seq<nat>, l2: int, s2: seq<nat>)
    requires IsList(c0, l1, s1) && IsList(c0, l2, s2) && s1 != [] && s2 != []
    requires Elems(s1) !! Elems(s2)
    requires var last := s1[|s1| - 1]; c1 == c0[last := Jmp(l2 - (last + 1))]
    ensures IsList(c1, l1, s1 + s2) && Relinked(c0, c1, Elems(s1))
  {
    var s, last := s1 + s2, s1[|s1| - 1];
    assert forall i :: 0 <= i < |s1| ==> s1[i] in Elems(s1);
    assert forall i :: 0 <= i < |s2| ==> s2[i] in Elems(s2);
    assert forall i :: 0 <= i < |s| ==> s[i] == (if i < |s1| then s1[i] else s2[i - |s1|]);
    forall i | 0 <= i < |s|
      ensures GetJump(c1, s[i]) == After(s, i)
    {
      if i < |s1| - 1 {
        assert s1[i] != last;
        assert GetJump(c0, s1[i]) == After(s1, i);
      } else if i == |s1| - 1 {
        assert s[i + 1] == s2[0] && s2[0] in Elems(s2) && last in Elems(s1);
      } else {
        assert s2[i - |s1|] != last;
        assert GetJump(c0, s2[i - |s1|]) == After(s2, i - |s1|);
      }
    }
  }

  lemma ElemsStep(s: seq<nat>, i: nat)
    requires i < |s| && forall j, k :: 0 <= j < k < |s| ==> s[j] != s[k]
    ensures Elems(s[..i + 1]) == Elems(s[..i]) + {s[i]} && s[i] !in Elems(s[..i])
  {
    assert s[..i + 1] == s[..i] + [s[i]];
  }

  lemma PatchNone(code: seq<Instr>, vt: int, reg: Reg, dt: int)
    ensures Patched(code, {}, vt, reg, dt) == code
  {
  }

  /** The code after patching the jump `p` alone. */
  function OnePatched(code: seq<Instr>, p: nat, vt: int, reg: Reg, dt: int): (r: seq<Instr>)
    requires p < |code| && code[p].Jmp?
    ensures |r| == |code|
  {
    if ProducesValue(code, p) then code[p - 1 := PatchTest(code[p - 1], reg)][p := Jmp(vt - (p + 1))]
    else code[p := Jmp(dt - (p + 1))]
  }

  /** Patching one more jump of a set already partly patched. */
  lemma PatchOneMore(c0: seq<Instr>, s: set<nat>, p: nat, vt: int, reg: Reg, dt: int)
    requires p < |c0| && c0[p].Jmp? && p !in s
    ensures var c := Patched(c0, s, vt, reg, dt);
      c[p] == c0[p] && ProducesValue(c, p) == ProducesValue(c0, p)
      && OnePatched(c, p, vt, reg, dt) == Patched(c0, s + {p}, vt, reg, dt)
  {
    var c, d := Patched(c0, s, vt, reg, dt), Patched(c0, s + {p}, vt, reg, dt);
    JumpSurvives(c0, s, vt, reg, dt, p);
    forall i | 0 <= i < |d|
      ensures OnePatched(c, p, vt, reg, dt)[i] == d[i]
    {
    }
  }

  lemma LandedSurvives(c0: seq<Instr>, s: set<nat>, here: int, p: nat)
    requires p < |c0| && c0[p].Jmp? && p !in s
    ensures Landed(c0, s, here)[p] == c0[p]
    ensures ProducesValue(Landed(c0, s, here), p) == ProducesValue(c0, p)
    ensures ProducesValue(c0, p) ==> Landed(c0, s, here)[p - 1] == c0[p - 1]
  {
  }

  lemma JumpSurvives(c0: seq<Instr>, s: set<nat>, vt: int, reg: Reg, dt: int, p: nat)
    requires p < |c0| && c0[p].Jmp? && p !in s
    ensures Patched(c0, s, vt, reg, dt)[p] == c0[p]
    ensures ProducesValue(Patched(c0, s, vt, reg, dt), p) == ProducesValue(c0, p)
    ensures ProducesValue(c0, p) ==> Patched(c0, s, vt, reg, dt)[p - 1] == c0[p - 1]
  {
  }

  // ---------------------------------------------------------------- the registers of a frame

  /** Every register that the instruction reads or writes is below `m`; a test whose jump is pending may have none to write yet. */
  ghost predicate InstrFits(i: Instr, m: nat, pending: bool) {
    match i
    case Move(a, b) => a < m && b < m
    case LoadBool(a, _, _) => a < m
    case GetUpval(a, _) => a < m
    case Not(a, b) => a < m && b < m
    case Jmp(_) => true
    case Compare(_, _, b, c) => b < m && c < m
    case Test(a, _) => a < m
    case TestSet(a, b, _) => b < m && (a < m || (pending && a == NO_REG))
  }

  /** A turn of the interpreter at an instruction that fits depends on the first `m` registers alone, and changes no other. */
  lemma StepInFrame(w: World, code: seq<Instr>, pc: nat, r: Regs, r': Regs, m: nat)
    requires pc < |code| && (IsTest(code[pc]) ==> pc + 1 < |code| && code[pc + 1].Jmp?)
    requires InstrFits(code[pc], m, false) && forall q :: 0 <= q < m && q < 256 ==> r'[q] == r[q]
    ensures var a, b := Step(w, code, Frame(pc, r)), Step(w, code, Frame(pc, r'));
      && a.pc == b.pc
      && (forall q :: 0 <= q < m && q < 256 ==> a.regs[q] == b.regs[q])
      && forall q :: m <= q < 256 ==> a.regs[q] == r[q]
  {
    var i := code[pc];
    if IsTest(i) { assert TestPasses(w, i, r) == TestPasses(w, i, r'); }
  }

  /** From `lo` on the code runs in a frame of `m` registers, once the jumps `s` are patched. */
  ghost predicate InFrame(code: seq<Instr>, lo: nat, m: nat, s: set<nat>) {
    forall q :: lo <= q < |code| ==> InstrFits(code[q], m, q + 1 in s)
  }

  lemma FrameGrows(code: seq<Instr>, lo: nat, m: nat, s: set<nat>, m': nat, s': set<nat>)
    requires InFrame(code, lo, m, s) && m <= m' && s <= s'
    ensures InFrame(code, lo, m', s')
  {
    assert forall q :: lo <= q < |code| ==> InstrFits(code[q], m, q + 1 in s);
  }

  /** The waiting jumps `h` are patched, and an instruction is appended. */
  lemma FrameEmit(c: seq<Instr>, lo: nat, m: nat, h: set<nat>, s: set<nat>, i: Instr)
    requires InFrame(c, lo, m, h + s) && InstrFits(i, m, false) && lo <= |c|
    ensures InFrame(Landed(c, h, |c|) + [i], lo, m, s)
  {
    var c' := Landed(c, h, |c|) + [i];
    forall q | lo <= q < |c'|
      ensures InstrFits(c'[q], m, q + 1 in s)
    {
      if q < |c| { assert InstrFits(c[q], m, q + 1 in h + s); }
    }
  }

  /** The same for a test and its jump. */
  lemma FrameTest(c: seq<Instr>, lo: nat, m: nat, h: set<nat>, s: set<nat>, tst: Instr)
    requires InFrame(c, lo, m, h + s) && InstrFits(tst, m, true) && lo <= |c|
    ensures InFrame(Landed(c, h, |c|) + [tst, Jmp(NO_JUMP)], lo, m, s + {|c| + 1})
  {
    var c' := Landed(c, h, |c|) + [tst, Jmp(NO_JUMP)];
    forall q | lo <= q < |c'|
      ensures InstrFits(c'[q], m, q + 1 in s + {|c| + 1})
    {
      if q < |c| { assert InstrFits(c[q], m, q + 1 in h + s); }
    }
  }

  lemma FrameCut(c: seq<Instr>, lo: nat, m: nat, s: set<nat>, n: nat)
    requires InFrame(c, lo, m, s) && n <= |c|
    ensures InFrame(c[..n], lo, m, s)
  {
    var d := c[..n];
    forall q | lo <= q < n
      ensures InstrFits(d[q], m, q + 1 in s)
    {
      assert InstrFits(c[q], m, q + 1 in s);
    }
  }

  lemma FrameUpdate(c: seq<Instr>, lo: nat, m: nat, s: set<nat>, p: nat, i: Instr)
    requires InFrame(c, lo, m, s) && p < |c| && InstrFits(i, m, false)
    ensures InFrame(c[p := i], lo, m, s)
  {
    var d := c[p := i];
    forall q | lo <= q < |c|
      ensures InstrFits(d[q], m, q + 1 in s)
    {
      assert InstrFits(c[q], m, q + 1 in s);
    }
  }

  lemma FrameRelinked(c: seq<Instr>, c': seq<Instr>, lo: nat, m: nat, s: set<nat>, l: set<nat>)
    requires InFrame(c, lo, m, s) && Relinked(c, c', l)
    ensures InFrame(c', lo, m, s)
  {
    forall q | lo <= q < |c'|
      ensures InstrFits(c'[q], m, q + 1 in s)
    {
      assert InstrFits(c[q], m, q + 1 in s);
    }
  }

  /** Jumps and loads into the register follow. */
  lemma FrameTail(c: seq<Instr>, d: seq<Instr>, lo: nat, m: nat, s: set<nat>, reg: Reg)
    requires InFrame(c, lo, m, s) && |c| <= |d| && d[..|c|] == c && reg < m
    requires forall q :: |c| <= q < |d| ==> d[q].Jmp? || (d[q].LoadBool? && d[q].a == reg)
    ensures InFrame(d, lo, m, s)
  {
    forall q | lo <= q < |d|
      ensures InstrFits(d[q], m, q + 1 in s)
    {
      if q < |c| {
        assert d[q] == d[..|c|][q] == c[q];
        assert InstrFits(c[q], m, q + 1 in s);
      }
    }
  }

  /** The tests of the jumps `l` get a register. */
  lemma FramePatched(c: seq<Instr>, lo: nat, m: nat, s: set<nat>, l: set<nat>, vt: int, reg: Reg, dt: int)
    requires InFrame(c, lo, m, s + l) && reg != NO_REG && reg < m
    ensures InFrame(Patched(c, l, vt, reg, dt), lo, m, s)
  {
    var d := Patched(c, l, vt, reg, dt);
    forall q | lo <= q < |d|
      ensures InstrFits(d[q], m, q + 1 in s)
    {
      assert InstrFits(c[q], m, q + 1 in s + l);
    }
  }
}
