/** The code generator of lua/lcode.c for boolean expressions and comparisons, working in place
    on the code array and on the jump lists threaded through it. */
module CodeGen {
  import opened LuaVM
  import opened PendingCode
  import opened JumpLists
  import opened BoolCode
  import opened ExprCode

  /** The two syntax errors the code generator can raise. */
  datatype Status = Ok | TooLong | TooComplex {
    predicate IsFailure() { !Ok? }
    function PropagateFailure(): Status { this }
  }

  class FuncState {
    var code: seq<Instr>
    var jpc: int
    var freereg: nat
    var lasttarget: int
    var maxstacksize: nat
    const nactvar: nat
    /** The jumps of the list `jpc`. */
    ghost var hs: seq<nat>

    constructor (nactvar: nat)
      requires nactvar < MAXSTACK
      ensures Valid() && code == [] && hs == [] && freereg == nactvar == this.nactvar
      ensures maxstacksize == (if nactvar > 2 then nactvar else 2) && jpc == lasttarget == -1
    {
      code, jpc, hs := [], NO_JUMP, [];
      freereg, maxstacksize, lasttarget := nactvar, if nactvar > 2 then nactvar else 2, -1;
      this.nactvar := nactvar;
    }

    ghost predicate Valid()
      reads this
    {
      IsList(code, jpc, hs) && nactvar <= freereg <= maxstacksize < MAXSTACK && maxstacksize >= 2
    }

    /** An error is raised only where a limit is really exceeded. */
    ghost predicate Honest(st: Status)
      reads this
    {
      && (st == TooLong ==> |code| > 131071)
      && (st == TooComplex ==> freereg + 1 >= 250)
    }

    function GetJumpControl(pc: nat): (i: nat)
      requires pc < |code|
      reads this
      ensures i < |code| && (code[pc].Jmp? ==> code[i].TestSet? == ProducesValue(code, pc))
    {
      if pc >= 1 && IsTest(code[pc - 1]) then pc - 1 else pc
    }

    method FixJump(pc: nat, dest: int) returns (st: Status)
      requires pc < |code| && code[pc].Jmp? && 0 <= dest <= |code|
      modifies this`code
      ensures st == if -131071 <= dest - (pc + 1) <= 131071 then Ok else TooLong
      ensures st.Ok? ==> code == old(code)[pc := Jmp(dest - (pc + 1))]
      ensures !st.Ok? ==> code == old(code)
      ensures Honest(st) && st != TooComplex
    {
      var offset := dest - (pc + 1);
      if offset > MAXARG_SBX || -offset > MAXARG_SBX {
        return TooLong;
      }
      code := code[pc := Jmp(offset)];
      st := Ok;
    }

    method Concat(l1: int, l2: int, ghost s1: seq<nat>, ghost s2: seq<nat>) returns (l: int, st: Status)
      requires IsList(code, l1, s1) && IsList(code, l2, s2) && Elems(s1) !! Elems(s2)
      modifies this`code
      ensures |code| == |old(code)| && Honest(st) && st != TooComplex
      ensures st.Ok? ==> IsList(code, l, s1 + s2) && Relinked(old(code), code, Elems(s1))
      ensures s1 == [] || s2 == [] ==> code == old(code)
    {
      l, st := l1, Ok;
      if l2 == NO_JUMP {
        assert s1 + s2 == s1;
      } else if l1 == NO_JUMP {
        assert s1 + s2 == s2;
        l := l2;
      } else {
        var list := l1;
        var next := GetJump(code, list);
        ghost var i := 0;
        assert next == After(s1, 0);
        while next != NO_JUMP
          invariant 0 <= i < |s1| && list == s1[i] && next == After(s1, i)
          decreases |s1| - i
        {
          list := next;
          i := i + 1;
          next := GetJump(code, list);
          assert next == After(s1, i);
        }
        assert s2[0] in s2;
        st := FixJump(list, l2);
        if st.Ok? {
          ListJoin(old(code), code, l1, s1, l2, s2);
        }
      }
    }

    method NeedValue(head: int, ghost s: seq<nat>) returns (b: bool)
      requires IsList(code, head, s)
      ensures b == !AllProduce(code, Elems(s))
    {
      var list := head;
      ghost var i := 0;
      while list != NO_JUMP
        invariant 0 <= i <= |s| && list == (if i < |s| then s[i] else NO_JUMP)
        invariant forall j :: 0 <= j < i ==> ProducesValue(code, s[j])
        decreases |s| - i
      {
        assert s[i] in Elems(s);
        if !code[GetJumpControl(list)].TestSet? {
          return true;
        }
        assert GetJump(code, s[i]) == After(s, i);
        list := GetJump(code, list);
        i := i + 1;
      }
      b := false;
      forall p | p in Elems(s)
        ensures ProducesValue(code, p)
      {
        var j :| 0 <= j < |s| && s[j] == p;
      }
    }

    method PatchTestReg(node: nat, reg: Reg) returns (b: bool)
      requires node < |code| && code[node].Jmp?
      modifies this`code
      ensures b == ProducesValue(old(code), node)
      ensures code == if b then old(code)[node - 1 := PatchTest(old(code)[node - 1], reg)] else old(code)
    {
      var c := GetJumpControl(node);
      var i := code[c];
      if !i.TestSet? {
        return false;
      }
      if reg != NO_REG && reg != i.b {
        code := code[c := TestSet(reg, i.b, i.on)];
      } else {
        code := code[c := Test(i.b, i.on)];
      }
      b := true;
    }

    method RemoveValues(head: int, ghost s: seq<nat>)
      requires IsList(code, head, s)
      modifies this`code
      ensures code == Stripped(old(code), Elems(s))
    {
      var list := head;
      ghost var i := 0;
      ghost var c0 := code;
      StripNone(c0);
      assert Elems(s[..0]) == {};
      while list != NO_JUMP
        invariant 0 <= i <= |s| && list == (if i < |s| then s[i] else NO_JUMP)
        invariant code == Stripped(c0, Elems(s[..i]))
        decreases |s| - i
      {
        assert GetJump(c0, s[i]) == After(s, i);
        ElemsStep(s, i);
        StripOneMore(c0, Elems(s[..i]), list);
        var next := GetJump(code, list);
        var _ := PatchTestReg(list, NO_REG);
        list := next;
        i := i + 1;
      }
      assert s[..|s|] == s;
    }

    /** One round of `patchlistaux`. */
    method PatchOne(node: nat, vtarget: int, reg: Reg, dtarget: int) returns (next: int, st: Status)
      requires node < |code| && code[node].Jmp? && 0 <= vtarget <= |code|
      requires !ProducesValue(code, node) ==> 0 <= dtarget <= |code|
      modifies this`code
      ensures |code| == |old(code)| && Honest(st) && st != TooComplex && next == GetJump(old(code), node)
      ensures st.Ok? ==> code == OnePatched(old(code), node, vtarget, reg, dtarget)
    {
      next := GetJump(code, node);
      var value := PatchTestReg(node, reg);
      if value {
        st := FixJump(node, vtarget);
      } else {
        st := FixJump(node, dtarget);  // jump to default target
      }
    }

    method PatchListAux(head: int, vtarget: int, reg: Reg, dtarget: int, ghost s: seq<nat>) returns (st: Status)
      requires IsList(code, head, s) && 0 <= vtarget <= |code|
      requires AllProduce(code, Elems(s)) || 0 <= dtarget <= |code|
      modifies this`code
      ensures |code| == |old(code)| && Honest(st) && st != TooComplex
      ensures st.Ok? ==> code == Patched(old(code), Elems(s), vtarget, reg, dtarget)
    {
      hide *;
      var list := head;
      ghost var i := 0;
      ghost var c0 := code;
      PatchNone(c0, vtarget, reg, dtarget);
      PatchStart(c0, head, s);
      while list != NO_JUMP
        invariant 0 <= i <= |s| && list == (if i < |s| then s[i] else NO_JUMP)
        invariant |code| == |c0| && code == Patched(c0, Elems(s[..i]), vtarget, reg, dtarget)
        decreases |s| - i
      {
        PatchTurn(c0, head, s, i, vtarget, reg, dtarget);
        list, st := PatchOne(list, vtarget, reg, dtarget);
        if !st.Ok? { return; }
        i := i + 1;
      }
      assert s[..|s|] == s;
      NotTooLong();
      st := Ok;
    }

    lemma NotTooLong()
      ensures Honest(Ok)
    {
    }

    method DischargeJpc() returns (st: Status)
      requires IsList(code, jpc, hs)
      modifies this`code, this`jpc, this`hs
      ensures |code| == |old(code)| && Honest(st) && st != TooComplex
      ensures st.Ok? ==> code == Landed(old(code), Elems(old(hs)), |code|) && jpc == NO_JUMP && hs == []
    {
      LandedIsPatched(code, Elems(hs), |code|);
      st := PatchListAux(jpc, |code|, NO_REG, |code|, hs);
      if st.Ok? {
        jpc, hs := NO_JUMP, [];
      }
    }

    /** `luaK_code`. */
    method Code(i: Instr) returns (st: Status)
      requires IsList(code, jpc, hs)
      modifies this`code, this`jpc, this`hs
      ensures Honest(st) && st != TooComplex
      ensures st.Ok? ==>
        && code == Landed(old(code), Elems(old(hs)), |old(code)|) + [i]
        && jpc == NO_JUMP && hs == []
    {
      st := DischargeJpc();
      if st.Ok? {
        code := code + [i];
      }
    }

    method GetLabel() returns (pc: nat)
      modifies this`lasttarget
      ensures pc == |code| == lasttarget
    {
      lasttarget := |code|;
      pc := |code|;
    }

    /** The jumps that waited for this position now wait for whatever the new jump waits for. */
    method Jump() returns (j: int, st: Status)
      requires IsList(code, jpc, hs)
      modifies this`code, this`jpc, this`hs
      ensures Honest(st) && st != TooComplex
      ensures st.Ok? ==>
        && jpc == NO_JUMP && hs == []
        && |code| == |old(code)| + 1 && code[..|old(code)|] == old(code) && code[|old(code)|].Jmp?
        && IsList(code, j, [|old(code)|] + old(hs))
        && (old(hs) == [] ==> code == old(code) + [Jmp(NO_JUMP)])
    {
      var list, n := jpc, |code|;
      ghost var ls := hs;
      jpc, hs := NO_JUMP, [];
      j := NO_JUMP;
      st := Code(Jmp(NO_JUMP));
      if !st.Ok? { return; }
      assert code == old(code) + [Jmp(NO_JUMP)];
      j := |code| - 1;
      assert IsList(code, j, [n]) by { assert After([n], 0) == NO_JUMP; }
      ListFrame(old(code), code, list, ls);
      forall p | p in ls
        ensures p < n
      {
        var i :| 0 <= i < |ls| && ls[i] == p;
      }
      j, st := Concat(j, list, [n], ls);
    }

    method CondJump(i: Instr) returns (j: int, st: Status)
      requires IsList(code, jpc, hs) && IsTest(i)
      modifies this`code, this`jpc, this`hs
      ensures Honest(st) && st != TooComplex
      ensures st.Ok? ==>
        && jpc == NO_JUMP && hs == []
        && code == Landed(old(code), Elems(old(hs)), |old(code)|) + [i, Jmp(NO_JUMP)]
        && j == |code| - 1 && IsList(code, j, [|code| - 1])
    {
      j := NO_JUMP;
      st := Code(i);
      if !st.Ok? { return; }
      j, st := Jump();
      if st.Ok? {
        assert [|code| - 1] + [] == [|code| - 1];
        assert code == Landed(old(code), Elems(old(hs)), |old(code)|) + [i, Jmp(NO_JUMP)];
      }
    }

    method PatchToHere(list: int, ghost s: seq<nat>) returns (st: Status)
      requires IsList(code, jpc, hs) && IsList(code, list, s) && Elems(hs) !! Elems(s)
      modifies this`code, this`jpc, this`hs, this`lasttarget
      ensures |code| == |old(code)| == lasttarget && Honest(st) && st != TooComplex
      ensures st.Ok? ==> hs == old(hs) + s && IsList(code, jpc, hs) && Relinked(old(code), code, Elems(old(hs)))
      ensures old(hs) == [] || s == [] ==> code == old(code)
    {
      var _ := GetLabel();
      var l;
      l, st := Concat(jpc, list, hs, s);
      if st.Ok? {
        jpc, hs := l, hs + s;
      }
    }

    /** The frame is large enough for `n` more registers. */
    method CheckStack(n: nat) returns (st: Status)
      requires maxstacksize < MAXSTACK
      modifies this`maxstacksize
      ensures st == (if freereg + n >= 250 then TooComplex else Ok) && maxstacksize < MAXSTACK
      ensures maxstacksize == if st.Ok? && freereg + n > old(maxstacksize) then freereg + n else old(maxstacksize)
    {
      var newstack := freereg + n;
      if newstack > maxstacksize {
        if newstack >= MAXSTACK {
          return TooComplex;
        }
        maxstacksize := newstack;
      }
      st := Ok;
    }

    method ReserveRegs(n: nat) returns (st: Status)
      requires maxstacksize < MAXSTACK
      modifies this`maxstacksize, this`freereg
      ensures maxstacksize < MAXSTACK
      ensures st == (if old(freereg) + n >= 250 then TooComplex else Ok)
      ensures freereg == if st.Ok? then old(freereg) + n else old(freereg)
      ensures maxstacksize == if st.Ok? && freereg > old(maxstacksize) then freereg else old(maxstacksize)
    {
      st := CheckStack(n);
      if st.Ok? {
        freereg := freereg + n;
      }
    }

    /** A temporary register is freed only from the top of the stack. */
    method FreeExp(ed: ExpDesc)
      requires ed.k.VNonReloc? && ed.k.r >= nactvar ==> freereg == ed.k.r + 1
      modifies this`freereg
      ensures freereg == if ed.k.VNonReloc? && ed.k.r >= nactvar then old(freereg) - 1 else old(freereg)
    {
      if ed.k.VNonReloc? && ed.k.r >= nactvar {
        freereg := freereg - 1;
      }
    }

    ghost function RolesOf(ts: seq<nat>, fs: seq<nat>): Roles
      reads this
    {
      Roles(Elems(hs), Elems(ts), Elems(fs))
    }

    /** The only register above the first `n` that is in use is the one that holds the value. */
    ghost predicate FreeOk(k: Kind, n: nat)
      reads this
    {
      && nactvar <= n < MAXSTACK
      && (k.VLocal? ==> k.r < nactvar)
      && (if k.VNonReloc? && k.r >= nactvar then k.r == n && freereg == n + 1 else freereg == n)
    }

    /** The place of a value is in the frame. */
    ghost predicate KindFits(k: Kind)
      reads this`maxstacksize
    {
      k.VLocal? || k.VNonReloc? ==> k.r < maxstacksize
    }

    /** The code emitted since `sp.cx` runs in the frame, once the jumps `s` and those that wait are patched. */
    ghost predicate Framed(sp: Task, s: set<nat>)
      reads this`code, this`hs, this`maxstacksize
    {
      maxstacksize >= 2 && InFrame(code, |sp.cx.code|, maxstacksize, Elems(hs) + s)
    }

    /** `ed` describes the code emitted since `sp.cx` for the expression `sp.e`. */
    ghost predicate Coded(ed: ExpDesc, ts: seq<nat>, fs: seq<nat>, sp: Task, x: Reg)
      reads this
    {
      && IsList(code, jpc, hs) && IsList(code, ed.t, ts) && IsList(code, ed.f, fs)
      && ExpOk(sp.cx, code, RolesOf(ts, fs), ed.k, sp.e, sp.n, x)
      && sp.n <= NO_REG && KindFits(ed.k) && Framed(sp, Elems(ts) + Elems(fs))
    }

    ghost predicate Describes(ed: ExpDesc, ts: seq<nat>, fs: seq<nat>, sp: Task)
      reads this
    {
      Valid() && FreeOk(ed.k, sp.n) && Coded(ed, ts, fs, sp, NO_REG)
    }

    method DischargeVars(ed: ExpDesc, ghost ts: seq<nat>, ghost fs: seq<nat>, ghost sp: Task) returns (ed': ExpDesc, st: Status)
      requires Coded(ed, ts, fs, sp, NO_REG)
      modifies this`code, this`jpc, this`hs
      ensures Honest(st) && st != TooComplex
      ensures st.Ok? ==> Coded(ed', ts, fs, sp, NO_REG) && ed'.t == ed.t && ed'.f == ed.f
      ensures st.Ok? ==> match ed.k
        case VLocal(r) => ed'.k == VNonReloc(r)
        case VUpval(_) => ed'.k.VReloc?
        case _ => ed' == ed
      ensures !ed.k.VUpval? ==> st.Ok? && code == old(code) && hs == old(hs) && jpc == old(jpc)
    {
      hide ExpOk, Landed, InFrame;
      ed', st := ed, Ok;
      match ed.k
      case VLocal(r) =>
        LocalIsReg(sp.cx, code, RolesOf(ts, fs), r, sp.e, sp.n, NO_REG);
        ed' := ed.(k := VNonReloc(r));
      case VUpval(u) =>
        st := Code(GetUpval(0, u));
        if !st.Ok? { return; }
        UpvalCode(sp, old(code), old(hs), u, ed.t, ed.f, ts, fs, code);
        EmitFits(sp, old(code), old(hs), Elems(ts) + Elems(fs), GetUpval(0, u));
        ed' := ed.(k := VReloc(|code| - 1));
      case _ =>
    }

    lemma EmitFits(sp: Task, c: seq<Instr>, h: seq<nat>, s: set<nat>, i: Instr)
      requires maxstacksize >= 2 && InFrame(c, |sp.cx.code|, maxstacksize, Elems(h) + s) && |sp.cx.code| <= |c|
      requires InstrFits(i, maxstacksize, false) && code == Landed(c, Elems(h), |c|) + [i] && hs == []
      ensures Framed(sp, s)
    {
      FrameEmit(c, |sp.cx.code|, maxstacksize, Elems(h), s, i);
      assert Elems(hs) + s == s;
    }

    /** Puts the value in `reg`, unless it is still a pending comparison. */
    method Discharge2Reg(ed: ExpDesc, reg: Reg, ghost ts: seq<nat>, ghost fs: seq<nat>, ghost sp: Task)
      returns (ed': ExpDesc, st: Status)
      requires Coded(ed, ts, fs, sp, NO_REG) && reg < maxstacksize
      modifies this`code, this`jpc, this`hs
      ensures Honest(st) && st != TooComplex
      ensures st.Ok? && ed.k.VJmp? ==> ed' == ed && code == old(code) && hs == old(hs) && jpc == old(jpc)
      ensures st.Ok? && !ed.k.VJmp? ==> ed' == ed.(k := VNonReloc(reg)) && Coded(ed', ts, fs, sp, reg)
    {
      ed', st := DischargeVars(ed, ts, fs, sp);
      if !st.Ok? { return; }
      ghost var c, h := code, hs;
      match ed'.k
      case VReloc(p) =>
        RelocToReg(sp.cx, code, RolesOf(ts, fs), p, reg, sp.e, sp.n, NO_REG);
        NoJumpAt(code, jpc, hs, p);
        NoJumpAt(code, ed.t, ts, p);
        NoJumpAt(code, ed.f, fs, p);
        FrameUpdate(code, |sp.cx.code|, maxstacksize, Elems(hs) + (Elems(ts) + Elems(fs)), p, WithA(code[p], reg));
        code := code[p := WithA(code[p], reg)];
        ListFrame(c, code, jpc, hs);
        ListFrame(c, code, ed.t, ts);
        ListFrame(c, code, ed.f, fs);
        ed' := ed.(k := VNonReloc(reg));
      case VNonReloc(r) =>
        if reg != r {
          MoveToReg(sp.cx, code, RolesOf(ts, fs), r, reg, sp.e, sp.n, NO_REG);
          st := Code(Move(reg, r));
          if !st.Ok? { return; }
          ListAfterEmit(c, Elems(h), code, ed.t, ts);
          ListAfterEmit(c, Elems(h), code, ed.f, fs);
          assert Elems(hs) == {};
          EmitFits(sp, c, h, Elems(ts) + Elems(fs), Move(reg, r));
        } else {
          WeakenTarget(sp.cx, code, RolesOf(ts, fs), r, sp.e, sp.n);
        }
        ed' := ed.(k := VNonReloc(reg));
      case _ =>
    }

    method Discharge2AnyReg(ed: ExpDesc, ghost ts: seq<nat>, ghost fs: seq<nat>, ghost sp: Task) returns (ed': ExpDesc, st: Status)
      requires Describes(ed, ts, fs, sp) && (ed.k.VReloc? || ed.k.VNonReloc?)
      modifies this`code, this`jpc, this`hs, this`freereg, this`maxstacksize
      ensures Honest(st) && maxstacksize >= old(maxstacksize)
      ensures st.Ok? ==> Describes(ed', ts, fs, sp) && ed'.k.VNonReloc? && ed'.t == ed.t && ed'.f == ed.f
      ensures ed.k.VNonReloc? ==> st.Ok? && ed' == ed && code == old(code) && hs == old(hs)
    {
      hide ExpOk, IsList, InFrame;
      ed', st := ed, Ok;
      if !ed.k.VNonReloc? {
        st := ReserveRegs(1);
        if !st.Ok? { return; }
        FrameGrows(code, |sp.cx.code|, old(maxstacksize), Elems(hs) + (Elems(ts) + Elems(fs)), maxstacksize, Elems(hs) + (Elems(ts) + Elems(fs)));
        ed', st := Discharge2Reg(ed, freereg - 1, ts, fs, sp);
        if !st.Ok? { return; }
        ForgetTarget(sp.cx, code, RolesOf(ts, fs), sp.n, sp.e, sp.n, NO_REG);
      }
    }

    lemma TestFits(sp: Task, c: seq<Instr>, h: seq<nat>, s: set<nat>, tst: Instr, pc: int)
      requires maxstacksize >= 2 && InFrame(c, |sp.cx.code|, maxstacksize, Elems(h) + s) && |sp.cx.code| <= |c|
      requires InstrFits(tst, maxstacksize, true) && code == Landed(c, Elems(h), |c|) + [tst, Jmp(NO_JUMP)] && hs == [] && pc == |c| + 1
      ensures Framed(sp, s + {pc as nat})
    {
      FrameTest(c, |sp.cx.code|, maxstacksize, Elems(h), s, tst);
      assert Elems(hs) + (s + {pc as nat}) == s + {|c| + 1};
    }

    /** The branch of `jumponcond` that removes a NOT just emitted and tests its operand instead. */
    method JumpOnNot(ed: ExpDesc, cond: bool, ghost ts: seq<nat>, ghost fs: seq<nat>, ghost sp: Task) returns (pc: int, st: Status)
      requires Describes(ed, ts, fs, sp) && ed.k.VReloc? && code[ed.k.pc].Not?
      modifies this`code, this`jpc, this`hs
      ensures Honest(st) && st != TooComplex
      ensures st.Ok? ==> Branched(ed, pc, cond, ts, fs, sp)
    {
      hide ExpOk, Landed, InFrame, BranchedCode;
      ghost var c, h := code, hs;
      BeforeNot(ed, ts, fs, sp);
      var tst := Test(code[ed.k.pc].b, !cond);
      code := code[..ed.k.pc];
      ghost var c0 := code;
      FrameCut(c, |sp.cx.code|, maxstacksize, Elems(h) + (Elems(ts) + Elems(fs)), ed.k.pc);
      pc, st := CondJump(tst);
      if !st.Ok? { return; }
      assert BranchedCode(sp, code, ed.t, ed.f, ts, fs, pc, cond) by {
        JumpOnNotCode(sp, c, h, ed.k, ed.t, ed.f, ts, fs, tst, cond, code);
        assert pc == ed.k.pc + 1;
      }
      TestFits(sp, c0, h, Elems(ts) + Elems(fs), tst, pc);
    }

    lemma BeforeNot(ed: ExpDesc, ts: seq<nat>, fs: seq<nat>, sp: Task)
      requires Describes(ed, ts, fs, sp) && ed.k.VReloc? && code[ed.k.pc].Not?
      ensures |sp.cx.code| <= ed.k.pc == |code| - 1 && hs == [] && InstrFits(code[ed.k.pc], maxstacksize, false)
    {
      NothingWaits(sp, code, hs, ed.k, ts, fs);
      assert InstrFits(code[ed.k.pc], maxstacksize, ed.k.pc + 1 in Elems(hs) + (Elems(ts) + Elems(fs)));
    }

    method JumpOnReg(ed: ExpDesc, cond: bool, ghost ts: seq<nat>, ghost fs: seq<nat>, ghost sp: Task) returns (pc: int, st: Status)
      requires Describes(ed, ts, fs, sp) && ed.k.VNonReloc?
      modifies this`code, this`jpc, this`hs, this`freereg
      ensures Honest(st) && st != TooComplex
      ensures st.Ok? ==> Branched(ed, pc, cond, ts, fs, sp)
    {
      hide ExpOk, Landed, InFrame, BranchedCode;
      BeforeTest(ed, ts, fs, sp);
      FreeExp(ed);
      ghost var c, h := code, hs;
      var tst := TestSet(NO_REG, ed.k.r, cond);
      pc, st := CondJump(tst);
      if !st.Ok? { return; }
      JumpOnRegCode(sp, c, h, ed.k, ed.t, ed.f, ts, fs, cond, code);
      TestFits(sp, c, h, Elems(ts) + Elems(fs), tst, pc);
    }

    lemma BeforeTest(ed: ExpDesc, ts: seq<nat>, fs: seq<nat>, sp: Task)
      requires Describes(ed, ts, fs, sp) && ed.k.VNonReloc?
      ensures |sp.cx.code| <= |code|
      ensures if ed.k.r >= nactvar then freereg == ed.k.r + 1 == sp.n + 1 else freereg == sp.n
    {
    }

    /** `condjump` in place of the pending value: its truth sends control through the new jump. */
    method JumpOnCond(ed: ExpDesc, cond: bool, ghost ts: seq<nat>, ghost fs: seq<nat>, ghost sp: Task) returns (pc: int, st: Status)
      requires Describes(ed, ts, fs, sp) && (ed.k.VReloc? || ed.k.VNonReloc?)
      modifies this`code, this`jpc, this`hs, this`freereg, this`maxstacksize
      ensures Honest(st) && maxstacksize >= old(maxstacksize)
      ensures st.Ok? ==> Branched(ed, pc, cond, ts, fs, sp)
    {
      if ed.k.VReloc? && code[ed.k.pc].Not? {
        pc, st := JumpOnNot(ed, cond, ts, fs, sp);
        return;
      }
      pc := NO_JUMP;
      var ed';
      ed', st := Discharge2AnyReg(ed, ts, fs, sp);
      if !st.Ok? { return; }
      pc, st := JumpOnReg(ed', cond, ts, fs, sp);
    }

    /** The comparison just emitted jumps on the opposite outcome. */
    method InvertJump(ed: ExpDesc)
      requires KindOk(0, code, ed.k) && ed.k.VJmp?
      modifies this`code
      ensures code == old(code)[ed.k.pc - 1 := Inverted(old(code)[ed.k.pc - 1])]
    {
      var pc := GetJumpControl(ed.k.pc);
      code := code[pc := Inverted(code[pc])];
    }

    lemma InvertedFits(sp: Task, c: seq<Instr>, s: set<nat>, p: nat, cond: bool)
      requires maxstacksize >= 2 && InFrame(c, |sp.cx.code|, maxstacksize, Elems(hs) + s) && 0 < p <= |c| && c[p - 1].Compare? && |sp.cx.code| < p
      requires code == if cond then c else c[p - 1 := Inverted(c[p - 1])]
      ensures Framed(sp, s + {p}) && Framed(sp, s)
    {
      var lo, m := |sp.cx.code|, maxstacksize;
      assert InstrFits(c[p - 1], m, p in Elems(hs) + s);
      FrameUpdate(c, lo, m, Elems(hs) + s, p - 1, Inverted(c[p - 1]));
      FrameGrows(code, lo, m, Elems(hs) + s, m, Elems(hs) + (s + {p}));
    }

    /** The comparison branch of `luaK_goiftrue` and `luaK_goiffalse`. */
    method JumpOnComparison(ed: ExpDesc, cond: bool, ghost ts: seq<nat>, ghost fs: seq<nat>, ghost sp: Task) returns (pc: int)
      requires Describes(ed, ts, fs, sp) && ed.k.VJmp?
      modifies this`code
      ensures Branched(ed, pc, cond, ts, fs, sp)
    {
      ghost var c, h := code, hs;
      NothingWaits(sp, c, h, ed.k, ts, fs);
      if !cond {
        InvertJump(ed);
      }
      pc := ed.k.pc;
      InvertedFits(sp, c, Elems(ts) + Elems(fs), ed.k.pc, cond);
      assert BranchedCode(sp, code, ed.t, ed.f, ts, fs, pc, cond) by {
        JumpOnCompareCode(sp, c, ed.k, ed.t, ed.f, ts, fs, cond, code);
      }
      assert Valid();
    }

    /** The part that `luaK_goiftrue` and `luaK_goiffalse` share: a jump leaves when the truth is `cond`. */
    method LeaveOn(ed: ExpDesc, cond: bool, ghost ts: seq<nat>, ghost fs: seq<nat>, ghost sp: Task) returns (pc: int, st: Status)
      requires Describes(ed, ts, fs, sp)
      modifies this`code, this`jpc, this`hs, this`freereg, this`maxstacksize
      ensures Honest(st) && maxstacksize >= old(maxstacksize)
      ensures st.Ok? ==> Branched(ed, pc, cond, ts, fs, sp)
    {
      pc := NO_JUMP;
      var ed';
      ed', st := DischargeVars(ed, ts, fs, sp);
      if !st.Ok? { return; }
      assert Describes(ed', ts, fs, sp);
      if ed'.k.VJmp? {
        pc := JumpOnComparison(ed', cond, ts, fs, sp);
      } else {
        pc, st := JumpOnCond(ed', cond, ts, fs, sp);
      }
    }

    /** Falls through if the expression is true; the other exits are in the list `f`. */
    method GoIfTrue(ed: ExpDesc, ghost ts: seq<nat>, ghost fs: seq<nat>, ghost sp: Task)
      returns (ed': ExpDesc, ghost fs': seq<nat>, st: Status)
      requires Describes(ed, ts, fs, sp)
      modifies this`code, this`jpc, this`hs, this`freereg, this`maxstacksize, this`lasttarget
      ensures Honest(st) && maxstacksize >= old(maxstacksize)
      ensures st.Ok? ==> ed'.t == NO_JUMP && Decided(ed', [], fs', sp, true)
    {
      hide BranchOk, Relinked, Shape, JumpsIn, InFrame;
      ed', fs' := ed, [];
      var pc;
      pc, st := LeaveOn(ed, false, ts, fs, sp);
      if !st.Ok? { return; }
      ghost var c := code;
      var f;
      f, st := Concat(ed.f, pc, fs, [pc]);  // insert last jump in `f' list
      if !st.Ok? { return; }
      fs' := fs + [pc];
      BranchToDecided(sp, c, code, ed.t, ed.f, ts, fs, pc, false);
      st := PatchToHere(ed.t, ts);
      if !st.Ok? { return; }
      DecidedFits(sp, c, ts, fs, pc, false);
      assert [] + ts == ts;
      ed' := ed.(f := f, t := NO_JUMP);
      assert hs == ts && RolesOf([], fs') == Roles(Elems(ts), {}, Elems(fs'));
      assert BranchOk(sp.cx, code, RolesOf([], fs'), sp.e, sp.n, NO_REG, true);
      assert IsList(code, ed'.t, []);
      assert Valid();
    }

    /** Falls through if the expression is false; the other exits are in the list `t`. */
    method GoIfFalse(ed: ExpDesc, ghost ts: seq<nat>, ghost fs: seq<nat>, ghost sp: Task)
      returns (ed': ExpDesc, ghost ts': seq<nat>, st: Status)
      requires Describes(ed, ts, fs, sp)
      modifies this`code, this`jpc, this`hs, this`freereg, this`maxstacksize, this`lasttarget
      ensures Honest(st) && maxstacksize >= old(maxstacksize)
      ensures st.Ok? ==> ed'.f == NO_JUMP && Decided(ed', ts', [], sp, false)
    {
      hide BranchOk, Relinked, Shape, JumpsIn, InFrame;
      ed', ts' := ed, [];
      var pc;
      pc, st := LeaveOn(ed, true, ts, fs, sp);
      if !st.Ok? { return; }
      ghost var c := code;
      var t;
      t, st := Concat(ed.t, pc, ts, [pc]);  // insert last jump in `t' list
      if !st.Ok? { return; }
      ts' := ts + [pc];
      BranchToDecided(sp, c, code, ed.t, ed.f, ts, fs, pc, true);
      st := PatchToHere(ed.f, fs);
      if !st.Ok? { return; }
      DecidedFits(sp, c, ts, fs, pc, true);
      assert [] + fs == fs;
      ed' := ed.(t := t, f := NO_JUMP);
      assert hs == fs && RolesOf(ts', []) == Roles(Elems(fs), Elems(ts'), {});
      assert BranchOk(sp.cx, code, RolesOf(ts', []), sp.e, sp.n, NO_REG, false);
      assert IsList(code, ed'.f, []);
      assert Valid();
    }

    lemma DecidedFits(sp: Task, c: seq<Instr>, ts: seq<nat>, fs: seq<nat>, pc: nat, cond: bool)
      requires maxstacksize >= 2 && InFrame(c, |sp.cx.code|, maxstacksize, Elems([]) + (Elems(ts) + Elems(fs) + {pc}))
      requires Relinked(c, code, Elems(if cond then ts else fs)) && hs == if cond then fs else ts
      ensures Framed(sp, Elems(if cond then ts + [pc] else []) + Elems(if cond then [] else fs + [pc]))
    {
      var lo, m := |sp.cx.code|, maxstacksize;
      FrameRelinked(c, code, lo, m, Elems([]) + (Elems(ts) + Elems(fs) + {pc}), Elems(if cond then ts else fs));
      assert Elems([]) + (Elems(ts) + Elems(fs) + {pc}) == Elems(hs) + (Elems(if cond then ts + [pc] else []) + Elems(if cond then [] else fs + [pc]));
    }

    /** The branch is made: what is left of the expression is one list of exits. */
    ghost predicate Decided(ed: ExpDesc, ts: seq<nat>, fs: seq<nat>, sp: Task, truth: bool)
      reads this
    {
      && Valid() && freereg == sp.n && sp.n <= NO_REG
      && IsList(code, ed.t, ts) && IsList(code, ed.f, fs)
      && BranchOk(sp.cx, code, RolesOf(ts, fs), sp.e, sp.n, NO_REG, truth)
      && Framed(sp, Elems(ts) + Elems(fs))
    }

    /** `c`, with `h` waiting, held the expression in `k`; now its negation is in `ed.k`. */
    ghost predicate Inverse(ed: ExpDesc, c: seq<Instr>, h: seq<nat>, k: Kind, ts: seq<nat>, fs: seq<nat>, sp: Task)
      reads this
    {
      && Valid() && hs == [] && IsList(code, ed.t, ts) && IsList(code, ed.f, fs) && freereg == sp.n && sp.n <= NO_REG
      && (ed.k.VReloc? || ed.k.VJmp?)
      && ExpOk(sp.cx, c, Roles(Elems(h), Elems(ts), Elems(fs)), k, sp.e, sp.n, NO_REG)
      && NotCode(c, h, k, code, ed.k) && Framed(sp, Elems(ts) + Elems(fs))
    }

    method NegateComparison(ed: ExpDesc, ghost ts: seq<nat>, ghost fs: seq<nat>, ghost sp: Task)
      requires Describes(ed, ts, fs, sp) && ed.k.VJmp?
      modifies this`code
      ensures Inverse(ed, old(code), [], ed.k, ts, fs, sp)
    {
      ghost var c := code;
      NothingWaits(sp, c, hs, ed.k, ts, fs);
      InvertJump(ed);
      assert c[ed.k.pc - 1].Compare?;
      InvertedFits(sp, c, Elems(ts) + Elems(fs), ed.k.pc, false);
      ListInverted(c, ed.k.pc - 1, code, ed.t, ts);
      ListInverted(c, ed.k.pc - 1, code, ed.f, fs);
      assert Valid();
    }

    method EmitNot(ed: ExpDesc, ghost ts: seq<nat>, ghost fs: seq<nat>, ghost sp: Task) returns (ed': ExpDesc, st: Status)
      requires Describes(ed, ts, fs, sp) && ed.k.VNonReloc?
      modifies this`code, this`jpc, this`hs, this`freereg
      ensures Honest(st) && st != TooComplex
      ensures st.Ok? ==> ed'.t == ed.t && ed'.f == ed.f && Inverse(ed', old(code), old(hs), ed.k, ts, fs, sp)
    {
      ed' := ed;
      ghost var c, h := code, hs;
      FreeExp(ed);
      st := Code(Not(0, ed.k.r));
      if !st.Ok? { return; }
      ListAfterEmit(c, Elems(h), code, ed.t, ts);
      ListAfterEmit(c, Elems(h), code, ed.f, fs);
      EmitFits(sp, c, h, Elems(ts) + Elems(fs), Not(0, ed.k.r));
      ed' := ed.(k := VReloc(|code| - 1));
      assert Valid();
    }

    method CodeNot(ed: ExpDesc, ghost ts: seq<nat>, ghost fs: seq<nat>, ghost sp: Task) returns (ed': ExpDesc, st: Status)
      requires Describes(ed, ts, fs, sp)
      modifies this`code, this`jpc, this`hs, this`freereg, this`maxstacksize
      ensures Honest(st) && maxstacksize >= old(maxstacksize)
      ensures st.Ok? ==> Describes(ed', fs, ts, sp.(e := NotE(sp.e))) && InPlace(ed'.k)
    {
      ed', st := DischargeVars(ed, ts, fs, sp);
      if !st.Ok? { return; }
      assert Describes(ed', ts, fs, sp);
      ghost var c, h, k;
      if ed'.k.VJmp? {
        c, h, k := code, [], ed'.k;
        NegateComparison(ed', ts, fs, sp);
      } else {
        ed', st := Discharge2AnyReg(ed', ts, fs, sp);
        if !st.Ok? { return; }
        c, h, k := code, hs, ed'.k;
        ed', st := EmitNot(ed', ts, fs, sp);
        if !st.Ok? { return; }
      }
      SwapLists(ed', c, h, k, ts, fs, sp);
      ed' := ed'.(t := ed'.f, f := ed'.t);
    }

    /** The end of `codenot`: true and false lists are interchanged, and lose their values. */
    method SwapLists(ed: ExpDesc, ghost c: seq<Instr>, ghost h: seq<nat>, ghost k: Kind, ghost ts: seq<nat>, ghost fs: seq<nat>, ghost sp: Task)
      requires Inverse(ed, c, h, k, ts, fs, sp)
      modifies this`code
      ensures Describes(ed.(t := ed.f, f := ed.t), fs, ts, sp.(e := NotE(sp.e)))
    {
      ghost var c' := code;
      RemoveValues(ed.t, ts);
      StrippedList(c', Elems(ts), ed.f, fs);
      StrippedList(c', Elems(ts), ed.t, ts);
      ghost var c1 := code;
      RemoveValues(ed.f, fs);
      StrippedList(c1, Elems(fs), ed.f, fs);
      StrippedList(c1, Elems(fs), ed.t, ts);
      assert Elems(hs) == {};
      FrameStripped(c', |sp.cx.code|, maxstacksize, Elems(hs) + (Elems(ts) + Elems(fs)), Elems(ts));
      FrameStripped(c1, |sp.cx.code|, maxstacksize, Elems(hs) + (Elems(ts) + Elems(fs)), Elems(fs));
      assert Elems(ts) + Elems(fs) == Elems(fs) + Elems(ts);
      NegateCode(sp, c, h, k, ts, fs, c', ed.k, code);
      assert Valid();
    }

    /** `code_label`. */
    method CodeLabel(reg: Reg, b: bool, skip: bool) returns (pc: nat, st: Status)
      requires IsList(code, jpc, hs)
      modifies this`code, this`jpc, this`hs, this`lasttarget
      ensures Honest(st) && st != TooComplex && pc == |old(code)|
      ensures st.Ok? ==> code == Landed(old(code), Elems(old(hs)), |old(code)|) + [LoadBool(reg, b, skip)] && jpc == NO_JUMP && hs == []
    {
      pc := GetLabel();
      st := Code(LoadBool(reg, b, skip));
    }

    method TwoLoads(reg: Reg) returns (pf: int, pt: int, st: Status)
      requires IsList(code, jpc, hs) && hs == []
      modifies this`code, this`jpc, this`hs, this`lasttarget
      ensures Honest(st) && st != TooComplex
      ensures pf == |old(code)| && pt == pf + 1
      ensures st.Ok? ==> code == old(code) + [LoadBool(reg, false, true), LoadBool(reg, true, false)] && jpc == NO_JUMP && hs == []
    {
      pf, pt := |code|, |code| + 1;
      ghost var c := code;
      pf, st := CodeLabel(reg, false, true);
      if !st.Ok? { return; }
      assert code == c + [LoadBool(reg, false, true)];
      pt, st := CodeLabel(reg, true, false);
      if !st.Ok? { return; }
      assert code == c + [LoadBool(reg, false, true), LoadBool(reg, true, false)];
    }

    /** Two instructions that load `false` and `true`; a value already computed jumps over them. */
    method EmitLoads(ed: ExpDesc, reg: Reg) returns (pf: int, pt: int, st: Status)
      requires IsList(code, jpc, hs) && (ed.k.VJmp? ==> hs == [])
      modifies this`code, this`jpc, this`hs, this`lasttarget
      ensures Honest(st) && st != TooComplex
      ensures st.Ok? ==>
        && |old(code)| <= |code| && code[..|old(code)|] == old(code)
        && IsList(code, jpc, hs) && hs == (if ed.k.VJmp? then [] else [|old(code)|] + old(hs))
        && TailOf(ed.k, old(code), code, Elems(old(hs)), Elems(hs), reg, pf, pt, true)
    {
      if ed.k.VJmp? {
        pf, pt, st := TwoLoads(reg);
        return;
      }
      pf, pt := NO_JUMP, NO_JUMP;
      var fj;
      ghost var c0, fs := code, [|code|] + hs;
      assert Elems(fs) == Elems(hs) + {|c0|};
      fj, st := Jump();
      if !st.Ok? { return; }
      ghost var c1 := code;
      pf, pt, st := TwoLoads(reg);
      if !st.Ok? { return; }
      ListGrown(c1, code, fj, fs);
      st := PatchToHere(fj, fs);
      assert [] + fs == fs;
    }

    method PatchExits(t: int, f: int, reg: Reg, pf: int, pt: int, ghost ts: seq<nat>, ghost fs: seq<nat>) returns (st: Status)
      requires IsList(code, jpc, hs) && IsList(code, t, ts) && IsList(code, f, fs) && Elems(hs) !! Elems(ts) !! Elems(fs)
      requires AllProduce(code, Elems(ts) + Elems(fs)) || (0 <= pf <= |code| && 0 <= pt <= |code|)
      modifies this`code, this`lasttarget
      ensures |code| == |old(code)| && Honest(st) && st != TooComplex
      ensures st.Ok? ==>
        && code == Patched(Patched(old(code), Elems(fs), |code|, reg, pf), Elems(ts), |code|, reg, pt)
        && IsList(code, jpc, hs)
    {
      ghost var c := code;
      var final := GetLabel();
      :- PatchListAux(f, final, reg, pf, fs);
      PatchedList(c, Elems(fs), final, reg, pf, t, ts);
      PatchedList(c, Elems(fs), final, reg, pf, jpc, hs);
      ghost var c1 := code;
      :- PatchListAux(t, final, reg, pt, ts);
      PatchedList(c1, Elems(ts), final, reg, pt, jpc, hs);
      st := Ok;
    }

    /** The exits are ready to be settled; `c` is the code before the pending comparison, if any,
        joined the true list. */
    ghost predicate HasExits(ed: ExpDesc, reg: Reg, c: seq<Instr>, ts: seq<nat>, fs: seq<nat>)
      reads this
    {
      && IsList(code, jpc, hs) && IsList(code, ed.t, ts) && IsList(code, ed.f, fs)
      && Elems(hs) !! Elems(ts) !! Elems(fs) && (ed.k.VJmp? ==> hs == [])
      && Relinked(c, code, Elems(ts))
    }

    method NeedValues(ed: ExpDesc, ghost c: seq<Instr>, ghost ts: seq<nat>, ghost fs: seq<nat>) returns (need: bool)
      requires IsList(code, ed.t, ts) && IsList(code, ed.f, fs) && Relinked(c, code, Elems(ts))
      ensures need == !AllProduce(c, Elems(ts) + Elems(fs))
    {
      need := NeedValue(ed.t, ts);
      if !need {
        need := NeedValue(ed.f, fs);
      }
      RelinkedValues(c, code, ts, fs);
    }

    /** In `exp2reg`: loads of `false` and `true` are emitted only if some exit does not bring a value. */
    method LoadsIfNeeded(ed: ExpDesc, reg: Reg, ghost c: seq<Instr>, ghost ts: seq<nat>, ghost fs: seq<nat>)
      returns (need: bool, pf: int, pt: int, st: Status)
      requires HasExits(ed, reg, c, ts, fs)
      modifies this`code, this`jpc, this`hs, this`lasttarget
      ensures Honest(st) && st != TooComplex
      ensures st.Ok? ==>
        && (need == !AllProduce(c, Elems(ts) + Elems(fs)))
        && |code| >= |c| && code[..|c|] == old(code)
        && (if need then TailOf(ed.k, c, code, Elems(old(hs)), Elems(hs), reg, pf, pt, true) else |code| == |c| && hs == old(hs))
        && IsList(code, jpc, hs) && IsList(code, ed.t, ts) && IsList(code, ed.f, fs)
        && Elems(hs) !! Elems(ts) !! Elems(fs)
    {
      pf, pt, st := NO_JUMP, NO_JUMP, Ok;
      ghost var c1, h := code, hs;
      need := NeedValues(ed, c, ts, fs);
      if need {
        pf, pt, st := EmitLoads(ed, reg);
        if !st.Ok? { return; }
        assert TailOf(ed.k, c, code, Elems(h), Elems(hs), reg, pf, pt, true);
        ListGrown(c1, code, ed.t, ts);
        ListGrown(c1, code, ed.f, fs);
        ListBound(c1, ed.t, ts);
        ListBound(c1, ed.f, fs);
        assert Elems(hs) <= Elems(h) + {|c1|};
      }
    }

    /** The second half of `exp2reg`. */
    method SettleExits(ed: ExpDesc, reg: Reg, ghost c: seq<Instr>, ghost ts: seq<nat>, ghost fs: seq<nat>)
      returns (need: bool, pf: int, pt: int, ghost d: seq<Instr>, st: Status)
      requires HasExits(ed, reg, c, ts, fs)
      modifies this`code, this`jpc, this`hs, this`lasttarget
      ensures Honest(st) && st != TooComplex
      ensures st.Ok? ==>
        && (need == !AllProduce(c, Elems(ts) + Elems(fs)))
        && |d| >= |c| && d[..|c|] == old(code)
        && (if need then TailOf(ed.k, c, d, Elems(old(hs)), Elems(hs), reg, pf, pt, true) else |d| == |c| && hs == old(hs))
        && code == Patched(Patched(d, Elems(fs), |d|, reg, pf), Elems(ts), |d|, reg, pt)
        && IsList(code, jpc, hs)
    {
      d := [];
      ghost var c1 := code;
      need, pf, pt, st := LoadsIfNeeded(ed, reg, c, ts, fs);
      if !st.Ok? { return; }
      d := code;
      RelinkedValues(c, c1, ts, fs);
      ListBound(c1, ed.t, ts);
      ListBound(c1, ed.f, fs);
      GrownValues(c1, d, ts, fs);
      st := PatchExits(ed.t, ed.f, reg, pf, pt, ts, fs);
    }

    /** The pending comparison joins the true list. */
    method JoinComparison(ed: ExpDesc, reg: Reg, ghost ts: seq<nat>, ghost fs: seq<nat>, ghost sp: Task) returns (t: int, st: Status)
      requires Coded(ed, ts, fs, sp, NO_REG) && ed.k.VJmp?
      modifies this`code
      ensures Honest(st) && st != TooComplex
      ensures st.Ok? ==> HasExits(ed.(t := t), reg, old(code), ts + [ed.k.pc], fs)
    {
      ghost var c, p := code, ed.k.pc;
      NothingWaits(sp, c, hs, ed.k, ts, fs);
      assert IsList(code, p, [p]) by { assert After([p], 0) == NO_JUMP; }
      assert p !in Elems(ts) && p !in Elems(fs);
      t, st := Concat(ed.t, ed.k.pc, ts, [ed.k.pc]);
      if !st.Ok? { return; }
      ListRelinked(c, code, Elems(ts), ed.f, fs);
      assert Elems(ts + [p]) == Elems(ts) + {p};
    }

    /** The expression is `ed.k` in `c`, where `h` waits, with the exits `ts` and `fs`; the code now
        differs from `c` only in that a pending comparison joined `ts`, which became `ts1`. */
    ghost predicate Unfinished(ed: ExpDesc, reg: Reg, c: seq<Instr>, h: seq<nat>, ts: seq<nat>, fs: seq<nat>, ts1: seq<nat>, sp: Task)
      reads this
    {
      && HasExits(ed, reg, c, ts1, fs) && hs == h && sp.n <= NO_REG
      && (ed.k == VNonReloc(reg) || ed.k.VJmp?) && reg != NO_REG
      && (if ed.k.VJmp? then ts1 == ts + [ed.k.pc] else ts1 == ts && code == c)
      && ExpOk(sp.cx, c, Roles(Elems(h), Elems(ts), Elems(fs)), ed.k, sp.e, sp.n, if ed.k.VJmp? then NO_REG else reg)
      && reg < maxstacksize && Framed(sp, Elems(ts1) + Elems(fs))
    }

    method FinishExp(ed: ExpDesc, reg: Reg, ghost c: seq<Instr>, ghost h: seq<nat>, ghost ts: seq<nat>, ghost fs: seq<nat>,
                     ghost ts1: seq<nat>, ghost sp: Task) returns (st: Status)
      requires Unfinished(ed, reg, c, h, ts, fs, ts1, sp)
      modifies this`code, this`jpc, this`hs, this`lasttarget
      ensures Honest(st) && st != TooComplex
      ensures st.Ok? ==> IsList(code, jpc, hs) && ExpOk(sp.cx, code, Roles(Elems(hs), {}, {}), VNonReloc(reg), sp.e, sp.n, reg) && Framed(sp, {})
    {
      st := Ok;
      if ed.t != ed.f {
        var need, pf, pt;
        ghost var d, c1 := [], code;
        need, pf, pt, d, st := SettleExits(ed, reg, c, ts1, fs);
        if !st.Ok? { return; }
        assert ts1 != [] || fs != [];
        SettledFits(sp, ed.k, c, c1, d, h, ts1, fs, reg, pf, pt, need);
        GrownRelinked(c, c1, d, ts1);
        SettledCode(sp, c, h, ed.k, ts, fs, ts1, d, code, hs, reg, pf, pt, need);
      } else {
        NoExits(code, ed.t, ts1, fs);
        assert Elems(hs) + (Elems(ts1) + Elems(fs)) == Elems(hs) + {};
      }
    }

    lemma JoinedFits(sp: Task, c: seq<Instr>, ts: seq<nat>, fs: seq<nat>, ts1: seq<nat>)
      requires maxstacksize >= 2 && InFrame(c, |sp.cx.code|, maxstacksize, Elems(hs) + (Elems(ts) + Elems(fs))) && ts <= ts1
      requires Relinked(c, code, Elems(ts1))
      ensures Framed(sp, Elems(ts1) + Elems(fs))
    {
      var lo, m := |sp.cx.code|, maxstacksize;
      FrameRelinked(c, code, lo, m, Elems(hs) + (Elems(ts) + Elems(fs)), Elems(ts1));
      FrameGrows(code, lo, m, Elems(hs) + (Elems(ts) + Elems(fs)), m, Elems(hs) + (Elems(ts1) + Elems(fs)));
    }

    lemma SettledFits(sp: Task, k: Kind, c: seq<Instr>, c1: seq<Instr>, d: seq<Instr>, h: seq<nat>, ts: seq<nat>, fs: seq<nat>, reg: Reg,
                      pf: int, pt: int, need: bool)
      requires maxstacksize >= 2 && InFrame(c1, |sp.cx.code|, maxstacksize, Elems(h) + (Elems(ts) + Elems(fs))) && reg != NO_REG && reg < maxstacksize
      requires |c1| == |c| <= |d| && d[..|c|] == c1
      requires if need then TailOf(k, c, d, Elems(h), Elems(hs), reg, pf, pt, true) else |d| == |c| && hs == h
      requires code == Patched(Patched(d, Elems(fs), |d|, reg, pf), Elems(ts), |d|, reg, pt)
      ensures Framed(sp, {})
    {
      hide InFrame, Patched;
      var lo, m := |sp.cx.code|, maxstacksize;
      FrameTail(c1, d, lo, m, Elems(h) + (Elems(ts) + Elems(fs)), reg);
      assert Elems(h) + (Elems(ts) + Elems(fs)) == Elems(h) + Elems(ts) + Elems(fs);
      FramePatched(d, lo, m, Elems(h) + Elems(ts), Elems(fs), |d|, reg, pf);
      FramePatched(Patched(d, Elems(fs), |d|, reg, pf), lo, m, Elems(h), Elems(ts), |d|, reg, pt);
      FrameGrows(code, lo, m, Elems(h), m, Elems(hs) + {});
    }

    /** `exp2reg`: wherever execution comes from, the value of the expression is in `reg`. */
    method Exp2Reg(ed: ExpDesc, reg: Reg, ghost ts: seq<nat>, ghost fs: seq<nat>, ghost sp: Task) returns (ed': ExpDesc, st: Status)
      requires Coded(ed, ts, fs, sp, NO_REG) && reg < maxstacksize < MAXSTACK
      modifies this`code, this`jpc, this`hs, this`lasttarget
      ensures Honest(st) && st != TooComplex
      ensures st.Ok? ==> ed' == ExpDesc(VNonReloc(reg), NO_JUMP, NO_JUMP) && Coded(ed', [], [], sp, reg)
    {
      ed', st := Discharge2Reg(ed, reg, ts, fs, sp);
      if !st.Ok? { return; }
      ghost var c, h, ts1 := code, hs, ts;
      if ed'.k.VJmp? {
        var t;
        t, st := JoinComparison(ed', reg, ts, fs, sp);
        if !st.Ok? { return; }
        ts1 := ts + [ed'.k.pc];
        ed' := ed'.(t := t);
      }
      JoinedFits(sp, c, ts, fs, ts1);
      assert Unfinished(ed', reg, c, h, ts, fs, ts1, sp);
      st := FinishExp(ed', reg, c, h, ts, fs, ts1, sp);
      ed' := ExpDesc(VNonReloc(reg), NO_JUMP, NO_JUMP);
      assert RolesOf([], []) == Roles(Elems(hs), {}, {}) && Elems([]) + Elems([]) == {};
    }

    method Exp2NextReg(ed: ExpDesc, ghost ts: seq<nat>, ghost fs: seq<nat>, ghost sp: Task) returns (ed': ExpDesc, st: Status)
      requires Describes(ed, ts, fs, sp)
      modifies this`code, this`jpc, this`hs, this`freereg, this`maxstacksize, this`lasttarget
      ensures Honest(st) && maxstacksize >= old(maxstacksize)
      ensures st.Ok? ==> Describes(ed', [], [], sp) && ed' == ExpDesc(VNonReloc(sp.n), NO_JUMP, NO_JUMP)
    {
      hide IsList, ExpOk;
      ed', st := DischargeVars(ed, ts, fs, sp);
      if !st.Ok? { return; }
      FreeExp(ed');
      st := ReserveRegs(1);
      if !st.Ok? { return; }
      assert freereg == sp.n + 1;
      FrameGrows(code, |sp.cx.code|, old(maxstacksize), Elems(hs) + (Elems(ts) + Elems(fs)), maxstacksize, Elems(hs) + (Elems(ts) + Elems(fs)));
      ed', st := Exp2Reg(ed', freereg - 1, ts, fs, sp);
      if !st.Ok? { return; }
      ForgetTarget(sp.cx, code, RolesOf([], []), sp.n, sp.e, sp.n, NO_REG);
    }

    method Exp2AnyReg(ed: ExpDesc, ghost ts: seq<nat>, ghost fs: seq<nat>, ghost sp: Task) returns (ed': ExpDesc, st: Status)
      requires Describes(ed, ts, fs, sp)
      modifies this`code, this`jpc, this`hs, this`freereg, this`maxstacksize, this`lasttarget
      ensures Honest(st) && maxstacksize >= old(maxstacksize)
      ensures st.Ok? ==> Describes(ed', [], [], sp) && ed'.k.VNonReloc? && ed'.t == ed'.f == NO_JUMP
    {
      ed', st := DischargeVars(ed, ts, fs, sp);
      if !st.Ok? { return; }
      assert Describes(ed', ts, fs, sp);
      if ed'.k.VNonReloc? {
        if ed'.t == ed'.f {
          NoExits(code, ed'.t, ts, fs);
          return;
        }
        if ed'.k.r >= nactvar {
          ed', st := Exp2Reg(ed', ed'.k.r, ts, fs, sp);
          if !st.Ok? { return; }
          ForgetTarget(sp.cx, code, RolesOf([], []), sp.n, sp.e, sp.n, NO_REG);
          return;
        }
      }
      ed', st := Exp2NextReg(ed', ts, fs, sp);
    }

    method Exp2Val(ed: ExpDesc, ghost ts: seq<nat>, ghost fs: seq<nat>, ghost sp: Task) returns (ed': ExpDesc, st: Status)
      requires Describes(ed, ts, fs, sp)
      modifies this`code, this`jpc, this`hs, this`freereg, this`maxstacksize, this`lasttarget
      ensures Honest(st) && maxstacksize >= old(maxstacksize)
      ensures st.Ok? ==> Describes(ed', [], [], sp)
    {
      if ed.t != ed.f {
        ed', st := Exp2AnyReg(ed, ts, fs, sp);
      } else {
        NoExits(code, ed.t, ts, fs);
        ed', st := DischargeVars(ed, ts, fs, sp);
      }
    }

    /** No constants here, so the operand is always a register. */
    method Exp2RK(ed: ExpDesc, ghost ts: seq<nat>, ghost fs: seq<nat>, ghost sp: Task) returns (ed': ExpDesc, st: Status)
      requires Describes(ed, ts, fs, sp)
      modifies this`code, this`jpc, this`hs, this`freereg, this`maxstacksize, this`lasttarget
      ensures Honest(st) && maxstacksize >= old(maxstacksize)
      ensures st.Ok? ==> Describes(ed', [], [], sp) && ed'.k.VNonReloc? && ed'.t == ed'.f == NO_JUMP
    {
      ed', st := Exp2Val(ed, ts, fs, sp);
      if !st.Ok? { return; }
      ed', st := Exp2AnyReg(ed', [], [], sp);
    }

    /** The end of `codecomp`: both operands are in registers, and the temporary ones free again. */
    method CompareRegs(op: BinOp, o1: Reg, o2: Reg, ghost c1: seq<Instr>, ghost h1: seq<nat>, ghost sp1: Task, ghost sp2: Task,
                       ghost sp: Task) returns (ed': ExpDesc, st: Status)
      requires Valid() && OperandOk(o1, c1, h1, sp1, sp2) && sp1.n == freereg <= sp2.n < MAXSTACK
      requires ExpOk(sp2.cx, code, Roles(Elems(hs), {}, {}), VNonReloc(o2), sp2.e, sp2.n, NO_REG) && o1 < sp2.n
      requires sp == Task(sp1.cx, Comp(op, sp1.e, sp2.e), sp1.n)
      requires InFrame(c1, |sp1.cx.code|, maxstacksize, Elems(h1)) && Framed(sp2, {}) && o1 < maxstacksize && o2 < maxstacksize
      modifies this`code, this`jpc, this`hs
      ensures Honest(st) && st != TooComplex
      ensures st.Ok? ==> Describes(ed', [], [], sp) && ed'.k.VJmp?
    {
      hide Landed, Scoped, InFrame;
      ghost var c2, h2 := code, hs;
      ScopedMore(sp2.e, nactvar, sp1.n);
      ed' := ExpDesc(VJmp(|code| + 1), NO_JUMP, NO_JUMP);
      var j;
      j, st := CondJump(CompareInstr(op, o1, o2));
      if !st.Ok? { return; }
      CompareCode(sp1, c1, h1, o1, sp2, c2, h2, o2, op, code);
      assert RolesOf([], []) == Roles({}, {}, {});
      ComparedFits(sp1, c1, h1, sp2, c2, h2, CompareInstr(op, o1, o2));
    }

    lemma ComparedFits(sp1: Task, c1: seq<Instr>, h1: seq<nat>, sp2: Task, c2: seq<Instr>, h2: seq<nat>, cmp: Instr)
      requires maxstacksize >= 2 && InFrame(c1, |sp1.cx.code|, maxstacksize, Elems(h1)) && sp2.cx == Ctx(c1, Elems(h1))
      requires InFrame(c2, |c1|, maxstacksize, Elems(h2) + {}) && Shape(sp2.cx, c2, Roles(Elems(h2), {}, {})) && |sp1.cx.code| <= |c2|
      requires cmp.Compare? && InstrFits(cmp, maxstacksize, false) && code == Landed(c2, Elems(h2), |c2|) + [cmp, Jmp(NO_JUMP)] && hs == []
      ensures Framed(sp1, Elems([]) + Elems([]))
    {
      var lo, m := |sp1.cx.code|, maxstacksize;
      assert Elems(h1) + {} == Elems(h1) && Roles(Elems(h2), {}, {}).All() == Elems(h2) + {};
      FrameJoined(lo, c1, Elems(h1), {}, c2, Roles(Elems(h2), {}, {}), m);
      assert Elems(h2) + {} + {} == Elems(h2) + {};
      FrameTest(c2, lo, m, Elems(h2), {}, cmp);
      forall q | lo <= q < |code|
        ensures InstrFits(code[q], m, q + 1 in Elems(hs) + (Elems([]) + Elems([])))
      {
        assert InstrFits(code[q], m, q + 1 in {} + {|c2| + 1});
      }
    }

    /** `codecomp`; `luaK_infix` has already put the first operand in a register, so that
        `luaK_exp2RK` finds nothing to do for it. */
    method CodeComp(op: BinOp, ed1: ExpDesc, ed2: ExpDesc, ghost ts: seq<nat>, ghost fs: seq<nat>, ghost c1: seq<Instr>, ghost h1: seq<nat>,
                    ghost sp1: Task, ghost sp2: Task) returns (ed': ExpDesc, st: Status)
      requires ed1.k.VNonReloc? && OperandOk(ed1.k.r, c1, h1, sp1, sp2)
      requires Describes(ed2, ts, fs, sp2) && InFrame(c1, |sp1.cx.code|, maxstacksize, Elems(h1))
      modifies this`code, this`jpc, this`hs, this`freereg, this`maxstacksize, this`lasttarget
      ensures Honest(st) && maxstacksize >= old(maxstacksize)
      ensures st.Ok? ==> Describes(ed', [], [], sp1.(e := Comp(op, sp1.e, sp2.e))) && ed'.k.VJmp?
    {
      ed', st := Exp2RK(ed2, ts, fs, sp2);
      if !st.Ok? { return; }
      assert RolesOf([], []) == Roles(Elems(hs), {}, {}) && Elems([]) + Elems([]) == {};
      FrameGrows(c1, |sp1.cx.code|, old(maxstacksize), Elems(h1), maxstacksize, Elems(h1));
      FreeExp(ed');
      FreeExp(ed1);
      ed', st := CompareRegs(op, ed1.k.r, ed'.k.r, c1, h1, sp1, sp2, sp1.(e := Comp(op, sp1.e, sp2.e)));
    }

    /** The first operand was in register `o1` when the second was begun, above it. */
    ghost predicate OperandOk(o1: Reg, c1: seq<Instr>, h1: seq<nat>, sp1: Task, sp2: Task) {
      && ExpOk(sp1.cx, c1, Roles(Elems(h1), {}, {}), VNonReloc(o1), sp1.e, sp1.n, NO_REG)
      && sp2.cx == Ctx(c1, Elems(h1)) && Scoped(sp2.e, nactvar)
      && nactvar <= sp1.n && sp2.n == (if o1 >= nactvar then sp1.n + 1 else sp1.n) && (o1 >= nactvar ==> o1 == sp1.n)
    }

    /** No register beyond the local variables is in use for the value. */
    predicate InPlace(k: Kind) {
      k.VNonReloc? ==> k.r < nactvar
    }

    lemma ConnectedFits(sp1: Task, c1: seq<Instr>, h1: seq<nat>, ss: seq<nat>, c2: seq<Instr>, ts: seq<nat>, fs: seq<nat>, l: seq<nat>, sp2: Task)
      requires maxstacksize >= 2 && InFrame(c1, |sp1.cx.code|, maxstacksize, Elems(h1) + Elems(ss)) && sp2.cx == Ctx(c1, Elems(h1))
      requires InFrame(c2, |c1|, maxstacksize, Elems(hs) + (Elems(ts) + Elems(fs))) && Shape(sp2.cx, c2, Roles(Elems(hs), Elems(ts), Elems(fs)))
      requires Relinked(c2, code, Elems(l))
      ensures Framed(sp1, Elems(ts) + Elems(fs) + Elems(ss))
    {
      var lo, m, ro2 := |sp1.cx.code|, maxstacksize, Roles(Elems(hs), Elems(ts), Elems(fs));
      assert ro2.All() == Elems(hs) + (Elems(ts) + Elems(fs));
      FrameJoined(lo, c1, Elems(h1), Elems(ss), c2, ro2, m);
      assert ro2.All() + Elems(ss) == Elems(hs) + (Elems(ts) + Elems(fs) + Elems(ss));
      FrameRelinked(c2, code, lo, m, Elems(hs) + (Elems(ts) + Elems(fs) + Elems(ss)), Elems(l));
    }

    method JoinFalse(ed1: ExpDesc, ed2: ExpDesc, ghost ss: seq<nat>, ghost ts: seq<nat>, ghost fs: seq<nat>,
                     ghost c1: seq<Instr>, ghost h1: seq<nat>, ghost sp1: Task, ghost sp2: Task)
      returns (ed': ExpDesc, st: Status)
      requires FirstOk(true, ed1.f, ss, c1, h1, sp1, sp2)
      requires Describes(ed2, ts, fs, sp2) && Scoped(sp2.e, nactvar)
      requires InFrame(c1, |sp1.cx.code|, maxstacksize, Elems(h1) + Elems(ss))
      modifies this`code
      ensures Honest(st) && st != TooComplex
      ensures st.Ok? ==> ed'.k == ed2.k && Describes(ed', ts, fs + ss, sp1.(e := And(sp1.e, sp2.e)))
    {
      ghost var c2 := code;
      ScopedMore(sp2.e, nactvar, sp1.n);
      ConnectLists(true, ed1.f, ss, ts, fs, hs, c1, h1, code, ed2.k, sp1, sp2);
      var l;
      l, st := Concat(ed2.f, ed1.f, fs, ss);
      ed' := ed2.(f := l);
      if !st.Ok? { return; }
      ConnectCode(true, ss, ts, fs, hs, c1, h1, c2, code, ed2.k, sp1, sp2);
      ListRelinked(c2, code, Elems(fs), ed2.t, ts);
      ListRelinked(c2, code, Elems(fs), jpc, hs);
      ConnectedFits(sp1, c1, h1, ss, c2, ts, fs, fs, sp2);
      assert Elems(ts) + Elems(fs + ss) == Elems(ts) + Elems(fs) + Elems(ss);
      assert Valid();
    }

    method JoinTrue(ed1: ExpDesc, ed2: ExpDesc, ghost ss: seq<nat>, ghost ts: seq<nat>, ghost fs: seq<nat>,
                     ghost c1: seq<Instr>, ghost h1: seq<nat>, ghost sp1: Task, ghost sp2: Task)
      returns (ed': ExpDesc, st: Status)
      requires FirstOk(false, ed1.t, ss, c1, h1, sp1, sp2)
      requires Describes(ed2, ts, fs, sp2) && Scoped(sp2.e, nactvar)
      requires InFrame(c1, |sp1.cx.code|, maxstacksize, Elems(h1) + Elems(ss))
      modifies this`code
      ensures Honest(st) && st != TooComplex
      ensures st.Ok? ==> ed'.k == ed2.k && Describes(ed', ts + ss, fs, sp1.(e := Or(sp1.e, sp2.e)))
    {
      ghost var c2 := code;
      ScopedMore(sp2.e, nactvar, sp1.n);
      ConnectLists(false, ed1.t, ss, ts, fs, hs, c1, h1, code, ed2.k, sp1, sp2);
      var l;
      l, st := Concat(ed2.t, ed1.t, ts, ss);
      ed' := ed2.(t := l);
      if !st.Ok? { return; }
      ConnectCode(false, ss, ts, fs, hs, c1, h1, c2, code, ed2.k, sp1, sp2);
      ListRelinked(c2, code, Elems(ts), ed2.f, fs);
      ListRelinked(c2, code, Elems(ts), jpc, hs);
      ConnectedFits(sp1, c1, h1, ss, c2, ts, fs, ts, sp2);
      assert Elems(ts + ss) + Elems(fs) == Elems(ts) + Elems(fs) + Elems(ss);
      assert Valid();
    }

    /** `luaK_posfix` for `and`: the second operand takes over the exits of the first. */
    method PosfixAnd(ed1: ExpDesc, ed2: ExpDesc, ghost ss: seq<nat>, ghost ts: seq<nat>, ghost fs: seq<nat>,
                     ghost c1: seq<Instr>, ghost h1: seq<nat>, ghost sp1: Task, ghost sp2: Task)
      returns (ed': ExpDesc, st: Status)
      requires FirstOk(true, ed1.f, ss, c1, h1, sp1, sp2)
      requires Describes(ed2, ts, fs, sp2) && Scoped(sp2.e, nactvar)
      requires InFrame(c1, |sp1.cx.code|, maxstacksize, Elems(h1) + Elems(ss))
      modifies this`code, this`jpc, this`hs
      ensures Honest(st) && st != TooComplex
      ensures st.Ok? ==> Describes(ed', ts, fs + ss, sp1.(e := And(sp1.e, sp2.e)))
      ensures st.Ok? && InPlace(ed2.k) ==> InPlace(ed'.k)
    {
      ed', st := DischargeVars(ed2, ts, fs, sp2);
      if !st.Ok? { return; }
      assert Describes(ed', ts, fs, sp2);
      ed', st := JoinFalse(ed1, ed', ss, ts, fs, c1, h1, sp1, sp2);
    }

    /** `luaK_posfix` for `or`: the second operand takes over the exits of the first. */
    method PosfixOr(ed1: ExpDesc, ed2: ExpDesc, ghost ss: seq<nat>, ghost ts: seq<nat>, ghost fs: seq<nat>,
                     ghost c1: seq<Instr>, ghost h1: seq<nat>, ghost sp1: Task, ghost sp2: Task)
      returns (ed': ExpDesc, st: Status)
      requires FirstOk(false, ed1.t, ss, c1, h1, sp1, sp2)
      requires Describes(ed2, ts, fs, sp2) && Scoped(sp2.e, nactvar)
      requires InFrame(c1, |sp1.cx.code|, maxstacksize, Elems(h1) + Elems(ss))
      modifies this`code, this`jpc, this`hs
      ensures Honest(st) && st != TooComplex
      ensures st.Ok? ==> Describes(ed', ts + ss, fs, sp1.(e := Or(sp1.e, sp2.e)))
      ensures st.Ok? && InPlace(ed2.k) ==> InPlace(ed'.k)
    {
      ed', st := DischargeVars(ed2, ts, fs, sp2);
      if !st.Ok? { return; }
      assert Describes(ed', ts, fs, sp2);
      ed', st := JoinTrue(ed1, ed', ss, ts, fs, c1, h1, sp1, sp2);
    }

    ghost predicate Ready(e: Expr)
      reads this
    {
      Valid() && TestsPaired(code) && JumpsIn(code, Elems(hs), 0) && Scoped(e, nactvar)
    }

    method SubAnd(a: Expr, b: Expr, ghost e: Expr) returns (ed: ExpDesc, ghost ts: seq<nat>, ghost fs: seq<nat>, st: Status)
      requires e == And(a, b) && Ready(e)
      modifies this`code, this`jpc, this`hs, this`freereg, this`maxstacksize, this`lasttarget
      ensures Honest(st) && maxstacksize >= old(maxstacksize)
      ensures st.Ok? ==> Describes(ed, ts, fs, Task(Ctx(old(code), Elems(old(hs))), e, old(freereg))) && InPlace(ed.k)
      decreases e, 0
    {
      ghost var sp1 := Task(Ctx(code, Elems(hs)), a, freereg);
      ed, ts, fs, st := Subexpr(a);
      if !st.Ok? { return; }
      var ed1;
      ghost var ss;
      ed1, ss, st := GoIfTrue(ed, ts, fs, sp1);
      if !st.Ok? { return; }
      ghost var c1, h1 := code, hs;
      ghost var sp2 := Task(Ctx(c1, Elems(h1)), b, freereg);
      assert FirstOk(true, ed1.f, ss, c1, h1, sp1, sp2) by { assert Elems([]) == {}; }
      assert InFrame(c1, |sp1.cx.code|, maxstacksize, Elems(h1) + Elems(ss)) by { assert Elems(h1) + (Elems([]) + Elems(ss)) == Elems(h1) + Elems(ss); }
      ghost var m := maxstacksize;
      ed, ts, fs, st := Subexpr(b);
      if !st.Ok? { return; }
      FrameGrows(c1, |sp1.cx.code|, m, Elems(h1) + Elems(ss), maxstacksize, Elems(h1) + Elems(ss));
      ed, st := PosfixAnd(ed1, ed, ss, ts, fs, c1, h1, sp1, sp2);
      fs := fs + ss;
    }

    method SubOr(a: Expr, b: Expr, ghost e: Expr) returns (ed: ExpDesc, ghost ts: seq<nat>, ghost fs: seq<nat>, st: Status)
      requires e == Or(a, b) && Ready(e)
      modifies this`code, this`jpc, this`hs, this`freereg, this`maxstacksize, this`lasttarget
      ensures Honest(st) && maxstacksize >= old(maxstacksize)
      ensures st.Ok? ==> Describes(ed, ts, fs, Task(Ctx(old(code), Elems(old(hs))), e, old(freereg))) && InPlace(ed.k)
      decreases e, 0
    {
      ghost var sp1 := Task(Ctx(code, Elems(hs)), a, freereg);
      ed, ts, fs, st := Subexpr(a);
      if !st.Ok? { return; }
      var ed1;
      ghost var ss;
      ed1, ss, st := GoIfFalse(ed, ts, fs, sp1);
      if !st.Ok? { return; }
      ghost var c1, h1 := code, hs;
      ghost var sp2 := Task(Ctx(c1, Elems(h1)), b, freereg);
      assert FirstOk(false, ed1.t, ss, c1, h1, sp1, sp2) by { assert Elems([]) == {}; }
      assert InFrame(c1, |sp1.cx.code|, maxstacksize, Elems(h1) + Elems(ss)) by { assert Elems(h1) + (Elems(ss) + Elems([])) == Elems(h1) + Elems(ss); }
      ghost var m := maxstacksize;
      ed, ts, fs, st := Subexpr(b);
      if !st.Ok? { return; }
      FrameGrows(c1, |sp1.cx.code|, m, Elems(h1) + Elems(ss), maxstacksize, Elems(h1) + Elems(ss));
      ed, st := PosfixOr(ed1, ed, ss, ts, fs, c1, h1, sp1, sp2);
      ts := ts + ss;
    }

    method SubComp(op: BinOp, a: Expr, b: Expr, ghost e: Expr) returns (ed: ExpDesc, st: Status)
      requires e == Comp(op, a, b) && Ready(e)
      modifies this`code, this`jpc, this`hs, this`freereg, this`maxstacksize, this`lasttarget
      ensures Honest(st) && maxstacksize >= old(maxstacksize)
      ensures st.Ok? ==> Describes(ed, [], [], Task(Ctx(old(code), Elems(old(hs))), e, old(freereg))) && InPlace(ed.k)
      decreases e, 0
    {
      ghost var sp1 := Task(Ctx(code, Elems(hs)), a, freereg);
      ghost var ts, fs;
      ed, ts, fs, st := Subexpr(a);
      if !st.Ok? { return; }
      var ed1;
      ed1, st := Exp2RK(ed, ts, fs, sp1);
      if !st.Ok? { return; }
      ghost var c1, h1 := code, hs;
      ghost var sp2 := Task(Ctx(c1, Elems(h1)), b, freereg);
      assert OperandOk(ed1.k.r, c1, h1, sp1, sp2) by { assert Elems([]) == {}; }
      assert InFrame(c1, |sp1.cx.code|, maxstacksize, Elems(h1)) by { assert Elems(h1) + (Elems([]) + Elems([])) == Elems(h1); }
      ghost var m := maxstacksize;
      ed, ts, fs, st := Subexpr(b);
      if !st.Ok? { return; }
      FrameGrows(c1, |sp1.cx.code|, m, Elems(h1), maxstacksize, Elems(h1));
      ed, st := CodeComp(op, ed1, ed, ts, fs, c1, h1, sp1, sp2);
    }

    /** `subexpr` of lua/lparser.c, the part that drives the code generator. */
    method Subexpr(e: Expr) returns (ed: ExpDesc, ghost ts: seq<nat>, ghost fs: seq<nat>, st: Status)
      requires Ready(e)
      modifies this`code, this`jpc, this`hs, this`freereg, this`maxstacksize, this`lasttarget
      ensures Honest(st) && maxstacksize >= old(maxstacksize)
      ensures st.Ok? ==> Describes(ed, ts, fs, Task(Ctx(old(code), Elems(old(hs))), e, old(freereg))) && InPlace(ed.k)
      decreases e, 1
    {
      ed, ts, fs, st := ExpDesc(VUpval(0), NO_JUMP, NO_JUMP), [], [], Ok;
      match e
      case LocalVar(r) =>
        ed := ed.(k := VLocal(r));
        LeafCode(Ctx(code, Elems(hs)), e, ed.k, freereg);
        assert RolesOf([], []) == Roles(Elems(hs), {}, {});
      case Upvalue(u) =>
        ed := ed.(k := VUpval(u));
        LeafCode(Ctx(code, Elems(hs)), e, ed.k, freereg);
        assert RolesOf([], []) == Roles(Elems(hs), {}, {});
      case NotE(a) =>
        ghost var sp := Task(Ctx(code, Elems(hs)), a, freereg);
        ed, ts, fs, st := Subexpr(a);
        if !st.Ok? { return; }
        ed, st := CodeNot(ed, ts, fs, sp);
        ts, fs := fs, ts;
      case And(a, b) => ed, ts, fs, st := SubAnd(a, b, e);
      case Or(a, b) => ed, ts, fs, st := SubOr(a, b, e);
      case Comp(op, a, b) => ed, st := SubComp(op, a, b, e);
    }

    /** An assignment `dest = e` to a local variable (`luaK_storevar`), then the next instruction.
        Whatever the values and comparisons are, the interpreter gets from where the code of the
        assignment begins to that instruction with the value of `e` in `dest` and every other
        register in use unchanged; earlier code only had its waiting jumps patched. */
    method AssignLocal(dest: Reg, e: Expr, next: Instr) returns (st: Status)
      requires Ready(e) && dest < nactvar
      modifies this`code, this`jpc, this`hs, this`freereg, this`maxstacksize, this`lasttarget
      ensures Honest(st) && maxstacksize >= old(maxstacksize)
      ensures st.Ok? ==> Valid() && freereg == old(freereg) && hs == []
      ensures st.Ok? ==> Computes(old(code), Elems(old(hs)), code, next, dest, e, old(freereg))
      ensures st.Ok? ==> InFrame(code[..|code| - 1], |old(code)|, maxstacksize, {})
    {
      ghost var cx, n := Ctx(code, Elems(hs)), freereg;
      var ed;
      ghost var ts, fs;
      ed, ts, fs, st := Subexpr(e);
      if !st.Ok? { return; }
      FreeExp(ed);
      ed, st := Exp2Reg(ed, dest, ts, fs, Task(cx, e, n));
      if !st.Ok? { return; }
      ghost var c, h := code, hs;
      assert RolesOf([], []) == Roles(Elems(h), {}, {});
      st := Code(next);
      if !st.Ok? { return; }
      FinalFits(Task(cx, e, n), c, h, next);
      FinalCode(cx, c, Elems(h), dest, e, n, code, next);
      assert Valid();
    }

    /** `local x = e`, or any other place where the value goes to the next free register. */
    method PushExp(e: Expr, next: Instr) returns (st: Status)
      requires Ready(e)
      modifies this`code, this`jpc, this`hs, this`freereg, this`maxstacksize, this`lasttarget
      ensures Honest(st) && maxstacksize >= old(maxstacksize)
      ensures st.Ok? ==> Valid() && freereg == old(freereg) + 1 && hs == []
      ensures st.Ok? ==> Computes(old(code), Elems(old(hs)), code, next, old(freereg), e, old(freereg))
      ensures st.Ok? ==> InFrame(code[..|code| - 1], |old(code)|, maxstacksize, {})
    {
      ghost var cx, n := Ctx(code, Elems(hs)), freereg;
      var ed;
      ghost var ts, fs;
      ed, ts, fs, st := Subexpr(e);
      if !st.Ok? { return; }
      ed, st := Exp2NextReg(ed, ts, fs, Task(cx, e, n));
      if !st.Ok? { return; }
      ghost var c, h := code, hs;
      assert RolesOf([], []) == Roles(Elems(h), {}, {});
      WeakenTarget(cx, c, Roles(Elems(h), {}, {}), n, e, n);
      st := Code(next);
      if !st.Ok? { return; }
      FinalFits(Task(cx, e, n), c, h, next);
      FinalCode(cx, c, Elems(h), n, e, n, code, next);
      assert Valid();
    }

    lemma FinalFits(sp: Task, c: seq<Instr>, h: seq<nat>, next: Instr)
      requires InFrame(c, |sp.cx.code|, maxstacksize, Elems(h) + (Elems([]) + Elems([]))) && code == Landed(c, Elems(h), |c|) + [next]
      ensures |code| > 0 && InFrame(code[..|code| - 1], |sp.cx.code|, maxstacksize, {})
    {
      var lo, m, d := |sp.cx.code|, maxstacksize, code[..|code| - 1];
      forall q | lo <= q < |c|
        ensures InstrFits(d[q], m, false)
      {
        assert InstrFits(c[q], m, q + 1 in Elems(h) + (Elems([]) + Elems([])));
      }
    }

    ghost predicate Branched(ed: ExpDesc, pc: int, cond: bool, ts: seq<nat>, fs: seq<nat>, sp: Task)
      reads this
    {
      && Valid() && hs == [] && freereg == sp.n && BranchedCode(sp, code, ed.t, ed.f, ts, fs, pc, cond)
      && Framed(sp, Elems(ts) + Elems(fs) + {pc as nat})
    }
  }

  /** The code leaves through the jump `pc`, not yet in a list, when the truth of the expression is `cond`. */
  ghost predicate BranchedCode(sp: Task, c: seq<Instr>, t: int, f: int, ts: seq<nat>, fs: seq<nat>, pc: int, cond: bool) {
    && sp.n <= NO_REG && IsList(c, t, ts) && IsList(c, f, fs) && 0 <= pc && IsList(c, pc, [pc])
    && |sp.cx.code| < |c| && pc !in ts && pc !in fs
    && BranchOk(sp.cx, c, AddExit(Roles({}, Elems(ts), Elems(fs)), pc, cond), sp.e, sp.n, NO_REG, !cond)
  }

  lemma PatchStart(c: seq<Instr>, head: int, s: seq<nat>)
    requires IsList(c, head, s)
    ensures Elems(s[..0]) == {} && NO_JUMP < 0 && head == if s == [] then NO_JUMP else s[0]
  {
  }

  /** One round of `patchlistaux` extends the patched part of the list. */
  lemma PatchTurn(c0: seq<Instr>, head: int, s: seq<nat>, i: nat, vt: int, reg: Reg, dt: int)
    requires IsList(c0, head, s) && i < |s| && (AllProduce(c0, Elems(s)) || 0 <= dt <= |c0|)
    ensures var c := Patched(c0, Elems(s[..i]), vt, reg, dt); var p := s[i];
            && p < |c| && c[p].Jmp? && (!ProducesValue(c, p) ==> 0 <= dt <= |c|)
            && GetJump(c, p) == (if i + 1 < |s| then s[i + 1] else NO_JUMP)
            && OnePatched(c, p, vt, reg, dt) == Patched(c0, Elems(s[..i + 1]), vt, reg, dt)
  {
    assert s[i] in Elems(s) && GetJump(c0, s[i]) == After(s, i);
    ElemsStep(s, i);
    JumpSurvives(c0, Elems(s[..i]), vt, reg, dt, s[i]);
    PatchOneMore(c0, Elems(s[..i]), s[i], vt, reg, dt);
    hide Patched, OnePatched;
  }

  lemma ElemsEmpty(s: seq<nat>)
    ensures Elems(s) == {} <==> s == []
  {
    if s != [] { assert s[0] in Elems(s); }
  }

  lemma NothingWaits(sp: Task, c: seq<Instr>, h: seq<nat>, k: Kind, ts: seq<nat>, fs: seq<nat>)
    requires ExpOk(sp.cx, c, Roles(Elems(h), Elems(ts), Elems(fs)), k, sp.e, sp.n, NO_REG) && (k.VReloc? || k.VJmp?)
    ensures h == []
  {
    ElemsEmpty(h);
  }

  lemma DecidesNot(c: seq<Instr>, k: Kind, tst: Instr, cond: bool)
    requires KindOk(0, c, k) && k.VReloc? && c[k.pc].Not? && tst == Test(c[k.pc].b, !cond)
    ensures forall w: World, r: Regs :: Decides(w, c, k, tst, cond, r)
  {
  }

  lemma DecidesTestSet(c: seq<Instr>, k: Kind, cond: bool)
    requires k.VNonReloc?
    ensures forall w: World, r: Regs :: Decides(w, c, k, TestSet(NO_REG, k.r, cond), cond, r)
  {
  }

  lemma JumpOnLists(sp: Task, c: seq<Instr>, h: seq<nat>, k: Kind, t: int, f: int, ts: seq<nat>, fs: seq<nat>, tst: Instr, cond: bool,
                    mid: nat, c': seq<Instr>)
    requires var ro := Roles(Elems(h), Elems(ts), Elems(fs));
      ExpOk(sp.cx, c, ro, k, sp.e, sp.n, NO_REG) && IsTest(tst) && mid == EndOf(c, k)
      && (forall w: World, r: Regs :: Decides(w, c, k, tst, cond, r))
      && |c'| == mid + 2 && c'[mid] == tst && c'[mid + 1] == Jmp(NO_JUMP)
      && (forall q :: 0 <= q < mid ==> c'[q] == Landed(c, ro.h, |c|)[q])
    requires IsList(c, t, ts) && IsList(c, f, fs) && sp.n <= NO_REG
    ensures BranchedCode(sp, c', t, f, ts, fs, mid + 1, cond)
  {
    var ro := Roles(Elems(h), Elems(ts), Elems(fs));
    JumpOn(sp.cx, c, ro, k, tst, cond, sp.e, sp.n, NO_REG, mid, c');
    ExitsBeforeEnd(sp.cx, c, ro, k, sp.e, sp.n, NO_REG);
    ListAfterPatch(c, ro.h, mid, c', t, ts);
    ListAfterPatch(c, ro.h, mid, c', f, fs);
    assert mid + 1 !in Elems(ts) && mid + 1 !in Elems(fs);
    assert IsList(c', mid + 1, [mid + 1]) by { assert After([mid + 1], 0) == NO_JUMP; }
  }

  function Inverted(i: Instr): Instr {
    if i.Compare? then i.(cond := !i.cond) else i
  }

  lemma JumpOnCompareCode(sp: Task, c: seq<Instr>, k: Kind, t: int, f: int, ts: seq<nat>, fs: seq<nat>, cond: bool, c': seq<Instr>)
    requires ExpOk(sp.cx, c, Roles({}, Elems(ts), Elems(fs)), k, sp.e, sp.n, NO_REG) && k.VJmp?
    requires IsList(c, t, ts) && IsList(c, f, fs) && sp.n <= NO_REG
    requires c' == if cond then c else c[k.pc - 1 := Inverted(c[k.pc - 1])]
    ensures BranchedCode(sp, c', t, f, ts, fs, k.pc, cond)
  {
    var tst := c'[k.pc - 1];
    DecidesCompare(c, k, tst, cond);
    JumpOnLists(sp, c, [], k, t, f, ts, fs, tst, cond, k.pc - 1, c');
  }

  lemma DecidesCompare(c: seq<Instr>, k: Kind, tst: Instr, cond: bool)
    requires KindOk(0, c, k) && k.VJmp? && tst == if cond then c[k.pc - 1] else Inverted(c[k.pc - 1])
    ensures forall w: World, r: Regs :: Decides(w, c, k, tst, cond, r)
  {
  }

  /** The new jump joins its list, and the exits of the other list wait for the next instruction. */
  lemma BranchToDecided(sp: Task, c: seq<Instr>, c': seq<Instr>, t: int, f: int, ts: seq<nat>, fs: seq<nat>, pc: int, cond: bool)
    requires BranchedCode(sp, c, t, f, ts, fs, pc, cond)
    requires Relinked(c, c', Elems(if cond then ts else fs))
    ensures cond ==> BranchOk(sp.cx, c', Roles(Elems(fs), Elems(ts + [pc as nat]), {}), sp.e, sp.n, NO_REG, false) && IsList(c', f, fs)
    ensures !cond ==> BranchOk(sp.cx, c', Roles(Elems(ts), {}, Elems(fs + [pc as nat])), sp.e, sp.n, NO_REG, true) && IsList(c', t, ts)
  {
    var ro := AddExit(Roles({}, Elems(ts), Elems(fs)), pc, cond);
    Redirect(sp.cx, c, ro, c', sp.e, sp.n, NO_REG, !cond);
    assert Elems(ts + [pc as nat]) == Elems(ts) + {pc} && Elems(fs + [pc as nat]) == Elems(fs) + {pc};
    if cond {
      assert FallIn(ro, false) == Roles(Elems(fs), Elems(ts + [pc as nat]), {});
      ListRelinked(c, c', Elems(ts), f, fs);
    } else {
      assert FallIn(ro, true) == Roles(Elems(ts), {}, Elems(fs + [pc as nat]));
      ListRelinked(c, c', Elems(fs), t, ts);
    }
  }

  lemma ListRelinked(c: seq<Instr>, c': seq<Instr>, s: set<nat>, head: int, l: seq<nat>)
    requires IsList(c, head, l) && Relinked(c, c', s) && Elems(l) !! s
    ensures IsList(c', head, l)
  {
    forall p | p in l && p < |c|
      ensures c'[p] == c[p]
    {
      assert p in Elems(l);
    }
    ListFrame(c, c', head, l);
  }

  /** The value of `k` in `c` is negated in `c'`, where it is `k'`: by a NOT behind it, or by the comparison itself. */
  ghost predicate NotCode(c: seq<Instr>, h: seq<nat>, k: Kind, c': seq<Instr>, k': Kind) {
    if k.VJmp? then
      KindOk(0, c, k) && k' == k && c' == c[k.pc - 1 := Inverted(c[k.pc - 1])]
    else
      k.VNonReloc? && k' == VReloc(|c|) && c' == Landed(c, Elems(h), |c|) + [Not(0, k.r)]
  }

  lemma ListInverted(c: seq<Instr>, q: nat, c': seq<Instr>, head: int, s: seq<nat>)
    requires IsList(c, head, s) && q < |c| && !c[q].Jmp? && |c'| == |c|
    requires forall i :: 0 <= i < |c| && i != q ==> c'[i] == c[i]
    ensures IsList(c', head, s)
  {
    NoJumpAt(c, head, s, q);
    ListFrame(c, c', head, s);
  }

  lemma StrippedList(c: seq<Instr>, s: set<nat>, head: int, l: seq<nat>)
    requires IsList(c, head, l)
    ensures IsList(Stripped(c, s), head, l)
  {
    forall p | p in l && p < |c|
      ensures Stripped(c, s)[p] == c[p]
    {
      var i :| 0 <= i < |l| && l[i] == p;
    }
    ListFrame(c, Stripped(c, s), head, l);
  }

  lemma NegateCode(sp: Task, c: seq<Instr>, h: seq<nat>, k: Kind, ts: seq<nat>, fs: seq<nat>, c': seq<Instr>, k': Kind, c'': seq<Instr>)
    requires ExpOk(sp.cx, c, Roles(Elems(h), Elems(ts), Elems(fs)), k, sp.e, sp.n, NO_REG)
    requires NotCode(c, h, k, c', k')
    requires c'' == Stripped(Stripped(c', Elems(ts)), Elems(fs))
    ensures ExpOk(sp.cx, c'', Roles({}, Elems(fs), Elems(ts)), k', NotE(sp.e), sp.n, NO_REG)
  {
    var ro := Roles(Elems(h), Elems(ts), Elems(fs));
    var mid: nat := EndOf(c, k);
    assert forall q :: 0 <= q < |c'| && !c'[q].TestSet? ==> c''[q] == c'[q];
    forall q | 0 <= q < mid
      ensures c''[q] == Stripped(Landed(c, ro.h, |c|), ro.t + ro.f)[q]
    {
      assert c'[q] == Landed(c, ro.h, |c|)[q];
    }
    assert forall w: World, r: Regs :: Opposite(w, c, k, c'', k', r);
    Negate(sp.cx, c, ro, k, mid, c'', k', sp.e, sp.n, NO_REG);
  }

  lemma ListGrown(c: seq<Instr>, c': seq<Instr>, head: int, s: seq<nat>)
    requires IsList(c, head, s) && |c| <= |c'| && c'[..|c|] == c
    ensures IsList(c', head, s)
  {
    assert forall q :: 0 <= q < |c| ==> c'[q] == c'[..|c|][q];
    ListFrame(c, c', head, s);
  }

  lemma PatchedList(c: seq<Instr>, s: set<nat>, vt: int, reg: Reg, dt: int, head: int, l: seq<nat>)
    requires IsList(c, head, l) && Elems(l) !! s
    ensures IsList(Patched(c, s, vt, reg, dt), head, l)
    ensures forall p :: p in l ==> ProducesValue(Patched(c, s, vt, reg, dt), p) == ProducesValue(c, p)
  {
    forall p | p in l
      ensures p < |c| && Patched(c, s, vt, reg, dt)[p] == c[p]
      ensures ProducesValue(Patched(c, s, vt, reg, dt), p) == ProducesValue(c, p)
    {
      var i :| 0 <= i < |l| && l[i] == p;
      assert p in Elems(l);
      JumpSurvives(c, s, vt, reg, dt, p);
    }
    ListFrame(c, Patched(c, s, vt, reg, dt), head, l);
  }

  lemma RelinkedValues(c: seq<Instr>, c': seq<Instr>, ts: seq<nat>, fs: seq<nat>)
    requires Relinked(c, c', Elems(ts))
    ensures forall p :: ProducesValue(c', p) == ProducesValue(c, p)
    ensures AllProduce(c, Elems(ts) + Elems(fs)) == (AllProduce(c', Elems(ts)) && AllProduce(c', Elems(fs)))
  {
    forall p
      ensures ProducesValue(c', p) == ProducesValue(c, p)
    {
      if 1 <= p <= |c| { assert if p - 1 in Elems(ts) then c[p - 1].Jmp? && c'[p - 1].Jmp? else c'[p - 1] == c[p - 1]; }
    }
  }

  lemma ListBound(c: seq<Instr>, head: int, s: seq<nat>)
    requires IsList(c, head, s)
    ensures forall p :: p in s ==> p < |c|
  {
  }

  lemma GrownValues(c: seq<Instr>, d: seq<Instr>, ts: seq<nat>, fs: seq<nat>)
    requires |c| <= |d| && d[..|c|] == c
    requires (forall p :: p in ts ==> p < |c|) && (forall p :: p in fs ==> p < |c|)
    ensures forall p :: p in Elems(ts) + Elems(fs) ==> ProducesValue(d, p) == ProducesValue(c, p)
  {
    assert forall q :: 0 <= q < |c| ==> d[q] == d[..|c|][q];
  }

  lemma HeadOf(c: seq<Instr>, head: int, s: seq<nat>)
    requires IsList(c, head, s)
    ensures head == NO_JUMP <==> s == []
    ensures head != NO_JUMP ==> 0 <= head && head in Elems(s)
  {
    if s != [] { assert s[0] in Elems(s); }
  }

  lemma NoExits(c: seq<Instr>, head: int, ts: seq<nat>, fs: seq<nat>)
    requires IsList(c, head, ts) && IsList(c, head, fs) && Elems(ts) !! Elems(fs)
    ensures ts == [] && fs == [] && Elems(ts) == {} && Elems(fs) == {}
  {
    HeadOf(c, head, ts);
    HeadOf(c, head, fs);
  }

  lemma GrownRelinked(c: seq<Instr>, c1: seq<Instr>, d: seq<Instr>, ts: seq<nat>)
    requires Relinked(c, c1, Elems(ts)) && |d| >= |c| && d[..|c|] == c1
    ensures forall q :: 0 <= q < |c| ==> if q in ts then d[q].Jmp? else d[q] == c[q]
  {
    forall q | 0 <= q < |c|
      ensures if q in ts then d[q].Jmp? else d[q] == c[q]
    {
      assert d[q] == d[..|c|][q] == c1[q];
      assert q in ts <==> q in Elems(ts);
    }
  }

  lemma PatchedTwice(d: seq<Instr>, f: set<nat>, t: set<nat>, h: set<nat>, vt: nat, reg: Reg, pf: int, pt: int, q: nat)
    requires f !! t && q < |d| && (forall p :: p in f + t ==> p < |d| && d[p].Jmp?)
    ensures Patched(Patched(d, f, vt, reg, pf), t, vt, reg, pt)[q] == Settled(d, Roles(h, t, f), vt, reg, pf, pt, q)
  {
    var d1 := Patched(d, f, vt, reg, pf);
    if q in t { JumpSurvives(d, f, vt, reg, pf, q); }
    if q + 1 in t && q + 1 < |d| { JumpSurvives(d, f, vt, reg, pf, q + 1); }
  }

  lemma SettledCode(sp: Task, c: seq<Instr>, h: seq<nat>, k: Kind, ts: seq<nat>, fs: seq<nat>, ts1: seq<nat>, d: seq<Instr>, c': seq<Instr>,
                    h': seq<nat>, reg: Reg, pf: int, pt: int, need: bool)
    requires var x := if k.VJmp? then NO_REG else reg;
      ExpOk(sp.cx, c, Roles(Elems(h), Elems(ts), Elems(fs)), k, sp.e, sp.n, x) && sp.n <= NO_REG && reg != NO_REG
    requires k == VNonReloc(reg) || k.VJmp?
    requires ts1 == (if k.VJmp? then ts + [k.pc] else ts) && (ts1 != [] || fs != [])
    requires need == !AllProduce(c, Elems(ts1) + Elems(fs))
    requires |d| >= |c| && forall q :: 0 <= q < |c| ==> if q in ts1 then d[q].Jmp? else d[q] == c[q]
    requires if need then TailOf(k, c, d, Elems(h), Elems(h'), reg, pf, pt, true) else |d| == |c| && h' == h
    requires c' == Patched(Patched(d, Elems(fs), |d|, reg, pf), Elems(ts1), |d|, reg, pt)
    ensures ExpOk(sp.cx, c', Roles(Elems(h'), {}, {}), VNonReloc(reg), sp.e, sp.n, reg)
  {
    var x := if k.VJmp? then NO_REG else reg;
    var ro := Roles(Elems(h), Elems(ts), Elems(fs));
    assert Exits(ro, k) == Elems(ts1) + Elems(fs) && Elems(ts1) == ro.t + (if k.VJmp? then {k.pc} else {});
    if k.VJmp? { assert k.pc in Exits(ro, k) && !ProducesValue(c, k.pc); }
    assert |sp.cx.code| < |c| by {
      if ts1 != [] { assert ts1[0] in Exits(ro, k); } else { assert fs[0] in Exits(ro, k); }
    }
    assert Unsettled(sp.cx, c, ro, k, d, Elems(h'), reg, pf, pt, need);
    forall q | 0 <= q < |d|
      ensures c'[q] == Settled(d, Roles(ro.h, Elems(ts1), ro.f), |d|, reg, pf, pt, q)
    {
      PatchedTwice(d, Elems(fs), Elems(ts1), ro.h, |d|, reg, pf, pt, q);
    }
    Settle(sp.cx, c, ro, k, d, c', Elems(h'), reg, pf, pt, need, sp.e, sp.n, x);
  }

  lemma ScopedMore(e: Expr, n: nat, m: nat)
    requires Scoped(e, n) && n <= m
    ensures Scoped(e, m)
  {
  }

  lemma CompareCode(sp1: Task, c1: seq<Instr>, h1: seq<nat>, o1: Reg, sp2: Task, c2: seq<Instr>, h2: seq<nat>, o2: Reg, op: BinOp, c': seq<Instr>)
    requires ExpOk(sp1.cx, c1, Roles(Elems(h1), {}, {}), VNonReloc(o1), sp1.e, sp1.n, NO_REG)
    requires sp2.cx == Ctx(c1, Elems(h1)) && ExpOk(sp2.cx, c2, Roles(Elems(h2), {}, {}), VNonReloc(o2), sp2.e, sp2.n, NO_REG)
    requires Scoped(sp2.e, sp1.n) && sp1.n <= sp2.n <= NO_REG && o1 < sp2.n
    requires c' == Landed(c2, Elems(h2), |c2|) + [CompareInstr(op, o1, o2), Jmp(NO_JUMP)]
    ensures ExpOk(sp1.cx, c', Roles({}, {}, {}), VJmp(|c'| - 1), Comp(op, sp1.e, sp2.e), sp1.n, NO_REG)
  {
    CompareOperands(sp1.cx, c1, Roles(Elems(h1), {}, {}), o1, c2, Roles(Elems(h2), {}, {}), o2, op, sp1.e, sp2.e, sp1.n, sp2.n, NO_REG, c');
  }

  /** The exits of the first operand are still a list, apart from those of the second. */
  lemma ConnectLists(isAnd: bool, head: int, ss: seq<nat>, ts: seq<nat>, fs: seq<nat>, h: seq<nat>, c1: seq<Instr>, h1: seq<nat>,
                     c2: seq<Instr>, k: Kind, sp1: Task, sp2: Task)
    requires BranchOk(sp1.cx, c1, Roles(Elems(h1), if isAnd then {} else Elems(ss), if isAnd then Elems(ss) else {}), sp1.e, sp1.n, NO_REG, isAnd)
    requires IsList(c1, head, ss)
    requires sp2.cx == Ctx(c1, Elems(h1))
    requires ExpOk(sp2.cx, c2, Roles(Elems(h), Elems(ts), Elems(fs)), k, sp2.e, sp2.n, NO_REG)
    ensures IsList(c2, head, ss) && Elems(ss) !! Elems(ts) + Elems(fs) && Elems(ss) !! Elems(h)
  {
    ListBound(c1, head, ss);
    forall p | p in Elems(ss)
      ensures p !in Elems(ts) + Elems(fs) && p !in Elems(h)
    {
      assert p < |c1|;
    }
    if c2 != c1 {
      ListAfterEmit(c1, Elems(h1), c2, head, ss);
    }
  }

  lemma ConnectCode(isAnd: bool, ss: seq<nat>, ts: seq<nat>, fs: seq<nat>, h: seq<nat>, c1: seq<Instr>, h1: seq<nat>,
                    c2: seq<Instr>, c': seq<Instr>, k: Kind, sp1: Task, sp2: Task)
    requires BranchOk(sp1.cx, c1, Roles(Elems(h1), if isAnd then {} else Elems(ss), if isAnd then Elems(ss) else {}), sp1.e, sp1.n, NO_REG, isAnd)
    requires sp2.cx == Ctx(c1, Elems(h1)) && sp2.n == sp1.n <= NO_REG && Scoped(sp2.e, sp1.n)
    requires ExpOk(sp2.cx, c2, Roles(Elems(h), Elems(ts), Elems(fs)), k, sp2.e, sp2.n, NO_REG)
    requires Relinked(c2, c', Elems(if isAnd then fs else ts))
    ensures var ts', fs' := if isAnd then ts else ts + ss, if isAnd then fs + ss else fs;
      ExpOk(sp1.cx, c', Roles(Elems(h), Elems(ts'), Elems(fs')), k, ExprCode.Connective(isAnd, sp1.e, sp2.e), sp1.n, NO_REG)
  {
    var ro1 := Roles(Elems(h1), if isAnd then {} else Elems(ss), if isAnd then Elems(ss) else {});
    var ro2 := Roles(Elems(h), Elems(ts), Elems(fs));
    RelinkMore(sp2, c1, h1, c2, c', ss, ro2, isAnd, if isAnd then fs else ts);
    Connect(sp1.cx, c1, ro1, c2, ro2, k, c', isAnd, sp1.e, sp2.e, sp1.n, NO_REG);
    assert Elems(fs + ss) == Elems(fs) + Elems(ss) && Elems(ts + ss) == Elems(ts) + Elems(ss);
    assert Union(ro1, ro2) == Roles(Elems(h), Elems(if isAnd then ts else ts + ss), Elems(if isAnd then fs + ss else fs));
  }

  lemma RelinkMore(sp2: Task, c1: seq<Instr>, h1: seq<nat>, c2: seq<Instr>, c': seq<Instr>, ss: seq<nat>, ro2: Roles, isAnd: bool, l: seq<nat>)
    requires Relinked(c2, c', Elems(l)) && Elems(l) <= ro2.t + ro2.f
    requires Shape(sp2.cx, c2, ro2) && sp2.cx == Ctx(c1, Elems(h1)) && JumpsIn(c1, Elems(ss), 0) && Elems(ss) !! Elems(h1)
    ensures Relinked(c2, c', Elems(ss) + ro2.t + ro2.f)
  {
    forall q | 0 <= q < |c2|
      ensures if q in Elems(ss) + ro2.t + ro2.f then c2[q].Jmp? && c'[q].Jmp? else c'[q] == c2[q]
    {
      if q in Elems(ss) && c2 != c1 { assert c2[q] == Landed(c1, Elems(h1), |c1|)[q]; }
    }
  }

  /** After the first operand of `and` (`isAnd`) or `or`, its exits are the list `ss`, and the second is begun. */
  ghost predicate FirstOk(isAnd: bool, head: int, ss: seq<nat>, c1: seq<Instr>, h1: seq<nat>, sp1: Task, sp2: Task) {
    && BranchOk(sp1.cx, c1, Roles(Elems(h1), if isAnd then {} else Elems(ss), if isAnd then Elems(ss) else {}), sp1.e, sp1.n, NO_REG, isAnd)
    && IsList(c1, head, ss)
    && sp2.cx == Ctx(c1, Elems(h1)) && sp2.n == sp1.n
  }

  /** A variable needs no code yet. */
  lemma LeafCode(cx: Ctx, e: Expr, k: Kind, n: nat)
    requires TestsPaired(cx.code) && JumpsIn(cx.code, cx.h, 0)
    requires (e.LocalVar? && k == VLocal(e.r)) || (e.Upvalue? && k == VUpval(e.u))
    ensures ExpOk(cx, cx.code, Roles(cx.h, {}, {}), k, e, n, NO_REG)
  {
  }

  /** The code `c'` is `c`, with its waiting jumps `h` patched to its end, then code that computes
      `e` into the register `dest` and leaves the other registers below `n` alone, then `next`. */
  ghost predicate Computes(c: seq<Instr>, h: set<nat>, c': seq<Instr>, next: Instr, dest: Reg, e: Expr, n: nat) {
    && |c| < |c'| && c'[|c'| - 1] == next
    && (forall q :: 0 <= q < |c| ==> c'[q] == Landed(c, h, |c|)[q])
    && forall w: World, r: Regs :: RunComputes(w, c', |c|, r, dest, e, n)
  }

  ghost predicate RunComputes(w: World, c: seq<Instr>, start: nat, r: Regs, dest: Reg, e: Expr, n: nat) {
    exists r': Regs ::
      && Runs(w, c, Frame(start, r), Frame(|c| - 1, r'))
      && r'[dest] == Eval(w, e, r)
      && Agree(n, dest, r, r')
  }

  lemma FinalCode(cx: Ctx, c: seq<Instr>, h: set<nat>, dest: Reg, e: Expr, n: nat, c': seq<Instr>, next: Instr)
    requires ExpOk(cx, c, Roles(h, {}, {}), VNonReloc(dest), e, n, dest)
    requires c' == Landed(c, h, |c|) + [next]
    ensures Computes(cx.code, cx.h, c', next, dest, e, n)
  {
    var ro, ro', start := Roles(h, {}, {}), Roles({}, {}, {}), |cx.code|;
    forall w: World, r: Regs
      ensures RunComputes(w, c', start, r, dest, e, n)
    {
      assert DenotesAt(w, r, c, ro, VNonReloc(dest), start, e, n, dest);
      EmitOutcome(w, r, cx, c, ro, |c|, c', ro', |c|);
      ExitIsMember(w, c, ro, |c|, start, r);
      var r' := Exec(w, c, ro, |c|, start, r).regs;
      assert Exec(w, c', ro', |c|, start, r) == Fall(r');
      ExecRuns(w, c', |c|, start, r);
    }
    forall q | 0 <= q < start
      ensures c'[q] == Landed(cx.code, cx.h, start)[q]
    {
      if c != cx.code {
        assert c[q] == Landed(cx.code, cx.h, start)[q];
        Boundary(cx, c, ro);
      }
    }
  }

  lemma UpvalCode(sp: Task, c: seq<Instr>, h: seq<nat>, u: nat, t: int, f: int, ts: seq<nat>, fs: seq<nat>, c': seq<Instr>)
    requires ExpOk(sp.cx, c, Roles(Elems(h), Elems(ts), Elems(fs)), VUpval(u), sp.e, sp.n, NO_REG)
    requires IsList(c, t, ts) && IsList(c, f, fs) && c' == Landed(c, Elems(h), |c|) + [GetUpval(0, u)]
    ensures |sp.cx.code| <= |c| == |c'| - 1 && IsList(c', t, ts) && IsList(c', f, fs)
    ensures ExpOk(sp.cx, c', Roles(Elems([]), Elems(ts), Elems(fs)), VReloc(|c|), sp.e, sp.n, NO_REG)
  {
    UpvalToReloc(sp.cx, c, Roles(Elems(h), Elems(ts), Elems(fs)), u, sp.e, sp.n, NO_REG);
    ListAfterEmit(c, Elems(h), c', t, ts);
    ListAfterEmit(c, Elems(h), c', f, fs);
    assert Elems([]) == {};
  }

  lemma JumpOnRegCode(sp: Task, c: seq<Instr>, h: seq<nat>, k: Kind, t: int, f: int, ts: seq<nat>, fs: seq<nat>, cond: bool, c': seq<Instr>)
    requires ExpOk(sp.cx, c, Roles(Elems(h), Elems(ts), Elems(fs)), k, sp.e, sp.n, NO_REG) && k.VNonReloc?
    requires IsList(c, t, ts) && IsList(c, f, fs) && sp.n <= NO_REG
    requires c' == Landed(c, Elems(h), |c|) + [TestSet(NO_REG, k.r, cond), Jmp(NO_JUMP)]
    ensures BranchedCode(sp, c', t, f, ts, fs, |c| + 1, cond)
  {
    DecidesTestSet(c, k, cond);
    JumpOnLists(sp, c, h, k, t, f, ts, fs, TestSet(NO_REG, k.r, cond), cond, |c|, c');
  }

  lemma JumpOnNotCode(sp: Task, c: seq<Instr>, h: seq<nat>, k: Kind, t: int, f: int, ts: seq<nat>, fs: seq<nat>, tst: Instr, cond: bool, c': seq<Instr>)
    requires ExpOk(sp.cx, c, Roles(Elems(h), Elems(ts), Elems(fs)), k, sp.e, sp.n, NO_REG) && k.VReloc? && c[k.pc].Not?
    requires IsList(c, t, ts) && IsList(c, f, fs) && sp.n <= NO_REG
    requires tst == Test(c[k.pc].b, !cond)
    requires c' == Landed(c[..k.pc], Elems(h), k.pc) + [tst, Jmp(NO_JUMP)]
    ensures BranchedCode(sp, c', t, f, ts, fs, k.pc + 1, cond)
  {
    NotAtEnd(sp, c, h, k, ts, fs);
    hide ExpOk, IsList, Landed, BranchedCode, Shape, EndOf, KindOk;
    DecidesNot(c, k, tst, cond);
    hide Decides;
    JumpOnLists(sp, c, h, k, t, f, ts, fs, tst, cond, |c| - 1, c');
  }

  /** A relocatable instruction is the last one, and nothing waits for the position behind it. */
  lemma NotAtEnd(sp: Task, c: seq<Instr>, h: seq<nat>, k: Kind, ts: seq<nat>, fs: seq<nat>)
    requires ExpOk(sp.cx, c, Roles(Elems(h), Elems(ts), Elems(fs)), k, sp.e, sp.n, NO_REG) && k.VReloc?
    ensures h == [] && Elems(h) == {} && KindOk(0, c, k) && k.pc == |c| - 1 == EndOf(c, k)
    ensures Landed(c[..k.pc], {}, k.pc) == c[..k.pc] && Landed(c, {}, |c|) == c
  {
    NothingWaits(sp, c, h, k, ts, fs);
  }

  lemma ListAfterPatch(c: seq<Instr>, h: set<nat>, mid: nat, c': seq<Instr>, head: int, s: seq<nat>)
    requires IsList(c, head, s) && Elems(s) !! h && mid <= |c| && mid <= |c'|
    requires forall q :: 0 <= q < mid ==> c'[q] == Landed(c, h, |c|)[q]
    requires forall p :: p in Elems(s) ==> p < mid
    ensures IsList(c', head, s)
  {
    forall i | 0 <= i < |s|
      ensures s[i] < mid && c'[s[i]] == c[s[i]]
    {
      assert s[i] in Elems(s);
      LandedSurvives(c, h, |c|, s[i]);
    }
  }

  lemma NoJumpAt(code: seq<Instr>, head: int, s: seq<nat>, p: nat)
    requires IsList(code, head, s) && p < |code| && !code[p].Jmp?
    ensures p !in s
  {
  }

  lemma WeakenTarget(cx: Ctx, c: seq<Instr>, ro: Roles, reg: Reg, e: Expr, n: nat)
    requires ExpOk(cx, c, ro, VNonReloc(reg), e, n, NO_REG) && n <= NO_REG
    ensures ExpOk(cx, c, ro, VNonReloc(reg), e, n, reg)
  {
    forall w: World, r: Regs
      ensures DenotesAt(w, r, c, ro, VNonReloc(reg), |cx.code|, e, n, reg)
    {
      assert DenotesAt(w, r, c, ro, VNonReloc(reg), |cx.code|, e, n, NO_REG);
    }
  }

  /** What is being compiled: an expression, after some code, above `n` registers in use. */
  datatype Task = Task(cx: Ctx, e: Expr, n: nat)

  lemma LocalIsReg(cx: Ctx, c: seq<Instr>, ro: Roles, r: Reg, e: Expr, n: nat, x: Reg)
    requires ExpOk(cx, c, ro, VLocal(r), e, n, x)
    ensures ExpOk(cx, c, ro, VNonReloc(r), e, n, x)
  {
    forall w: World, rs: Regs
      ensures DenotesAt(w, rs, c, ro, VNonReloc(r), |cx.code|, e, n, x)
    {
      assert DenotesAt(w, rs, c, ro, VLocal(r), |cx.code|, e, n, x);
    }
  }

  lemma ListAfterEmit(c: seq<Instr>, h: set<nat>, c': seq<Instr>, head: int, s: seq<nat>)
    requires IsList(c, head, s) && Elems(s) !! h && |c| <= |c'|
    requires forall q :: 0 <= q < |c| ==> c'[q] == Landed(c, h, |c|)[q]
    ensures IsList(c', head, s)
  {
    forall p | p in s && p < |c|
      ensures c'[p] == c[p]
    {
      assert p in Elems(s);
      var i :| 0 <= i < |s| && s[i] == p;
      LandedSurvives(c, h, |c|, p);
    }
    ListFrame(c, c', head, s);
  }
}
