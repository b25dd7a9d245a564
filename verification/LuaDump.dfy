/** The writer of lua/ldump.c and the reader of lua/lundump.c, against the text of LuaChunk. */
module LuaDump {
  import opened Basics
  import opened LuaChunk

  // ---------------------------------------------------------------- writing

  /**
   * What writing `text` does: nothing after an error; all of it if there is no error then; and otherwise a part of it, from
   * its beginning on.
   */
  ghost predicate Wrote(was: seq<byte>, before: int, text: seq<byte>, out: seq<byte>, status: int) {
    if before != 0 then out == was && status == before
    else if status == 0 then out == was + text
    else was <= out <= was + text
  }

  lemma WroteNothing(was: seq<byte>, before: int)
    ensures Wrote(was, before, [], was, before)
  {
    assert was + [] == was;
  }

  lemma WroteBoth(a: seq<byte>, before: int, x: seq<byte>, b: seq<byte>, between: int, y: seq<byte>, c: seq<byte>, status: int)
    requires Wrote(a, before, x, b, between) && Wrote(b, between, y, c, status)
    ensures Wrote(a, before, x + y, c, status)
  {
    assert (a + x) + y == a + (x + y);
    if before == 0 && between != 0 {
      assert a + x <= a + (x + y);
    }
  }

  lemma ConstantsTextStep(k: seq<Constant>, i: nat)
    requires i < |k|
    ensures ConstantsText(k[i..]) == ConstantText(k[i]) + ConstantsText(k[i + 1..])
  {
    hide ConstantText;
    assert k[i..][1..] == k[i + 1..];
  }

  lemma LocVarsTextStep(v: seq<LocVar>, i: nat)
    requires i < |v|
    ensures LocVarsText(v[i..]) == LocVarText(v[i]) + LocVarsText(v[i + 1..])
  {
    hide LocVarText;
    assert v[i..][1..] == v[i + 1..];
  }

  lemma StringsTextStep(u: seq<Option<Str>>, i: nat)
    requires i < |u|
    ensures StringsText(u[i..]) == StringText(u[i]) + StringsText(u[i + 1..])
  {
    hide StringText;
    assert u[i..][1..] == u[i + 1..];
  }

  lemma ProtosTextStep(p: seq<Proto>, i: nat, parent: Option<Str>, strip: bool)
    requires i < |p|
    ensures ProtosText(p[i..], parent, strip) == ProtoText(p[i], parent, strip) + ProtosText(p[i + 1..], parent, strip)
  {
    hide ProtoText;
    assert p[i..][1..] == p[i + 1..];
  }

  /** A written part of a list: what is left to write. */
  ghost predicate Left(was: seq<byte>, before: int, whole: seq<byte>, rest: seq<byte>, out: seq<byte>, status: int) {
    exists done :: whole == done + rest && Wrote(was, before, done, out, status)
  }

  lemma LeftAll(was: seq<byte>, before: int, whole: seq<byte>)
    ensures Left(was, before, whole, whole, was, before)
  {
    WroteNothing(was, before);
    assert whole == [] + whole;
  }

  lemma LeftStep(was: seq<byte>, before: int, whole: seq<byte>, x: seq<byte>, rest: seq<byte>, b: seq<byte>, between: int,
                 c: seq<byte>, status: int)
    requires Left(was, before, whole, x + rest, b, between) && Wrote(b, between, x, c, status)
    ensures Left(was, before, whole, rest, c, status)
  {
    var done :| whole == done + (x + rest) && Wrote(was, before, done, b, between);
    WroteBoth(was, before, done, b, between, x, c, status);
    assert whole == (done + x) + rest;
  }

  lemma LeftNothing(was: seq<byte>, before: int, whole: seq<byte>, out: seq<byte>, status: int)
    requires Left(was, before, whole, [], out, status)
    ensures Wrote(was, before, whole, out, status)
  {
    var done :| whole == done + [] && Wrote(was, before, done, out, status);
    assert whole == done;
  }

  class DumpState {
    /** The outcome of writing a block behind others: zero if it is taken. */
    const writer: (seq<byte>, seq<byte>) -> int
    const strip: bool
    var status: int
    /** The bytes that the writer has taken. */
    var out: seq<byte>

    constructor (writer: (seq<byte>, seq<byte>) -> int, strip: bool)
      ensures this.writer == writer && this.strip == strip && status == 0 && out == []
    {
      this.writer, this.strip, status, out := writer, strip, 0, [];
    }

    method DumpBlock(b: seq<byte>)
      modifies this
      ensures Wrote(old(out), old(status), b, out, status)
      ensures old(status) == 0 ==> status == writer(old(out), b)
    {
      if status == 0 {
        status := writer(out, b);
        if status == 0 { out := out + b; }
      }
    }

    method DumpChar(c: byte)
      modifies this
      ensures Wrote(old(out), old(status), [c], out, status)
    {
      DumpBlock([c]);
    }

    method DumpInt(x: int)
      modifies this
      ensures Wrote(old(out), old(status), IntText(x), out, status)
    {
      DumpBlock(IntText(x));
    }

    method DumpVector(c: seq<Word>)
      modifies this
      ensures Wrote(old(out), old(status), VectorText(c), out, status)
    {
      hide *;
      DumpInt(|c|);
      ghost var b, between := out, status;
      DumpBlock(WordsText(c));
      WroteBoth(old(out), old(status), IntText(|c|), b, between, WordsText(c), out, status);
      VectorTextMeans(c);
    }

    method DumpString(s: Option<Str>)
      modifies this
      ensures Wrote(old(out), old(status), StringText(s), out, status)
    {
      hide *;
      StringTextMeans(s);
      if s.None? {
        DumpBlock(Le(0, 8));
      } else {
        var size := (|s.value| + 1) % TWO_64;
        DumpBlock(Le(size, 8));
        ghost var b, between := out, status;
        DumpBlock(s.value + [0]);
        WroteBoth(old(out), old(status), Le(size, 8), b, between, s.value + [0], out, status);
      }
    }

    method DumpConstant(c: Constant)
      modifies this
      ensures Wrote(old(out), old(status), ConstantText(c), out, status)
    {
      hide StringText, Wrote;
      match c {
        case Nil => { DumpChar(LUA_TNIL); }
        case Bool(v) => {
          DumpChar(LUA_TBOOLEAN);
          ghost var b, between := out, status;
          var x: byte := if v then 1 else 0;
          DumpChar(x);
          WroteBoth(old(out), old(status), [LUA_TBOOLEAN], b, between, [x], out, status);
        }
        case Number(image) => {
          DumpChar(LUA_TNUMBER);
          ghost var b, between := out, status;
          DumpBlock(image);
          WroteBoth(old(out), old(status), [LUA_TNUMBER], b, between, image, out, status);
        }
        case String(s) => {
          DumpChar(LUA_TSTRING);
          ghost var b, between := out, status;
          DumpString(Some(s));
          WroteBoth(old(out), old(status), [LUA_TSTRING], b, between, StringText(Some(s)), out, status);
        }
      }
    }

    method DumpConstants(f: Proto)
      modifies this
      ensures Wrote(old(out), old(status),
                    (IntText(|f.k|) + ConstantsText(f.k)) + (IntText(|f.p|) + ProtosText(f.p, f.source, strip)), out, status)
      decreases f, 0
    {
      hide *;
      var n := |f.k|;
      DumpInt(n);
      ghost var b0, s0 := out, status;
      var i := 0;
      assert f.k[0..] == f.k;
      LeftAll(out, status, ConstantsText(f.k));
      while i < n
        invariant 0 <= i <= n == |f.k|
        invariant Left(b0, s0, ConstantsText(f.k), ConstantsText(f.k[i..]), out, status)
        decreases n - i
      {
        ghost var b, between := out, status;
        DumpConstant(f.k[i]);
        ConstantsTextStep(f.k, i);
        LeftStep(b0, s0, ConstantsText(f.k), ConstantText(f.k[i]), ConstantsText(f.k[i + 1..]), b, between, out, status);
        i := i + 1;
      }
      NoText();
      assert f.k[i..] == [];
      LeftNothing(b0, s0, ConstantsText(f.k), out, status);
      WroteBoth(old(out), old(status), IntText(|f.k|), b0, s0, ConstantsText(f.k), out, status);
      ghost var b1, s1 := out, status;
      var m := |f.p|;
      DumpInt(m);
      ghost var b2, s2 := out, status;
      i := 0;
      assert f.p[0..] == f.p;
      ghost var all := ProtosText(f.p, f.source, strip);
      LeftAll(out, status, all);
      while i < m
        invariant 0 <= i <= m == |f.p|
        invariant Left(b2, s2, all, ProtosText(f.p[i..], f.source, strip), out, status)
        decreases m - i
      {
        ghost var b, between := out, status;
        DumpFunction(f.p[i], f.source);
        ProtosTextStep(f.p, i, f.source, strip);
        LeftStep(b2, s2, all, ProtoText(f.p[i], f.source, strip), ProtosText(f.p[i + 1..], f.source, strip), b, between, out, status);
        i := i + 1;
      }
      NoProtos(f.source, strip);
      assert f.p[i..] == [];
      LeftNothing(b2, s2, all, out, status);
      WroteBoth(b1, s1, IntText(m), b2, s2, all, out, status);
      WroteBoth(old(out), old(status), IntText(|f.k|) + ConstantsText(f.k), b1, s1, IntText(m) + all, out, status);
    }

    method DumpLocVar(v: LocVar)
      modifies this
      ensures Wrote(old(out), old(status), LocVarText(v), out, status)
    {
      hide Wrote, StringText, IntText;
      DumpString(v.varname);
      ghost var b0, s0 := out, status;
      DumpInt(v.startpc);
      ghost var b1, s1 := out, status;
      DumpInt(v.endpc);
      WroteBoth(b0, s0, IntText(v.startpc), b1, s1, IntText(v.endpc), out, status);
      WroteBoth(old(out), old(status), StringText(v.varname), b0, s0, IntText(v.startpc) + IntText(v.endpc), out, status);
    }

    method DumpDebug(f: Proto)
      modifies this
      ensures Wrote(old(out), old(status), DebugText(if strip then NO_DEBUG else f.debug), out, status)
    {
      hide *;
      ghost var d := if strip then NO_DEBUG else f.debug;
      NoDebugMeans();
      DebugTextMeans(d);
      DumpVector(if strip then [] else f.debug.lineinfo);
      ghost var b0, s0 := out, status;
      var n := if strip then 0 else |f.debug.locvars|;
      DumpInt(n);
      ghost var b1, s1 := out, status;
      var i := 0;
      ghost var vars := LocVarsText(d.locvars);
      assert d.locvars[0..] == d.locvars;
      LeftAll(out, status, vars);
      while i < n
        invariant 0 <= i <= n == |d.locvars|
        invariant Left(b1, s1, vars, LocVarsText(d.locvars[i..]), out, status)
        decreases n - i
      {
        ghost var b, between := out, status;
        DumpLocVar(f.debug.locvars[i]);
        LocVarsTextStep(d.locvars, i);
        LeftStep(b1, s1, vars, LocVarText(d.locvars[i]), LocVarsText(d.locvars[i + 1..]), b, between, out, status);
        i := i + 1;
      }
      NoText();
      assert d.locvars[i..] == [];
      LeftNothing(b1, s1, vars, out, status);
      WroteBoth(b0, s0, IntText(n), b1, s1, vars, out, status);
      ghost var b2, s2 := out, status;
      var m := if strip then 0 else |f.debug.upvalues|;
      DumpInt(m);
      ghost var b3, s3 := out, status;
      i := 0;
      ghost var names := StringsText(d.upvalues);
      assert d.upvalues[0..] == d.upvalues;
      LeftAll(out, status, names);
      while i < m
        invariant 0 <= i <= m == |d.upvalues|
        invariant Left(b3, s3, names, StringsText(d.upvalues[i..]), out, status)
        decreases m - i
      {
        ghost var b, between := out, status;
        DumpString(f.debug.upvalues[i]);
        StringsTextStep(d.upvalues, i);
        LeftStep(b3, s3, names, StringText(d.upvalues[i]), StringsText(d.upvalues[i + 1..]), b, between, out, status);
        i := i + 1;
      }
      assert d.upvalues[i..] == [];
      LeftNothing(b3, s3, names, out, status);
      WroteBoth(b2, s2, IntText(m), b3, s3, names, out, status);
      WroteBoth(b0, s0, IntText(n) + vars, b2, s2, IntText(m) + names, out, status);
      WroteBoth(old(out), old(status), VectorText(d.lineinfo), b0, s0, (IntText(n) + vars) + (IntText(m) + names), out, status);
    }

    method DumpHead(h: Head)
      modifies this
      ensures Wrote(old(out), old(status), HeadText(h), out, status)
    {
      hide Wrote, IntText;
      DumpInt(h.linedefined);
      ghost var b0, s0 := out, status;
      DumpInt(h.lastlinedefined);
      ghost var b1, s1 := out, status;
      DumpChar(h.nups);
      ghost var b2, s2 := out, status;
      DumpChar(h.numparams);
      ghost var b3, s3 := out, status;
      DumpChar(h.isVararg);
      ghost var b4, s4 := out, status;
      DumpChar(h.maxstacksize);
      WroteBoth(b3, s3, [h.isVararg], b4, s4, [h.maxstacksize], out, status);
      WroteBoth(b2, s2, [h.numparams], b3, s3, [h.isVararg] + [h.maxstacksize], out, status);
      WroteBoth(b1, s1, [h.nups], b2, s2, [h.numparams] + ([h.isVararg] + [h.maxstacksize]), out, status);
      assert [h.nups] + ([h.numparams] + ([h.isVararg] + [h.maxstacksize])) == [h.nups, h.numparams, h.isVararg, h.maxstacksize];
      WroteBoth(b0, s0, IntText(h.lastlinedefined), b1, s1, [h.nups, h.numparams, h.isVararg, h.maxstacksize], out, status);
      WroteBoth(old(out), old(status), IntText(h.linedefined), b0, s0,
                IntText(h.lastlinedefined) + [h.nups, h.numparams, h.isVararg, h.maxstacksize], out, status);
    }

    method DumpFunction(f: Proto, parent: Option<Str>)
      modifies this
      ensures Wrote(old(out), old(status), ProtoText(f, parent, strip), out, status)
      decreases f, 1
    {
      hide *;
      var source := if f.source == parent || strip then None else f.source;
      DumpString(source);
      ghost var b0, s0 := out, status;
      DumpHead(f.head);
      ghost var b1, s1 := out, status;
      DumpVector(f.code);
      ghost var b2, s2 := out, status;
      DumpConstants(f);
      ghost var b3, s3 := out, status;
      DumpDebug(f);
      ghost var k, p := IntText(|f.k|) + ConstantsText(f.k), IntText(|f.p|) + ProtosText(f.p, f.source, strip);
      ghost var d := DebugText(if strip then NO_DEBUG else f.debug);
      WroteBoth(b2, s2, k + p, b3, s3, d, out, status);
      WroteBoth(b1, s1, VectorText(f.code), b2, s2, (k + p) + d, out, status);
      WroteBoth(b0, s0, HeadText(f.head), b1, s1, VectorText(f.code) + ((k + p) + d), out, status);
      WroteBoth(old(out), old(status), StringText(source), b0, s0, HeadText(f.head) + (VectorText(f.code) + ((k + p) + d)), out, status);
      assert (k + p) + d == k + (p + d);
      ProtoTextMeans(f, parent, strip);
    }

    /** `luaU_dump`: all of the chunk is written, or the writer's error is returned and a beginning of the chunk is written. */
    method Dump(f: Proto) returns (r: int)
      requires status == 0 && out == []
      modifies this
      ensures r == status
      ensures r == 0 ==> out == ChunkText(f, strip)
      ensures r != 0 ==> out <= ChunkText(f, strip)
    {
      hide ProtoText;
      DumpBlock(HEADER);
      ghost var b, between := out, status;
      DumpFunction(f, None);
      WroteBoth([], 0, HEADER, b, between, ProtoText(f, None, strip), out, status);
      r := status;
    }
  }

  lemma NoText()
    ensures ConstantsText([]) == [] && LocVarsText([]) == [] && StringsText([]) == []
  {
  }

  lemma NoProtos(parent: Option<Str>, strip: bool)
    ensures ProtosText([], parent, strip) == []
  {
  }

  lemma VectorTextMeans(c: seq<Word>)
    ensures VectorText(c) == IntText(|c|) + WordsText(c)
  {
  }

  lemma StringTextMeans(s: Option<Str>)
    ensures TWO_64 > 0
    ensures StringText(s) == if s.None? then Le(0, 8) else Le((|s.value| + 1) % TWO_64, 8) + (s.value + [0])
  {
    hide Le;
  }

  lemma NoDebugMeans()
    ensures NO_DEBUG == Debug([], [], [])
  {
  }

  lemma DebugTextMeans(d: Debug)
    ensures DebugText(d) == VectorText(d.lineinfo) + ((IntText(|d.locvars|) + LocVarsText(d.locvars)) + (IntText(|d.upvalues|) + StringsText(d.upvalues)))
  {
  }

  // ---------------------------------------------------------------- reading

  datatype Result<+T> = Pass(value: T) | Throw(why: Error) {
    predicate IsFailure() { Throw? }
    function PropagateFailure<U>(): Result<U> requires Throw? { Throw(why) }
    function Extract(): T requires Pass? { value }
  }

  /** A method returned what was to be read, and stopped behind it; or it threw the error. */
  ghost predicate Agrees<T(!new)>(r: Result<T>, pos: nat, expected: Read<T>) {
    match expected
    case Ok(v, e) => r == Pass(v) && pos == e
    case Err(why) => r == Throw(why)
  }

  /** A list whose first elements are read already. */
  function Behind<T>(done: seq<T>, r: Read<seq<T>>): Read<seq<T>> {
    if r.Ok? then Ok(done + r.value, r.pos) else r
  }

  lemma BehindNothing<T>(r: Read<seq<T>>)
    ensures Behind([], r) == r
  {
    if r.Ok? { assert [] + r.value == r.value; }
  }

  lemma BehindAll<T>(done: seq<T>, pos: nat)
    ensures Behind(done, Ok([], pos)) == Ok(done, pos)
  {
    assert done + [] == done;
  }

  lemma BehindBoth<T>(a: seq<T>, b: seq<T>, r: Read<seq<T>>)
    ensures Behind(a, Behind(b, r)) == Behind(a + b, r)
  {
    if r.Ok? { assert a + (b + r.value) == (a + b) + r.value; }
  }

  class LoadState {
    const input: seq<byte>
    /** `luaG_checkcode`. */
    const check: Proto -> bool
    var pos: nat
    var nCcalls: nat

    constructor (input: seq<byte>, check: Proto -> bool, nCcalls: nat)
      ensures this.input == input && this.check == check && pos == 0 && this.nCcalls == nCcalls
    {
      this.input, this.check, pos, this.nCcalls := input, check, 0, nCcalls;
    }

    method LoadBlock(n: nat) returns (r: Result<seq<byte>>)
      modifies `pos
      ensures Agrees(r, pos, Block(input, old(pos), n))
    {
      if pos + n > |input| { return Throw(UnexpectedEnd); }
      pos := pos + n;
      return Pass(input[pos - n..pos]);
    }

    method LoadChar() returns (r: Result<byte>)
      modifies `pos
      ensures Agrees(r, pos, Char(input, old(pos)))
    {
      if pos >= |input| { return Throw(UnexpectedEnd); }
      pos := pos + 1;
      return Pass(input[pos - 1]);
    }

    method LoadInt() returns (r: Result<CInt>)
      modifies `pos
      ensures Agrees(r, pos, Int(input, old(pos)))
    {
      hide OfLe;
      var b :- LoadBlock(4);
      var w := OfLe(b);
      if w >= TWO_31 { return Throw(BadInteger); }
      return Pass(w);
    }

    method LoadString() returns (r: Result<Option<Str>>)
      modifies `pos
      ensures Agrees(r, pos, ReadString(input, old(pos)))
    {
      hide OfLe;
      var b :- LoadBlock(8);
      var size := OfLe(b);
      if size == 0 { return Pass(None); }
      var t :- LoadBlock(size);
      return Pass(Some(t[..size - 1]));
    }

    method LoadCode() returns (r: Result<seq<Word>>)
      modifies `pos
      ensures Agrees(r, pos, Vector(input, old(pos)))
    {
      hide Int, ToWords;
      var n: int :- LoadInt();
      var b :- LoadBlock(n * 4);
      return Pass(ToWords(b));
    }

    method LoadConstant() returns (r: Result<Constant>)
      modifies `pos
      ensures Agrees(r, pos, ReadConstant(input, old(pos)))
    {
      hide ReadString;
      var t :- LoadChar();
      if t == LUA_TNIL { return Pass(Nil); }
      if t == LUA_TBOOLEAN {
        var b :- LoadChar();
        return Pass(Bool(b != 0));
      }
      if t == LUA_TNUMBER {
        var b :- LoadBlock(8);
        return Pass(Number(b));
      }
      if t == LUA_TSTRING {
        var v :- LoadString();
        return Pass(String(if v.None? then [] else v.value));
      }
      return Throw(BadConstant);
    }

    /** A count, and then so many constants. */
    method LoadConstantList() returns (r: Result<seq<Constant>>)
      modifies `pos
      ensures Agrees(r, pos, ConstantList(input, old(pos)))
    {
      hide Int, Constants, ReadConstant, Behind;
      var start := pos;
      var n: int :- LoadInt();
      var k: seq<Constant> := [];
      var i := 0;
      BehindNothing(Constants(input, pos, n));
      while i < n
        invariant 0 <= i <= n
        invariant Behind(k, Constants(input, pos, n - i)) == ConstantList(input, start)
        decreases n - i
      {
        ConstantsTurn(input, pos, n - i);
        BehindErr<Constant>(k);
        var c :- LoadConstant();
        BehindBoth(k, [c], Constants(input, pos, n - (i + 1)));
        k := k + [c];
        i := i + 1;
      }
      ConstantsTurn(input, pos, 0);
      BehindAll(k, pos);
      return Pass(k);
    }

    method LoadLocVar() returns (r: Result<LocVar>)
      modifies `pos
      ensures Agrees(r, pos, ReadLocVar(input, old(pos)))
    {
      hide Int, ReadString;
      var name :- LoadString();
      var startpc :- LoadInt();
      var endpc :- LoadInt();
      return Pass(LocVar(name, startpc, endpc));
    }

    method LoadLocVarList() returns (r: Result<seq<LocVar>>)
      modifies `pos
      ensures Agrees(r, pos, LocVarList(input, old(pos)))
    {
      hide Int, LocVars, ReadLocVar, Behind;
      var start := pos;
      var n: int :- LoadInt();
      var v: seq<LocVar> := [];
      var i := 0;
      BehindNothing(LocVars(input, pos, n));
      while i < n
        invariant 0 <= i <= n
        invariant Behind(v, LocVars(input, pos, n - i)) == LocVarList(input, start)
        decreases n - i
      {
        LocVarsTurn(input, pos, n - i);
        BehindErr<LocVar>(v);
        var c :- LoadLocVar();
        BehindBoth(v, [c], LocVars(input, pos, n - (i + 1)));
        v := v + [c];
        i := i + 1;
      }
      LocVarsTurn(input, pos, 0);
      BehindAll(v, pos);
      return Pass(v);
    }

    method LoadStringList() returns (r: Result<seq<Option<Str>>>)
      modifies `pos
      ensures Agrees(r, pos, StringList(input, old(pos)))
    {
      hide Int, Strings, ReadString, Behind;
      var start := pos;
      var n: int :- LoadInt();
      var u: seq<Option<Str>> := [];
      var i := 0;
      BehindNothing(Strings(input, pos, n));
      while i < n
        invariant 0 <= i <= n
        invariant Behind(u, Strings(input, pos, n - i)) == StringList(input, start)
        decreases n - i
      {
        StringsTurn(input, pos, n - i);
        BehindErr<Option<Str>>(u);
        var c :- LoadString();
        BehindBoth(u, [c], Strings(input, pos, n - (i + 1)));
        u := u + [c];
        i := i + 1;
      }
      StringsTurn(input, pos, 0);
      BehindAll(u, pos);
      return Pass(u);
    }

    /** The functions inside a function with source `source`. */
    method LoadProtoList(source: Option<Str>) returns (r: Result<seq<Proto>>)
      modifies `pos, `nCcalls
      ensures Agrees(r, pos, ProtoList(check, input, old(pos), source, old(nCcalls)))
      ensures r.Pass? ==> nCcalls == old(nCcalls)
      decreases LUAI_MAXCCALLS - nCcalls, 1
    {
      hide Int, Protos, ReadProto, Behind;
      var start, calls := pos, nCcalls;
      var n: int :- LoadInt();
      var p: seq<Proto> := [];
      var i := 0;
      BehindNothing(Protos(check, input, pos, source, calls, n));
      while i < n
        invariant 0 <= i <= n && nCcalls == calls
        invariant Behind(p, Protos(check, input, pos, source, calls, n - i)) == ProtoList(check, input, start, source, calls)
        decreases n - i
      {
        ProtosTurn(check, input, pos, source, calls, n - i);
        BehindErr<Proto>(p);
        var c :- LoadFunction(source);
        BehindBoth(p, [c], Protos(check, input, pos, source, calls, n - (i + 1)));
        p := p + [c];
        i := i + 1;
      }
      ProtosTurn(check, input, pos, source, calls, 0);
      BehindAll(p, pos);
      return Pass(p);
    }

    method LoadDebug() returns (r: Result<Debug>)
      modifies `pos
      ensures Agrees(r, pos, ReadDebug(input, old(pos)))
    {
      hide Int, Vector, LocVars, Strings;
      var lineinfo :- LoadCode();
      var locvars :- LoadLocVarList();
      var upvalues :- LoadStringList();
      return Pass(Debug(lineinfo, locvars, upvalues));
    }

    method LoadHead() returns (r: Result<Head>)
      modifies `pos
      ensures Agrees(r, pos, ReadHead(input, old(pos)))
    {
      hide Int;
      var linedefined :- LoadInt();
      var lastlinedefined :- LoadInt();
      var b :- LoadFour();
      return Pass(Head(linedefined, lastlinedefined, b[0], b[1], b[2], b[3]));
    }

    /** Four single bytes. */
    method LoadFour() returns (r: Result<seq<byte>>)
      modifies `pos
      ensures Agrees(r, pos, Block(input, old(pos), 4))
    {
      var start := pos;
      var nups :- LoadChar();
      var numparams :- LoadChar();
      var isVararg :- LoadChar();
      var maxstacksize :- LoadChar();
      assert input[start..start + 4] == [nups, numparams, isVararg, maxstacksize];
      return Pass([nups, numparams, isVararg, maxstacksize]);
    }

    method LoadFunction(parent: Option<Str>) returns (r: Result<Proto>)
      modifies `pos, `nCcalls
      ensures Agrees(r, pos, ReadProto(check, input, old(pos), parent, old(nCcalls)))
      ensures r.Pass? ==> nCcalls == old(nCcalls)
      decreases LUAI_MAXCCALLS - nCcalls, 0
    {
      hide ReadString, ReadHead, Vector, Constants, Protos, ReadDebug, Int;
      nCcalls := nCcalls + 1;
      if nCcalls > LUAI_MAXCCALLS { return Throw(TooDeep); }
      var own :- LoadString();
      var source := if own.None? then parent else own;
      var head :- LoadHead();
      var code :- LoadCode();
      var k :- LoadConstantList();
      var p :- LoadProtoList(source);
      var debug :- LoadDebug();
      var f := Proto(source, head, code, k, p, debug);
      if !check(f) { return Throw(BadCode); }
      nCcalls := nCcalls - 1;
      return Pass(f);
    }

    /** `luaU_undump`. */
    method Undump() returns (r: Result<Proto>)
      requires pos == 0
      modifies `pos, `nCcalls
      ensures Agrees(r, pos, LuaChunk.Undump(check, input, old(nCcalls)))
    {
      hide ReadProto;
      var h :- LoadBlock(|HEADER|);
      if h != HEADER { return Throw(BadHeader); }
      r := LoadFunction(Some(NO_SOURCE));
    }
  }

  lemma BehindErr<T(!new)>(done: seq<T>)
    ensures forall why: Error :: Behind(done, Err(why)) == Err(why)
  {
  }

  function ConstantList(s: seq<byte>, i: nat): Read<seq<Constant>> {
    var (n, j) :- Int(s, i);
    Constants(s, j, n)
  }

  function LocVarList(s: seq<byte>, i: nat): Read<seq<LocVar>> {
    var (n, j) :- Int(s, i);
    LocVars(s, j, n)
  }

  function StringList(s: seq<byte>, i: nat): Read<seq<Option<Str>>> {
    var (n, j) :- Int(s, i);
    Strings(s, j, n)
  }

  function ProtoList(check: Proto -> bool, s: seq<byte>, i: nat, source: Option<Str>, calls: nat): Read<seq<Proto>> {
    var (n, j) :- Int(s, i);
    Protos(check, s, j, source, calls, n)
  }

  lemma ConstantsTurn(s: seq<byte>, i: nat, n: nat)
    ensures Constants(s, i, n) ==
            if n == 0 then Ok([], i)
            else var c := ReadConstant(s, i); if c.Err? then Err(c.why) else Behind([c.value], Constants(s, c.pos, n - 1))
  {
    hide ReadConstant;
  }

  lemma LocVarsTurn(s: seq<byte>, i: nat, n: nat)
    ensures LocVars(s, i, n) ==
            if n == 0 then Ok([], i)
            else var c := ReadLocVar(s, i); if c.Err? then Err(c.why) else Behind([c.value], LocVars(s, c.pos, n - 1))
  {
    hide ReadLocVar;
  }

  lemma StringsTurn(s: seq<byte>, i: nat, n: nat)
    ensures Strings(s, i, n) ==
            if n == 0 then Ok([], i)
            else var c := ReadString(s, i); if c.Err? then Err(c.why) else Behind([c.value], Strings(s, c.pos, n - 1))
  {
    hide ReadString;
  }

  lemma ProtosTurn(check: Proto -> bool, s: seq<byte>, i: nat, source: Option<Str>, calls: nat, n: nat)
    ensures Protos(check, s, i, source, calls, n) ==
            if n == 0 then Ok([], i)
            else
              var c := ReadProto(check, s, i, source, calls);
              if c.Err? then Err(c.why) else Behind([c.value], Protos(check, s, c.pos, source, calls, n - 1))
  {
    hide ReadProto;
  }
}
