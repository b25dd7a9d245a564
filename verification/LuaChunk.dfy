/** Precompiled chunks: lua/ldump.c writes a function prototype as bytes, lua/lundump.c reads it back. */
module LuaChunk {
  import opened Basics

  const TWO_31 := 0x8000_0000
  const TWO_32 := 0x1_0000_0000

  /** A 32-bit word: an instruction, or a line number as it is stored. */
  type Word = x: int | 0 <= x < TWO_32

  /** A C `int`. */
  type CInt = x: int | -TWO_31 <= x < TWO_31

  type Str = seq<byte>

  /** A constant; a number is its eight bytes in memory. */
  datatype Constant = Nil | Bool(b: bool) | Number(image: seq<byte>) | String(s: Str)

  datatype LocVar = LocVar(varname: Option<Str>, startpc: CInt, endpc: CInt)

  datatype Head = Head(linedefined: CInt, lastlinedefined: CInt, nups: byte, numparams: byte, isVararg: byte, maxstacksize: byte)

  datatype Debug = Debug(lineinfo: seq<Word>, locvars: seq<LocVar>, upvalues: seq<Option<Str>>)

  datatype Proto = Proto(source: Option<Str>, head: Head, code: seq<Word>, k: seq<Constant>, p: seq<Proto>, debug: Debug)

  // ---------------------------------------------------------------- numbers as bytes

  function OfLe(b: seq<byte>): nat {
    if b == [] then 0 else b[0] as nat + 256 * OfLe(b[1..])
  }

  function Pow256(n: nat): nat {
    if n == 0 then 1 else 256 * Pow256(n - 1)
  }

  lemma {:induction false} OfLeLe(x: nat, n: nat)
    requires x < Pow256(n)
    ensures OfLe(Le(x, n)) == x
  {
    if n > 0 { OfLeLe(x / 256, n - 1); }
  }

  lemma Sizes()
    ensures Pow256(4) == TWO_32 && Pow256(8) == TWO_64
  {
    assert Pow256(2) == 65536;
    assert Pow256(4) == 65536 * 65536;
    assert Pow256(6) == 65536 * 65536 * 65536;
  }

  // ---------------------------------------------------------------- the text of a prototype

  function IntText(x: int): (b: seq<byte>)
    ensures |b| == 4
  {
    Le(x % TWO_32, 4)
  }

  function StringText(s: Option<Str>): seq<byte> {
    if s.None? then Le(0, 8) else Le((|s.value| + 1) % TWO_64, 8) + (s.value + [0])
  }

  function WordsText(c: seq<Word>): (b: seq<byte>)
    ensures |b| == 4 * |c|
  {
    if c == [] then [] else Le(c[0], 4) + WordsText(c[1..])
  }

  function VectorText(c: seq<Word>): seq<byte> {
    IntText(|c|) + WordsText(c)
  }

  const LUA_TNIL: byte := 0
  const LUA_TBOOLEAN: byte := 1
  const LUA_TNUMBER: byte := 3
  const LUA_TSTRING: byte := 4

  function ConstantText(c: Constant): seq<byte> {
    match c
    case Nil => [LUA_TNIL]
    case Bool(b) => [LUA_TBOOLEAN] + [if b then 1 else 0]
    case Number(image) => [LUA_TNUMBER] + image
    case String(s) => [LUA_TSTRING] + StringText(Some(s))
  }

  function ConstantsText(k: seq<Constant>): seq<byte> {
    if k == [] then [] else ConstantText(k[0]) + ConstantsText(k[1..])
  }

  function LocVarText(v: LocVar): seq<byte> {
    StringText(v.varname) + (IntText(v.startpc) + IntText(v.endpc))
  }

  function LocVarsText(v: seq<LocVar>): seq<byte> {
    if v == [] then [] else LocVarText(v[0]) + LocVarsText(v[1..])
  }

  function StringsText(u: seq<Option<Str>>): seq<byte> {
    if u == [] then [] else StringText(u[0]) + StringsText(u[1..])
  }

  function HeadText(h: Head): seq<byte> {
    IntText(h.linedefined) + (IntText(h.lastlinedefined) + [h.nups, h.numparams, h.isVararg, h.maxstacksize])
  }

  const NO_DEBUG := Debug([], [], [])

  function DebugText(d: Debug): seq<byte> {
    VectorText(d.lineinfo) + ((IntText(|d.locvars|) + LocVarsText(d.locvars)) + (IntText(|d.upvalues|) + StringsText(d.upvalues)))
  }

  /** A prototype inside a prototype with source `parent`; the source is left out if it is the same, or stripped. */
  function ProtoText(f: Proto, parent: Option<Str>, strip: bool): seq<byte>
    decreases f, 0
  {
    StringText(if f.source == parent || strip then None else f.source)
      + (HeadText(f.head)
      + (VectorText(f.code)
      + ((IntText(|f.k|) + ConstantsText(f.k))
      + ((IntText(|f.p|) + ProtosText(f.p, f.source, strip))
      + DebugText(if strip then NO_DEBUG else f.debug)))))
  }

  function ProtosText(p: seq<Proto>, parent: Option<Str>, strip: bool): seq<byte>
    decreases p
  {
    if p == [] then [] else ProtoText(p[0], parent, strip) + ProtosText(p[1..], parent, strip)
  }

  /** Signature, version, format, little endian, sizes of `int`, `size_t`, instruction and number, no integral numbers. */
  const HEADER: seq<byte> := [27, 76, 117, 97, 0x51, 0, 1, 4, 8, 4, 8, 0]

  function ChunkText(f: Proto, strip: bool): seq<byte> {
    HEADER + ProtoText(f, None, strip)
  }

  // ---------------------------------------------------------------- reading it

  datatype Error = UnexpectedEnd | BadInteger | BadConstant | TooDeep | BadCode | BadHeader

  /** What was read and where it ended. */
  datatype Read<+T> = Err(why: Error) | Ok(value: T, pos: nat) {
    predicate IsFailure() { Err? }
    function PropagateFailure<U>(): Read<U> requires Err? { Err(why) }
    function Extract(): (T, nat) requires Ok? { (value, pos) }
  }

  function Block(s: seq<byte>, i: nat, n: nat): (r: Read<seq<byte>>)
    ensures r.Ok? ==> |r.value| == n
  {
    if i + n <= |s| then Ok(s[i..i + n], i + n) else Err(UnexpectedEnd)
  }

  function Char(s: seq<byte>, i: nat): Read<byte> {
    if i < |s| then Ok(s[i], i + 1) else Err(UnexpectedEnd)
  }

  function Int(s: seq<byte>, i: nat): (r: Read<CInt>)
    ensures r.Ok? ==> r.value >= 0
  {
    var (b, j) :- Block(s, i, 4);
    var w := OfLe(b);
    if w >= TWO_31 then Err(BadInteger) else Ok(w, j)
  }

  function ReadString(s: seq<byte>, i: nat): Read<Option<Str>> {
    var (b, j) :- Block(s, i, 8);
    var size := OfLe(b);
    if size == 0 then Ok(None, j)
    else
      var (t, e) :- Block(s, j, size);
      Ok(Some(t[..size - 1]), e)
  }

  function ToWord(b: seq<byte>): Word
    requires |b| == 4
  {
    OfLeSmall(b);
    OfLe(b)
  }

  lemma {:induction false} OfLeBelow(b: seq<byte>)
    ensures OfLe(b) < Pow256(|b|)
  {
    if b != [] { OfLeBelow(b[1..]); }
  }

  lemma OfLeSmall(b: seq<byte>)
    requires |b| == 4
    ensures OfLe(b) < TWO_32
  {
    OfLeBelow(b);
    Sizes();
  }

  function ToWords(b: seq<byte>): seq<Word> {
    if |b| < 4 then [] else [ToWord(b[..4])] + ToWords(b[4..])
  }

  function Vector(s: seq<byte>, i: nat): Read<seq<Word>> {
    var (n, j) :- Int(s, i);
    var (b, e) :- Block(s, j, n * 4);
    Ok(ToWords(b), e)
  }

  function ReadConstant(s: seq<byte>, i: nat): Read<Constant> {
    var (t, j) :- Char(s, i);
    if t == LUA_TNIL then Ok(Nil, j)
    else if t == LUA_TBOOLEAN then
      var (b, e) :- Char(s, j);
      Ok(Bool(b != 0), e)
    else if t == LUA_TNUMBER then
      var (b, e) :- Block(s, j, 8);
      Ok(Number(b), e)
    else if t == LUA_TSTRING then
      var (v, e) :- ReadString(s, j);
      Ok(String(if v.None? then [] else v.value), e)
    else Err(BadConstant)
  }

  function Constants(s: seq<byte>, i: nat, n: nat): (r: Read<seq<Constant>>)
    ensures r.Ok? ==> |r.value| == n
    decreases n
  {
    if n == 0 then Ok([], i)
    else
      var (c, j) :- ReadConstant(s, i);
      var (rest, e) :- Constants(s, j, n - 1);
      Ok([c] + rest, e)
  }

  function ReadLocVar(s: seq<byte>, i: nat): Read<LocVar> {
    var (name, j) :- ReadString(s, i);
    var (start, l) :- Int(s, j);
    var (end, e) :- Int(s, l);
    Ok(LocVar(name, start, end), e)
  }

  function LocVars(s: seq<byte>, i: nat, n: nat): (r: Read<seq<LocVar>>)
    ensures r.Ok? ==> |r.value| == n
    decreases n
  {
    if n == 0 then Ok([], i)
    else
      var (v, j) :- ReadLocVar(s, i);
      var (rest, e) :- LocVars(s, j, n - 1);
      Ok([v] + rest, e)
  }

  function Strings(s: seq<byte>, i: nat, n: nat): (r: Read<seq<Option<Str>>>)
    ensures r.Ok? ==> |r.value| == n
    decreases n
  {
    if n == 0 then Ok([], i)
    else
      var (v, j) :- ReadString(s, i);
      var (rest, e) :- Strings(s, j, n - 1);
      Ok([v] + rest, e)
  }

  function ReadHead(s: seq<byte>, i: nat): Read<Head> {
    var (line, j) :- Int(s, i);
    var (last, l) :- Int(s, j);
    var (b, e) :- Block(s, l, 4);
    Ok(Head(line, last, b[0], b[1], b[2], b[3]), e)
  }

  function ReadDebug(s: seq<byte>, i: nat): Read<Debug> {
    var (lineinfo, j) :- Vector(s, i);
    var (n, l) :- Int(s, j);
    var (locvars, m) :- LocVars(s, l, n);
    var (u, o) :- Int(s, m);
    var (upvalues, e) :- Strings(s, o, u);
    Ok(Debug(lineinfo, locvars, upvalues), e)
  }

  const LUAI_MAXCCALLS := 200

  /** A prototype inside one with source `parent`, `calls` C calls deep; `check` is the code check. */
  function ReadProto(check: Proto -> bool, s: seq<byte>, i: nat, parent: Option<Str>, calls: nat): Read<Proto>
    decreases LUAI_MAXCCALLS - calls, 0, 0
  {
    if calls + 1 > LUAI_MAXCCALLS then Err(TooDeep)
    else
      var (own, j0) :- ReadString(s, i);
      var source := if own.None? then parent else own;
      var (head, j1) :- ReadHead(s, j0);
      var (code, j2) :- Vector(s, j1);
      var (n, j3) :- Int(s, j2);
      var (k, j4) :- Constants(s, j3, n);
      var (m, j5) :- Int(s, j4);
      var (p, j6) :- Protos(check, s, j5, source, calls + 1, m);
      var (debug, e) :- ReadDebug(s, j6);
      var f := Proto(source, head, code, k, p, debug);
      if check(f) then Ok(f, e) else Err(BadCode)
  }

  function Protos(check: Proto -> bool, s: seq<byte>, i: nat, parent: Option<Str>, calls: nat, n: nat): (r: Read<seq<Proto>>)
    ensures r.Ok? ==> |r.value| == n
    decreases LUAI_MAXCCALLS - calls, 1, n
  {
    if n == 0 then Ok([], i)
    else
      var (f, j) :- ReadProto(check, s, i, parent, calls);
      var (rest, e) :- Protos(check, s, j, parent, calls, n - 1);
      Ok([f] + rest, e)
  }

  const NO_SOURCE: Str := [61, 63]

  function Undump(check: Proto -> bool, s: seq<byte>, calls: nat): Read<Proto> {
    var (h, j) :- Block(s, 0, |HEADER|);
    if h != HEADER then Err(BadHeader) else ReadProto(check, s, j, Some(NO_SOURCE), calls)
  }

  // ---------------------------------------------------------------- what is written can be read

  lemma BlockReads(s: seq<byte>, i: nat, a: seq<byte>)
    requires Reads(s, i, a)
    ensures Block(s, i, |a|) == Ok(a, i + |a|)
  {
  }

  lemma CharReads(s: seq<byte>, i: nat, c: byte)
    requires Reads(s, i, [c])
    ensures Char(s, i) == Ok(c, i + 1)
  {
    assert s[i..i + 1][0] == c;
  }

  lemma IntReads(s: seq<byte>, i: nat, x: CInt)
    requires Reads(s, i, IntText(x))
    ensures Int(s, i) == if x < 0 then Err(BadInteger) else Ok(x, i + 4)
  {
    hide Le, OfLe, Pow256, Reads, Block;
    BlockReads(s, i, IntText(x));
    Sizes();
    OfLeLe(x % TWO_32, 4);
    assert x % TWO_32 == if x < 0 then x + TWO_32 else x;
  }

  /** A string whose length fits a `size_t`, with its final zero. */
  predicate FitsString(s: Option<Str>) {
    s.Some? ==> |s.value| + 1 < TWO_64
  }

  lemma StringReads(s: seq<byte>, i: nat, v: Option<Str>)
    requires Reads(s, i, StringText(v)) && FitsString(v)
    ensures ReadString(s, i) == Ok(v, i + |StringText(v)|)
  {
    hide Le, OfLe, Pow256, Reads, Block;
    Sizes();
    if v.None? {
      OfLeLe(0, 8);
      BlockReads(s, i, Le(0, 8));
    } else {
      var size := |v.value| + 1;
      OfLeLe(size, 8);
      assert size % TWO_64 == size;
      ReadsParts(s, i, Le(size, 8), v.value + [0]);
      BlockReads(s, i, Le(size, 8));
      BlockReads(s, i + 8, v.value + [0]);
      assert (v.value + [0])[..size - 1] == v.value;
    }
  }

  lemma {:induction false} WordsBack(c: seq<Word>)
    ensures ToWords(WordsText(c)) == c
  {
    if c != [] {
      var b := WordsText(c);
      Sizes();
      OfLeLe(c[0], 4);
      assert b[..4] == Le(c[0], 4) && b[4..] == WordsText(c[1..]);
      WordsBack(c[1..]);
      hide Le, OfLe, Pow256;
    }
  }

  lemma VectorReads(s: seq<byte>, i: nat, c: seq<Word>)
    requires Reads(s, i, VectorText(c)) && |c| < TWO_31
    ensures Vector(s, i) == Ok(c, i + |VectorText(c)|)
  {
    hide Reads, Block, Int, WordsText, ToWords;
    ReadsParts(s, i, IntText(|c|), WordsText(c));
    IntReads(s, i, |c|);
    BlockReads(s, i + 4, WordsText(c));
    WordsBack(c);
  }

  predicate FitsConstant(c: Constant) {
    match c
    case Number(image) => |image| == 8
    case String(v) => FitsString(Some(v))
    case _ => true
  }

  lemma ConstantReads(s: seq<byte>, i: nat, c: Constant)
    requires Reads(s, i, ConstantText(c)) && FitsConstant(c)
    ensures ReadConstant(s, i) == Ok(c, i + |ConstantText(c)|)
  {
    hide Reads, Block, Char, StringText, ReadString, FitsString;
    match c {
      case Nil => { CharReads(s, i, LUA_TNIL); }
      case Bool(b) => {
        var v: byte := if b then 1 else 0;
        ReadsParts(s, i, [LUA_TBOOLEAN], [v]);
        CharReads(s, i, LUA_TBOOLEAN);
        CharReads(s, i + 1, v);
      }
      case Number(image) => {
        ReadsParts(s, i, [LUA_TNUMBER], image);
        CharReads(s, i, LUA_TNUMBER);
        BlockReads(s, i + 1, image);
      }
      case String(v) => {
        ReadsParts(s, i, [LUA_TSTRING], StringText(Some(v)));
        CharReads(s, i, LUA_TSTRING);
        StringReads(s, i + 1, Some(v));
      }
    }
  }

  lemma {:induction false} ConstantsRead(s: seq<byte>, i: nat, k: seq<Constant>)
    requires Reads(s, i, ConstantsText(k)) && forall j :: 0 <= j < |k| ==> FitsConstant(k[j])
    ensures Constants(s, i, |k|) == Ok(k, i + |ConstantsText(k)|)
    decreases |k|
  {
    hide Reads, ConstantText, ReadConstant, FitsConstant;
    if k != [] {
      ReadsParts(s, i, ConstantText(k[0]), ConstantsText(k[1..]));
      ConstantReads(s, i, k[0]);
      ConstantsRead(s, i + |ConstantText(k[0])|, k[1..]);
      assert k == [k[0]] + k[1..];
    }
  }

  predicate GoodLocVar(v: LocVar) {
    v.startpc >= 0 && v.endpc >= 0
  }

  lemma LocVarReads(s: seq<byte>, i: nat, v: LocVar)
    requires Reads(s, i, LocVarText(v)) && FitsString(v.varname)
    ensures var r := ReadLocVar(s, i); if GoodLocVar(v) then r == Ok(v, i + |LocVarText(v)|) else r.Err?
  {
    hide Reads, Int, StringText, ReadString, FitsString;
    ReadsParts(s, i, StringText(v.varname), IntText(v.startpc) + IntText(v.endpc));
    StringReads(s, i, v.varname);
    var j := i + |StringText(v.varname)|;
    ReadsParts(s, j, IntText(v.startpc), IntText(v.endpc));
    IntReads(s, j, v.startpc);
    IntReads(s, j + 4, v.endpc);
  }

  lemma {:induction false} LocVarsRead(s: seq<byte>, i: nat, v: seq<LocVar>)
    requires Reads(s, i, LocVarsText(v)) && forall j :: 0 <= j < |v| ==> FitsString(v[j].varname)
    ensures var r := LocVars(s, i, |v|);
            if forall j :: 0 <= j < |v| ==> GoodLocVar(v[j]) then r == Ok(v, i + |LocVarsText(v)|) else r.Err?
    decreases |v|
  {
    hide Reads, LocVarText, ReadLocVar, FitsString, GoodLocVar;
    if v != [] {
      ReadsParts(s, i, LocVarText(v[0]), LocVarsText(v[1..]));
      LocVarReads(s, i, v[0]);
      LocVarsRead(s, i + |LocVarText(v[0])|, v[1..]);
      assert v == [v[0]] + v[1..];
      HeadAndTail(v, x => GoodLocVar(x));
    }
  }

  lemma {:induction false} StringsRead(s: seq<byte>, i: nat, u: seq<Option<Str>>)
    requires Reads(s, i, StringsText(u)) && forall j :: 0 <= j < |u| ==> FitsString(u[j])
    ensures Strings(s, i, |u|) == Ok(u, i + |StringsText(u)|)
    decreases |u|
  {
    hide Reads, StringText, ReadString, FitsString;
    if u != [] {
      ReadsParts(s, i, StringText(u[0]), StringsText(u[1..]));
      StringReads(s, i, u[0]);
      StringsRead(s, i + |StringText(u[0])|, u[1..]);
      assert u == [u[0]] + u[1..];
    }
  }

  predicate GoodHead(h: Head) {
    h.linedefined >= 0 && h.lastlinedefined >= 0
  }

  lemma HeadReads(s: seq<byte>, i: nat, h: Head)
    requires Reads(s, i, HeadText(h))
    ensures var r := ReadHead(s, i); if GoodHead(h) then r == Ok(h, i + |HeadText(h)|) else r.Err?
  {
    hide Reads, Int, Block;
    var b := [h.nups, h.numparams, h.isVararg, h.maxstacksize];
    ReadsParts(s, i, IntText(h.linedefined), IntText(h.lastlinedefined) + b);
    IntReads(s, i, h.linedefined);
    ReadsParts(s, i + 4, IntText(h.lastlinedefined), b);
    IntReads(s, i + 4, h.lastlinedefined);
    BlockReads(s, i + 8, b);
  }

  predicate FitsDebug(d: Debug) {
    && |d.lineinfo| < TWO_31 && |d.locvars| < TWO_31 && |d.upvalues| < TWO_31
    && (forall j :: 0 <= j < |d.locvars| ==> FitsString(d.locvars[j].varname))
    && (forall j :: 0 <= j < |d.upvalues| ==> FitsString(d.upvalues[j]))
  }

  predicate GoodDebug(d: Debug) {
    forall j :: 0 <= j < |d.locvars| ==> GoodLocVar(d.locvars[j])
  }

  lemma DebugReads(s: seq<byte>, i: nat, d: Debug)
    requires Reads(s, i, DebugText(d)) && FitsDebug(d)
    ensures var r := ReadDebug(s, i); if GoodDebug(d) then r == Ok(d, i + |DebugText(d)|) else r.Err?
  {
    hide Reads, Int, VectorText, Vector, LocVarsText, LocVars, StringsText, Strings, FitsString, GoodLocVar;
    var v, l, u := VectorText(d.lineinfo), LocVarsText(d.locvars), StringsText(d.upvalues);
    ReadsParts(s, i, v, (IntText(|d.locvars|) + l) + (IntText(|d.upvalues|) + u));
    VectorReads(s, i, d.lineinfo);
    var j := i + |v|;
    ReadsParts(s, j, IntText(|d.locvars|) + l, IntText(|d.upvalues|) + u);
    ReadsParts(s, j, IntText(|d.locvars|), l);
    IntReads(s, j, |d.locvars|);
    LocVarsRead(s, j + 4, d.locvars);
    var m := j + 4 + |l|;
    ReadsParts(s, m, IntText(|d.upvalues|), u);
    IntReads(s, m, |d.upvalues|);
    StringsRead(s, m + 4, d.upvalues);
  }

  // ---------------------------------------------------------------- the round trip

  /** What C's types allow: counts are `int`, sizes are `size_t`, numbers have eight bytes. */
  predicate Fits(f: Proto) {
    && FitsString(f.source) && |f.code| < TWO_31 && |f.k| < TWO_31 && |f.p| < TWO_31 && FitsDebug(f.debug)
    && (forall j :: 0 <= j < |f.k| ==> FitsConstant(f.k[j]))
    && (forall j :: 0 <= j < |f.p| ==> Fits(f.p[j]))
  }

  function LoadedSource(f: Proto, parent: Option<Str>, strip: bool): Option<Str> {
    if strip || f.source.None? then parent else f.source
  }

  /** The prototype as it comes back inside one with source `parent`. */
  function Loaded(f: Proto, parent: Option<Str>, strip: bool): Proto
    decreases f, 0
  {
    var source := LoadedSource(f, parent, strip);
    Proto(source, f.head, f.code, f.k, AllLoaded(f.p, source, strip), if strip then NO_DEBUG else f.debug)
  }

  function AllLoaded(p: seq<Proto>, parent: Option<Str>, strip: bool): (r: seq<Proto>)
    ensures |r| == |p|
    decreases p
  {
    if p == [] then [] else [Loaded(p[0], parent, strip)] + AllLoaded(p[1..], parent, strip)
  }

  /** Reading succeeds: the nesting is not too deep, no integer is negative, and the code check accepts every prototype. */
  predicate Loadable(check: Proto -> bool, f: Proto, parent: Option<Str>, strip: bool, calls: nat)
    decreases f, 0
  {
    && calls < LUAI_MAXCCALLS && GoodHead(f.head)
    && AllLoadable(check, f.p, LoadedSource(f, parent, strip), strip, calls + 1)
    && (strip || GoodDebug(f.debug))
    && check(Loaded(f, parent, strip))
  }

  predicate AllLoadable(check: Proto -> bool, p: seq<Proto>, parent: Option<Str>, strip: bool, calls: nat)
    decreases p
  {
    p == [] || (Loadable(check, p[0], parent, strip, calls) && AllLoadable(check, p[1..], parent, strip, calls))
  }

  /** What the reader knows of the source that the writer left out. */
  predicate Shared(parent: Option<Str>, loaded: Option<Str>, strip: bool) {
    !strip && parent.Some? ==> loaded == parent
  }

  lemma SourceReads(s: seq<byte>, i: nat, f: Proto, parent: Option<Str>, loaded: Option<Str>, strip: bool)
    requires FitsString(f.source) && Shared(parent, loaded, strip)
    requires Reads(s, i, StringText(if f.source == parent || strip then None else f.source))
    ensures var r := ReadString(s, i);
            && r.Ok? && r.pos == i + |StringText(if f.source == parent || strip then None else f.source)|
            && (if r.value.None? then loaded else r.value) == LoadedSource(f, loaded, strip)
  {
    StringReads(s, i, if f.source == parent || strip then None else f.source);
  }

  lemma ProtoTextMeans(f: Proto, parent: Option<Str>, strip: bool)
    ensures ProtoText(f, parent, strip) ==
            StringText(if f.source == parent || strip then None else f.source)
              + (HeadText(f.head)
              + (VectorText(f.code)
              + ((IntText(|f.k|) + ConstantsText(f.k))
              + ((IntText(|f.p|) + ProtosText(f.p, f.source, strip))
              + DebugText(if strip then NO_DEBUG else f.debug)))))
  {
    hide StringText, HeadText, VectorText, IntText, ConstantsText, ProtosText, DebugText;
  }

  /** The parts of a written prototype, one behind the other. */
  lemma ProtoParts(s: seq<byte>, i: nat, f: Proto, parent: Option<Str>, strip: bool)
    requires Reads(s, i, ProtoText(f, parent, strip))
    ensures var a := StringText(if f.source == parent || strip then None else f.source);
            var d := DebugText(if strip then NO_DEBUG else f.debug);
            var j0 := i + |a|; var j1 := j0 + |HeadText(f.head)|; var j2 := j1 + |VectorText(f.code)|;
            var j4 := j2 + 4 + |ConstantsText(f.k)|; var j6 := j4 + 4 + |ProtosText(f.p, f.source, strip)|;
            && Reads(s, i, a) && Reads(s, j0, HeadText(f.head)) && Reads(s, j1, VectorText(f.code))
            && Reads(s, j2, IntText(|f.k|)) && Reads(s, j2 + 4, ConstantsText(f.k))
            && Reads(s, j4, IntText(|f.p|)) && Reads(s, j4 + 4, ProtosText(f.p, f.source, strip))
            && Reads(s, j6, d) && j6 + |d| == i + |ProtoText(f, parent, strip)|
  {
    hide *;
    ProtoTextMeans(f, parent, strip);
    var a := StringText(if f.source == parent || strip then None else f.source);
    var h, c, d := HeadText(f.head), VectorText(f.code), DebugText(if strip then NO_DEBUG else f.debug);
    var nk, k, np, p := IntText(|f.k|), ConstantsText(f.k), IntText(|f.p|), ProtosText(f.p, f.source, strip);
    ReadsParts(s, i, a, h + (c + ((nk + k) + ((np + p) + d))));
    var j0 := i + |a|;
    ReadsParts(s, j0, h, c + ((nk + k) + ((np + p) + d)));
    var j1 := j0 + |h|;
    ReadsParts(s, j1, c, (nk + k) + ((np + p) + d));
    var j2 := j1 + |c|;
    ReadsParts(s, j2, nk + k, (np + p) + d);
    ReadsParts(s, j2, nk, k);
    var j4 := j2 + 4 + |k|;
    ReadsParts(s, j4, np + p, d);
    ReadsParts(s, j4, np, p);
  }

  /** A written prototype is read back, up to its last byte, exactly when it is loadable. */
  lemma {:induction false} ProtoReads(check: Proto -> bool, s: seq<byte>, i: nat, f: Proto, parent: Option<Str>, loaded: Option<Str>,
                                      strip: bool, calls: nat)
    requires Fits(f) && Shared(parent, loaded, strip) && Reads(s, i, ProtoText(f, parent, strip))
    ensures var r := ReadProto(check, s, i, loaded, calls);
            if Loadable(check, f, loaded, strip, calls) then r == Ok(Loaded(f, loaded, strip), i + |ProtoText(f, parent, strip)|)
            else r.Err?
    decreases f, 0
  {
    hide Reads, ProtoText, StringText, ReadString, HeadText, ReadHead, VectorText, Vector, ConstantsText, Constants, DebugText, ReadDebug,
      Int, IntText, ProtosText, Protos, FitsConstant, FitsString, FitsDebug, GoodHead, GoodDebug, AllLoaded, AllLoadable;
    if calls < LUAI_MAXCCALLS {
      ProtoParts(s, i, f, parent, strip);
      SourceReads(s, i, f, parent, loaded, strip);
      var source := LoadedSource(f, loaded, strip);
      var j0 := i + |StringText(if f.source == parent || strip then None else f.source)|;
      HeadReads(s, j0, f.head);
      var j1 := j0 + |HeadText(f.head)|;
      VectorReads(s, j1, f.code);
      var j2 := j1 + |VectorText(f.code)|;
      IntReads(s, j2, |f.k|);
      ConstantsRead(s, j2 + 4, f.k);
      var j4 := j2 + 4 + |ConstantsText(f.k)|;
      IntReads(s, j4, |f.p|);
      assert Shared(f.source, source, strip);
      ProtosRead(check, s, j4 + 4, f.p, f.source, source, strip, calls + 1);
      var j6 := j4 + 4 + |ProtosText(f.p, f.source, strip)|;
      NoDebugIsGood();
      DebugReads(s, j6, if strip then NO_DEBUG else f.debug);
    }
  }

  lemma NoDebugIsGood()
    ensures FitsDebug(NO_DEBUG) && GoodDebug(NO_DEBUG)
  {
  }

  lemma {:induction false} ProtosRead(check: Proto -> bool, s: seq<byte>, i: nat, p: seq<Proto>, parent: Option<Str>, loaded: Option<Str>,
                                      strip: bool, calls: nat)
    requires (forall j :: 0 <= j < |p| ==> Fits(p[j])) && Shared(parent, loaded, strip) && Reads(s, i, ProtosText(p, parent, strip))
    ensures var r := Protos(check, s, i, loaded, calls, |p|);
            if AllLoadable(check, p, loaded, strip, calls) then r == Ok(AllLoaded(p, loaded, strip), i + |ProtosText(p, parent, strip)|)
            else r.Err?
    decreases p
  {
    hide Reads, ProtoText, ReadProto, Fits, Loaded, Loadable, Shared;
    if p != [] {
      ReadsParts(s, i, ProtoText(p[0], parent, strip), ProtosText(p[1..], parent, strip));
      ProtoReads(check, s, i, p[0], parent, loaded, strip, calls);
      ProtosRead(check, s, i + |ProtoText(p[0], parent, strip)|, p[1..], parent, loaded, strip, calls);
    }
  }

  /** A dumped chunk is undumped, and nothing behind it is read. */
  lemma RoundTrip(check: Proto -> bool, f: Proto, strip: bool, calls: nat, rest: seq<byte>)
    requires Fits(f)
    ensures var r := Undump(check, ChunkText(f, strip) + rest, calls);
            if Loadable(check, f, Some(NO_SOURCE), strip, calls) then r == Ok(Loaded(f, Some(NO_SOURCE), strip), |ChunkText(f, strip)|)
            else r.Err?
  {
    hide ProtoText, ReadProto, Loadable, Loaded, Fits, Block, Reads;
    var t := ProtoText(f, None, strip);
    var s := ChunkText(f, strip) + rest;
    assert Reads(s, 0, HEADER + (t + rest)) by { ReadsAll(HEADER, t, rest); }
    ReadsParts(s, 0, HEADER, t + rest);
    ReadsParts(s, |HEADER|, t, rest);
    BlockReads(s, 0, HEADER);
    ProtoReads(check, s, |HEADER|, f, None, Some(NO_SOURCE), strip, calls);
  }

  lemma ReadsAll(a: seq<byte>, b: seq<byte>, c: seq<byte>)
    ensures Reads(a + b + c, 0, a + (b + c))
  {
    assert (a + b + c)[0..|a + b + c|] == a + (b + c);
  }

  // ---------------------------------------------------------------- what comes back

  /** Every prototype knows its source. */
  predicate Sourced(f: Proto) {
    f.source.Some? && forall j :: 0 <= j < |f.p| ==> Sourced(f.p[j])
  }

  lemma {:induction false} AllLoadedAt(p: seq<Proto>, parent: Option<Str>, strip: bool, j: nat)
    requires j < |p|
    ensures AllLoaded(p, parent, strip)[j] == Loaded(p[j], parent, strip)
    decreases p
  {
    if j > 0 { AllLoadedAt(p[1..], parent, strip, j - 1); }
  }

  /** Without stripping, the same prototype comes back exactly when every prototype knows its source. */
  lemma {:induction false} LoadedWhole(f: Proto, parent: Option<Str>)
    requires parent.Some?
    ensures Loaded(f, parent, false) == f <==> Sourced(f)
    decreases f
  {
    var source := LoadedSource(f, parent, false);
    var q := AllLoaded(f.p, source, false);
    forall j | 0 <= j < |f.p| ensures q[j] == f.p[j] <==> Sourced(f.p[j]) {
      AllLoadedAt(f.p, source, false, j);
      LoadedWhole(f.p[j], source);
    }
    assert q == f.p <==> forall j :: 0 <= j < |f.p| ==> q[j] == f.p[j];
  }

  /** A prototype without debug information, with the given source throughout. */
  ghost predicate IsStripped(f: Proto, g: Proto, source: Option<Str>)
    decreases f
  {
    && g.source == source && g.head == f.head && g.code == f.code && g.k == f.k && g.debug == NO_DEBUG
    && |g.p| == |f.p| && forall j :: 0 <= j < |f.p| ==> IsStripped(f.p[j], g.p[j], source)
  }

  lemma {:induction false} LoadedStripped(f: Proto, source: Option<Str>)
    ensures IsStripped(f, Loaded(f, source, true), source)
    decreases f
  {
    forall j | 0 <= j < |f.p| ensures IsStripped(f.p[j], AllLoaded(f.p, source, true)[j], source) {
      AllLoadedAt(f.p, source, true, j);
      LoadedStripped(f.p[j], source);
    }
  }

  // ---------------------------------------------------------------- when it comes back

  function Depth(f: Proto): nat
    decreases f, 0
  {
    1 + Deepest(f.p)
  }

  function Deepest(p: seq<Proto>): nat
    decreases p
  {
    if p == [] then 0 else if Depth(p[0]) > Deepest(p[1..]) then Depth(p[0]) else Deepest(p[1..])
  }

  /** No line and no program counter is negative. */
  predicate NonNegative(f: Proto, strip: bool)
    decreases f, 0
  {
    GoodHead(f.head) && (strip || GoodDebug(f.debug)) && AllNonNegative(f.p, strip)
  }

  predicate AllNonNegative(p: seq<Proto>, strip: bool)
    decreases p
  {
    p == [] || (NonNegative(p[0], strip) && AllNonNegative(p[1..], strip))
  }

  /** The code check accepts a prototype and everything inside. */
  predicate Checked(check: Proto -> bool, g: Proto)
    decreases g, 0
  {
    check(g) && AllChecked(check, g.p)
  }

  predicate AllChecked(check: Proto -> bool, p: seq<Proto>)
    decreases p
  {
    p == [] || (Checked(check, p[0]) && AllChecked(check, p[1..]))
  }

  /** Loadable, in terms a caller can check before. */
  lemma {:induction false} LoadableMeans(check: Proto -> bool, f: Proto, parent: Option<Str>, strip: bool, calls: nat)
    ensures Loadable(check, f, parent, strip, calls)
       <==> Depth(f) + calls <= LUAI_MAXCCALLS && NonNegative(f, strip) && Checked(check, Loaded(f, parent, strip))
    decreases f, 0
  {
    hide GoodHead, GoodDebug, AllLoaded, AllLoadable, AllChecked, AllNonNegative;
    AllLoadableMeans(check, f.p, LoadedSource(f, parent, strip), strip, calls + 1);
    assert Loaded(f, parent, strip).p == AllLoaded(f.p, LoadedSource(f, parent, strip), strip);
    assert f.p != [] ==> Deepest(f.p) > 0;
  }

  lemma {:induction false} AllLoadableMeans(check: Proto -> bool, p: seq<Proto>, parent: Option<Str>, strip: bool, calls: nat)
    ensures AllLoadable(check, p, parent, strip, calls)
       <==> (p == [] || Deepest(p) + calls <= LUAI_MAXCCALLS) && AllNonNegative(p, strip) && AllChecked(check, AllLoaded(p, parent, strip))
    decreases p
  {
    hide Loadable, Loaded, NonNegative, Checked, Depth;
    if p != [] {
      LoadableMeans(check, p[0], parent, strip, calls);
      AllLoadableMeans(check, p[1..], parent, strip, calls);
      var a := AllLoaded(p, parent, strip);
      assert a[0] == Loaded(p[0], parent, strip) && a[1..] == AllLoaded(p[1..], parent, strip);
      assert Deepest(p) + calls <= LUAI_MAXCCALLS
        <==> Depth(p[0]) + calls <= LUAI_MAXCCALLS && (p[1..] == [] || Deepest(p[1..]) + calls <= LUAI_MAXCCALLS);
    }
  }

  lemma HeadAndTail<T>(s: seq<T>, ok: T -> bool)
    requires s != []
    ensures (forall j :: 0 <= j < |s| ==> ok(s[j])) <==> ok(s[0]) && forall j :: 0 <= j < |s[1..]| ==> ok(s[1..][j])
  {
    if ok(s[0]) && forall j :: 0 <= j < |s[1..]| ==> ok(s[1..][j]) {
      forall j | 0 <= j < |s| ensures ok(s[j]) {
        if j > 0 { assert s[j] == s[1..][j - 1]; }
      }
    } else if ok(s[0]) {
      var j :| 0 <= j < |s[1..]| && !ok(s[1..][j]);
      assert !ok(s[j + 1]);
    }
  }

  /** The source "=?" stands for none, and calls are nested 200 deep at most. */
  lemma Literals()
    ensures NO_SOURCE == [61, 63] && LUAI_MAXCCALLS == 200
  {
  }

  /** The same prototype comes back exactly when it is sourced, not too deep, without negative integers, and checked. */
  lemma RoundTripExact(check: Proto -> bool, f: Proto, calls: nat, rest: seq<byte>)
    requires Fits(f)
    ensures Undump(check, ChunkText(f, false) + rest, calls) == Ok(f, |ChunkText(f, false)|)
       <==> Sourced(f) && Depth(f) + calls <= 200 && NonNegative(f, false) && Checked(check, f)
  {
    hide *;
    Literals();
    RoundTrip(check, f, false, calls, rest);
    LoadableMeans(check, f, Some(NO_SOURCE), false, calls);
    LoadedWhole(f, Some(NO_SOURCE));
  }

  /** A stripped chunk comes back without debug information, and with source "=?" throughout. */
  lemma RoundTripStripped(check: Proto -> bool, f: Proto, calls: nat, rest: seq<byte>)
    requires Fits(f)
    ensures var g := Loaded(f, Some([61, 63]), true);
            && IsStripped(f, g, Some([61, 63]))
            && (Undump(check, ChunkText(f, true) + rest, calls) == Ok(g, |ChunkText(f, true)|)
                <==> Depth(f) + calls <= 200 && NonNegative(f, true) && Checked(check, g))
  {
    hide *;
    Literals();
    RoundTrip(check, f, true, calls, rest);
    LoadableMeans(check, f, Some(NO_SOURCE), true, calls);
    LoadedStripped(f, Some(NO_SOURCE));
  }
}
