/** The format of precompiled chunks of Lua 5.1, byte for byte: what lua/ldump.c writes on a 64-bit little-endian machine has this
    layout, and whatever has it is what lua/ldump.c writes. */
module LuaLayout {
  import opened Basics
  import opened LuaChunk

  // ---------------------------------------------------------------- the layout

  /** Four bytes, the low one first; a negative integer is stored modulo 2^32. */
  ghost predicate Int32(b: seq<byte>, i: nat, x: int) {
    && i + 4 <= |b|
    && b[i] as int + 0x100 * b[i + 1] as int + 0x1_0000 * b[i + 2] as int + 0x100_0000 * b[i + 3] as int
       == if x < 0 then x + 0x1_0000_0000 else x
  }

  /** Eight bytes, the low one first. */
  ghost predicate Size64(b: seq<byte>, i: nat, n: int) {
    && i + 8 <= |b|
    && b[i] as int + 0x100 * b[i + 1] as int + 0x1_0000 * b[i + 2] as int + 0x100_0000 * b[i + 3] as int
       + 0x1_0000_0000 * (b[i + 4] as int + 0x100 * b[i + 5] as int + 0x1_0000 * b[i + 6] as int + 0x100_0000 * b[i + 7] as int)
       == n
  }

  /** A string from `i` to `e`: its size with the final zero, its bytes, and the zero; or the size zero for none. */
  ghost predicate StringAt(b: seq<byte>, i: nat, s: Option<Str>, e: nat) {
    match s
    case None => Size64(b, i, 0) && e == i + 8
    case Some(t) => Size64(b, i, |t| + 1) && e == i + 8 + |t| + 1 <= |b| && b[i + 8..i + 8 + |t|] == t && b[e - 1] == 0
  }

  ghost predicate WordsAt(b: seq<byte>, i: nat, c: seq<Word>, e: nat) {
    e == i + 4 * |c| && forall k :: 0 <= k < |c| ==> Int32(b, i + 4 * k, c[k])
  }

  /** A constant from `i` to `e`: its tag, and nothing, a truth value, the eight bytes of a number, or a string. */
  ghost predicate ConstantAt(b: seq<byte>, i: nat, c: Constant, e: nat) {
    && i < |b|
    && match c {
         case Nil => b[i] == 0 && e == i + 1
         case Bool(v) => b[i] == 1 && e == i + 2 <= |b| && b[i + 1] == if v then 1 else 0
         case Number(image) => b[i] == 3 && e == i + 9 <= |b| && b[i + 1..i + 9] == image
         case String(s) => b[i] == 4 && StringAt(b, i + 1, Some(s), e)
       }
  }

  ghost predicate ConstantsAt(b: seq<byte>, i: nat, k: seq<Constant>, e: nat)
    decreases |k|
  {
    if k == [] then e == i else exists j: nat :: ConstantAt(b, i, k[0], j) && ConstantsAt(b, j, k[1..], e)
  }

  /** The name of a local variable, and the program counters between which it is active. */
  ghost predicate LocVarAt(b: seq<byte>, i: nat, v: LocVar, e: nat) {
    exists j: nat :: StringAt(b, i, v.varname, j) && Int32(b, j, v.startpc) && Int32(b, j + 4, v.endpc) && e == j + 8
  }

  ghost predicate LocVarsAt(b: seq<byte>, i: nat, v: seq<LocVar>, e: nat)
    decreases |v|
  {
    if v == [] then e == i else exists j: nat :: LocVarAt(b, i, v[0], j) && LocVarsAt(b, j, v[1..], e)
  }

  ghost predicate StringsAt(b: seq<byte>, i: nat, u: seq<Option<Str>>, e: nat)
    decreases |u|
  {
    if u == [] then e == i else exists j: nat :: StringAt(b, i, u[0], j) && StringsAt(b, j, u[1..], e)
  }

  /** The twelve bytes behind the source. */
  ghost predicate HeadAt(b: seq<byte>, i: nat, h: Head) {
    && Int32(b, i, h.linedefined) && Int32(b, i + 4, h.lastlinedefined) && i + 12 <= |b|
    && b[i + 8] == h.nups && b[i + 9] == h.numparams && b[i + 10] == h.isVararg && b[i + 11] == h.maxstacksize
  }

  /** Lines, local variables and names of upvalues, each behind their number; the lines end at `j`, the variables at `l`. */
  ghost predicate DebugPartsAt(b: seq<byte>, i: nat, d: Debug, j: nat, l: nat, e: nat) {
    && Int32(b, i, |d.lineinfo|) && WordsAt(b, i + 4, d.lineinfo, j)
    && Int32(b, j, |d.locvars|) && LocVarsAt(b, j + 4, d.locvars, l)
    && Int32(b, l, |d.upvalues|) && StringsAt(b, l + 4, d.upvalues, e)
  }

  ghost predicate DebugAt(b: seq<byte>, i: nat, d: Debug, e: nat) {
    exists j: nat, l: nat :: DebugPartsAt(b, i, d, j, l, e)
  }

  /** The parts of a prototype from `i` to `e`: the source ends at `src`, the code at `code`, constants at `k`, prototypes at `p`. */
  ghost predicate PartsAt(b: seq<byte>, i: nat, f: Proto, parent: Option<Str>, strip: bool, src: nat, code: nat, k: nat, p: nat, e: nat)
    decreases f, 0
  {
    && StringAt(b, i, if strip || f.source == parent then None else f.source, src)
    && HeadAt(b, src, f.head)
    && Int32(b, src + 12, |f.code|) && WordsAt(b, src + 16, f.code, code)
    && Int32(b, code, |f.k|) && ConstantsAt(b, code + 4, f.k, k)
    && Int32(b, k, |f.p|) && ProtosAt(b, k + 4, f.p, f.source, strip, p)
    && DebugAt(b, p, if strip then Debug([], [], []) else f.debug, e)
  }

  /** A prototype from `i` to `e`, inside one with source `parent`. */
  ghost predicate ProtoAt(b: seq<byte>, i: nat, f: Proto, parent: Option<Str>, strip: bool, e: nat)
    decreases f, 1
  {
    exists src: nat, code: nat, k: nat, p: nat :: PartsAt(b, i, f, parent, strip, src, code, k, p, e)
  }

  ghost predicate ProtosAt(b: seq<byte>, i: nat, p: seq<Proto>, parent: Option<Str>, strip: bool, e: nat)
    decreases p
  {
    if p == [] then e == i
    else exists j: nat :: ProtoAt(b, i, p[0], parent, strip, j) && ProtosAt(b, j, p[1..], parent, strip, e)
  }

  /** The escape character and "Lua"; version 5.1, official format; little endian; the sizes of an `int`, a `size_t`, an instruction
      and a number; numbers are not integral. Behind it the main function, up to `e`. */
  ghost predicate ChunkAt(b: seq<byte>, f: Proto, strip: bool, e: nat) {
    && |b| >= 12 && b[..12] == [0x1B, 0x4C, 0x75, 0x61, 0x51, 0, 1, 4, 8, 4, 8, 0]
    && ProtoAt(b, 12, f, None, strip, e)
  }

  // ---------------------------------------------------------------- the layout is the text

  /** `b` has exactly the bytes `t` from `i` to `e`. */
  ghost predicate Spells(b: seq<byte>, i: nat, t: seq<byte>, e: nat) {
    Reads(b, i, t) && e == i + |t|
  }

  lemma SpellsBoth(b: seq<byte>, i: nat, t: seq<byte>, u: seq<byte>, e: nat)
    ensures Spells(b, i, t + u, e) <==> Spells(b, i, t, i + |t|) && Spells(b, i + |t|, u, e)
  {
    if Reads(b, i, t + u) { ReadsParts(b, i, t, u); }
    if Reads(b, i, t) && Reads(b, i + |t|, u) {
      assert b[i..i + |t + u|] == b[i..i + |t|] + b[i + |t|..i + |t| + |u|];
    }
  }

  lemma SpellsNothing(b: seq<byte>, i: nat, e: nat)
    requires i <= |b|
    ensures Spells(b, i, [], e) <==> e == i
  {
  }

  lemma {:induction false} LeOfLe(t: seq<byte>)
    ensures Le(OfLe(t), |t|) == t
  {
    if t != [] {
      LeOfLe(t[1..]);
      assert OfLe(t) % 256 == t[0] as int && OfLe(t) / 256 == OfLe(t[1..]);
      assert t == [t[0]] + t[1..];
    }
  }

  lemma FourBytes(t: seq<byte>)
    requires |t| == 4
    ensures OfLe(t) == t[0] as int + 0x100 * t[1] as int + 0x1_0000 * t[2] as int + 0x100_0000 * t[3] as int
  {
    assert OfLe(t[1..]) == t[1] as int + 256 * OfLe(t[1..][1..]) && t[1..][1..] == t[2..];
    assert OfLe(t[2..]) == t[2] as int + 256 * OfLe(t[2..][1..]) && t[2..][1..] == t[3..];
    assert OfLe(t[3..]) == t[3] as int + 256 * OfLe(t[3..][1..]) && t[3..][1..] == [];
  }

  lemma WordSpells(b: seq<byte>, i: nat, x: nat)
    requires x < TWO_32
    ensures Int32(b, i, x) <==> Spells(b, i, Le(x, 4), i + 4)
  {
    if i + 4 <= |b| {
      var t := b[i..i + 4];
      FourBytes(t);
      LeOfLe(t);
      Sizes();
      OfLeLe(x, 4);
    }
  }

  lemma IntSpells(b: seq<byte>, i: nat, x: CInt)
    ensures Int32(b, i, x) <==> Spells(b, i, IntText(x), i + 4)
  {
    var w := if x < 0 then x + TWO_32 else x;
    assert x % TWO_32 == w;
    WordSpells(b, i, w);
  }

  lemma {:induction false} OfLeBoth(t: seq<byte>, u: seq<byte>)
    ensures OfLe(t + u) == OfLe(t) + Pow256(|t|) * OfLe(u)
  {
    if t == [] {
      assert t + u == u;
    } else {
      OfLeBoth(t[1..], u);
      assert (t + u)[1..] == t[1..] + u;
      var p, x, y := Pow256(|t| - 1), OfLe(t[1..]), OfLe(u);
      hide OfLe, Pow256;
      Distribute(x, p, y);
    }
  }

  lemma Distribute(x: int, p: int, y: int)
    ensures 256 * (x + p * y) == 256 * x + (256 * p) * y
  {
  }

  lemma SizeSpells(b: seq<byte>, i: nat, n: nat)
    requires n < TWO_64
    ensures Size64(b, i, n) <==> Spells(b, i, Le(n, 8), i + 8)
  {
    if i + 8 <= |b| {
      var t := b[i..i + 8];
      var lo, hi := b[i..i + 4], b[i + 4..i + 8];
      assert t == lo + hi;
      FourBytes(lo);
      FourBytes(hi);
      OfLeBoth(lo, hi);
      LeOfLe(t);
      Sizes();
      OfLeLe(n, 8);
    }
  }

  lemma StringSpells(b: seq<byte>, i: nat, s: Option<Str>, e: nat)
    requires FitsString(s)
    ensures StringAt(b, i, s, e) <==> Spells(b, i, StringText(s), e)
  {
    hide Size64, Le;
    match s {
      case None => SizeSpells(b, i, 0);
      case Some(t) => SomeSpells(b, i, t, e);
    }
  }

  lemma SomeSpells(b: seq<byte>, i: nat, t: Str, e: nat)
    requires |t| + 1 < TWO_64
    ensures StringAt(b, i, Some(t), e) <==> Spells(b, i, StringText(Some(t)), e)
  {
    hide Size64, Le, Spells, StringText;
    SizeSpells(b, i, |t| + 1);
    var n := Le(|t| + 1, 8);
    SomeText(t);
    SpellsBoth(b, i, n, t + [0], e);
    SpellsBoth(b, i + 8, t, [0], e);
    OneByte(b, i + 8 + |t|, 0, e);
    BytesMean(b, i + 8, t);
  }

  lemma SomeText(t: Str)
    requires |t| + 1 < TWO_64
    ensures StringText(Some(t)) == Le(|t| + 1, 8) + (t + [0])
  {
    hide Le;
    SizeFits(|t| + 1);
  }

  lemma SizeFits(n: nat)
    requires n < TWO_64
    ensures n % TWO_64 == n
  {
  }

  lemma BytesMean(b: seq<byte>, i: nat, t: seq<byte>)
    ensures Spells(b, i, t, i + |t|) <==> i + |t| <= |b| && b[i..i + |t|] == t
  {
  }

  lemma OneByte(b: seq<byte>, i: nat, c: byte, e: nat)
    ensures Spells(b, i, [c], e) <==> i < |b| && b[i] == c && e == i + 1
  {
    if i < |b| { assert b[i..i + 1] == [b[i]]; }
  }

  lemma {:induction false} WordsSpell(b: seq<byte>, i: nat, c: seq<Word>, e: nat)
    requires i <= |b|
    ensures WordsAt(b, i, c, e) <==> Spells(b, i, WordsText(c), e)
    decreases |c|
  {
    hide Int32, Le;
    if c == [] {
      SpellsNothing(b, i, e);
    } else {
      WordSpells(b, i, c[0]);
      SpellsBoth(b, i, Le(c[0], 4), WordsText(c[1..]), e);
      if i + 4 <= |b| {
        WordsSpell(b, i + 4, c[1..], e);
        FirstWord(b, i, c, e);
      }
    }
  }

  lemma FirstWord(b: seq<byte>, i: nat, c: seq<Word>, e: nat)
    requires c != []
    ensures WordsAt(b, i, c, e) <==> Int32(b, i, c[0]) && WordsAt(b, i + 4, c[1..], e)
  {
    hide Int32;
    if Int32(b, i, c[0]) && WordsAt(b, i + 4, c[1..], e) {
      forall k | 0 <= k < |c|
        ensures Int32(b, i + 4 * k, c[k])
      {
        if k > 0 { assert Int32(b, i + 4 + 4 * (k - 1), c[1..][k - 1]); }
      }
    }
    if WordsAt(b, i, c, e) {
      assert Int32(b, i + 4 * 0, c[0]);
      forall k | 0 <= k < |c[1..]|
        ensures Int32(b, i + 4 + 4 * k, c[1..][k])
      {
        assert Int32(b, i + 4 * (k + 1), c[k + 1]);
      }
    }
  }

  lemma VectorSpells(b: seq<byte>, i: nat, c: seq<Word>, e: nat)
    requires |c| < TWO_31
    ensures Int32(b, i, |c|) && WordsAt(b, i + 4, c, e) <==> Spells(b, i, VectorText(c), e)
  {
    hide Int32, WordsAt, WordsText, IntText;
    IntSpells(b, i, |c|);
    SpellsBoth(b, i, IntText(|c|), WordsText(c), e);
    if Spells(b, i, IntText(|c|), i + 4) {
      Within(b, i, IntText(|c|), i + 4);
      WordsSpell(b, i + 4, c, e);
    }
  }

  lemma Within(b: seq<byte>, i: nat, t: seq<byte>, e: nat)
    requires Spells(b, i, t, e)
    ensures e <= |b|
  {
  }

  lemma ConstantSpells(b: seq<byte>, i: nat, c: Constant, e: nat)
    requires FitsConstant(c)
    ensures ConstantAt(b, i, c, e) <==> Spells(b, i, ConstantText(c), e)
  {
    hide Spells, StringAt, StringText, FitsString;
    match c {
      case Nil => OneByte(b, i, 0, e);
      case Bool(v) => {
        SpellsBoth(b, i, [1], [if v then 1 else 0], e);
        OneByte(b, i, 1, i + 1);
        OneByte(b, i + 1, if v then 1 else 0, e);
      }
      case Number(image) => {
        SpellsBoth(b, i, [3], image, e);
        OneByte(b, i, 3, i + 1);
        SpelledBytes(b, i + 1, image, e);
      }
      case String(s) => {
        SpellsBoth(b, i, [4], StringText(Some(s)), e);
        OneByte(b, i, 4, i + 1);
        StringSpells(b, i + 1, Some(s), e);
      }
    }
  }

  lemma SpelledBytes(b: seq<byte>, i: nat, t: seq<byte>, e: nat)
    ensures Spells(b, i, t, e) <==> e == i + |t| <= |b| && b[i..e] == t
  {
  }

  lemma {:induction false} ConstantsSpell(b: seq<byte>, i: nat, k: seq<Constant>, e: nat)
    requires i <= |b| && forall j :: 0 <= j < |k| ==> FitsConstant(k[j])
    ensures ConstantsAt(b, i, k, e) <==> Spells(b, i, ConstantsText(k), e)
    decreases |k|
  {
    hide Spells, ConstantAt, ConstantText, FitsConstant;
    if k == [] {
      SpellsNothing(b, i, e);
    } else {
      var t := ConstantText(k[0]);
      SpellsBoth(b, i, t, ConstantsText(k[1..]), e);
      forall j: nat
        ensures ConstantAt(b, i, k[0], j) <==> Spells(b, i, t, j)
      {
        ConstantSpells(b, i, k[0], j);
      }
      EndIs(b, i, t);
      if Spells(b, i, t, i + |t|) { ConstantsSpell(b, i + |t|, k[1..], e); }
    }
  }

  /** The end is given by the text. */
  lemma EndIs(b: seq<byte>, i: nat, t: seq<byte>)
    ensures forall j: nat :: Spells(b, i, t, j) ==> j == i + |t| && i + |t| <= |b|
  {
  }

  lemma LocVarSpells(b: seq<byte>, i: nat, v: LocVar, e: nat)
    requires FitsString(v.varname)
    ensures LocVarAt(b, i, v, e) <==> Spells(b, i, LocVarText(v), e)
  {
    hide Spells, StringAt, StringText, FitsString, Int32, IntText;
    var t, s, u := StringText(v.varname), IntText(v.startpc), IntText(v.endpc);
    SpellsBoth(b, i, t, s + u, e);
    forall j: nat
      ensures StringAt(b, i, v.varname, j) <==> Spells(b, i, t, j)
    {
      StringSpells(b, i, v.varname, j);
    }
    EndIs(b, i, t);
    var j := i + |t|;
    SpellsBoth(b, j, s, u, e);
    IntSpells(b, j, v.startpc);
    IntSpells(b, j + 4, v.endpc);
    EndIs(b, j + 4, u);
  }

  lemma {:induction false} LocVarsSpell(b: seq<byte>, i: nat, v: seq<LocVar>, e: nat)
    requires i <= |b| && forall j :: 0 <= j < |v| ==> FitsString(v[j].varname)
    ensures LocVarsAt(b, i, v, e) <==> Spells(b, i, LocVarsText(v), e)
    decreases |v|
  {
    hide Spells, LocVarAt, LocVarText, FitsString;
    if v == [] {
      SpellsNothing(b, i, e);
    } else {
      var t := LocVarText(v[0]);
      SpellsBoth(b, i, t, LocVarsText(v[1..]), e);
      forall j: nat
        ensures LocVarAt(b, i, v[0], j) <==> Spells(b, i, t, j)
      {
        LocVarSpells(b, i, v[0], j);
      }
      EndIs(b, i, t);
      if Spells(b, i, t, i + |t|) { LocVarsSpell(b, i + |t|, v[1..], e); }
    }
  }

  lemma {:induction false} StringsSpell(b: seq<byte>, i: nat, u: seq<Option<Str>>, e: nat)
    requires i <= |b| && forall j :: 0 <= j < |u| ==> FitsString(u[j])
    ensures StringsAt(b, i, u, e) <==> Spells(b, i, StringsText(u), e)
    decreases |u|
  {
    hide Spells, StringAt, StringText, FitsString;
    if u == [] {
      SpellsNothing(b, i, e);
    } else {
      var t := StringText(u[0]);
      SpellsBoth(b, i, t, StringsText(u[1..]), e);
      forall j: nat
        ensures StringAt(b, i, u[0], j) <==> Spells(b, i, t, j)
      {
        StringSpells(b, i, u[0], j);
      }
      EndIs(b, i, t);
      if Spells(b, i, t, i + |t|) { StringsSpell(b, i + |t|, u[1..], e); }
    }
  }

  lemma HeadSpells(b: seq<byte>, i: nat, h: Head)
    ensures HeadAt(b, i, h) <==> Spells(b, i, HeadText(h), i + 12)
  {
    hide Int32, IntText;
    var t, u, c := IntText(h.linedefined), IntText(h.lastlinedefined), [h.nups, h.numparams, h.isVararg, h.maxstacksize];
    SpellsBoth(b, i, t, u + c, i + 12);
    SpellsBoth(b, i + 4, u, c, i + 12);
    IntSpells(b, i, h.linedefined);
    IntSpells(b, i + 4, h.lastlinedefined);
    if i + 12 <= |b| { assert b[i + 8..i + 12] == [b[i + 8], b[i + 9], b[i + 10], b[i + 11]]; }
  }

  /** A number of things, and the things. */
  lemma CountSpells(b: seq<byte>, i: nat, n: nat, t: seq<byte>, e: nat)
    requires n < TWO_31
    ensures Int32(b, i, n) && Spells(b, i + 4, t, e) <==> Spells(b, i, IntText(n) + t, e)
  {
    hide Int32, IntText;
    IntSpells(b, i, n);
    SpellsBoth(b, i, IntText(n), t, e);
  }

  lemma LocalsSpell(b: seq<byte>, i: nat, v: seq<LocVar>, e: nat)
    requires |v| < TWO_31 && forall j :: 0 <= j < |v| ==> FitsString(v[j].varname)
    ensures Int32(b, i, |v|) && LocVarsAt(b, i + 4, v, e) <==> Spells(b, i, IntText(|v|) + LocVarsText(v), e)
  {
    hide Spells, LocVarsAt, LocVarsText, FitsString, IntText;
    CountSpells(b, i, |v|, LocVarsText(v), e);
    if i + 4 <= |b| { LocVarsSpell(b, i + 4, v, e); }
  }

  lemma NamesSpell(b: seq<byte>, i: nat, u: seq<Option<Str>>, e: nat)
    requires |u| < TWO_31 && forall j :: 0 <= j < |u| ==> FitsString(u[j])
    ensures Int32(b, i, |u|) && StringsAt(b, i + 4, u, e) <==> Spells(b, i, IntText(|u|) + StringsText(u), e)
  {
    hide Spells, StringsAt, StringsText, FitsString, IntText;
    CountSpells(b, i, |u|, StringsText(u), e);
    if i + 4 <= |b| { StringsSpell(b, i + 4, u, e); }
  }

  lemma ValuesSpell(b: seq<byte>, i: nat, k: seq<Constant>, e: nat)
    requires |k| < TWO_31 && forall j :: 0 <= j < |k| ==> FitsConstant(k[j])
    ensures Int32(b, i, |k|) && ConstantsAt(b, i + 4, k, e) <==> Spells(b, i, IntText(|k|) + ConstantsText(k), e)
  {
    hide Spells, ConstantsAt, ConstantsText, FitsConstant, IntText;
    CountSpells(b, i, |k|, ConstantsText(k), e);
    if i + 4 <= |b| { ConstantsSpell(b, i + 4, k, e); }
  }

  lemma DebugSpells(b: seq<byte>, i: nat, d: Debug, e: nat)
    requires FitsDebug(d)
    ensures DebugAt(b, i, d, e) <==> Spells(b, i, DebugText(d), e)
  {
    hide Spells, WordsAt, VectorText, LocVarsAt, LocVarsText, StringsAt, StringsText, FitsString, IntText, Int32;
    var t, v, u := VectorText(d.lineinfo), IntText(|d.locvars|) + LocVarsText(d.locvars), IntText(|d.upvalues|) + StringsText(d.upvalues);
    var j, l := i + |t|, i + |t| + |v|;
    SpellsBoth(b, i, t, v + u, e);
    SpellsBoth(b, j, v, u, e);
    forall x: nat, y: nat
      ensures DebugPartsAt(b, i, d, x, y, e) <==> x == j && y == l && Spells(b, i, DebugText(d), e)
    {
      VectorSpells(b, i, d.lineinfo, x);
      EndIs(b, i, t);
      LocalsSpell(b, x, d.locvars, y);
      EndIs(b, x, v);
      NamesSpell(b, y, d.upvalues, e);
    }
    hide DebugPartsAt;
    assert DebugPartsAt(b, i, d, j, l, e) <==> Spells(b, i, DebugText(d), e);
  }

  lemma ProtoTextParts(f: Proto, parent: Option<Str>, strip: bool) returns (a: seq<byte>, h: seq<byte>, c: seq<byte>, k: seq<byte>, p: seq<byte>, d: seq<byte>)
    ensures a == StringText(if strip || f.source == parent then None else f.source) && h == HeadText(f.head) && c == VectorText(f.code)
    ensures k == IntText(|f.k|) + ConstantsText(f.k) && p == IntText(|f.p|) + ProtosText(f.p, f.source, strip)
    ensures d == DebugText(if strip then Debug([], [], []) else f.debug)
    ensures ProtoText(f, parent, strip) == a + (h + (c + (k + (p + d))))
  {
    ProtoTextMeans(f, parent, strip);
    a := StringText(if strip || f.source == parent then None else f.source);
    h, c, k := HeadText(f.head), VectorText(f.code), IntText(|f.k|) + ConstantsText(f.k);
    p, d := IntText(|f.p|) + ProtosText(f.p, f.source, strip), DebugText(if strip then Debug([], [], []) else f.debug);
  }

  /** One text behind the other. */
  lemma SpellsSix(b: seq<byte>, i: nat, a: seq<byte>, h: seq<byte>, c: seq<byte>, k: seq<byte>, p: seq<byte>, d: seq<byte>, e: nat)
    ensures var j0 := i + |a|; var j1 := j0 + |h|; var j2 := j1 + |c|; var j3 := j2 + |k|; var j4 := j3 + |p|;
      Spells(b, i, a + (h + (c + (k + (p + d)))), e) <==>
      Spells(b, i, a, j0) && Spells(b, j0, h, j1) && Spells(b, j1, c, j2) && Spells(b, j2, k, j3) && Spells(b, j3, p, j4) && Spells(b, j4, d, e)
  {
    hide Spells;
    SpellsBoth(b, i, a, h + (c + (k + (p + d))), e);
    SpellsBoth(b, i + |a|, h, c + (k + (p + d)), e);
    SpellsBoth(b, i + |a| + |h|, c, k + (p + d), e);
    SpellsBoth(b, i + |a| + |h| + |c|, k, p + d, e);
    SpellsBoth(b, i + |a| + |h| + |c| + |k|, p, d, e);
  }

  /** A prototype has this layout exactly if its bytes are its text. */
  lemma {:induction false} ProtoSpells(b: seq<byte>, i: nat, f: Proto, parent: Option<Str>, strip: bool, e: nat)
    requires Fits(f)
    ensures ProtoAt(b, i, f, parent, strip, e) <==> Spells(b, i, ProtoText(f, parent, strip), e)
    decreases f, 1
  {
    hide *;
    var a, h, c, k, p, d := ProtoTextParts(f, parent, strip);
    SpellsSix(b, i, a, h, c, k, p, d, e);
    var j0 := i + |a|;
    var j1 := j0 + 12 + |c|;
    var j2 := j1 + |k|;
    var j3 := j2 + |p|;
    forall src: nat, code: nat, q: nat, r: nat
      ensures PartsAt(b, i, f, parent, strip, src, code, q, r, e) <==>
              src == j0 && code == j1 && q == j2 && r == j3 && Spells(b, i, ProtoText(f, parent, strip), e)
    {
      PartsSpell(b, i, f, parent, strip, src, code, q, r, e);
    }
    ProtoAtMeans(b, i, f, parent, strip, e, j0, j1, j2, j3);
  }

  lemma ProtoAtMeans(b: seq<byte>, i: nat, f: Proto, parent: Option<Str>, strip: bool, e: nat, j0: nat, j1: nat, j2: nat, j3: nat)
    requires forall src: nat, code: nat, q: nat, r: nat :: PartsAt(b, i, f, parent, strip, src, code, q, r, e) ==>
              src == j0 && code == j1 && q == j2 && r == j3
    ensures ProtoAt(b, i, f, parent, strip, e) <==> PartsAt(b, i, f, parent, strip, j0, j1, j2, j3, e)
  {
    hide PartsAt;
  }

  lemma {:induction false} PartsSpell(b: seq<byte>, i: nat, f: Proto, parent: Option<Str>, strip: bool, src: nat, code: nat, q: nat, r: nat, e: nat)
    requires Fits(f)
    ensures PartsAt(b, i, f, parent, strip, src, code, q, r, e) <==>
              (var j0 := i + |StringText(if strip || f.source == parent then None else f.source)|;
               var j1 := j0 + 12 + |VectorText(f.code)|;
               var j2 := j1 + |IntText(|f.k|) + ConstantsText(f.k)|;
               src == j0 && code == j1 && q == j2 && r == j2 + |IntText(|f.p|) + ProtosText(f.p, f.source, strip)|
               && Spells(b, i, ProtoText(f, parent, strip), e))
    decreases f, 0
  {
    var a, h, c, k, p, d := ProtoTextParts(f, parent, strip);
    SpellsSix(b, i, a, h, c, k, p, d, e);
    hide Spells, StringAt, StringText, HeadAt, Int32, IntText, WordsAt, VectorText, ConstantsAt, ConstantsText, ProtosAt, ProtosText, DebugAt,
      DebugText, ProtoText, FitsString, FitsConstant, FitsDebug;
    NoneFits();
    StringSpells(b, i, if strip || f.source == parent then None else f.source, src);
    EndIs(b, i, a);
    HeadSpells(b, src, f.head);
    VectorSpells(b, src + 12, f.code, code);
    EndIs(b, src + 12, c);
    ValuesSpell(b, code, f.k, q);
    EndIs(b, code, k);
    InnerSpell(b, q, f.p, f.source, strip, r);
    EndIs(b, q, p);
    NoDebugIsGood();
    DebugSpells(b, r, if strip then Debug([], [], []) else f.debug, e);
  }

  lemma NoneFits()
    ensures FitsString(None)
  {
  }

  lemma {:induction false} InnerSpell(b: seq<byte>, i: nat, p: seq<Proto>, parent: Option<Str>, strip: bool, e: nat)
    requires |p| < TWO_31 && forall j :: 0 <= j < |p| ==> Fits(p[j])
    ensures Int32(b, i, |p|) && ProtosAt(b, i + 4, p, parent, strip, e) <==> Spells(b, i, IntText(|p|) + ProtosText(p, parent, strip), e)
    decreases p, 1
  {
    hide Spells, ProtosAt, ProtosText, Fits, IntText;
    CountSpells(b, i, |p|, ProtosText(p, parent, strip), e);
    if i + 4 <= |b| { ProtosSpell(b, i + 4, p, parent, strip, e); }
  }

  lemma {:induction false} ProtosSpell(b: seq<byte>, i: nat, p: seq<Proto>, parent: Option<Str>, strip: bool, e: nat)
    requires i <= |b| && forall j :: 0 <= j < |p| ==> Fits(p[j])
    ensures ProtosAt(b, i, p, parent, strip, e) <==> Spells(b, i, ProtosText(p, parent, strip), e)
    decreases p, 0
  {
    hide Spells, ProtoAt, ProtoText, Fits;
    if p == [] {
      SpellsNothing(b, i, e);
    } else {
      var t := ProtoText(p[0], parent, strip);
      SpellsBoth(b, i, t, ProtosText(p[1..], parent, strip), e);
      forall j: nat
        ensures ProtoAt(b, i, p[0], parent, strip, j) <==> Spells(b, i, t, j)
      {
        ProtoSpells(b, i, p[0], parent, strip, j);
      }
      EndIs(b, i, t);
      if Spells(b, i, t, i + |t|) { ProtosSpell(b, i + |t|, p[1..], parent, strip, e); }
    }
  }

  /** The text of a chunk, whatever follows, and nothing else, has the layout of a chunk. */
  lemma ChunkIsLayout(b: seq<byte>, f: Proto, strip: bool, e: nat)
    requires Fits(f)
    ensures ChunkAt(b, f, strip, e) <==> ChunkText(f, strip) <= b && e == |ChunkText(f, strip)|
  {
    hide ProtoAt, ProtoText;
    var t := ProtoText(f, None, strip);
    ProtoSpells(b, 12, f, None, strip, e);
    SpellsBoth(b, 0, HEADER, t, e);
    hide Fits;
    assert Spells(b, 0, HEADER, 12) <==> |b| >= 12 && b[..12] == HEADER;
    assert Spells(b, 0, HEADER + t, e) <==> HEADER + t <= b && e == |HEADER + t|;
  }

  /** A chunk with this layout is read as the function that it stands for. */
  lemma ChunkLoads(check: Proto -> bool, b: seq<byte>, f: Proto, e: nat, calls: nat)
    requires Fits(f) && ChunkAt(b, f, false, e)
    ensures Undump(check, b, calls) == Ok(f, e) <==> Sourced(f) && Depth(f) + calls <= 200 && NonNegative(f, false) && Checked(check, f)
  {
    ChunkIsLayout(b, f, false, e);
    assert b == ChunkText(f, false) + b[e..];
    RoundTripExact(check, f, calls, b[e..]);
  }

  // ---------------------------------------------------------------- what is not a whole chunk

  /** `r'` is what is read when only the first `n` bytes of `size` are there, and `r` what is read of all of them. */
  ghost predicate CutOff<T>(r: Read<T>, r': Read<T>, i: nat, n: nat, size: nat) {
    r.Ok? ==> i <= r.pos <= size && r' == if r.pos <= n then r else Err(UnexpectedEnd)
  }

  /** Where to cut what is read from `j` on. */
  function Cut(j: nat, n: nat, size: nat): nat {
    if j <= n then n else size
  }

  lemma BlockCut(s: seq<byte>, i: nat, n: nat, size: nat)
    requires i <= n <= |s|
    ensures CutOff(Block(s, i, size), Block(s[..n], i, size), i, n, |s|)
  {
    if i + size <= n { assert s[..n][i..i + size] == s[i..i + size]; }
  }

  lemma CharCut(s: seq<byte>, i: nat, n: nat)
    requires i <= n <= |s|
    ensures CutOff(Char(s, i), Char(s[..n], i), i, n, |s|)
  {
  }

  lemma IntCut(s: seq<byte>, i: nat, n: nat)
    requires i <= n <= |s|
    ensures CutOff(Int(s, i), Int(s[..n], i), i, n, |s|)
  {
    hide Block, OfLe;
    BlockCut(s, i, n, 4);
  }

  lemma StringCut(s: seq<byte>, i: nat, n: nat)
    requires i <= n <= |s|
    ensures CutOff(ReadString(s, i), ReadString(s[..n], i), i, n, |s|)
  {
    hide Block, OfLe;
    BlockCut(s, i, n, 8);
    var r := Block(s, i, 8);
    if r.Ok? { BlockCut(s, r.pos, Cut(r.pos, n, |s|), OfLe(r.value)); }
  }

  lemma VectorCut(s: seq<byte>, i: nat, n: nat)
    requires i <= n <= |s|
    ensures CutOff(Vector(s, i), Vector(s[..n], i), i, n, |s|)
  {
    hide Block, Int, ToWords;
    IntCut(s, i, n);
    var r := Int(s, i);
    if r.Ok? {
      var size: nat := r.value as int * 4;
      BlockCut(s, r.pos, Cut(r.pos, n, |s|), size);
    }
  }

  lemma ConstantCut(s: seq<byte>, i: nat, n: nat)
    requires i <= n <= |s|
    ensures CutOff(ReadConstant(s, i), ReadConstant(s[..n], i), i, n, |s|)
  {
    hide Block, Char, ReadString;
    CharCut(s, i, n);
    var r := Char(s, i);
    if r.Ok? {
      var m := Cut(r.pos, n, |s|);
      CharCut(s, r.pos, m);
      BlockCut(s, r.pos, m, 8);
      StringCut(s, r.pos, m);
    }
  }

  lemma {:induction false} ConstantsCut(s: seq<byte>, i: nat, k: nat, n: nat)
    requires i <= n <= |s|
    ensures CutOff(Constants(s, i, k), Constants(s[..n], i, k), i, n, |s|)
    decreases k
  {
    hide ReadConstant;
    if k > 0 {
      ConstantCut(s, i, n);
      var r := ReadConstant(s, i);
      if r.Ok? { ConstantsCut(s, r.pos, k - 1, Cut(r.pos, n, |s|)); }
    }
    assert s[..|s|] == s;
  }

  lemma LocVarCut(s: seq<byte>, i: nat, n: nat)
    requires i <= n <= |s|
    ensures CutOff(ReadLocVar(s, i), ReadLocVar(s[..n], i), i, n, |s|)
  {
    hide ReadString, Int;
    assert s[..|s|] == s;
    StringCut(s, i, n);
    var r := ReadString(s, i);
    if r.Ok? {
      var m := Cut(r.pos, n, |s|);
      IntCut(s, r.pos, m);
      var q := Int(s, r.pos);
      if q.Ok? { IntCut(s, q.pos, Cut(q.pos, m, |s|)); }
    }
  }

  lemma {:induction false} LocVarsCut(s: seq<byte>, i: nat, k: nat, n: nat)
    requires i <= n <= |s|
    ensures CutOff(LocVars(s, i, k), LocVars(s[..n], i, k), i, n, |s|)
    decreases k
  {
    hide ReadLocVar;
    if k > 0 {
      LocVarCut(s, i, n);
      var r := ReadLocVar(s, i);
      if r.Ok? { LocVarsCut(s, r.pos, k - 1, Cut(r.pos, n, |s|)); }
    }
    assert s[..|s|] == s;
  }

  lemma {:induction false} StringsCut(s: seq<byte>, i: nat, k: nat, n: nat)
    requires i <= n <= |s|
    ensures CutOff(Strings(s, i, k), Strings(s[..n], i, k), i, n, |s|)
    decreases k
  {
    hide ReadString;
    if k > 0 {
      StringCut(s, i, n);
      var r := ReadString(s, i);
      if r.Ok? { StringsCut(s, r.pos, k - 1, Cut(r.pos, n, |s|)); }
    }
    assert s[..|s|] == s;
  }

  lemma HeadCut(s: seq<byte>, i: nat, n: nat)
    requires i <= n <= |s|
    ensures CutOff(ReadHead(s, i), ReadHead(s[..n], i), i, n, |s|)
  {
    hide Int, Block;
    assert s[..|s|] == s;
    IntCut(s, i, n);
    var r := Int(s, i);
    if r.Ok? {
      var m := Cut(r.pos, n, |s|);
      IntCut(s, r.pos, m);
      var q := Int(s, r.pos);
      if q.Ok? { BlockCut(s, q.pos, Cut(q.pos, m, |s|), 4); }
    }
  }

  lemma DebugCut(s: seq<byte>, i: nat, n: nat)
    requires i <= n <= |s|
    ensures CutOff(ReadDebug(s, i), ReadDebug(s[..n], i), i, n, |s|)
  {
    hide Vector, Int, LocVars, Strings;
    assert s[..|s|] == s;
    VectorCut(s, i, n);
    var r1 := Vector(s, i);
    if r1.Ok? {
      IntCut(s, r1.pos, Cut(r1.pos, n, |s|));
      var r2 := Int(s, r1.pos);
      if r2.Ok? {
        LocVarsCut(s, r2.pos, r2.value, Cut(r2.pos, n, |s|));
        var r3 := LocVars(s, r2.pos, r2.value);
        if r3.Ok? {
          IntCut(s, r3.pos, Cut(r3.pos, n, |s|));
          var r4 := Int(s, r3.pos);
          if r4.Ok? { StringsCut(s, r4.pos, r4.value, Cut(r4.pos, n, |s|)); }
        }
      }
    }
  }

  lemma {:induction false} ProtoCut(check: Proto -> bool, s: seq<byte>, i: nat, parent: Option<Str>, calls: nat, n: nat)
    requires i <= n <= |s|
    ensures CutOff(ReadProto(check, s, i, parent, calls), ReadProto(check, s[..n], i, parent, calls), i, n, |s|)
    decreases LUAI_MAXCCALLS - calls, 0, 0
  {
    hide ReadString, ReadHead, Vector, Int, Constants, Protos, ReadDebug;
    assert s[..|s|] == s;
    if calls < LUAI_MAXCCALLS {
      StringCut(s, i, n);
      var r0 := ReadString(s, i);
      if r0.Ok? {
        HeadCut(s, r0.pos, Cut(r0.pos, n, |s|));
        var r1 := ReadHead(s, r0.pos);
        if r1.Ok? {
          VectorCut(s, r1.pos, Cut(r1.pos, n, |s|));
          var r2 := Vector(s, r1.pos);
          if r2.Ok? {
            IntCut(s, r2.pos, Cut(r2.pos, n, |s|));
            var r3 := Int(s, r2.pos);
            if r3.Ok? {
              ConstantsCut(s, r3.pos, r3.value, Cut(r3.pos, n, |s|));
              var r4 := Constants(s, r3.pos, r3.value);
              if r4.Ok? { RestCut(check, s, r4.pos, if r0.value.None? then parent else r0.value, calls, Cut(r4.pos, n, |s|)); }
            }
          }
        }
      }
    }
  }

  /** The prototypes and the debug information. */
  lemma {:induction false} RestCut(check: Proto -> bool, s: seq<byte>, i: nat, source: Option<Str>, calls: nat, n: nat)
    requires i <= n <= |s| && calls < LUAI_MAXCCALLS
    ensures CutOff(Int(s, i), Int(s[..n], i), i, n, |s|)
    ensures var r := Int(s, i);
      r.Ok? ==>
        CutOff(Protos(check, s, r.pos, source, calls + 1, r.value), Protos(check, s[..Cut(r.pos, n, |s|)], r.pos, source, calls + 1, r.value),
               r.pos, Cut(r.pos, n, |s|), |s|)
        && (var q := Protos(check, s, r.pos, source, calls + 1, r.value);
            q.Ok? ==> CutOff(ReadDebug(s, q.pos), ReadDebug(s[..Cut(q.pos, n, |s|)], q.pos), q.pos, Cut(q.pos, n, |s|), |s|))
    decreases LUAI_MAXCCALLS - calls - 1, 2, 0
  {
    hide Int, Protos, ReadDebug;
    IntCut(s, i, n);
    var r := Int(s, i);
    if r.Ok? {
      ProtosCut(check, s, r.pos, source, calls + 1, r.value, Cut(r.pos, n, |s|));
      var q := Protos(check, s, r.pos, source, calls + 1, r.value);
      if q.Ok? { DebugCut(s, q.pos, Cut(q.pos, n, |s|)); }
    }
  }

  lemma {:induction false} ProtosCut(check: Proto -> bool, s: seq<byte>, i: nat, parent: Option<Str>, calls: nat, k: nat, n: nat)
    requires i <= n <= |s|
    ensures CutOff(Protos(check, s, i, parent, calls, k), Protos(check, s[..n], i, parent, calls, k), i, n, |s|)
    decreases LUAI_MAXCCALLS - calls, 1, k
  {
    hide ReadProto;
    if k > 0 {
      ProtoCut(check, s, i, parent, calls, n);
      var r := ReadProto(check, s, i, parent, calls);
      if r.Ok? { ProtosCut(check, s, r.pos, parent, calls, k - 1, Cut(r.pos, n, |s|)); }
    }
    assert s[..|s|] == s;
  }

  /** A chunk that loads does not load when bytes at its end are missing. */
  lemma Truncated(check: Proto -> bool, s: seq<byte>, calls: nat, n: nat)
    requires Undump(check, s, calls).Ok? && n < Undump(check, s, calls).pos
    ensures n < |s| && Undump(check, s[..n], calls) == Err(UnexpectedEnd)
  {
    hide ReadProto;
    var r := Undump(check, s, calls);
    BlockCut(s, 0, |s|, 12);
    ProtoCut(check, s, 12, Some(NO_SOURCE), calls, |s|);
    assert s[..|s|] == s;
    BlockCut(s, 0, n, 12);
    if n >= 12 { ProtoCut(check, s, 12, Some(NO_SOURCE), calls, n); }
  }

  /** What is no chunk of this format at all. */
  lemma NoChunk(check: Proto -> bool, s: seq<byte>, calls: nat)
    ensures |s| < 12 ==> Undump(check, s, calls) == Err(UnexpectedEnd)
    ensures |s| >= 12 && s[..12] != [0x1B, 0x4C, 0x75, 0x61, 0x51, 0, 1, 4, 8, 4, 8, 0] ==> Undump(check, s, calls) == Err(BadHeader)
  {
    hide ReadProto;
  }

  /** Integers from 2^31 on, other tags of constants, and a nesting of more than 200 calls are refused. */
  lemma Refused(check: Proto -> bool, s: seq<byte>, i: nat, parent: Option<Str>, calls: nat)
    ensures i + 4 <= |s| && s[i + 3] >= 128 ==> Int(s, i) == Err(BadInteger)
    ensures i < |s| && s[i] != 0 && s[i] != 1 && s[i] != 3 && s[i] != 4 ==> ReadConstant(s, i) == Err(BadConstant)
    ensures calls >= 200 ==> ReadProto(check, s, i, parent, calls) == Err(TooDeep)
  {
    hide Pow256;
    if i + 4 <= |s| { FourBytes(s[i..i + 4]); }
  }
}
