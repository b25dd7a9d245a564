/** Lua patterns as data: how each is spelled, and all its matches in the order of preference.  On the spelling of a pattern
    the matcher of lua/lstrlib.c finds the first of them. */
module LuaPatternText {
  import opened Basics
  import opened LuaPattern

  // ---------------------------------------------------------------- sets

  /** What may stand in a set: a range, a class or escaped character, or a character. */
  datatype Item = Range(lo: char, hi: char) | Escaped(cl: char) | Plain(d: char)

  function ItemText(x: Item): string {
    match x
    case Range(lo, hi) => [lo, '-', hi]
    case Escaped(cl) => ['%', cl]
    case Plain(d) => [d]
  }

  function ItemsText(xs: seq<Item>): string {
    if xs == [] then "" else ItemText(xs[0]) + ItemsText(xs[1..])
  }

  predicate Ordinary(d: char) {
    d != '%' && d != ']' && d != '^' && d != '-' && d != '\0'
  }

  /** Characters with a meaning of their own in a set are escaped. */
  predicate Clear(x: Item) {
    match x
    case Range(lo, hi) => Ordinary(lo) && Ordinary(hi)
    case Escaped(cl) => cl != '\0'
    case Plain(d) => Ordinary(d)
  }

  predicate Accepts(x: Item, c: char) {
    match x
    case Range(lo, hi) => lo <= c <= hi
    case Escaped(cl) => MatchClass(c, cl)
    case Plain(d) => c == d
  }

  /** A bracket may stand for itself at the beginning, and a dash at the end. */
  ghost predicate AreItems(xs: seq<Item>) {
    && xs != []
    && forall k :: 0 <= k < |xs| ==> Clear(xs[k]) || (k == 0 && xs[k] == Plain(']')) || (k == |xs| - 1 && xs[k] == Plain('-'))
  }

  lemma OtherItems(xs: seq<Item>)
    requires AreItems(xs)
    ensures Clear(xs[0]) || xs[0] == Plain(']') || xs == [Plain('-')]
    ensures xs[1..] != [] ==> AreItems(xs[1..]) && xs[1] != Plain(']') && (Clear(xs[1]) || xs[1..] == [Plain('-')])
  {
    if |xs| > 1 {
      assert forall k :: 0 <= k < |xs| - 1 ==> xs[1..][k] == xs[k + 1];
      assert Clear(xs[1]) || |xs| == 2;
    }
  }

  ghost predicate Usual(x: Item) {
    Clear(x) || x == Plain(']') || x == Plain('-')
  }

  /** An item is followed by the end of its set, or by something that is not. */
  lemma ItemEnds(p: string, j: nat, x: Item)
    requires Usual(x) && Reads(p, j, ItemText(x)) && j + |ItemText(x)| < |p|
    ensures var k := j + |ItemText(x)|; SetEnd(p, j) == if p[k] == ']' then Some(k + 1) else SetEnd(p, k)
  {
    var t := ItemText(x);
    ReadsAt(p, j, t, 0);
    if |t| > 1 { ReadsAt(p, j, t, 1); }
    if |t| > 2 {
      ReadsAt(p, j, t, 2);
      assert SetEnd(p, j) == SetEnd(p, j + 1) && SetEnd(p, j + 1) == SetEnd(p, j + 2);
    }
  }

  lemma ItemAccepts(p: string, j: nat, x: Item, c: char, ec: nat)
    requires Usual(x) && Reads(p, j, ItemText(x)) && j + |ItemText(x)| <= ec < |p|
    requires j + 2 < ec && x.Plain? ==> p[j + 1] != '-'
    ensures InSet(c, p, j, ec) == (Accepts(x, c) || InSet(c, p, j + |ItemText(x)|, ec))
  {
    hide MatchClass;
    var t := ItemText(x);
    ReadsAt(p, j, t, 0);
    if |t| > 1 { ReadsAt(p, j, t, 1); }
    if |t| > 2 { ReadsAt(p, j, t, 2); }
  }

  /** The first item, where a set is read. */
  lemma FirstItem(p: string, j: nat, xs: seq<Item>, c: char)
    requires AreItems(xs) && Reads(p, j, ItemText(xs[0]) + (ItemsText(xs[1..]) + "]"))
    ensures j + |ItemText(xs[0])| < |p| && Reads(p, j + |ItemText(xs[0])|, ItemsText(xs[1..]) + "]")
    ensures xs[1..] == [] ==> SetEnd(p, j) == Some(j + |ItemText(xs[0])| + 1)
    ensures xs[1..] != [] ==> SetEnd(p, j) == SetEnd(p, j + |ItemText(xs[0])|)
    ensures var ec := j + |ItemText(xs[0])| + |ItemsText(xs[1..])|;
            InSet(c, p, j, ec) == (Accepts(xs[0], c) || InSet(c, p, j + |ItemText(xs[0])|, ec))
  {
    hide InSet, SetEnd, MatchClass, Reads, Accepts;
    var t, rest := ItemText(xs[0]), ItemsText(xs[1..]) + "]";
    OtherItems(xs);
    ReadsParts(p, j, t, rest);
    ReadsAt(p, j + |t|, rest, |rest| - 1);
    ReadsAt(p, j + |t|, rest, 0);
    if xs[1..] != [] { assert rest[0] == ItemText(xs[1])[0]; }
    ItemEnds(p, j, xs[0]);
    ItemAccepts(p, j, xs[0], c, j + |t| + |ItemsText(xs[1..])|);
  }

  /** A set of items up to its end: it ends there, and is the union of its items. */
  lemma {:induction false} ItemsMean(p: string, j: nat, xs: seq<Item>, c: char)
    requires AreItems(xs) && Reads(p, j, ItemsText(xs) + "]")
    ensures SetEnd(p, j) == Some(j + |ItemsText(xs)| + 1)
    ensures InSet(c, p, j, j + |ItemsText(xs)|) <==> exists k :: 0 <= k < |xs| && Accepts(xs[k], c)
    decreases |xs|
  {
    hide MatchClass, AreItems, Clear, Accepts, ItemText, InSet, SetEnd, Reads;
    var ec := j + |ItemsText(xs)|;
    OtherItems(xs);
    ItemsParts(xs);
    FirstItem(p, j, xs, c);
    var j' := j + |ItemText(xs[0])|;
    if xs[1..] == [] {
      EmptySet(c, p, ec);
    } else {
      ItemsMean(p, j', xs[1..], c);
      assert forall k :: 0 <= k < |xs| - 1 ==> xs[1..][k] == xs[k + 1];
      assert forall k :: 0 < k < |xs| ==> xs[k] == xs[1..][k - 1];
    }
  }

  lemma ItemsParts(xs: seq<Item>)
    requires AreItems(xs)
    ensures xs != [] && ItemsText(xs) == ItemText(xs[0]) + ItemsText(xs[1..])
    ensures ItemsText(xs) + "]" == ItemText(xs[0]) + (ItemsText(xs[1..]) + "]")
  {
  }

  lemma EmptySet(c: char, p: string, ec: nat)
    ensures !InSet(c, p, ec, ec)
  {
  }

  /** `[...]` is one item of a pattern, up to its bracket, and accepts what some of its items accepts; `[^...]` accepts the rest. */
  lemma SetMeans(p: string, i: nat, xs: seq<Item>, not: bool, c: char)
    requires AreItems(xs)
    requires Reads(p, i, (if not then "[^" else "[") + (ItemsText(xs) + "]"))
    ensures var ep := i + |ItemsText(xs)| + if not then 3 else 2;
            i < |p| && ClassEnd(p, i) == Some(ep) && (SingleMatch(c, p, i, ep) <==> (not <==> !exists k :: 0 <= k < |xs| && Accepts(xs[k], c)))
  {
    hide AreItems, Accepts, InSet, SetEnd, Reads, ItemsText;
    var open := if not then "[^" else "[";
    ReadsParts(p, i, open, ItemsText(xs) + "]");
    ItemsMean(p, i + |open|, xs, c);
    ReadsAt(p, i, open, 0);
    if not { ReadsAt(p, i, open, 1); }
    FirstIsOrdinary(p, i + |open|, xs);
  }

  lemma FirstIsOrdinary(p: string, j: nat, xs: seq<Item>)
    requires AreItems(xs) && Reads(p, j, ItemsText(xs) + "]")
    ensures At(p, j) != '^'
  {
    OtherItems(xs);
    var t := ItemsText(xs) + "]";
    assert t[0] == ItemText(xs[0])[0];
    ReadsAt(p, j, t, 0);
  }

  // ---------------------------------------------------------------- patterns

  /** What one character may be. */
  datatype Chars = Any | Class(cl: char) | Char(d: char) | OneOf(not: bool, xs: seq<Item>)

  datatype Part =
    | One(x: Chars) | Maybe(x: Chars) | Most(x: Chars) | MostPlus(x: Chars) | Fewest(x: Chars)
    | Begin | End | Position
    | Balanced(b: char, e: char) | Border(not: bool, xs: seq<Item>) | Again(k: nat)

  // ---------------------------------------------------------------- spelling

  function SetText(not: bool, xs: seq<Item>): string {
    (if not then "[^" else "[") + (ItemsText(xs) + "]")
  }

  function CharsText(x: Chars): string {
    match x
    case Any => "."
    case Class(cl) => ['%', cl]
    case Char(d) => [d]
    case OneOf(not, xs) => SetText(not, xs)
  }

  function PartText(x: Part): string
  {
    match x
    case One(x) => CharsText(x)
    case Maybe(x) => CharsText(x) + "?"
    case Most(x) => CharsText(x) + "*"
    case MostPlus(x) => CharsText(x) + "+"
    case Fewest(x) => CharsText(x) + "-"
    case Begin => "("
    case End => ")"
    case Position => "()"
    case Balanced(b, e) => ['%', 'b', b, e]
    case Border(not, xs) => "%f" + SetText(not, xs)
    case Again(k) => ['%', "0123456789"[if k < 10 then k else 0]]
  }

  /** Characters with a meaning of their own are escaped. */
  ghost predicate CharsOk(x: Chars) {
    match x
    case Any => true
    case Class(cl) => cl != '\0' && cl != 'b' && cl != 'f' && !IsDigit(cl)
    case Char(d) => d != '\0' && d !in "()%.[*+?-"
    case OneOf(_, xs) => AreItems(xs)
  }

  ghost predicate PartOk(x: Part) {
    match x
    case One(x) => CharsOk(x)
    case Maybe(x) => CharsOk(x)
    case Most(x) => CharsOk(x)
    case MostPlus(x) => CharsOk(x)
    case Fewest(x) => CharsOk(x)
    case Balanced(b, e) => b != '\0' && e != '\0'
    case Border(_, xs) => AreItems(xs)
    case Again(k) => 1 <= k <= 9
    case _ => true
  }

  /** Given the captures so far, each end closes one, each back reference names a closed one, and there are at most 32.  A `$` that
      stands for itself is not the last character. */
  ghost predicate IsPattern(ps: seq<Part>, shapes: seq<Shape>)
    decreases |ps|
  {
    ps == [] ||
    (PartOk(ps[0]) && (|ps| == 1 ==> ps[0] != One(Char('$'))) &&
     match ps[0]
     case Begin => |shapes| < 32 && (|ps| > 1 ==> !ps[1].End?) && IsPattern(ps[1..], shapes + [Open])
     case Position => |shapes| < 32 && IsPattern(ps[1..], shapes + [Shut])
     case End => LastOpen(shapes) >= 0 && IsPattern(ps[1..], shapes[LastOpen(shapes) := Shut])
     case Again(k) => k <= |shapes| && shapes[k - 1] == Shut && IsPattern(ps[1..], shapes)
     case _ => IsPattern(ps[1..], shapes))
  }

  /** The pattern as it is written; `dollar` if it must match up to the end of the subject. */
  ghost function Spelling(ps: seq<Part>, dollar: bool): string
  {
    if ps == [] then if dollar then "$" else "" else PartText(ps[0]) + Spelling(ps[1..], dollar)
  }

  // ---------------------------------------------------------------- meaning

  /** One match: where it ends, and the captures it leaves. */
  datatype Match = Match(e: nat, caps: seq<Cap>)

  ghost predicate InItems(not: bool, xs: seq<Item>, c: char) {
    not <==> !exists k :: 0 <= k < |xs| && Accepts(xs[k], c)
  }

  ghost predicate Fits(x: Chars, c: char) {
    match x
    case Any => true
    case Class(cl) => MatchClass(c, cl)
    case Char(d) => c == d
    case OneOf(not, xs) => InItems(not, xs, c)
  }

  ghost predicate FitsAt(src: string, s: nat, x: Chars) {
    s < |src| && Fits(x, src[s])
  }

  /** How deep in the balance `src[t]` is, when a balance begins at `s`; a character that opens and closes closes. */
  ghost function Depth(src: string, s: nat, t: nat, b: char, e: char): int
    requires s < t <= |src|
    decreases t
  {
    if t == s + 1 then 1
    else Depth(src, s, t - 1, b, e) + if src[t - 1] == e then -1 else if src[t - 1] == b then 1 else 0
  }

  ghost predicate IsBalance(src: string, s: nat, t: nat, b: char, e: char) {
    s < t <= |src| && src[s] == b && Depth(src, s, t, b, e) == 0 && forall u :: s < u < t ==> Depth(src, s, u, b, e) > 0
  }

  ghost predicate IsBorder(src: string, s: nat, not: bool, xs: seq<Item>)
    requires s <= |src|
  {
    && !InItems(not, xs, if s == 0 then '\0' else src[s - 1])
    && InItems(not, xs, if s == |src| then '\0' else src[s])
  }

  /** All the matches of a pattern from `s` on, after the captures `caps`; those before others are preferred. */
  ghost function All(src: string, ps: seq<Part>, dollar: bool, s: nat, caps: seq<Cap>): seq<Match>
    requires s <= |src|
    decreases |ps|, |src| - s
  {
    if ps == [] then
      if dollar && s < |src| then [] else [Match(s, caps)]
    else
      var rest := ps[1..];
      match ps[0]
      case One(x) => if FitsAt(src, s, x) then All(src, rest, dollar, s + 1, caps) else []
      case Maybe(x) => (if FitsAt(src, s, x) then All(src, rest, dollar, s + 1, caps) else []) + All(src, rest, dollar, s, caps)
      case Most(x) => (if FitsAt(src, s, x) then All(src, ps, dollar, s + 1, caps) else []) + All(src, rest, dollar, s, caps)
      case MostPlus(x) => if FitsAt(src, s, x) then All(src, [Most(x)] + rest, dollar, s + 1, caps) else []
      case Fewest(x) => All(src, rest, dollar, s, caps) + if FitsAt(src, s, x) then All(src, ps, dollar, s + 1, caps) else []
      case Begin => All(src, rest, dollar, s, caps + [Cap(s, -1)])
      case Position => All(src, rest, dollar, s, caps + [Cap(s, -2)])
      case End =>
        if exists l: nat :: LastOpened(caps, l) then
          var l: nat :| LastOpened(caps, l);
          All(src, rest, dollar, s, caps[l := Cap(caps[l].init, s - caps[l].init)])
        else []
      case Balanced(b, e) =>
        if exists t: nat :: IsBalance(src, s, t, b, e) then
          var t: nat :| IsBalance(src, s, t, b, e);
          All(src, rest, dollar, t, caps)
        else []
      case Border(not, xs) => if IsBorder(src, s, not, xs) then All(src, rest, dollar, s, caps) else []
      case Again(k) =>
        if 1 <= k <= |caps| && CapturedAt(src, caps[k - 1], s) then All(src, rest, dollar, s + caps[k - 1].len, caps) else []
  }

  ghost predicate LastOpened(caps: seq<Cap>, l: nat) {
    l < |caps| && caps[l].len == -1 && forall k :: l < k < |caps| ==> caps[k].len != -1
  }

  /** The text of the capture stands at `s`, too. */
  ghost predicate CapturedAt(src: string, c: Cap, s: nat) {
    && 0 <= c.init && 0 <= c.len && c.init + c.len <= |src|
    && Reads(src, s, src[c.init..c.init + c.len])
  }

  /** The match preferred to all others. */
  ghost function Best(l: seq<Match>): Res {
    if l == [] then No else Yes(l[0].e, l[0].caps)
  }

  // ---------------------------------------------------------------- reading the spelling

  ghost predicate Spelled(p: string, i: nat, ps: seq<Part>, dollar: bool) {
    i <= |p| && p[i..] == Spelling(ps, dollar)
  }

  lemma SpelledPart(p: string, i: nat, ps: seq<Part>, dollar: bool)
    requires ps != [] && Spelled(p, i, ps, dollar)
    ensures Reads(p, i, PartText(ps[0])) && Spelled(p, i + |PartText(ps[0])|, ps[1..], dollar)
  {
    var t, rest := PartText(ps[0]), Spelling(ps[1..], dollar);
    hide PartText, Spelling;
    ReadsTail(p, i, t, rest);
  }

  lemma ReadsTail(p: string, i: nat, t: string, rest: string)
    requires i <= |p| && p[i..] == t + rest
    ensures Reads(p, i, t) && i + |t| <= |p| && p[i + |t|..] == rest
  {
    assert p[i..i + |t|] == p[i..][..|t|];
    assert p[i + |t|..] == p[i..][|t|..];
  }

  /** No part begins like the suffix of another. */
  lemma NextChar(p: string, i: nat, ps: seq<Part>, dollar: bool)
    requires Spelled(p, i, ps, dollar) && (ps == [] || PartOk(ps[0]))
    ensures !IsSuffix(At(p, i)) && (At(p, i) == ')' ==> ps != [] && ps[0].End?)
    ensures ps != [] ==> At(p, i) != '\0'
    ensures ps == [] && dollar ==> |p| == i + 1 && p[i] == '$'
    ensures ps == [] && !dollar ==> |p| == i
  {
    hide PartText;
    if ps == [] {
      assert dollar ==> p[i..][0] == p[i];
    } else {
      SpelledPart(p, i, ps, dollar);
      PartBegins(ps[0]);
      ReadsAt(p, i, PartText(ps[0]), 0);
    }
  }

  lemma PartBegins(x: Part)
    requires PartOk(x)
    ensures PartText(x) != [] && PartText(x)[0] != '\0' && !IsSuffix(PartText(x)[0]) && (PartText(x)[0] == ')' ==> x.End?)
  {
    if HasChars(x) { assert PartText(x)[0] == CharsText(x.x)[0]; }
  }

  lemma CharsRead(p: string, i: nat, x: Chars)
    requires CharsOk(x) && Reads(p, i, CharsText(x)) && (x == Char('$') ==> At(p, i + |CharsText(x)|) != '\0')
    ensures i < |p| && IsItem(p, i) && ClassEnd(p, i) == Some(i + |CharsText(x)|)
    ensures forall c: char :: SingleMatch(c, p, i, i + |CharsText(x)|) == Fits(x, c)
  {
    var t := CharsText(x);
    ReadsAt(p, i, t, 0);
    if |t| > 1 { ReadsAt(p, i, t, 1); }
    if x.OneOf? {
      forall c: char
        ensures ClassEnd(p, i) == Some(i + |t|) && SingleMatch(c, p, i, i + |t|) == Fits(x, c)
      {
        SetMeans(p, i, x.xs, x.not, c);
      }
      assert Fits(x, 'x') || !Fits(x, 'x');
    }
  }

  // ---------------------------------------------------------------- the parts

  lemma {:induction false} BalanceGoesOn(src: string, s: nat, t: nat, b: char, e: char)
    requires s < t <= |src| && src[s] == b && forall u :: s < u <= t ==> Depth(src, s, u, b, e) > 0
    ensures var r := BalanceEnd(src, t, b, e, Depth(src, s, t, b, e));
            && (r.Some? ==> IsBalance(src, s, r.value, b, e))
            && (r.None? ==> forall v: nat :: !IsBalance(src, s, v, b, e))
    decreases |src| - t
  {
    if t < |src| && Depth(src, s, t + 1, b, e) > 0 {
      BalanceGoesOn(src, s, t + 1, b, e);
    }
  }

  /** `%bxy` matches up to where the depth is zero for the first time. */
  lemma BalanceMeans(src: string, s: nat, b: char, e: char, t: nat)
    requires b != '\0'
    ensures Balance(src, s, b, e) == Some(t) <==> IsBalance(src, s, t, b, e)
  {
    if s < |src| && src[s] == b {
      BalanceGoesOn(src, s, s + 1, b, e);
    }
  }

  lemma BestOf(a: seq<Match>, b: seq<Match>)
    ensures Best(a + b) == if Best(a) == No then Best(b) else Best(a)
  {
  }

  /** What follows the item is matched as it should be. */
  ghost predicate RestIsBest(src: string, p: string, k: nat, rest: seq<Part>, dollar: bool, s: nat, caps: seq<Cap>)
    requires s <= |src| && CapsOk(caps, s)
  {
    forall t: nat :: s <= t <= |src| ==> First(src, p, k, t, caps) == Best(All(src, rest, dollar, t, caps))
  }

  ghost predicate ReadsItem(p: string, i: nat, ep: nat, x: Chars) {
    i < ep && forall c: char :: SingleMatch(c, p, i, ep) == Fits(x, c)
  }

  lemma {:induction false} LongestShift(src: string, p: string, k: nat, s: nat, n: nat, caps: seq<Cap>)
    requires s + n + 1 <= |src| && CapsOk(caps, s)
    ensures Longest(src, p, k, s, n + 1, caps) ==
            if Longest(src, p, k, s + 1, n, caps) == No then First(src, p, k, s, caps) else Longest(src, p, k, s + 1, n, caps)
    decreases n
  {
    if n > 0 { LongestShift(src, p, k, s, n - 1, caps); }
  }

  lemma AllOfMost(src: string, ps: seq<Part>, dollar: bool, s: nat, caps: seq<Cap>)
    requires s <= |src| && ps != [] && ps[0].Most?
    ensures Best(All(src, ps, dollar, s, caps)) ==
            if FitsAt(src, s, ps[0].x) && Best(All(src, ps, dollar, s + 1, caps)) != No then Best(All(src, ps, dollar, s + 1, caps))
            else Best(All(src, ps[1..], dollar, s, caps))
  {
    BestOf(if FitsAt(src, s, ps[0].x) then All(src, ps, dollar, s + 1, caps) else [], All(src, ps[1..], dollar, s, caps));
  }

  lemma AllOfFewest(src: string, ps: seq<Part>, dollar: bool, s: nat, caps: seq<Cap>)
    requires s <= |src| && ps != [] && ps[0].Fewest?
    ensures Best(All(src, ps, dollar, s, caps)) ==
            if Best(All(src, ps[1..], dollar, s, caps)) != No then Best(All(src, ps[1..], dollar, s, caps))
            else if FitsAt(src, s, ps[0].x) then Best(All(src, ps, dollar, s + 1, caps))
            else No
  {
    BestOf(All(src, ps[1..], dollar, s, caps), if FitsAt(src, s, ps[0].x) then All(src, ps, dollar, s + 1, caps) else []);
  }

  lemma {:induction false} MostIsBest(src: string, p: string, i: nat, ep: nat, ps: seq<Part>, dollar: bool, s: nat, caps: seq<Cap>)
    requires s <= |src| && CapsOk(caps, s) && ps != [] && ps[0].Most? && ReadsItem(p, i, ep, ps[0].x)
    requires RestIsBest(src, p, ep + 1, ps[1..], dollar, s, caps)
    ensures Longest(src, p, ep + 1, s, Run(src, s, p, i, ep), caps) == Best(All(src, ps, dollar, s, caps))
    decreases |src| - s
  {
    hide First, All, Fits, SingleMatch;
    AllOfMost(src, ps, dollar, s, caps);
    if FitsAt(src, s, ps[0].x) {
      MostIsBest(src, p, i, ep, ps, dollar, s + 1, caps);
      LongestShift(src, p, ep + 1, s, Run(src, s + 1, p, i, ep), caps);
    }
  }

  lemma {:induction false} FewestIsBest(src: string, p: string, i: nat, ep: nat, ps: seq<Part>, dollar: bool, s: nat, caps: seq<Cap>)
    requires s <= |src| && CapsOk(caps, s) && ps != [] && ps[0].Fewest? && ReadsItem(p, i, ep, ps[0].x)
    requires RestIsBest(src, p, ep + 1, ps[1..], dollar, s, caps)
    ensures Shortest(src, p, i, ep, s, caps) == Best(All(src, ps, dollar, s, caps))
    decreases |src| - s
  {
    hide First, All, Fits, SingleMatch;
    AllOfFewest(src, ps, dollar, s, caps);
    if FitsAt(src, s, ps[0].x) { FewestIsBest(src, p, i, ep, ps, dollar, s + 1, caps); }
  }

  predicate HasChars(x: Part) {
    x.One? || x.Maybe? || x.Most? || x.MostPlus? || x.Fewest?
  }

  lemma OneIsBest(src: string, p: string, i: nat, ep: nat, ps: seq<Part>, dollar: bool, s: nat, caps: seq<Cap>)
    requires s <= |src| && CapsOk(caps, s) && ps != [] && ps[0].One? && ReadsItem(p, i, ep, ps[0].x)
    requires RestIsBest(src, p, ep, ps[1..], dollar, s, caps)
    ensures (if Single(src, s, p, i, ep) then First(src, p, ep, s + 1, caps) else No) == Best(All(src, ps, dollar, s, caps))
  {
    hide First, Fits, SingleMatch;
  }

  lemma MaybeIsBest(src: string, p: string, i: nat, ep: nat, ps: seq<Part>, dollar: bool, s: nat, caps: seq<Cap>)
    requires s <= |src| && CapsOk(caps, s) && ps != [] && ps[0].Maybe? && ReadsItem(p, i, ep, ps[0].x)
    requires RestIsBest(src, p, ep + 1, ps[1..], dollar, s, caps)
    ensures (if Single(src, s, p, i, ep) && First(src, p, ep + 1, s + 1, caps) != No then First(src, p, ep + 1, s + 1, caps)
             else First(src, p, ep + 1, s, caps)) == Best(All(src, ps, dollar, s, caps))
  {
    hide First, Fits, SingleMatch;
    BestOf(if FitsAt(src, s, ps[0].x) then All(src, ps[1..], dollar, s + 1, caps) else [], All(src, ps[1..], dollar, s, caps));
  }

  lemma MostPlusIsBest(src: string, p: string, i: nat, ep: nat, ps: seq<Part>, dollar: bool, s: nat, caps: seq<Cap>)
    requires s <= |src| && CapsOk(caps, s) && ps != [] && ps[0].MostPlus? && ReadsItem(p, i, ep, ps[0].x)
    requires RestIsBest(src, p, ep + 1, ps[1..], dollar, s, caps)
    ensures (if Single(src, s, p, i, ep) then Longest(src, p, ep + 1, s + 1, Run(src, s + 1, p, i, ep), caps) else No) == Best(All(src, ps, dollar, s, caps))
  {
    hide First, Fits, SingleMatch;
    if FitsAt(src, s, ps[0].x) {
      var ps' := [Most(ps[0].x)] + ps[1..];
      assert ps'[1..] == ps[1..];
      MostIsBest(src, p, i, ep, ps', dollar, s + 1, caps);
    }
  }

  /** An item with its suffix, where a pattern is searched. */
  lemma FirstOfItem(src: string, p: string, i: nat, s: nat, caps: seq<Cap>, ep: nat)
    requires s <= |src| && CapsOk(caps, s) && i < |p| && IsItem(p, i) && ClassEnd(p, i) == Some(ep)
    ensures var m := Single(src, s, p, i, ep);
            First(src, p, i, s, caps) ==
            match At(p, ep)
            case '?' => if m && First(src, p, ep + 1, s + 1, caps) != No then First(src, p, ep + 1, s + 1, caps) else First(src, p, ep + 1, s, caps)
            case '*' => Longest(src, p, ep + 1, s, Run(src, s, p, i, ep), caps)
            case '+' => if m then Longest(src, p, ep + 1, s + 1, Run(src, s + 1, p, i, ep), caps) else No
            case '-' => Shortest(src, p, i, ep, s, caps)
            case _ => if m then First(src, p, ep, s + 1, caps) else No
  {
  }

  lemma ItemRead(p: string, i: nat, x: Part)
    requires PartOk(x) && HasChars(x) && Reads(p, i, PartText(x)) && (x == One(Char('$')) ==> At(p, i + |PartText(x)|) != '\0')
    ensures var ep := i + |CharsText(x.x)|; i < |p| && IsItem(p, i) && ClassEnd(p, i) == Some(ep) && ReadsItem(p, i, ep, x.x)
    ensures |PartText(x)| == |CharsText(x.x)| + if x.One? then 0 else 1
    ensures var c := At(p, i + |CharsText(x.x)|);
      (x.Maybe? ==> c == '?') && (x.Most? ==> c == '*') && (x.MostPlus? ==> c == '+') && (x.Fewest? ==> c == '-')
  {
    hide SingleMatch, IsItem, ClassEnd, SetText, MatchClass, AreItems, InItems, Reads;
    var t := PartText(x);
    if !x.One? {
      ReadsParts(p, i, CharsText(x.x), t[|t| - 1..]);
      ReadsAt(p, i, t, |t| - 1);
    }
    CharsRead(p, i, x.x);
  }

  lemma ItemIsBest(src: string, p: string, i: nat, ps: seq<Part>, dollar: bool, s: nat, caps: seq<Cap>)
    requires s <= |src| && CapsOk(caps, s) && ps != [] && PartOk(ps[0]) && HasChars(ps[0]) && Reads(p, i, PartText(ps[0]))
    requires ps[0].One? ==> !IsSuffix(At(p, i + |PartText(ps[0])|))
    requires ps[0] == One(Char('$')) ==> At(p, i + |PartText(ps[0])|) != '\0'
    requires RestIsBest(src, p, i + |PartText(ps[0])|, ps[1..], dollar, s, caps)
    ensures First(src, p, i, s, caps) == Best(All(src, ps, dollar, s, caps))
  {
    ItemRead(p, i, ps[0]);
    hide *;
    var ep := i + |CharsText(ps[0].x)|;
    FirstOfItem(src, p, i, s, caps, ep);
    match ps[0]
    case One(_) =>
      NoSuffix(At(p, ep));
      OneIsBest(src, p, i, ep, ps, dollar, s, caps);
    case Maybe(_) => MaybeIsBest(src, p, i, ep, ps, dollar, s, caps);
    case Most(_) => MostIsBest(src, p, i, ep, ps, dollar, s, caps);
    case MostPlus(_) => MostPlusIsBest(src, p, i, ep, ps, dollar, s, caps);
    case Fewest(_) => FewestIsBest(src, p, i, ep, ps, dollar, s, caps);
  }

  lemma NoSuffix(c: char)
    requires !IsSuffix(c)
    ensures c != '?' && c != '*' && c != '+' && c != '-'
  {
  }

  lemma BeginIsBest(src: string, p: string, i: nat, ps: seq<Part>, dollar: bool, s: nat, caps: seq<Cap>)
    requires s <= |src| && CapsOk(caps, s) && IsPattern(ps, ShapesOf(caps)) && Spelled(p, i, ps, dollar) && ps != [] && ps[0].Begin?
    requires First(src, p, i + |PartText(ps[0])|, s, caps + [Cap(s, -1)]) == Best(All(src, ps[1..], dollar, s, caps + [Cap(s, -1)]))
    ensures First(src, p, i, s, caps) == Best(All(src, ps, dollar, s, caps))
  {
    SpelledPart(p, i, ps, dollar);
    ReadsAt(p, i, "(", 0);
    if |ps| > 1 { assert ps[1..][0] == ps[1]; }
    NextChar(p, i + 1, ps[1..], dollar);
  }

  lemma PositionIsBest(src: string, p: string, i: nat, ps: seq<Part>, dollar: bool, s: nat, caps: seq<Cap>)
    requires s <= |src| && CapsOk(caps, s) && IsPattern(ps, ShapesOf(caps)) && Spelled(p, i, ps, dollar) && ps != [] && ps[0].Position?
    requires First(src, p, i + |PartText(ps[0])|, s, caps + [Cap(s, -2)]) == Best(All(src, ps[1..], dollar, s, caps + [Cap(s, -2)]))
    ensures First(src, p, i, s, caps) == Best(All(src, ps, dollar, s, caps))
  {
    SpelledPart(p, i, ps, dollar);
    ReadsAt(p, i, "()", 0);
    ReadsAt(p, i, "()", 1);
  }

  lemma EndIsBest(src: string, p: string, i: nat, ps: seq<Part>, dollar: bool, s: nat, caps: seq<Cap>)
    requires s <= |src| && CapsOk(caps, s) && Spelled(p, i, ps, dollar) && ps != [] && ps[0].End? && ToClose(caps) >= 0
    requires var c := Closed(caps, ToClose(caps), s); CapsOk(c, s) && First(src, p, i + |PartText(ps[0])|, s, c) == Best(All(src, ps[1..], dollar, s, c))
    ensures First(src, p, i, s, caps) == Best(All(src, ps, dollar, s, caps))
  {
    hide *;
    EndText(ps[0]);
    SpelledPart(p, i, ps, dollar);
    ReadsAt(p, i, ")", 0);
    FirstAtEnd(src, p, i, s, caps);
    AllOfEnd(src, ps, dollar, s, caps, ToClose(caps));
  }

  lemma EndText(x: Part)
    requires x.End?
    ensures PartText(x) == ")"
  {
  }

  lemma FirstAtEnd(src: string, p: string, i: nat, s: nat, caps: seq<Cap>)
    requires s <= |src| && CapsOk(caps, s) && i < |p| && p[i] == ')' && ToClose(caps) >= 0
    ensures var l := ToClose(caps); LastOpened(caps, l) && Closed(caps, l, s) == caps[l := Cap(caps[l].init, s - caps[l].init)]
    ensures CapsOk(Closed(caps, ToClose(caps), s), s) && First(src, p, i, s, caps) == First(src, p, i + 1, s, Closed(caps, ToClose(caps), s))
  {
  }

  lemma AllOfEnd(src: string, ps: seq<Part>, dollar: bool, s: nat, caps: seq<Cap>, l: nat)
    requires s <= |src| && ps != [] && ps[0].End? && LastOpened(caps, l)
    ensures All(src, ps, dollar, s, caps) == All(src, ps[1..], dollar, s, caps[l := Cap(caps[l].init, s - caps[l].init)])
  {
    forall m: nat | LastOpened(caps, m)
      ensures m == l
    {
    }
  }

  lemma BalancedIsBest(src: string, p: string, i: nat, ps: seq<Part>, dollar: bool, s: nat, caps: seq<Cap>)
    requires s <= |src| && CapsOk(caps, s) && Spelled(p, i, ps, dollar) && ps != [] && ps[0].Balanced? && PartOk(ps[0])
    requires var m := Balance(src, s, ps[0].b, ps[0].e);
             m.Some? ==> First(src, p, i + |PartText(ps[0])|, m.value, caps) == Best(All(src, ps[1..], dollar, m.value, caps))
    ensures First(src, p, i, s, caps) == Best(All(src, ps, dollar, s, caps))
  {
    var b, e, t := ps[0].b, ps[0].e, PartText(ps[0]);
    SpelledPart(p, i, ps, dollar);
    forall k: nat | k < 4
      ensures i + k < |p| && p[i + k] == t[k]
    {
      ReadsAt(p, i, t, k);
    }
    assert p[i + 0] == '%' && p[i + 1] == 'b' && p[i + 2] == b && p[i + 3] == e;
    var m := Balance(src, s, b, e);
    forall t: nat
      ensures IsBalance(src, s, t, b, e) <==> m == Some(t)
    {
      BalanceMeans(src, s, b, e, t);
    }
    if m.Some? { assert IsBalance(src, s, m.value, b, e); }
  }

  lemma BorderIsBest(src: string, p: string, i: nat, ps: seq<Part>, dollar: bool, s: nat, caps: seq<Cap>)
    requires s <= |src| && CapsOk(caps, s) && Spelled(p, i, ps, dollar) && ps != [] && ps[0].Border? && PartOk(ps[0])
    requires var k := i + |PartText(ps[0])|; First(src, p, k, s, caps) == Best(All(src, ps[1..], dollar, s, caps))
    ensures First(src, p, i, s, caps) == Best(All(src, ps, dollar, s, caps))
  {
    hide *;
    var not, xs, t := ps[0].not, ps[0].xs, SetText(ps[0].not, ps[0].xs);
    SpelledPart(p, i, ps, dollar);
    BorderText(ps[0]);
    ReadsParts(p, i, "%f", t);
    ReadsAt(p, i, "%f", 0);
    ReadsAt(p, i, "%f", 1);
    BorderRead(src, s, p, i + 2, not, xs);
    FirstAtBorder(src, p, i, s, caps, i + 2 + |t|);
    AllOfBorder(src, ps, dollar, s, caps);
  }

  lemma BorderText(x: Part)
    requires x.Border? && PartOk(x)
    ensures PartText(x) == "%f" + SetText(x.not, x.xs) && AreItems(x.xs)
  {
  }

  lemma FirstAtBorder(src: string, p: string, i: nat, s: nat, caps: seq<Cap>, ep: nat)
    requires s <= |src| && CapsOk(caps, s) && i + 2 < |p| && p[i] == '%' && p[i + 1] == 'f' && At(p, i + 2) == '[' && ClassEnd(p, i + 2) == Some(ep)
    ensures First(src, p, i, s, caps) == if Frontier(src, s, p, i + 2, ep) then First(src, p, ep, s, caps) else No
  {
  }

  lemma AllOfBorder(src: string, ps: seq<Part>, dollar: bool, s: nat, caps: seq<Cap>)
    requires s <= |src| && ps != [] && ps[0].Border?
    ensures Best(All(src, ps, dollar, s, caps)) == if IsBorder(src, s, ps[0].not, ps[0].xs) then Best(All(src, ps[1..], dollar, s, caps)) else No
  {
  }

  lemma BorderRead(src: string, s: nat, p: string, i: nat, not: bool, xs: seq<Item>)
    requires s <= |src| && AreItems(xs) && Reads(p, i, SetText(not, xs))
    ensures i < |p| && At(p, i) == '[' && ClassEnd(p, i) == Some(i + |SetText(not, xs)|)
    ensures Frontier(src, s, p, i, i + |SetText(not, xs)|) == IsBorder(src, s, not, xs)
  {
    hide IsItem, ClassEnd, MatchSet, MatchClass, AreItems, InItems;
    var x, ep := OneOf(not, xs), i + |SetText(not, xs)|;
    assert CharsText(x) == SetText(not, xs);
    CharsRead(p, i, x);
    ReadsAt(p, i, SetText(not, xs), 0);
    forall c: char
      ensures MatchSet(c, p, i, ep - 1) == InItems(not, xs, c)
    {
      assert SingleMatch(c, p, i, ep) == Fits(x, c);
    }
  }

  lemma CapturedEnds(src: string, c: Cap, s: nat)
    requires CapturedAt(src, c, s)
    ensures 0 <= c.len && s + c.len <= |src|
  {
  }

  lemma AgainIsBest(src: string, p: string, i: nat, ps: seq<Part>, dollar: bool, s: nat, caps: seq<Cap>)
    requires s <= |src| && CapsOk(caps, s) && Spelled(p, i, ps, dollar) && ps != [] && ps[0].Again? && PartOk(ps[0])
    requires ps[0].k <= |caps| && caps[ps[0].k - 1].len != -1
    requires var c, k := caps[ps[0].k - 1], i + |PartText(ps[0])|;
             CapturedAt(src, c, s) ==> First(src, p, k, s + c.len, caps) == Best(All(src, ps[1..], dollar, s + c.len, caps))
    ensures First(src, p, i, s, caps) == Best(All(src, ps, dollar, s, caps))
  {
    hide *;
    var l := ps[0].k - 1;
    SpelledPart(p, i, ps, dollar);
    AgainText(ps[0], caps);
    var t := PartText(ps[0]);
    ReadsAt(p, i, t, 0);
    ReadsAt(p, i, t, 1);
    FirstAtAgain(src, p, i, s, caps, l);
    AllOfAgain(src, ps, dollar, s, caps);
  }

  lemma AgainText(x: Part, caps: seq<Cap>)
    requires x.Again? && PartOk(x) && x.k <= |caps| && caps[x.k - 1].len != -1
    ensures x.k > 0 && |PartText(x)| == 2 && PartText(x)[0] == '%' && IsDigit(PartText(x)[1]) && CaptureIndex(caps, PartText(x)[1]) == x.k - 1
  {
    assert PartText(x)[1] as int == '0' as int + x.k;
  }

  lemma FirstAtAgain(src: string, p: string, i: nat, s: nat, caps: seq<Cap>, l: nat)
    requires s <= |src| && CapsOk(caps, s) && i + 1 < |p| && p[i] == '%' && IsDigit(p[i + 1]) && CaptureIndex(caps, p[i + 1]) == l
    ensures First(src, p, i, s, caps) == if CapturedAt(src, caps[l], s) then First(src, p, i + 2, s + caps[l].len, caps) else No
  {
    var c := caps[l];
    assert BackRef(src, s, c) == if CapturedAt(src, c, s) then Some(s + c.len) else None;
  }

  lemma AllOfAgain(src: string, ps: seq<Part>, dollar: bool, s: nat, caps: seq<Cap>)
    requires s <= |src| && ps != [] && ps[0].Again? && 1 <= ps[0].k <= |caps|
    ensures var c := caps[ps[0].k - 1];
            Best(All(src, ps, dollar, s, caps)) == if CapturedAt(src, c, s) then Best(All(src, ps[1..], dollar, s + c.len, caps)) else No
  {
  }

  lemma PatternPart(ps: seq<Part>, shapes: seq<Shape>)
    requires ps != [] && IsPattern(ps, shapes)
    ensures PartOk(ps[0])
    ensures ps[0].Begin? ==> |shapes| < 32 && IsPattern(ps[1..], shapes + [Open])
    ensures ps[0].Position? ==> |shapes| < 32 && IsPattern(ps[1..], shapes + [Shut])
    ensures ps[0].End? ==> LastOpen(shapes) >= 0 && IsPattern(ps[1..], shapes[LastOpen(shapes) := Shut])
    ensures ps[0].Again? ==> 1 <= ps[0].k <= |shapes| && shapes[ps[0].k - 1] == Shut
    ensures !ps[0].Begin? && !ps[0].Position? && !ps[0].End? ==> IsPattern(ps[1..], shapes)
  {
  }

  lemma CapsStep(caps: seq<Cap>, s: nat)
    requires CapsOk(caps, s)
    ensures |ShapesOf(caps)| == |caps| && forall k :: 0 <= k < |caps| ==> (ShapesOf(caps)[k] == Shut <==> caps[k].len != -1)
    ensures LastOpen(ShapesOf(caps)) == ToClose(caps)
    ensures ToClose(caps) >= 0 ==> CapsOk(Closed(caps, ToClose(caps), s), s) && ShapesOf(Closed(caps, ToClose(caps), s)) == ShapesOf(caps)[ToClose(caps) := Shut]
    ensures ShapesOf(caps + [Cap(s, -2)]) == ShapesOf(caps) + [Shut] && ShapesOf(caps + [Cap(s, -1)]) == ShapesOf(caps) + [Open]
    ensures |caps| < 32 ==> CapsOk(caps + [Cap(s, -2)], s) && CapsOk(caps + [Cap(s, -1)], s)
    ensures forall t: nat :: s <= t ==> CapsOk(caps, t)
  {
    ShapesStep(caps, s);
  }

  lemma PatternGoesOn(ps: seq<Part>, shapes: seq<Shape>)
    requires ps != [] && IsPattern(ps, shapes)
    ensures |ps| > 1 ==> PartOk(ps[1]) && (ps[0].Begin? ==> !ps[1].End?)
    ensures !ps[0].Begin? && !ps[0].Position? && !ps[0].End? && !ps[0].Balanced? && !ps[0].Border? && !ps[0].Again? ==> HasChars(ps[0])
    ensures |ps| == 1 ==> ps[0] != One(Char('$'))
  {
  }

  lemma RestIs(src: string, p: string, k: nat, rest: seq<Part>, dollar: bool, s: nat, caps: seq<Cap>)
    requires s <= |src| && CapsOk(caps, s)
    requires forall t: nat :: s <= t <= |src| ==> First(src, p, k, t, caps) == Best(All(src, rest, dollar, t, caps))
    ensures RestIsBest(src, p, k, rest, dollar, s, caps)
  {
  }

  lemma NothingLeft(src: string, p: string, i: nat, dollar: bool, s: nat, caps: seq<Cap>)
    requires s <= |src| && CapsOk(caps, s) && Spelled(p, i, [], dollar)
    ensures First(src, p, i, s, caps) == Best(All(src, [], dollar, s, caps))
  {
    NextChar(p, i, [], dollar);
  }

  /** On the spelling of a pattern the search raises no error, and its result is the match preferred to all others. */
  lemma {:induction false} FirstIsBest(src: string, p: string, i: nat, ps: seq<Part>, dollar: bool, s: nat, caps: seq<Cap>)
    requires s <= |src| && CapsOk(caps, s) && IsPattern(ps, ShapesOf(caps)) && Spelled(p, i, ps, dollar)
    ensures First(src, p, i, s, caps) == Best(All(src, ps, dollar, s, caps))
    decreases |ps|
  {
    hide *;
    if ps == [] {
      NothingLeft(src, p, i, dollar, s, caps);
    } else {
      var rest, k := ps[1..], i + |PartText(ps[0])|;
      SpelledPart(p, i, ps, dollar);
      CapsStep(caps, s);
      PatternPart(ps, ShapesOf(caps));
      match ps[0]
      case Begin =>
        FirstIsBest(src, p, k, rest, dollar, s, caps + [Cap(s, -1)]);
        BeginIsBest(src, p, i, ps, dollar, s, caps);
      case Position =>
        FirstIsBest(src, p, k, rest, dollar, s, caps + [Cap(s, -2)]);
        PositionIsBest(src, p, i, ps, dollar, s, caps);
      case End =>
        FirstIsBest(src, p, k, rest, dollar, s, Closed(caps, ToClose(caps), s));
        EndIsBest(src, p, i, ps, dollar, s, caps);
      case Balanced(b, e) =>
        var m := Balance(src, s, b, e);
        if m.Some? { FirstIsBest(src, p, k, rest, dollar, m.value, caps); }
        BalancedIsBest(src, p, i, ps, dollar, s, caps);
      case Border(_, _) =>
        FirstIsBest(src, p, k, rest, dollar, s, caps);
        BorderIsBest(src, p, i, ps, dollar, s, caps);
      case Again(n) =>
        if CapturedAt(src, caps[n - 1], s) {
          CapturedEnds(src, caps[n - 1], s);
          FirstIsBest(src, p, k, rest, dollar, s + caps[n - 1].len, caps);
        }
        AgainIsBest(src, p, i, ps, dollar, s, caps);
      case _ =>
        forall t: nat | s <= t <= |src|
          ensures First(src, p, k, t, caps) == Best(All(src, rest, dollar, t, caps))
        {
          FirstIsBest(src, p, k, rest, dollar, t, caps);
        }
        RestIs(src, p, k, rest, dollar, s, caps);
        PatternGoesOn(ps, ShapesOf(caps));
        NextChar(p, k, rest, dollar);
        ItemIsBest(src, p, i, ps, dollar, s, caps);
    }
  }

  lemma BestOfSpelling(src: string, ps: seq<Part>, dollar: bool, s: nat)
    requires s <= |src| && IsPattern(ps, [])
    ensures First(src, Spelling(ps, dollar), 0, s, []) == Best(All(src, ps, dollar, s, []))
  {
    assert Spelling(ps, dollar)[0..] == Spelling(ps, dollar) && ShapesOf([]) == [];
    FirstIsBest(src, Spelling(ps, dollar), 0, ps, dollar, s, []);
  }

  ghost function ShapesAfter(x: Part, shapes: seq<Shape>): seq<Shape> {
    if x.Begin? then shapes + [Open]
    else if x.Position? then shapes + [Shut]
    else if x.End? && LastOpen(shapes) >= 0 then shapes[LastOpen(shapes) := Shut]
    else shapes
  }

  lemma ShapesGoOn(ps: seq<Part>, shapes: seq<Shape>)
    requires ps != [] && IsPattern(ps, shapes)
    ensures IsPattern(ps[1..], ShapesAfter(ps[0], shapes))
  {
  }

  /** Every spelling is well formed. */
  lemma {:induction false} SpellingIsWellFormed(p: string, i: nat, ps: seq<Part>, dollar: bool, shapes: seq<Shape>)
    requires IsPattern(ps, shapes) && Spelled(p, i, ps, dollar)
    ensures WellFormed(p, i, shapes)
    decreases |ps|
  {
    hide *;
    if ps == [] {
      EndIsWellFormed(p, i, dollar, shapes);
    } else {
      SpelledPart(p, i, ps, dollar);
      ShapesGoOn(ps, shapes);
      SpellingIsWellFormed(p, i + |PartText(ps[0])|, ps[1..], dollar, ShapesAfter(ps[0], shapes));
      PatternPart(ps, shapes);
      PatternGoesOn(ps, shapes);
      if HasChars(ps[0]) {
        CharsOf(ps[0]);
        ItemIsWellFormed(p, i, ps, dollar, shapes, i + |CharsText(ps[0].x)|);
      } else if ps[0].Border? {
        BorderIsWellFormed(p, i, ps, dollar, shapes);
      } else if ps[0].Balanced? {
        BalancedIsWellFormed(p, i, ps, dollar, shapes);
      } else {
        CaptureIsWellFormed(p, i, ps, dollar, shapes);
      }
    }
  }

  lemma CharsOf(x: Part)
    requires HasChars(x)
    ensures x.One? || x.Maybe? || x.Most? || x.MostPlus? || x.Fewest?
  {
  }

  lemma EndIsWellFormed(p: string, i: nat, dollar: bool, shapes: seq<Shape>)
    requires Spelled(p, i, [], dollar)
    ensures WellFormed(p, i, shapes)
  {
    NextChar(p, i, [], dollar);
  }

  lemma ItemIsWellFormed(p: string, i: nat, ps: seq<Part>, dollar: bool, shapes: seq<Shape>, ep: nat)
    requires ps != [] && HasChars(ps[0]) && PartOk(ps[0]) && (|ps| > 1 ==> PartOk(ps[1])) && Spelled(p, i, ps, dollar)
    requires |ps| == 1 ==> ps[0] != One(Char('$'))
    requires ep == i + |CharsText(ps[0].x)|
    requires WellFormed(p, i + |PartText(ps[0])|, ShapesAfter(ps[0], shapes))
    ensures WellFormed(p, i, shapes)
  {
    hide *;
    SpelledPart(p, i, ps, dollar);
    NextChar(p, i + |PartText(ps[0])|, ps[1..], dollar);
    ItemRead(p, i, ps[0]);
    NotCapture(ps[0], shapes);
    WellFormedItem(p, i, shapes, ep);
    AfterIs(p, ep, ps[0]);
  }

  lemma AfterIs(p: string, ep: nat, x: Part)
    requires HasChars(x)
    requires var c := At(p, ep);
      (x.One? ==> !IsSuffix(c)) && (x.Maybe? ==> c == '?') && (x.Most? ==> c == '*') && (x.MostPlus? ==> c == '+') && (x.Fewest? ==> c == '-')
    ensures AfterItem(p, ep) == if x.One? then ep else ep + 1
  {
  }

  lemma BorderIsWellFormed(p: string, i: nat, ps: seq<Part>, dollar: bool, shapes: seq<Shape>)
    requires ps != [] && ps[0].Border? && PartOk(ps[0]) && Spelled(p, i, ps, dollar)
    requires WellFormed(p, i + |PartText(ps[0])|, ShapesAfter(ps[0], shapes))
    ensures WellFormed(p, i, shapes)
  {
    hide *;
    var x := ps[0];
    SpelledPart(p, i, ps, dollar);
    BorderText(x);
    ReadsParts(p, i, "%f", SetText(x.not, x.xs));
    ReadsAt(p, i, "%f", 0);
    ReadsAt(p, i, "%f", 1);
    BorderRead("", 0, p, i + 2, x.not, x.xs);
    NotCapture(x, shapes);
    WellFormedBorder(p, i, shapes, i + |PartText(x)|);
  }

  lemma NotCapture(x: Part, shapes: seq<Shape>)
    requires HasChars(x) || x.Border? || x.Balanced? || x.Again?
    ensures ShapesAfter(x, shapes) == shapes
  {
  }

  lemma WellFormedBorder(p: string, i: nat, shapes: seq<Shape>, ep: nat)
    requires i + 2 < |p| && p[i] == '%' && p[i + 1] == 'f' && At(p, i + 2) == '[' && ClassEnd(p, i + 2) == Some(ep)
    ensures WellFormed(p, i, shapes) == WellFormed(p, ep, shapes)
  {
  }

  lemma WellFormedItem(p: string, i: nat, shapes: seq<Shape>, ep: nat)
    requires i < |p| && IsItem(p, i) && ClassEnd(p, i) == Some(ep)
    ensures WellFormed(p, i, shapes) == WellFormed(p, AfterItem(p, ep), shapes)
  {
  }

  lemma BalancedIsWellFormed(p: string, i: nat, ps: seq<Part>, dollar: bool, shapes: seq<Shape>)
    requires ps != [] && ps[0].Balanced? && PartOk(ps[0]) && Spelled(p, i, ps, dollar)
    requires WellFormed(p, i + |PartText(ps[0])|, ShapesAfter(ps[0], shapes))
    ensures WellFormed(p, i, shapes)
  {
    var t := PartText(ps[0]);
    SpelledPart(p, i, ps, dollar);
    ReadsAt(p, i, t, 0);
    ReadsAt(p, i, t, 1);
    ReadsAt(p, i, t, 2);
    ReadsAt(p, i, t, 3);
    hide Spelled, ClassEnd;
  }

  lemma CaptureIsWellFormed(p: string, i: nat, ps: seq<Part>, dollar: bool, shapes: seq<Shape>)
    requires ps != [] && IsPattern(ps, shapes) && Spelled(p, i, ps, dollar) && (ps[0].Begin? || ps[0].Position? || ps[0].End? || ps[0].Again?)
    requires WellFormed(p, i + |PartText(ps[0])|, ShapesAfter(ps[0], shapes))
    ensures WellFormed(p, i, shapes)
  {
    hide *;
    var x, t := ps[0], PartText(ps[0]);
    PatternPart(ps, shapes);
    PatternGoesOn(ps, shapes);
    SpelledPart(p, i, ps, dollar);
    CaptureText(x, shapes);
    NextChar(p, i + |t|, ps[1..], dollar);
    ReadsAt(p, i, t, 0);
    if |t| > 1 {
      ReadsAt(p, i, t, 1);
      CharAt(p, i + 1);
    }
    WellFormedCapture(p, i, x, shapes);
  }

  lemma CharAt(p: string, i: nat)
    requires i < |p|
    ensures At(p, i) == p[i]
  {
  }

  lemma CaptureText(x: Part, shapes: seq<Shape>)
    requires PartOk(x) && (x.Begin? || x.Position? || x.End? || x.Again?)
    ensures var t := PartText(x); (x.Begin? ==> t == "(") && (x.Position? ==> t == "()") && (x.End? ==> t == ")")
    ensures var t := PartText(x); x.Again? ==> |t| == 2 && t[0] == '%' && IsDigit(t[1]) && t[1] as int == '0' as int + x.k
  {
  }

  lemma WellFormedCapture(p: string, i: nat, x: Part, shapes: seq<Shape>)
    requires i < |p|
    requires match x
      case Begin => p[i] == '(' && At(p, i + 1) != ')' && |shapes| < 32
      case Position => p[i] == '(' && At(p, i + 1) == ')' && |shapes| < 32
      case End => p[i] == ')' && LastOpen(shapes) >= 0
      case Again(k) => p[i] == '%' && IsDigit(At(p, i + 1)) && At(p, i + 1) as int == '0' as int + k && 1 <= k <= |shapes| && shapes[k - 1] == Shut
      case _ => false
    ensures WellFormed(p, i, shapes) == WellFormed(p, if x.Begin? || x.End? then i + 1 else i + 2, ShapesAfter(x, shapes))
  {
  }
}
