/** Lua patterns (lua/lstrlib.c): what a pattern item matches, the declarative matching relation, and the order in which matches are tried. */
module LuaPattern {
  import opened Basics

  const L_ESC := '%'
  const CAP_UNFINISHED := -1
  const CAP_POSITION := -2
  const MAXCAPTURES: nat := 32

  datatype Cap = Cap(init: int, len: int)

  /** A pattern error, no match, or the end of a match with the captures made. */
  datatype Res = Err | No | Yes(e: nat, caps: seq<Cap>)

  // ---------------------------------------------------------------- single characters

  predicate IsLower(c: char) { 'a' <= c <= 'z' }
  predicate IsUpper(c: char) { 'A' <= c <= 'Z' }
  predicate IsAlpha(c: char) { IsLower(c) || IsUpper(c) }
  predicate IsDigit(c: char) { '0' <= c <= '9' }
  predicate IsCntrl(c: char) { c < ' ' || c == 127 as char }
  predicate IsSpace(c: char) { c == ' ' || (9 as char <= c <= 13 as char) }
  predicate IsPunct(c: char) { ' ' < c < 127 as char && !IsAlpha(c) && !IsDigit(c) }
  predicate IsXDigit(c: char) { IsDigit(c) || 'a' <= c <= 'f' || 'A' <= c <= 'F' }

  function ToLower(c: char): char {
    if IsUpper(c) then c + ('a' - 'A') else c
  }

  predicate MatchClass(c: char, cl: char) {
    var l := ToLower(cl);
    if l in "acdlpsuwxz" then
      var res := if l == 'a' then IsAlpha(c) else if l == 'c' then IsCntrl(c) else if l == 'd' then IsDigit(c)
                 else if l == 'l' then IsLower(c) else if l == 'p' then IsPunct(c) else if l == 's' then IsSpace(c)
                 else if l == 'u' then IsUpper(c) else if l == 'w' then IsAlpha(c) || IsDigit(c)
                 else if l == 'x' then IsXDigit(c) else c == '\0';
      if IsLower(cl) then res else !res
    else cl == c
  }

  /** The end of a set: a first `]` is a member, and escaped characters are skipped. */
  function SetEnd(p: string, j: nat): (r: Option<nat>)
    ensures r.Some? ==> j + 1 < r.value <= |p|
    decreases |p| - j
  {
    if At(p, j) == '\0' || j >= |p| then None
    else
      var j' := if p[j] == L_ESC && At(p, j + 1) != '\0' then j + 2 else j + 1;
      if At(p, j') == ']' then Some(j' + 1) else SetEnd(p, j')
  }

  /** `classend`: where the item that begins at `i` ends. */
  function ClassEnd(p: string, i: nat): (r: Option<nat>)
    requires i < |p|
    ensures r.Some? ==> i < r.value <= |p|
    ensures r.Some? && p[i] == '[' ==> i + 1 < r.value
  {
    if p[i] == L_ESC then
      if At(p, i + 1) == '\0' then None else Some(i + 2)
    else if p[i] == '[' then
      SetEnd(p, if At(p, i + 1) == '^' then i + 2 else i + 1)
    else Some(i + 1)
  }

  /** A character in a set whose items begin at `j` and end before `ec`: classes, ranges and single characters. */
  predicate InSet(c: char, p: string, j: nat, ec: nat)
    decreases ec - j
  {
    if j >= ec then false
    else if At(p, j) == L_ESC then MatchClass(c, At(p, j + 1)) || InSet(c, p, j + 2, ec)
    else if At(p, j + 1) == '-' && j + 2 < ec then At(p, j) <= c <= At(p, j + 2) || InSet(c, p, j + 3, ec)
    else At(p, j) == c || InSet(c, p, j + 1, ec)
  }

  /** `matchbracketclass`. */
  predicate MatchSet(c: char, p: string, i: nat, ec: nat) {
    if At(p, i + 1) == '^' then !InSet(c, p, i + 2, ec) else InSet(c, p, i + 1, ec)
  }

  predicate SingleMatch(c: char, p: string, i: nat, ep: nat)
    requires ep > 0
  {
    if At(p, i) == '.' then true
    else if At(p, i) == L_ESC then MatchClass(c, At(p, i + 1))
    else if At(p, i) == '[' then MatchSet(c, p, i, ep - 1)
    else At(p, i) == c
  }

  /** The item from `i` to `ep` matches the character at `s`, which is not the end of the source. */
  predicate Single(src: string, s: nat, p: string, i: nat, ep: nat)
    requires ep > 0
  {
    s < |src| && SingleMatch(src[s], p, i, ep)
  }

  // ---------------------------------------------------------------- what single characters match

  /** The characters of each class, by their codes. */
  lemma ClassMeans(c: char)
    ensures MatchClass(c, 'a') <==> 65 <= c as int <= 90 || 97 <= c as int <= 122
    ensures MatchClass(c, 'c') <==> c as int <= 31 || c as int == 127
    ensures MatchClass(c, 'd') <==> 48 <= c as int <= 57
    ensures MatchClass(c, 'l') <==> 97 <= c as int <= 122
    ensures MatchClass(c, 'p') <==> 33 <= c as int <= 47 || 58 <= c as int <= 64 || 91 <= c as int <= 96 || 123 <= c as int <= 126
    ensures MatchClass(c, 's') <==> c as int == 32 || 9 <= c as int <= 13
    ensures MatchClass(c, 'u') <==> 65 <= c as int <= 90
    ensures MatchClass(c, 'w') <==> 48 <= c as int <= 57 || 65 <= c as int <= 90 || 97 <= c as int <= 122
    ensures MatchClass(c, 'x') <==> 48 <= c as int <= 57 || 65 <= c as int <= 70 || 97 <= c as int <= 102
    ensures MatchClass(c, 'z') <==> c as int == 0
  {
  }

  /** A letter in upper case stands for all other characters. */
  lemma ClassComplement(c: char)
    ensures MatchClass(c, 'A') != MatchClass(c, 'a') && MatchClass(c, 'C') != MatchClass(c, 'c') && MatchClass(c, 'D') != MatchClass(c, 'd')
    ensures MatchClass(c, 'L') != MatchClass(c, 'l') && MatchClass(c, 'P') != MatchClass(c, 'p') && MatchClass(c, 'S') != MatchClass(c, 's')
    ensures MatchClass(c, 'U') != MatchClass(c, 'u') && MatchClass(c, 'W') != MatchClass(c, 'w') && MatchClass(c, 'X') != MatchClass(c, 'x')
    ensures MatchClass(c, 'Z') != MatchClass(c, 'z')
  {
  }

  /** Any other character stands for itself. */
  lemma ClassOther(c: char, cl: char)
    requires cl !in "acdlpsuwxzACDLPSUWXZ"
    ensures MatchClass(c, cl) <==> c == cl
  {
  }

  // ---------------------------------------------------------------- balances, frontiers and captures

  /** The end of a balanced string that is `cont` levels deep at `s`. */
  function BalanceEnd(src: string, s: nat, b: char, e: char, cont: nat): (r: Option<nat>)
    requires cont > 0
    ensures r.Some? ==> s < r.value <= |src|
    decreases |src| - s
  {
    if s >= |src| then None
    else if src[s] == e then if cont == 1 then Some(s + 1) else BalanceEnd(src, s + 1, b, e, cont - 1)
    else BalanceEnd(src, s + 1, b, e, if src[s] == b then cont + 1 else cont)
  }

  function Balance(src: string, s: nat, b: char, e: char): (r: Option<nat>)
    requires b != '\0'
    ensures r.Some? ==> s < r.value <= |src|
  {
    if At(src, s) != b then None else BalanceEnd(src, s + 1, b, e, 1)
  }

  /** The character before `s` is not in the set, and the one at `s` is; the zero byte stands at both ends. */
  predicate Frontier(src: string, s: nat, p: string, i: nat, ep: nat)
    requires ep > 0
  {
    !MatchSet(At(src, s - 1), p, i, ep - 1) && MatchSet(At(src, s), p, i, ep - 1)
  }

  /** Captures begin, and end, before the current position. */
  ghost predicate CapsOk(caps: seq<Cap>, s: nat) {
    |caps| <= MAXCAPTURES
    && forall k :: 0 <= k < |caps| ==> 0 <= caps[k].init <= s && -2 <= caps[k].len && (caps[k].len >= 0 ==> caps[k].init + caps[k].len <= s)
  }

  /** `capture_to_close`: the last unfinished capture. */
  function ToClose(caps: seq<Cap>): (l: int)
    ensures -1 <= l < |caps|
    ensures l >= 0 ==> caps[l].len == CAP_UNFINISHED
    ensures forall k :: l < k < |caps| ==> caps[k].len != CAP_UNFINISHED
  {
    if caps == [] then -1
    else if caps[|caps| - 1].len == CAP_UNFINISHED then |caps| - 1 else ToClose(caps[..|caps| - 1])
  }

  function Closed(caps: seq<Cap>, l: nat, s: nat): seq<Cap>
    requires l < |caps|
  {
    caps[l := Cap(caps[l].init, s - caps[l].init)]
  }

  /** `check_capture`: the index of a back reference, or -1. */
  function CaptureIndex(caps: seq<Cap>, d: char): (l: int)
    ensures -1 <= l < |caps|
  {
    var l := d as int - '1' as int;
    if 0 <= l < |caps| && caps[l].len != CAP_UNFINISHED then l else -1
  }

  /** The text of a capture again; a position capture has a length that no text can have. */
  function BackRef(src: string, s: nat, cap: Cap): (r: Option<nat>)
    requires s <= |src| && 0 <= cap.init && (cap.len >= 0 ==> cap.init + cap.len <= s)
    ensures r.Some? ==> s <= r.value <= |src|
  {
    if 0 <= cap.len <= |src| - s && src[cap.init..cap.init + cap.len] == src[s..s + cap.len] then Some(s + cap.len) else None
  }

  // ---------------------------------------------------------------- the matching relation

  /** `n` characters from `s` on match the item. */
  predicate Repeats(src: string, s: nat, p: string, i: nat, ep: nat, n: nat)
    requires ep > 0
  {
    s + n <= |src| && forall k :: s <= k < s + n ==> Single(src, k, p, i, ep)
  }

  /** How often an item may match, by its suffix. */
  predicate Count(suffix: char, n: nat) {
    if suffix == '?' then n <= 1
    else if suffix == '*' || suffix == '-' then true
    else if suffix == '+' then n >= 1
    else n == 1
  }

  predicate IsSuffix(c: char) { c in "?*+-" }

  function AfterItem(p: string, ep: nat): nat {
    if IsSuffix(At(p, ep)) then ep + 1 else ep
  }

  predicate IsEnd(p: string, i: nat) { At(p, i) == '\0' || i >= |p| }

  predicate IsAnchor(p: string, i: nat) { At(p, i) == '$' && At(p, i + 1) == '\0' }

  /** From position `s`, with captures `caps`, the pattern from `i` on can match up to `e` and leave `caps'`. */
  ghost predicate Matches(src: string, p: string, i: nat, s: nat, caps: seq<Cap>, e: nat, caps': seq<Cap>)
    requires s <= |src| && CapsOk(caps, s)
    decreases |p| - i
  {
    if IsEnd(p, i) then e == s && caps' == caps
    else if p[i] == '(' then
      |caps| < MAXCAPTURES
      && if At(p, i + 1) == ')' then Matches(src, p, i + 2, s, caps + [Cap(s, CAP_POSITION)], e, caps')
         else Matches(src, p, i + 1, s, caps + [Cap(s, CAP_UNFINISHED)], e, caps')
    else if p[i] == ')' then
      ToClose(caps) >= 0 && Matches(src, p, i + 1, s, Closed(caps, ToClose(caps), s), e, caps')
    else if p[i] == L_ESC && At(p, i + 1) == 'b' then
      At(p, i + 2) != '\0' && At(p, i + 3) != '\0' && i + 4 <= |p|
      && var m := Balance(src, s, At(p, i + 2), At(p, i + 3)); m.Some? && Matches(src, p, i + 4, m.value, caps, e, caps')
    else if p[i] == L_ESC && At(p, i + 1) == 'f' then
      At(p, i + 2) == '[' && ClassEnd(p, i + 2).Some?
      && Frontier(src, s, p, i + 2, ClassEnd(p, i + 2).value) && Matches(src, p, ClassEnd(p, i + 2).value, s, caps, e, caps')
    else if p[i] == L_ESC && IsDigit(At(p, i + 1)) then
      var l := CaptureIndex(caps, At(p, i + 1));
      l >= 0 && BackRef(src, s, caps[l]).Some? && Matches(src, p, i + 2, BackRef(src, s, caps[l]).value, caps, e, caps')
    else if IsAnchor(p, i) then s == |src| && e == s && caps' == caps
    else
      ClassEnd(p, i).Some?
      && var ep := ClassEnd(p, i).value;
         exists n: nat :: Repeats(src, s, p, i, ep, n) && Count(At(p, ep), n) && Matches(src, p, AfterItem(p, ep), s + n, caps, e, caps')
  }

  // ---------------------------------------------------------------- the order of the search

  /** The first match in the order in which `match` tries them. */
  function First(src: string, p: string, i: nat, s: nat, caps: seq<Cap>): (r: Res)
    requires s <= |src| && CapsOk(caps, s)
    ensures r.Yes? ==> s <= r.e <= |src| && CapsOk(r.caps, r.e)
    decreases |p| - i, 0
  {
    if IsEnd(p, i) then Yes(s, caps)
    else if p[i] == '(' then
      if |caps| >= MAXCAPTURES then Err
      else if At(p, i + 1) == ')' then First(src, p, i + 2, s, caps + [Cap(s, CAP_POSITION)])
      else First(src, p, i + 1, s, caps + [Cap(s, CAP_UNFINISHED)])
    else if p[i] == ')' then
      if ToClose(caps) < 0 then Err else First(src, p, i + 1, s, Closed(caps, ToClose(caps), s))
    else if p[i] == L_ESC && At(p, i + 1) == 'b' then
      if At(p, i + 2) == '\0' || At(p, i + 3) == '\0' || i + 4 > |p| then Err
      else
        var m := Balance(src, s, At(p, i + 2), At(p, i + 3));
        if m.None? then No else First(src, p, i + 4, m.value, caps)
    else if p[i] == L_ESC && At(p, i + 1) == 'f' then
      if At(p, i + 2) != '[' || ClassEnd(p, i + 2).None? then Err
      else if !Frontier(src, s, p, i + 2, ClassEnd(p, i + 2).value) then No
      else First(src, p, ClassEnd(p, i + 2).value, s, caps)
    else if p[i] == L_ESC && IsDigit(At(p, i + 1)) then
      var l := CaptureIndex(caps, At(p, i + 1));
      if l < 0 then Err
      else if BackRef(src, s, caps[l]).None? then No
      else First(src, p, i + 2, BackRef(src, s, caps[l]).value, caps)
    else if IsAnchor(p, i) then
      if s == |src| then Yes(s, caps) else No
    else if ClassEnd(p, i).None? then Err
    else
      var ep := ClassEnd(p, i).value;
      var m := Single(src, s, p, i, ep);
      match At(p, ep)
      case '?' =>
        var r := if m then First(src, p, ep + 1, s + 1, caps) else No;
        if r == No then First(src, p, ep + 1, s, caps) else r
      case '*' => Longest(src, p, ep + 1, s, Run(src, s, p, i, ep), caps)
      case '+' => if m then Longest(src, p, ep + 1, s + 1, Run(src, s + 1, p, i, ep), caps) else No
      case '-' => Shortest(src, p, i, ep, s, caps)
      case _ => if m then First(src, p, ep, s + 1, caps) else No
  }

  /** The number of characters from `s` on that match an item. */
  function Run(src: string, s: nat, p: string, i: nat, ep: nat): (n: nat)
    requires s <= |src| && ep > 0
    ensures Repeats(src, s, p, i, ep, n) && !Single(src, s + n, p, i, ep)
    decreases |src| - s
  {
    if Single(src, s, p, i, ep) then 1 + Run(src, s + 1, p, i, ep) else 0
  }

  /** After up to `n` repetitions, most first. */
  function Longest(src: string, p: string, k: nat, s: nat, n: nat, caps: seq<Cap>): (r: Res)
    requires s + n <= |src| && CapsOk(caps, s)
    ensures r.Yes? ==> s <= r.e <= |src| && CapsOk(r.caps, r.e)
    decreases |p| - k, 1 + n
  {
    var r := First(src, p, k, s + n, caps);
    if r != No || n == 0 then r else Longest(src, p, k, s, n - 1, caps)
  }

  /** After as few repetitions as possible. */
  function Shortest(src: string, p: string, i: nat, ep: nat, s: nat, caps: seq<Cap>): (r: Res)
    requires s <= |src| && CapsOk(caps, s) && ep > 0
    ensures r.Yes? ==> s <= r.e <= |src| && CapsOk(r.caps, r.e)
    decreases |p| - (ep + 1), 1 + (|src| - s)
  {
    var r := First(src, p, ep + 1, s, caps);
    if r != No then r
    else if Single(src, s, p, i, ep) then Shortest(src, p, i, ep, s + 1, caps)
    else No
  }

  // ---------------------------------------------------------------- the search finds a match exactly when there is one

  lemma {:induction false} RunIsLongest(src: string, s: nat, p: string, i: nat, ep: nat, n: nat)
    requires s <= |src| && ep > 0 && Repeats(src, s, p, i, ep, n)
    ensures n <= Run(src, s, p, i, ep)
    decreases n
  {
    if n > 0 {
      assert Single(src, s, p, i, ep);
      RunIsLongest(src, s + 1, p, i, ep, n - 1);
    }
  }

  /** What a search says about the relation: no match means that there is none, and a match is one. */
  ghost predicate Tells(r: Res, src: string, p: string, i: nat, s: nat, caps: seq<Cap>)
    requires s <= |src| && CapsOk(caps, s)
  {
    && (r == No ==> forall e: nat, c: seq<Cap> :: !Matches(src, p, i, s, caps, e, c))
    && (r.Yes? ==> Matches(src, p, i, s, caps, r.e, r.caps))
  }

  lemma {:induction false} FirstTells(src: string, p: string, i: nat, s: nat, caps: seq<Cap>)
    requires s <= |src| && CapsOk(caps, s)
    ensures Tells(First(src, p, i, s, caps), src, p, i, s, caps)
    decreases |p| - i, 0
  {
    if IsEnd(p, i) {
    } else if p[i] == '(' {
      if |caps| < MAXCAPTURES {
        if At(p, i + 1) == ')' {
          FirstTells(src, p, i + 2, s, caps + [Cap(s, CAP_POSITION)]);
        } else {
          FirstTells(src, p, i + 1, s, caps + [Cap(s, CAP_UNFINISHED)]);
        }
      }
    } else if p[i] == ')' {
      if ToClose(caps) >= 0 { FirstTells(src, p, i + 1, s, Closed(caps, ToClose(caps), s)); }
    } else if p[i] == L_ESC && At(p, i + 1) == 'b' {
      if At(p, i + 2) != '\0' && At(p, i + 3) != '\0' && i + 4 <= |p| {
        var m := Balance(src, s, At(p, i + 2), At(p, i + 3));
        if m.Some? { FirstTells(src, p, i + 4, m.value, caps); }
      }
    } else if p[i] == L_ESC && At(p, i + 1) == 'f' {
      if At(p, i + 2) == '[' && ClassEnd(p, i + 2).Some? { FirstTells(src, p, ClassEnd(p, i + 2).value, s, caps); }
    } else if p[i] == L_ESC && IsDigit(At(p, i + 1)) {
      var l := CaptureIndex(caps, At(p, i + 1));
      if l >= 0 && BackRef(src, s, caps[l]).Some? { FirstTells(src, p, i + 2, BackRef(src, s, caps[l]).value, caps); }
    } else if !IsAnchor(p, i) && ClassEnd(p, i).Some? {
      ItemTells(src, p, i, s, caps, ClassEnd(p, i).value);
    }
  }

  /** The matches over at least `from` and at most `most` repetitions of the item at `i`. */
  ghost predicate Over(src: string, p: string, i: nat, ep: nat, s: nat, caps: seq<Cap>, n: nat, e: nat, c: seq<Cap>)
    requires s <= |src| && CapsOk(caps, s) && ep > 0
  {
    Repeats(src, s, p, i, ep, n) && Matches(src, p, AfterItem(p, ep), s + n, caps, e, c)
  }

  /** What a search over some numbers of repetitions says. */
  ghost predicate OverTells(r: Res, src: string, p: string, i: nat, ep: nat, s: nat, caps: seq<Cap>, from: nat, most: nat)
    requires s <= |src| && CapsOk(caps, s) && ep > 0
  {
    && (r == No ==> forall n: nat, e: nat, c: seq<Cap> :: from <= n <= most ==> !Over(src, p, i, ep, s, caps, n, e, c))
    && (r.Yes? ==> exists n: nat :: from <= n <= most && Over(src, p, i, ep, s, caps, n, r.e, r.caps))
  }

  lemma {:induction false} LongestTells(src: string, p: string, i: nat, ep: nat, s: nat, caps: seq<Cap>, from: nat, n: nat)
    requires s + from + n <= |src| && CapsOk(caps, s) && ep > 0 && Repeats(src, s, p, i, ep, from + n)
    requires AfterItem(p, ep) == ep + 1 <= |p|
    ensures OverTells(Longest(src, p, ep + 1, s + from, n, caps), src, p, i, ep, s, caps, from, from + n)
    decreases |p| - (ep + 1), 1 + n
  {
    var r := First(src, p, ep + 1, s + from + n, caps);
    FirstTells(src, p, ep + 1, s + from + n, caps);
    if r.Yes? { assert Over(src, p, i, ep, s, caps, from + n, r.e, r.caps); }
    if r == No && n > 0 {
      assert Repeats(src, s, p, i, ep, from + (n - 1));
      LongestTells(src, p, i, ep, s, caps, from, n - 1);
    }
  }

  lemma {:induction false} ShortestTells(src: string, p: string, i: nat, ep: nat, s: nat, caps: seq<Cap>, n: nat)
    requires s + n <= |src| && CapsOk(caps, s) && ep > 0 && Repeats(src, s, p, i, ep, n)
    requires AfterItem(p, ep) == ep + 1 <= |p|
    ensures OverTells(Shortest(src, p, i, ep, s + n, caps), src, p, i, ep, s, caps, n, n + Run(src, s + n, p, i, ep))
    decreases |p| - (ep + 1), 1 + (|src| - (s + n))
  {
    var r := First(src, p, ep + 1, s + n, caps);
    FirstTells(src, p, ep + 1, s + n, caps);
    if r.Yes? { assert Over(src, p, i, ep, s, caps, n, r.e, r.caps); }
    if r == No && Single(src, s + n, p, i, ep) {
      ShortestTells(src, p, i, ep, s, caps, n + 1);
    }
  }

  lemma {:induction false} ItemTells(src: string, p: string, i: nat, s: nat, caps: seq<Cap>, ep: nat)
    requires s <= |src| && CapsOk(caps, s) && i < |p| && ClassEnd(p, i) == Some(ep) && IsItem(p, i)
    ensures Tells(First(src, p, i, s, caps), src, p, i, s, caps)
    decreases |p| - (i + 1), 2 + |src|
  {
    var suffix, run, r := At(p, ep), Run(src, s, p, i, ep), First(src, p, i, s, caps);
    ItemIsOver(src, p, i, s, caps, ep);
    assert forall n: nat :: n <= run ==> Repeats(src, s, p, i, ep, n);
    forall n: nat | Repeats(src, s, p, i, ep, n)
      ensures n <= run
    {
      RunIsLongest(src, s, p, i, ep, n);
    }
    if suffix == '*' {
      LongestTells(src, p, i, ep, s, caps, 0, run);
    } else if suffix == '+' {
      if run > 0 { LongestTells(src, p, i, ep, s, caps, 1, run - 1); }
    } else if suffix == '-' {
      ShortestTells(src, p, i, ep, s, caps, 0);
    } else {
      OnceTells(src, p, i, s, caps, ep);
    }
  }

  /** An item without a suffix, or an optional one. */
  lemma {:induction false} OnceTells(src: string, p: string, i: nat, s: nat, caps: seq<Cap>, ep: nat)
    requires s <= |src| && CapsOk(caps, s) && i < |p| && ClassEnd(p, i) == Some(ep) && IsItem(p, i) && (At(p, ep) == '?' || !IsSuffix(At(p, ep)))
    ensures OverTells(First(src, p, i, s, caps), src, p, i, ep, s, caps, if At(p, ep) == '?' then 0 else 1, 1)
    decreases |p| - (i + 1), 1 + |src|
  {
    var k := AfterItem(p, ep);
    if Single(src, s, p, i, ep) {
      FirstTells(src, p, k, s + 1, caps);
      var r1 := First(src, p, k, s + 1, caps);
      if r1.Yes? { assert Over(src, p, i, ep, s, caps, 1, r1.e, r1.caps); }
    }
    if At(p, ep) == '?' {
      FirstTells(src, p, k, s, caps);
      var r0 := First(src, p, k, s, caps);
      if r0.Yes? { assert Over(src, p, i, ep, s, caps, 0, r0.e, r0.caps); }
    }
  }

  /** The last case of `match`: a pattern item. */
  predicate IsItem(p: string, i: nat) {
    && !IsEnd(p, i) && p[i] != '(' && p[i] != ')' && !IsAnchor(p, i)
    && !(p[i] == L_ESC && (At(p, i + 1) == 'b' || At(p, i + 1) == 'f' || IsDigit(At(p, i + 1))))
  }

  lemma ItemIsOver(src: string, p: string, i: nat, s: nat, caps: seq<Cap>, ep: nat)
    requires s <= |src| && CapsOk(caps, s) && i < |p| && ClassEnd(p, i) == Some(ep) && IsItem(p, i)
    ensures forall e: nat, c: seq<Cap> :: Matches(src, p, i, s, caps, e, c) <==> exists n: nat :: Count(At(p, ep), n) && Over(src, p, i, ep, s, caps, n, e, c)
  {
    forall e: nat, c: seq<Cap>
      ensures Matches(src, p, i, s, caps, e, c) <==> exists n: nat :: Count(At(p, ep), n) && Over(src, p, i, ep, s, caps, n, e, c)
    {
      if Matches(src, p, i, s, caps, e, c) {
        var n: nat :| Repeats(src, s, p, i, ep, n) && Count(At(p, ep), n) && Matches(src, p, AfterItem(p, ep), s + n, caps, e, c);
        assert Over(src, p, i, ep, s, caps, n, e, c);
      }
    }
  }

  /** `match` fails exactly when nothing matches; otherwise its result is a legal match. */
  lemma SearchIsComplete(src: string, p: string, s: nat)
    requires s <= |src|
    ensures var r := First(src, p, 0, s, []);
            && (r == No ==> forall e: nat, c: seq<Cap> :: !Matches(src, p, 0, s, [], e, c))
            && (r.Yes? ==> s <= r.e <= |src| && Matches(src, p, 0, s, [], r.e, r.caps))
  {
    FirstTells(src, p, 0, s, []);
  }

  // ---------------------------------------------------------------- preference

  /** `*` takes the most repetitions after which the rest of the pattern matches, and `-` the fewest. */
  lemma {:induction false} LongestIsGreedy(src: string, p: string, k: nat, s: nat, n: nat, caps: seq<Cap>) returns (m: nat)
    requires s + n <= |src| && CapsOk(caps, s) && Longest(src, p, k, s, n, caps).Yes?
    ensures m <= n && First(src, p, k, s + m, caps) == Longest(src, p, k, s, n, caps)
    ensures forall t: nat :: s + m < t <= s + n ==> First(src, p, k, t, caps) == No
    decreases n
  {
    m := n;
    if First(src, p, k, s + n, caps) == No {
      m := LongestIsGreedy(src, p, k, s, n - 1, caps);
    }
  }

  lemma {:induction false} ShortestIsLazy(src: string, p: string, i: nat, ep: nat, k: nat, s: nat, caps: seq<Cap>) returns (m: nat)
    requires s <= |src| && CapsOk(caps, s) && ep > 0 && Shortest(src, p, i, ep, s, caps).Yes? && k == ep + 1
    ensures Repeats(src, s, p, i, ep, m) && First(src, p, k, s + m, caps) == Shortest(src, p, i, ep, s, caps)
    ensures forall t: nat :: s <= t < s + m ==> First(src, p, k, t, caps) == No
    decreases |src| - s
  {
    m := 0;
    if First(src, p, k, s, caps) == No {
      var m' := ShortestIsLazy(src, p, i, ep, k, s + 1, caps);
      m := m' + 1;
    }
  }

  // ---------------------------------------------------------------- well-formed patterns

  datatype Shape = Open | Shut

  ghost function ShapesOf(caps: seq<Cap>): seq<Shape> {
    seq(|caps|, k requires 0 <= k < |caps| => if caps[k].len == CAP_UNFINISHED then Open else Shut)
  }

  function LastOpen(shapes: seq<Shape>): (l: int)
    ensures -1 <= l < |shapes|
    ensures l >= 0 ==> shapes[l] == Open
    ensures forall k :: l < k < |shapes| ==> shapes[k] != Open
  {
    if shapes == [] then -1 else if shapes[|shapes| - 1] == Open then |shapes| - 1 else LastOpen(shapes[..|shapes| - 1])
  }

  /** A syntactically valid pattern, given the captures before `i`: this can be told without a subject. */
  predicate WellFormed(p: string, i: nat, shapes: seq<Shape>)
    decreases |p| - i
  {
    if IsEnd(p, i) then true
    else if p[i] == '(' then
      |shapes| < MAXCAPTURES
      && if At(p, i + 1) == ')' then WellFormed(p, i + 2, shapes + [Shut]) else WellFormed(p, i + 1, shapes + [Open])
    else if p[i] == ')' then LastOpen(shapes) >= 0 && WellFormed(p, i + 1, shapes[LastOpen(shapes) := Shut])
    else if p[i] == L_ESC && At(p, i + 1) == 'b' then
      At(p, i + 2) != '\0' && At(p, i + 3) != '\0' && i + 4 <= |p| && WellFormed(p, i + 4, shapes)
    else if p[i] == L_ESC && At(p, i + 1) == 'f' then
      At(p, i + 2) == '[' && ClassEnd(p, i + 2).Some? && WellFormed(p, ClassEnd(p, i + 2).value, shapes)
    else if p[i] == L_ESC && IsDigit(At(p, i + 1)) then
      var l := At(p, i + 1) as int - '1' as int;
      0 <= l < |shapes| && shapes[l] == Shut && WellFormed(p, i + 2, shapes)
    else if IsAnchor(p, i) then true
    else ClassEnd(p, i).Some? && WellFormed(p, AfterItem(p, ClassEnd(p, i).value), shapes)
  }

  lemma {:induction false} LastOpenIs(caps: seq<Cap>)
    ensures LastOpen(ShapesOf(caps)) == ToClose(caps)
  {
    if caps != [] {
      LastOpenIs(caps[..|caps| - 1]);
      assert ShapesOf(caps)[..|caps| - 1] == ShapesOf(caps[..|caps| - 1]);
    }
  }

  lemma ShapesStep(caps: seq<Cap>, s: nat)
    requires CapsOk(caps, s)
    ensures LastOpen(ShapesOf(caps)) == ToClose(caps)
    ensures ToClose(caps) >= 0 ==> ShapesOf(Closed(caps, ToClose(caps), s)) == ShapesOf(caps)[ToClose(caps) := Shut]
    ensures ShapesOf(caps + [Cap(s, CAP_POSITION)]) == ShapesOf(caps) + [Shut]
    ensures ShapesOf(caps + [Cap(s, CAP_UNFINISHED)]) == ShapesOf(caps) + [Open]
  {
    LastOpenIs(caps);
  }

  /** Matching a well-formed pattern raises no error, whatever the subject. */
  lemma {:induction false} WellFormedIsSafe(src: string, p: string, i: nat, s: nat, caps: seq<Cap>)
    requires s <= |src| && CapsOk(caps, s) && WellFormed(p, i, ShapesOf(caps))
    ensures First(src, p, i, s, caps) != Err
    decreases |p| - i, 0
  {
    ShapesStep(caps, s);
    if IsEnd(p, i) || IsAnchor(p, i) {
    } else if p[i] == '(' {
      if At(p, i + 1) == ')' {
        WellFormedIsSafe(src, p, i + 2, s, caps + [Cap(s, CAP_POSITION)]);
      } else {
        WellFormedIsSafe(src, p, i + 1, s, caps + [Cap(s, CAP_UNFINISHED)]);
      }
    } else if p[i] == ')' {
      WellFormedIsSafe(src, p, i + 1, s, Closed(caps, ToClose(caps), s));
    } else if p[i] == L_ESC && At(p, i + 1) == 'b' {
      var m := Balance(src, s, At(p, i + 2), At(p, i + 3));
      if m.Some? { WellFormedIsSafe(src, p, i + 4, m.value, caps); }
    } else if p[i] == L_ESC && At(p, i + 1) == 'f' {
      WellFormedIsSafe(src, p, ClassEnd(p, i + 2).value, s, caps);
    } else if p[i] == L_ESC && IsDigit(At(p, i + 1)) {
      var b := BackRef(src, s, caps[CaptureIndex(caps, At(p, i + 1))]);
      if b.Some? { WellFormedIsSafe(src, p, i + 2, b.value, caps); }
    } else {
      var k := AfterItem(p, ClassEnd(p, i).value);
      forall t: nat | s <= t <= |src|
        ensures First(src, p, k, t, caps) != Err
      {
        WellFormedIsSafe(src, p, k, t, caps);
      }
      ItemSafe(src, p, i, s, caps, k);
    }
  }

  lemma ItemSafe(src: string, p: string, i: nat, s: nat, caps: seq<Cap>, k: nat)
    requires s <= |src| && CapsOk(caps, s) && i < |p| && IsItem(p, i) && ClassEnd(p, i).Some? && k == AfterItem(p, ClassEnd(p, i).value)
    requires forall t: nat :: s <= t <= |src| ==> First(src, p, k, t, caps) != Err
    ensures First(src, p, i, s, caps) != Err
  {
    var ep := ClassEnd(p, i).value;
    if At(p, ep) == '*' {
      LongestSafe(src, p, k, s, Run(src, s, p, i, ep), caps);
    } else if At(p, ep) == '+' {
      if Single(src, s, p, i, ep) { LongestSafe(src, p, k, s + 1, Run(src, s + 1, p, i, ep), caps); }
    } else if At(p, ep) == '-' {
      ShortestSafe(src, p, i, ep, k, s, caps);
    }
  }

  lemma {:induction false} LongestSafe(src: string, p: string, k: nat, s: nat, n: nat, caps: seq<Cap>)
    requires s + n <= |src| && CapsOk(caps, s) && forall t: nat :: s <= t <= |src| ==> First(src, p, k, t, caps) != Err
    ensures Longest(src, p, k, s, n, caps) != Err
    decreases n
  {
    if n > 0 { LongestSafe(src, p, k, s, n - 1, caps); }
  }

  lemma {:induction false} ShortestSafe(src: string, p: string, i: nat, ep: nat, k: nat, s: nat, caps: seq<Cap>)
    requires s <= |src| && CapsOk(caps, s) && ep > 0 && k == ep + 1 && forall t: nat :: s <= t <= |src| ==> First(src, p, k, t, caps) != Err
    ensures Shortest(src, p, i, ep, s, caps) != Err
    decreases |src| - s
  {
    if Single(src, s, p, i, ep) { ShortestSafe(src, p, i, ep, k, s + 1, caps); }
  }
}
