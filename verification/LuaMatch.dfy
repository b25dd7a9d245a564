/** The matcher of lua/lstrlib.c, with its capture array, and `string.find`, `string.match` and `string.gsub` on top of it. */
module LuaMatch {
  import opened Basics
  import opened LuaPattern

  /** A pattern error, NULL, or the end of the match. */
  datatype Ptr = Error | Null | End(e: nat)

  method ClassEndOf(p: string, i: nat) returns (r: Option<nat>)
    requires i < |p|
    ensures r == ClassEnd(p, i)
  {
    if p[i] == L_ESC {
      return if At(p, i + 1) == '\0' then None else Some(i + 2);
    }
    if p[i] == '[' {
      var j := if At(p, i + 1) == '^' then i + 2 else i + 1;
      ghost var j0 := j;
      while true
        invariant j <= |p| && SetEnd(p, j) == SetEnd(p, j0)
        decreases |p| - j
      {
        if At(p, j) == '\0' {
          return None;
        }
        j := j + 1;
        if p[j - 1] == L_ESC && At(p, j) != '\0' {
          j := j + 1;
        }
        if At(p, j) == ']' {
          return Some(j + 1);
        }
      }
    }
    return Some(i + 1);
  }

  /** `matchbracketclass`, for the set that begins at `i` and whose bracket closes at `ec`. */
  method MatchBracketClass(c: char, p: string, i: nat, ec: nat) returns (r: bool)
    ensures r == MatchSet(c, p, i, ec)
  {
    var sig, j := true, i;
    if At(p, j + 1) == '^' {
      sig := false;
      j := j + 1;
    }
    j := j + 1;
    ghost var j0 := j;
    while j < ec
      invariant InSet(c, p, j, ec) == InSet(c, p, j0, ec)
      decreases ec - j
    {
      if At(p, j) == L_ESC {
        j := j + 1;
        if MatchClass(c, At(p, j)) {
          return sig;
        }
      } else if At(p, j + 1) == '-' && j + 2 < ec {
        j := j + 2;
        if At(p, j - 2) <= c <= At(p, j) {
          return sig;
        }
      } else if At(p, j) == c {
        return sig;
      }
      j := j + 1;
    }
    r := !sig;
  }

  method SingleMatchOf(c: char, p: string, i: nat, ep: nat) returns (r: bool)
    requires ep > 0
    ensures r == SingleMatch(c, p, i, ep)
  {
    if At(p, i) == '[' {
      r := MatchBracketClass(c, p, i, ep - 1);
    } else {
      r := SingleMatch(c, p, i, ep);
    }
  }

  method MatchBalance(src: string, s0: nat, b: char, e: char) returns (r: Option<nat>)
    requires b != '\0'
    ensures r == Balance(src, s0, b, e)
  {
    if At(src, s0) != b {
      return None;
    }
    var s, cont := s0 + 1, 1;
    while s < |src|
      invariant cont > 0 && BalanceEnd(src, s, b, e, cont) == BalanceEnd(src, s0 + 1, b, e, 1)
      decreases |src| - s
    {
      if src[s] == e {
        cont := cont - 1;
        if cont == 0 {
          return Some(s + 1);
        }
      } else if src[s] == b {
        cont := cont + 1;
      }
      s := s + 1;
    }
    r := None;
  }

  class MatchState {
    const src: string
    const p: string
    var level: nat
    const capture: array<Cap>

    constructor (src: string, p: string)
      ensures Valid() && this.src == src && this.p == p && level == 0 && fresh(capture)
    {
      this.src, this.p, level := src, p, 0;
      capture := new Cap[MAXCAPTURES](_ => Cap(0, 0));
    }

    ghost predicate Valid()
      reads this
    {
      capture.Length == 32 && level <= 32
    }

    ghost function Caps(): seq<Cap>
      requires Valid()
      reads this, capture
    {
      capture[..level]
    }

    /** A result of the imperative search is that of the specification; a failed match has undone its captures. */
    ghost predicate Agrees(r: Ptr, first: Res, caps: seq<Cap>)
      requires Valid()
      reads this, capture
    {
      match first
      case Err => r == Error
      case No => r == Null && Caps() == caps
      case Yes(e, c) => r == End(e) && Caps() == c
    }

    /** `match`, for the pattern from `i0` on. */
    method Match(s0: nat, i0: nat) returns (r: Ptr)
      requires Valid() && s0 <= |src| && CapsOk(Caps(), s0)
      modifies this, capture
      ensures Valid() && Agrees(r, First(src, p, i0, s0, old(Caps())), old(Caps()))
      decreases |p| - i0, 0
    {
      var s, i := s0, i0;
      while true
        invariant i0 <= i && s0 <= s <= |src| && Valid() && Caps() == old(Caps()) && CapsOk(Caps(), s)
        invariant First(src, p, i, s, Caps()) == First(src, p, i0, s0, old(Caps()))
        decreases |p| - i
      {
        if IsEnd(p, i) {
          return End(s);
        }
        if p[i] == '(' {
          if At(p, i + 1) == ')' {
            r := StartCapture(s, i + 2, CAP_POSITION);
          } else {
            r := StartCapture(s, i + 1, CAP_UNFINISHED);
          }
          return;
        }
        if p[i] == ')' {
          r := EndCapture(s, i + 1);
          return;
        }
        if IsAnchor(p, i) {
          return if s == |src| then End(s) else Null;
        }
        var done;
        if IsItem(p, i) {
          done, r, s, i := MatchItem(s, i);
        } else {
          done, r, s, i := MatchEscape(s, i);
        }
        if done {
          return;
        }
      }
    }

    /** The cases `%b`, `%f` and `%1` to `%9` of `match`; unless it is done, the match goes on at the new `s` and `i`. */
    method MatchEscape(s: nat, i: nat) returns (done: bool, r: Ptr, s': nat, i': nat)
      requires Valid() && s <= |src| && CapsOk(Caps(), s) && i < |p| && p[i] == L_ESC && !IsItem(p, i) && !IsEnd(p, i) && !IsAnchor(p, i)
      ensures done ==> Agrees(r, First(src, p, i, s, Caps()), Caps())
      ensures !done ==> i < i' <= |p| && s <= s' <= |src| && First(src, p, i', s', Caps()) == First(src, p, i, s, Caps())
    {
      done, r, s', i' := true, Error, s, i;
      if At(p, i + 1) == 'b' {
        if At(p, i + 2) == '\0' || At(p, i + 3) == '\0' {
          return;
        }
        var m := MatchBalance(src, s, At(p, i + 2), At(p, i + 3));
        if m.None? {
          r := Null;
          return;
        }
        done, s', i' := false, m.value, i + 4;
      } else if At(p, i + 1) == 'f' {
        if At(p, i + 2) != '[' {
          return;
        }
        var ep := ClassEndOf(p, i + 2);
        if ep.None? {
          return;
        }
        var before := MatchBracketClass(At(src, s - 1), p, i + 2, ep.value - 1);
        var at := MatchBracketClass(At(src, s), p, i + 2, ep.value - 1);
        if before || !at {
          r := Null;
          return;
        }
        done, i' := false, ep.value;
      } else {
        var l := CheckCapture(At(p, i + 1));
        if l < 0 {
          return;
        }
        var m := BackRef(src, s, capture[l]);
        if m.None? {
          r := Null;
          return;
        }
        done, s', i' := false, m.value, i + 2;
      }
    }

    /** The last case of `match`: an item with its suffix. */
    method MatchItem(s: nat, i: nat) returns (done: bool, r: Ptr, s': nat, i': nat)
      requires Valid() && s <= |src| && CapsOk(Caps(), s) && i < |p| && IsItem(p, i)
      modifies this, capture
      ensures Valid()
      ensures done ==> Agrees(r, First(src, p, i, s, old(Caps())), old(Caps()))
      ensures !done ==> i < i' <= |p| && s <= s' <= |src| && Caps() == old(Caps())
      ensures !done ==> First(src, p, i', s', old(Caps())) == First(src, p, i, s, old(Caps()))
      decreases |p| - (i + 1), 3
    {
      done, r, s', i' := true, Error, s, i;
      var end := ClassEndOf(p, i);
      if end.None? {
        return;
      }
      var ep := end.value;
      var m := false;
      if s < |src| {
        m := SingleMatchOf(src[s], p, i, ep);
      }
      if At(p, ep) == '?' {
        if m {
          r := Match(s + 1, ep + 1);
          if r != Null {
            return;
          }
        }
        done, i' := false, ep + 1;
      } else if At(p, ep) == '*' {
        r := MaxExpand(s, i, ep);
      } else if At(p, ep) == '+' {
        if m {
          r := MaxExpand(s + 1, i, ep);
        } else {
          r := Null;
        }
      } else if At(p, ep) == '-' {
        r := MinExpand(s, i, ep);
      } else if m {
        done, s', i' := false, s + 1, ep;
      } else {
        r := Null;
      }
    }

    method MaxExpand(s: nat, i: nat, ep: nat) returns (r: Ptr)
      requires Valid() && s <= |src| && CapsOk(Caps(), s) && 0 < ep < |p|
      modifies this, capture
      ensures Valid() && Agrees(r, Longest(src, p, ep + 1, s, Run(src, s, p, i, ep), old(Caps())), old(Caps()))
      decreases |p| - (ep + 1), 2
    {
      hide First, ClassEnd;
      var n := 0;
      while true
        invariant 0 <= n && s + n <= |src| && Run(src, s, p, i, ep) == n + Run(src, s + n, p, i, ep)
        invariant Valid() && Caps() == old(Caps())
        decreases |src| - (s + n)
      {
        if s + n >= |src| {
          break;
        }
        var m := SingleMatchOf(src[s + n], p, i, ep);
        if !m {
          break;
        }
        n := n + 1;
      }
      while n >= 0
        invariant -1 <= n && s + n <= |src| && Valid() && Caps() == old(Caps())
        invariant Longest(src, p, ep + 1, s, Run(src, s, p, i, ep), old(Caps())) == if n < 0 then No else Longest(src, p, ep + 1, s, n, old(Caps()))
        decreases n
      {
        r := Match(s + n, ep + 1);
        if r != Null {
          return;
        }
        n := n - 1;
      }
      r := Null;
    }

    method MinExpand(s0: nat, i: nat, ep: nat) returns (r: Ptr)
      requires Valid() && s0 <= |src| && CapsOk(Caps(), s0) && 0 < ep < |p|
      modifies this, capture
      ensures Valid() && Agrees(r, Shortest(src, p, i, ep, s0, old(Caps())), old(Caps()))
      decreases |p| - (ep + 1), 2
    {
      var s := s0;
      while true
        invariant s0 <= s <= |src| && Valid() && Caps() == old(Caps())
        invariant Shortest(src, p, i, ep, s, old(Caps())) == Shortest(src, p, i, ep, s0, old(Caps()))
        decreases |src| - s
      {
        r := Match(s, ep + 1);
        if r != Null {
          return;
        }
        var m := false;
        if s < |src| {
          m := SingleMatchOf(src[s], p, i, ep);
        }
        if !m {
          return Null;
        }
        s := s + 1;
      }
    }

    /** `start_capture`, for a capture that begins at `s` and a rest of the pattern that begins at `k`. */
    method StartCapture(s: nat, k: nat, what: int) returns (r: Ptr)
      requires Valid() && s <= |src| && CapsOk(Caps(), s) && (what == CAP_POSITION || what == CAP_UNFINISHED)
      modifies this, capture
      ensures Valid()
      ensures old(level) >= 32 ==> r == Error
      ensures old(level) < 32 ==> Agrees(r, First(src, p, k, s, old(Caps()) + [Cap(s, what)]), old(Caps()))
      decreases |p| - k, 1
    {
      if level >= MAXCAPTURES {
        return Error;
      }
      capture[level] := Cap(s, what);
      level := level + 1;
      assert Caps() == old(Caps()) + [Cap(s, what)];
      r := Match(s, k);
      if r == Null {
        level := level - 1;
        assert Caps() == old(Caps()) by { assert Caps() == (old(Caps()) + [Cap(s, what)])[..old(level)]; }
      }
    }

    method EndCapture(s: nat, k: nat) returns (r: Ptr)
      requires Valid() && s <= |src| && CapsOk(Caps(), s)
      modifies this, capture
      ensures Valid()
      ensures ToClose(old(Caps())) < 0 ==> r == Error
      ensures ToClose(old(Caps())) >= 0 ==> Agrees(r, First(src, p, k, s, Closed(old(Caps()), ToClose(old(Caps())), s)), old(Caps()))
      decreases |p| - k, 1
    {
      var l := CaptureToClose();
      if l < 0 {
        return Error;
      }
      capture[l] := Cap(capture[l].init, s - capture[l].init);
      assert Caps() == Closed(old(Caps()), l, s);
      r := Match(s, k);
      if r == Null {
        assert capture[l] == Caps()[l];
        capture[l] := Cap(capture[l].init, CAP_UNFINISHED);
        assert Caps() == Closed(old(Caps()), l, s)[l := old(Caps())[l]] == old(Caps());
      }
    }

    method CaptureToClose() returns (l: int)
      requires Valid()
      ensures l == ToClose(Caps())
    {
      l := level - 1;
      while l >= 0
        invariant -1 <= l < level && ToClose(Caps()) == ToClose(Caps()[..l + 1])
      {
        assert Caps()[..l + 1][..l] == Caps()[..l];
        if capture[l].len == CAP_UNFINISHED {
          return;
        }
        l := l - 1;
      }
    }

    method CheckCapture(d: char) returns (l: int)
      requires Valid()
      ensures l == CaptureIndex(Caps(), d)
    {
      l := d as int - '1' as int;
      if l < 0 || l >= level || capture[l].len == CAP_UNFINISHED {
        l := -1;
      }
    }
  }

  // ---------------------------------------------------------------- searching a subject

  /** The match at `s` from no captures. */
  function MatchAt(src: string, p: string, s: nat): Res
    requires s <= |src|
  {
    First(src, p, 0, s, [])
  }

  /** The search loop of `string.find` and `string.match`, from `init` on: the leftmost match. */
  method FindAux(src: string, p: string, init: nat, anchor: bool) returns (r: Ptr, s1: nat, caps: seq<Cap>)
    requires init <= |src|
    ensures r.End? ==> init <= s1 <= |src| && MatchAt(src, p, s1) == Yes(r.e, caps)
    ensures r.Error? ==> init <= s1 <= |src| && MatchAt(src, p, s1) == Err
    ensures !r.Null? ==> (anchor ==> s1 == init) && forall s :: init <= s < s1 ==> MatchAt(src, p, s) == No
    ensures r.Null? ==> forall s :: init <= s <= (if anchor then init else |src|) ==> MatchAt(src, p, s) == No
  {
    var ms := new MatchState(src, p);
    s1, caps := init, [];
    while true
      invariant ms.Valid() && ms.src == src && ms.p == p && fresh(ms) && fresh(ms.capture)
      invariant init <= s1 <= |src| && (anchor ==> s1 == init)
      invariant forall s :: init <= s < s1 ==> MatchAt(src, p, s) == No
      decreases |src| - s1
    {
      ms.level := 0;
      assert ms.Caps() == [];
      r := ms.Match(s1, 0);
      if r != Null {
        caps := ms.capture[..ms.level];
        return;
      }
      if s1 >= |src| || anchor {
        return;
      }
      s1 := s1 + 1;
    }
  }

  // ---------------------------------------------------------------- string.gsub

  /** One substitution: the span that matched, and its captures. */
  datatype Cut = Cut(start: nat, end: nat, caps: seq<Cap>)

  /** What takes the place of a match: the third argument of `gsub`. */
  type Replacement = Cut -> string

  /** The cuts are matches from position `s` on, in order and without overlap, and end by `e`. */
  ghost predicate Ordered(src: string, p: string, s: nat, cuts: seq<Cut>, e: nat) {
    && s <= e <= |src|
    && (forall k :: 0 <= k < |cuts| ==> s <= cuts[k].start <= cuts[k].end <= e && MatchAt(src, p, cuts[k].start) == Yes(cuts[k].end, cuts[k].caps))
    && forall j, k :: 0 <= j < k < |cuts| ==> cuts[j].end <= cuts[k].start && cuts[j].start < cuts[k].start
  }

  /** The text up to `e` with the cuts replaced. */
  function Assemble(src: string, cuts: seq<Cut>, e: nat, repl: Replacement): string
    decreases |cuts|
  {
    if cuts == [] then Text(src, 0, e)
    else
      var c := cuts[|cuts| - 1];
      Assemble(src, cuts[..|cuts| - 1], c.start, repl) + repl(c) + Text(src, c.end, e)
  }

  function Text(src: string, i: nat, j: nat): string {
    if i <= j <= |src| then src[i..j] else ""
  }

  /** Position `t` does not begin, and does not lie inside, any cut. */
  ghost predicate Uncut(cuts: seq<Cut>, t: nat) {
    forall k :: 0 <= k < |cuts| ==> t < cuts[k].start || (t >= cuts[k].end && t != cuts[k].start)
  }

  /** All positions before `t0` are scanned: those outside the cuts do not match. */
  ghost predicate Scanned(src: string, p: string, cuts: seq<Cut>, t0: nat) {
    forall t: nat :: t < t0 && t <= |src| && Uncut(cuts, t) ==> MatchAt(src, p, t) == No
  }

  /** The cuts begin before `s`: a match of no characters is cut once. */
  ghost predicate Behind(cuts: seq<Cut>, s: nat) {
    forall k :: 0 <= k < |cuts| ==> cuts[k].start < s
  }

  ghost function LastEnd(cuts: seq<Cut>): nat {
    if cuts == [] then 0 else cuts[|cuts| - 1].end
  }

  /** The subject is rewritten up to `s`. */
  ghost predicate Progress(src: string, p: string, s: nat, cuts: seq<Cut>, b: string, repl: Replacement) {
    Ordered(src, p, 0, cuts, s) && b == Assemble(src, cuts, s, repl) && Scanned(src, p, cuts, s)
  }

  method Gsub(src: string, p: string, anchor: bool, maxS: int, repl: Replacement) returns (ok: bool, b: string, n: int, ghost cuts: seq<Cut>)
    ensures !ok ==> exists t: nat :: t <= |src| && MatchAt(src, p, t) == Err
    ensures ok ==> Ordered(src, p, 0, cuts, |src|) && b == Assemble(src, cuts, |src|, repl)
    ensures ok ==> n == |cuts| && (n <= maxS || n == 0) && (anchor ==> n <= 1)
    ensures ok ==> Scanned(src, p, cuts, if n < maxS && !anchor then |src| + 1 else LastEnd(cuts))
    ensures ok && anchor && 0 < maxS ==> if n == 0 then MatchAt(src, p, 0) == No else cuts[0].start == 0
  {
    hide *;
    var s := 0;
    ok, b, n, cuts := true, "", 0, [];
    ghost var seen := false;
    NoProgress(src, p, repl);
    while n < maxS
      invariant 0 <= s <= |src| && n == |cuts| && (n <= maxS || n == 0) && (anchor ==> n == 0 && s == 0)
      invariant Progress(src, p, s, cuts, b, repl) && Behind(cuts, s) && !seen
      decreases |src| - s
    {
      var r, caps := MatchFrom(src, p, s);
      if r == Error {
        ok := false;
        return;
      }
      if r != Null {
        n := n + 1;
        CutAt(src, p, s, cuts, b, r.e, caps, repl);
        cuts := cuts + [Cut(s, r.e, caps)];
        b := b + repl(Cut(s, r.e, caps));
      } else {
        SkipAt(src, p, s, cuts, b, repl);
      }
      if r != Null && r.e > s {
        s := r.e;
      } else if s < |src| {
        CopyAt(src, p, s, cuts, b, repl);
        b := b + [src[s]];
        s := s + 1;
      } else {
        seen := true;
        break;
      }
      if anchor {
        break;
      }
    }
    Finish(src, p, s, cuts, b, repl);
    b := b + src[s..];
  }

  /** `ms.level = 0` and a match at `s`. */
  method MatchFrom(src: string, p: string, s: nat) returns (r: Ptr, caps: seq<Cap>)
    requires s <= |src|
    ensures r == Error ==> MatchAt(src, p, s) == Err && exists t: nat :: t <= |src| && MatchAt(src, p, t) == Err
    ensures r == Null ==> MatchAt(src, p, s) == No
    ensures r.End? ==> MatchAt(src, p, s) == Yes(r.e, caps) && s <= r.e <= |src|
  {
    var ms := new MatchState(src, p);
    assert ms.Caps() == [];
    r := ms.Match(s, 0);
    caps := if r.End? then ms.capture[..ms.level] else [];
  }

  lemma NoProgress(src: string, p: string, repl: Replacement)
    ensures Progress(src, p, 0, [], "", repl) && Behind([], 0)
  {
  }

  lemma {:induction false} CutAt(src: string, p: string, s: nat, cuts: seq<Cut>, b: string, e: nat, caps: seq<Cap>, repl: Replacement)
    requires Progress(src, p, s, cuts, b, repl) && Behind(cuts, s)
    requires MatchAt(src, p, s) == Yes(e, caps) && s <= e <= |src|
    ensures var c := Cut(s, e, caps); Progress(src, p, e, cuts + [c], b + repl(c), repl)
    ensures var c := Cut(s, e, caps); Scanned(src, p, cuts + [c], s + 1) && Behind(cuts + [c], if e > s then e else s + 1)
  {
    hide *;
    var c := Cut(s, e, caps);
    Parts(src, p, s, cuts, b, repl);
    CutOrdered(src, p, s, cuts, c);
    CutText(src, cuts, c, repl);
    CutScans(src, p, s, cuts, c, e);
    CutScans(src, p, s, cuts, c, s + 1);
    Whole(src, p, e, cuts + [c], b + repl(c), repl);
  }

  lemma Parts(src: string, p: string, s: nat, cuts: seq<Cut>, b: string, repl: Replacement)
    requires Progress(src, p, s, cuts, b, repl)
    ensures Ordered(src, p, 0, cuts, s) && b == Assemble(src, cuts, s, repl) && Scanned(src, p, cuts, s)
  {
  }

  lemma Whole(src: string, p: string, s: nat, cuts: seq<Cut>, b: string, repl: Replacement)
    requires Ordered(src, p, 0, cuts, s) && b == Assemble(src, cuts, s, repl) && Scanned(src, p, cuts, s)
    ensures Progress(src, p, s, cuts, b, repl)
  {
  }

  lemma CutOrdered(src: string, p: string, s: nat, cuts: seq<Cut>, c: Cut)
    requires Ordered(src, p, 0, cuts, s) && Behind(cuts, s)
    requires c.start == s <= c.end <= |src| && MatchAt(src, p, s) == Yes(c.end, c.caps)
    ensures Ordered(src, p, 0, cuts + [c], c.end) && Behind(cuts + [c], if c.end > s then c.end else s + 1)
  {
    hide First;
  }

  lemma {:induction false} CutText(src: string, cuts: seq<Cut>, c: Cut, repl: Replacement)
    ensures Assemble(src, cuts + [c], c.end, repl) == Assemble(src, cuts, c.start, repl) + repl(c)
  {
    assert (cuts + [c])[..|cuts|] == cuts && Text(src, c.end, c.end) == "";
  }

  /** What is not cut with one more cut was not cut before, and lies before the cut. */
  lemma CutScans(src: string, p: string, s: nat, cuts: seq<Cut>, c: Cut, t0: nat)
    requires Scanned(src, p, cuts, s) && c.start == s <= c.end && (t0 <= c.end || t0 == s + 1)
    ensures Scanned(src, p, cuts + [c], t0)
  {
    var cuts' := cuts + [c];
    forall t: nat | t < t0 && Uncut(cuts', t)
      ensures t < s && Uncut(cuts, t)
    {
      assert cuts'[|cuts|] == c;
      assert forall k :: 0 <= k < |cuts| ==> cuts'[k] == cuts[k];
    }
  }

  lemma SkipAt(src: string, p: string, s: nat, cuts: seq<Cut>, b: string, repl: Replacement)
    requires Progress(src, p, s, cuts, b, repl) && Behind(cuts, s) && MatchAt(src, p, s) == No
    ensures Scanned(src, p, cuts, s + 1) && Behind(cuts, s + 1)
  {
  }

  lemma {:induction false} CopyAt(src: string, p: string, s: nat, cuts: seq<Cut>, b: string, repl: Replacement)
    requires Progress(src, p, s, cuts, b, repl) && Scanned(src, p, cuts, s + 1) && s < |src|
    ensures Progress(src, p, s + 1, cuts, b + [src[s]], repl)
  {
    CopyOne(src, cuts, s, repl);
  }

  lemma {:induction false} Finish(src: string, p: string, s: nat, cuts: seq<Cut>, b: string, repl: Replacement)
    requires Progress(src, p, s, cuts, b, repl)
    ensures Ordered(src, p, 0, cuts, |src|) && b + src[s..] == Assemble(src, cuts, |src|, repl)
    ensures Scanned(src, p, cuts, LastEnd(cuts))
  {
    CopyRest(src, cuts, s, repl);
  }

  lemma {:induction false} CopyOne(src: string, cuts: seq<Cut>, e: nat, repl: Replacement)
    requires e < |src| && forall k :: 0 <= k < |cuts| ==> cuts[k].start <= cuts[k].end <= e
    ensures Assemble(src, cuts, e + 1, repl) == Assemble(src, cuts, e, repl) + [src[e]]
  {
    var i := if cuts == [] then 0 else cuts[|cuts| - 1].end;
    assert Text(src, i, e + 1) == Text(src, i, e) + [src[e]];
  }

  lemma {:induction false} CopyRest(src: string, cuts: seq<Cut>, e: nat, repl: Replacement)
    requires e <= |src| && forall k :: 0 <= k < |cuts| ==> cuts[k].start <= cuts[k].end <= e
    ensures Assemble(src, cuts, |src|, repl) == Assemble(src, cuts, e, repl) + src[e..]
  {
    var i := if cuts == [] then 0 else cuts[|cuts| - 1].end;
    assert Text(src, i, |src|) == Text(src, i, e) + src[e..];
  }

  /** Everything outside the matches is copied once and in order: replacing each match by itself gives the subject back. */
  lemma {:induction false} SelfReplacement(src: string, cuts: seq<Cut>, e: nat, repl: Replacement)
    requires e <= |src| && (forall k :: 0 <= k < |cuts| ==> cuts[k].start <= cuts[k].end <= e)
    requires forall j, k :: 0 <= j < k < |cuts| ==> cuts[j].end <= cuts[k].start
    requires forall k :: 0 <= k < |cuts| ==> repl(cuts[k]) == src[cuts[k].start..cuts[k].end]
    ensures Assemble(src, cuts, e, repl) == src[..e]
    decreases |cuts|
  {
    if cuts == [] {
      assert Text(src, 0, e) == src[..e];
    } else {
      var c := cuts[|cuts| - 1];
      assert forall k :: 0 <= k < |cuts| - 1 ==> cuts[k].end <= c.start;
      SelfReplacement(src, cuts[..|cuts| - 1], c.start, repl);
      assert Assemble(src, cuts, e, repl) == src[..c.start] + src[c.start..c.end] + Text(src, c.end, e);
      hide Assemble;
      Join(src, c.start, c.end, e);
    }
  }

  lemma Join(src: string, i: nat, j: nat, e: nat)
    requires i <= j <= e <= |src|
    ensures src[..i] + src[i..j] + Text(src, j, e) == src[..e]
  {
  }
}
