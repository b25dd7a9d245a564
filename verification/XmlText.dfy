/** Searching and escaping in adchpp/SimpleXML.cpp. */
module XmlText {
  import opened Basics

  const NPOS := -1

  /** `find` of a character, from position `i` on. */
  function Find(s: string, c: char, i: nat): (j: int)
    ensures j == NPOS || (i <= j < |s| && s[j] == c)
    decreases |s| - i
  {
    if i >= |s| then NPOS else if s[i] == c then i else Find(s, c, i + 1)
  }

  /** `find_first_of`. */
  function FindAny(s: string, set_: string, i: nat): (j: int)
    ensures j == NPOS || (i <= j < |s| && s[j] in set_)
    decreases |s| - i
  {
    if i >= |s| then NPOS else if s[i] in set_ then i else FindAny(s, set_, i + 1)
  }

  /** `find_first_not_of`. */
  function FindNot(s: string, set_: string, i: nat): (j: int)
    ensures j == NPOS || (i <= j < |s| && s[j] !in set_)
    decreases |s| - i
  {
    if i >= |s| then NPOS else if s[i] !in set_ then i else FindNot(s, set_, i + 1)
  }

  /** `compare(i, |p|, p) == 0`. */
  predicate Starts(s: string, i: nat, p: string) {
    i + |p| <= |s| && s[i..i + |p|] == p
  }

  /** `find` of a string. */
  function FindText(s: string, p: string, i: nat): (j: int)
    ensures j == NPOS || (i <= j && Starts(s, j, p))
    ensures forall k: nat :: i <= k < |s| && (j == NPOS || k < j) ==> !Starts(s, k, p)
    decreases |s| - i
  {
    if i >= |s| then NPOS else if Starts(s, i, p) then i else FindText(s, p, i + 1)
  }

  // ---------------------------------------------------------------- positions in a text that is known from `i` on

  /** The first `c` behind a text without it. */
  lemma {:induction false} FindSkips(s: string, c: char, i: nat, a: string)
    requires Reads(s, i, a) && c !in a
    ensures Find(s, c, i) == Find(s, c, i + |a|)
    decreases |a|
  {
    if a != "" {
      ReadsAt(s, i, a, 0);
      assert a == [a[0]] + a[1..];
      ReadsParts(s, i, [a[0]], a[1..]);
      FindSkips(s, c, i + 1, a[1..]);
    }
  }

  lemma {:induction false} FindAnySkips(s: string, set_: string, i: nat, a: string)
    requires Reads(s, i, a) && forall c :: c in a ==> c !in set_
    ensures FindAny(s, set_, i) == FindAny(s, set_, i + |a|)
    decreases |a|
  {
    if a != "" {
      ReadsAt(s, i, a, 0);
      assert a == [a[0]] + a[1..];
      ReadsParts(s, i, [a[0]], a[1..]);
      FindAnySkips(s, set_, i + 1, a[1..]);
    }
  }

  // ---------------------------------------------------------------- escaping

  function EscapeChar(c: char, attrib: bool): string {
    if c == '<' then "&lt;" else if c == '&' then "&amp;" else if c == '>' then "&gt;"
    else if attrib && c == '\'' then "&apos;" else if attrib && c == '"' then "&quot;" else [c]
  }

  function Escaped(s: string, attrib: bool): string {
    if s == "" then "" else EscapeChar(s[0], attrib) + Escaped(s[1..], attrib)
  }

  predicate Special(c: char, attrib: bool) {
    c == '<' || c == '>' || (attrib && (c == '\'' || c == '"'))
  }

  lemma EscapeCharIsClean(x: char, attrib: bool, c: char)
    requires Special(c, attrib)
    ensures c !in EscapeChar(x, attrib) && EscapeChar(x, attrib) != ""
  {
  }

  /** Escaped text has no character that would end it, and is empty only for an empty text. */
  lemma {:induction false} EscapedIsClean(s: string, attrib: bool, c: char)
    requires Special(c, attrib)
    ensures c !in Escaped(s, attrib)
    ensures Escaped(s, attrib) == "" <==> s == ""
  {
    hide Special;
    if s != "" {
      EscapeCharIsClean(s[0], attrib, c);
      EscapedIsClean(s[1..], attrib, c);
    }
  }

  /** The entity that begins a text, and the character it stands for: `None` is length 0. */
  function Entity(s: string, attrib: bool): (r: (nat, char))
    ensures r.0 == 0 || (1 < r.0 <= |s| && s[0] == '&')
  {
    if At(s, 0) != '&' then (0, '&')
    else if Starts(s, 1, "lt;") then (4, '<')
    else if Starts(s, 1, "amp;") then (5, '&')
    else if Starts(s, 1, "gt;") then (4, '>')
    else if attrib && Starts(s, 1, "apos;") then (6, '\'')
    else if attrib && Starts(s, 1, "quot;") then (6, '"')
    else (0, '&')
  }

  function Decoded(s: string, attrib: bool): string {
    if s == "" then ""
    else
      var (n, c) := Entity(s, attrib);
      if n > 0 then [c] + Decoded(s[n..], attrib) else [s[0]] + Decoded(s[1..], attrib)
  }

  lemma StartsBehind(c: char, p: string, rest: string)
    ensures Starts([c] + p + rest, 1, p)
  {
    assert ([c] + p + rest)[1..1 + |p|] == p;
  }

  lemma StartsDiffers(s: string, i: nat, p: string, k: nat)
    requires k < |p| && i + k < |s| && s[i + k] != p[k]
    ensures !Starts(s, i, p)
  {
    assert i + |p| <= |s| ==> s[i..i + |p|][k] == s[i + k];
  }

  lemma EntityOf(c: char, attrib: bool, rest: string)
    ensures var e := EscapeChar(c, attrib);
            if |e| > 1 then Entity(e + rest, attrib) == (|e|, c) else e == [c] && Entity(e + rest, attrib).0 == 0
  {
    hide Starts;
    var e := EscapeChar(c, attrib);
    var s := e + rest;
    if |e| == 1 { assert s[0] == c; }
    else {
      assert e == ['&'] + e[1..];
      StartsBehind('&', e[1..], rest);
      if c == '<' { assert e[1..] == "lt;"; }
      else if c == '&' { assert e[1..] == "amp;"; StartsDiffers(s, 1, "lt;", 0); }
      else if c == '>' { assert e[1..] == "gt;"; StartsDiffers(s, 1, "lt;", 0); StartsDiffers(s, 1, "amp;", 0); }
      else if c == '\'' { assert e[1..] == "apos;"; StartsDiffers(s, 1, "lt;", 0); StartsDiffers(s, 1, "amp;", 1); StartsDiffers(s, 1, "gt;", 0); }
      else {
        assert e[1..] == "quot;";
        StartsDiffers(s, 1, "lt;", 0);
        StartsDiffers(s, 1, "amp;", 0);
        StartsDiffers(s, 1, "gt;", 0);
        StartsDiffers(s, 1, "apos;", 0);
      }
    }
  }

  /** Decoding undoes escaping. */
  lemma {:induction false} DecodeEscaped(s: string, attrib: bool)
    ensures Decoded(Escaped(s, attrib), attrib) == s
  {
    if s != "" {
      var e, rest := EscapeChar(s[0], attrib), Escaped(s[1..], attrib);
      EntityOf(s[0], attrib, rest);
      DecodeEscaped(s[1..], attrib);
      assert (e + rest)[|e|..] == rest;
      assert s == [s[0]] + s[1..];
    }
  }

  // ---------------------------------------------------------------- newlines

  /** Carriage returns before newlines, as the conversion loop of `escape` inserts them from position `i` on. */
  function AddCr(s: string, i: nat): string
    decreases |s| - i
  {
    var j := Find(s, '\n', i);
    if j == NPOS then s
    else if At(s, j - 1) != '\r' then AddCr(s[..j] + ['\r'] + s[j..], j + 2)
    else AddCr(s, j + 2)
  }

  /** The first newline decides: if it is not at the beginning and has no carriage return, all such newlines are converted. */
  function Crlf(s: string): string {
    var j := Find(s, '\n', 0);
    if j > 0 && At(s, j - 1) != '\r' then AddCr(s, 0) else s
  }

  /** What loading makes of a text. */
  function Loaded(s: string, attrib: bool): string {
    Crlf(Decoded(s, attrib))
  }

  /** No newline, or the first one stands at the beginning or behind a carriage return. */
  predicate Stable(s: string) {
    var j := Find(s, '\n', 0);
    j <= 0 || s[j - 1] == '\r'
  }

  lemma {:induction false} AddCrGrows(s: string, i: nat)
    ensures |AddCr(s, i)| >= |s|
    decreases |s| - i
  {
    var j := Find(s, '\n', i);
    if j != NPOS {
      if At(s, j - 1) != '\r' { AddCrGrows(s[..j] + ['\r'] + s[j..], j + 2); } else { AddCrGrows(s, j + 2); }
    }
  }

  lemma {:induction false} AddCrKeeps(s: string, i: nat)
    requires i <= |s|
    ensures |AddCr(s, i)| >= |s| && AddCr(s, i)[..i] == s[..i]
    decreases |s| - i
  {
    var j := Find(s, '\n', i);
    if j != NPOS {
      var t := if At(s, j - 1) != '\r' then s[..j] + ['\r'] + s[j..] else s;
      assert t[..j] == s[..j];
      if j + 2 <= |t| {
        AddCrKeeps(t, j + 2);
        assert AddCr(s, i)[..i] == AddCr(s, i)[..j + 2][..i] == t[..j + 2][..i] == t[..j][..i];
      } else {
        assert Find(t, '\n', j + 2) == NPOS;
      }
    }
  }

  lemma {:induction false} FindFirst(s: string, c: char, i: nat, k: nat)
    requires i <= k < |s| && s[k] == c && forall m :: i <= m < k ==> s[m] != c
    ensures Find(s, c, i) == k
    decreases k - i
  {
    if i < k { FindFirst(s, c, i + 1, k); }
  }

  lemma {:induction false} FindTells(s: string, c: char, i: nat, k: nat)
    requires i <= k < |s| && Find(s, c, i) > k
    ensures s[k] != c
    decreases k - i
  {
    if i < k { FindTells(s, c, i + 1, k); }
  }

  /** The first newline of a converted text stands behind a carriage return. */
  lemma ConvertedIsStable(d: string, j: nat)
    requires Find(d, '\n', 0) == j && j > 0 && At(d, j - 1) != '\r'
    ensures Stable(AddCr(d, 0))
  {
    var t := d[..j] + ['\r'] + d[j..];
    AddCrKeeps(t, j + 2);
    var r := AddCr(d, 0);
    assert r[..j + 2] == t[..j + 2];
    hide AddCr, At, Find;
    forall m | 0 <= m < j + 1 ensures r[m] != '\n' {
      assert r[m] == r[..j + 2][m] == t[m];
      if m < j { FindTells(d, '\n', 0, m); }
    }
    assert r[j] == r[..j + 2][j] == '\r' && r[j + 1] == r[..j + 2][j + 1] == '\n';
    FindFirst(r, '\n', 0, j + 1);
  }

  /** Whatever is loaded stays as it is from then on. */
  lemma LoadedIsStable(s: string, attrib: bool)
    ensures Stable(Loaded(s, attrib))
  {
    hide Decoded, AddCr;
    var d := Decoded(s, attrib);
    var j := Find(d, '\n', 0);
    if j > 0 && At(d, j - 1) != '\r' { ConvertedIsStable(d, j); }
  }

  /** A value survives printing and loading exactly when it is stable. */
  lemma ValueRoundTrip(s: string, attrib: bool)
    ensures Loaded(Escaped(s, attrib), attrib) == s <==> Stable(s)
  {
    DecodeEscaped(s, attrib);
    var j := Find(s, '\n', 0);
    if !Stable(s) { AddCrGrows(s[..j] + ['\r'] + s[j..], j + 2); }
  }

  /** Without newlines every value survives; with a bare newline behind some text it does not. */
  lemma BareNewlineIsLost()
    ensures Loaded(Escaped("a\nb", false), false) != "a\nb"
  {
    assert Find("a\nb", '\n', 0) == 1;
    ValueRoundTrip("a\nb", false);
  }

  // ---------------------------------------------------------------- the loops of `escape`

  function Chars(attrib: bool): string {
    if attrib then "<&>'\"" else "<&>"
  }

  lemma PlainChar(c: char, attrib: bool)
    requires c !in Chars(attrib)
    ensures EscapeChar(c, attrib) == [c]
  {
    var s := Chars(attrib);
    assert s[0] == '<' && s[1] == '&' && s[2] == '>';
    assert attrib ==> s[3] == '\'' && s[4] == '"';
  }

  /** Characters before the next special one stay. */
  lemma {:induction false} Untouched(s: string, i: nat, j: nat, attrib: bool)
    requires i <= j <= |s|
    requires FindAny(s, Chars(attrib), i) == NPOS || FindAny(s, Chars(attrib), i) >= j
    ensures Escaped(s[i..], attrib) == s[i..j] + Escaped(s[j..], attrib)
    decreases j - i
  {
    hide Chars, EscapeChar;
    if i < j {
      PlainChar(s[i], attrib);
      Untouched(s, i + 1, j, attrib);
      assert s[i..][1..] == s[i + 1..] && s[i..j] == [s[i]] + s[i + 1..j];
    } else {
      assert s[i..j] == "";
    }
  }

  lemma EscapeNext(s: string, i: nat, j: nat, attrib: bool)
    requires i <= j < |s| && FindAny(s, Chars(attrib), i) == j
    ensures Escaped(s[i..], attrib) == s[i..j] + EscapeChar(s[j], attrib) + Escaped(s[j + 1..], attrib)
  {
    hide Chars, EscapeChar;
    Untouched(s, i, j, attrib);
    assert s[j..][1..] == s[j + 1..];
    assert s[i..j] + (EscapeChar(s[j], attrib) + Escaped(s[j + 1..], attrib)) == s[i..j] + EscapeChar(s[j], attrib) + Escaped(s[j + 1..], attrib);
  }

  lemma AllDone(s: string, i: nat, attrib: bool)
    requires i <= |s| && Escaped(s[i..], attrib) == s[i..|s|] + Escaped(s[|s|..], attrib)
    ensures s[..i] + Escaped(s[i..], attrib) == s
  {
  }

  lemma Replaced(s: string, i: nat, j: nat, e: string, n: nat)
    requires i <= j && j + n <= |s|
    ensures var t := s[..j] + e + s[j + n..];
            t[j + |e|..] == s[j + n..] && t[..j + |e|] == s[..i] + s[i..j] + e
  {
  }

  method EscapeSaving(text: string, attrib: bool) returns (s: string)
    ensures s == Escaped(text, attrib)
  {
    hide *;
    s := text;
    var i := 0;
    assert s[..0] + Escaped(s[0..], attrib) == Escaped(text, attrib) by { assert s[0..] == s; }
    while true
      invariant 0 <= i <= |s|
      invariant s[..i] + Escaped(s[i..], attrib) == Escaped(text, attrib)
      decreases |s| - i
    {
      var j := FindAny(s, Chars(attrib), i);
      if j == NPOS {
        Untouched(s, i, |s|, attrib);
        AllDone(s, i, attrib);
        return;
      }
      EscapeNext(s, i, j, attrib);
      var e := EscapeChar(s[j], attrib);
      Replaced(s, i, j, e, 1);
      s := s[..j] + e + s[j + 1..];
      i := j + |e|;
    }
  }

  // ---------------------------------------------------------------- loading

  lemma StartsBehindCut(s: string, j: nat, k: nat, p: string)
    requires j <= |s|
    ensures Starts(s[j..], k, p) == Starts(s, j + k, p)
  {
    if j + k + |p| <= |s| { assert s[j..][k..k + |p|] == s[j + k..j + k + |p|]; }
  }

  /** The entity at position `j`. */
  lemma EntityAt(s: string, j: nat, attrib: bool)
    requires j < |s| && s[j] == '&'
    ensures Entity(s[j..], attrib) ==
            if Starts(s, j + 1, "lt;") then (4, '<')
            else if Starts(s, j + 1, "amp;") then (5, '&')
            else if Starts(s, j + 1, "gt;") then (4, '>')
            else if attrib && Starts(s, j + 1, "apos;") then (6, '\'')
            else if attrib && Starts(s, j + 1, "quot;") then (6, '"')
            else (0, '&')
  {
    StartsBehindCut(s, j, 1, "lt;");
    StartsBehindCut(s, j, 1, "amp;");
    StartsBehindCut(s, j, 1, "gt;");
    StartsBehindCut(s, j, 1, "apos;");
    StartsBehindCut(s, j, 1, "quot;");
    hide Starts;
  }

  lemma {:induction false} DecodedSkips(s: string, i: nat, j: nat, attrib: bool)
    requires i <= j <= |s|
    requires Find(s, '&', i) == NPOS || Find(s, '&', i) >= j
    ensures Decoded(s[i..], attrib) == s[i..j] + Decoded(s[j..], attrib)
    decreases j - i
  {
    hide Starts;
    if i < j {
      DecodedSkips(s, i + 1, j, attrib);
      assert s[i..][1..] == s[i + 1..] && s[i..j] == [s[i]] + s[i + 1..j];
    } else {
      assert s[i..j] == "";
    }
  }

  lemma Reassociate(a: string, b: string, c: string, d: string)
    ensures a + (b + (c + d)) == a + b + c + d
  {
  }

  lemma DecodedHere(t: string, n: nat, c: char, attrib: bool)
    requires t != "" && 0 < n
    requires (n, c) == Entity(t, attrib) || (n == 1 && c == t[0] && Entity(t, attrib).0 == 0)
    ensures n <= |t| && Decoded(t, attrib) == [c] + Decoded(t[n..], attrib)
  {
    hide Starts;
  }

  /** One turn of the decoding loop: `n` characters at `j` become the character `c`. */
  lemma DecodeNext(s: string, i: nat, j: nat, n: nat, c: char, attrib: bool)
    requires i <= j < |s| && Find(s, '&', i) == j
    requires (n, c) == Entity(s[j..], attrib) || (n == 1 && c == s[j] && Entity(s[j..], attrib).0 == 0)
    requires 0 < n
    ensures j + n <= |s|
    ensures s[..i] + Decoded(s[i..], attrib) == s[..i] + s[i..j] + [c] + Decoded(s[j + n..], attrib)
  {
    hide *;
    DecodedSkips(s, i, j, attrib);
    DecodedHere(s[j..], n, c, attrib);
    assert s[j..][n..] == s[j + n..];
    Reassociate(s[..i], s[i..j], [c], Decoded(s[j + n..], attrib));
  }

  method EscapeLoading(text: string, attrib: bool) returns (s: string)
    ensures s == Loaded(text, attrib)
  {
    s := Decode(text, attrib);
    var i := Find(s, '\n', 0);
    if i != NPOS && i > 0 && s[i - 1] != '\r' {
      s := ConvertNewlines(s);
    }
  }

  /** The first loop. */
  method Decode(text: string, attrib: bool) returns (s: string)
    ensures s == Decoded(text, attrib)
  {
    hide *;
    s := text;
    var i := 0;
    assert s[..0] + Decoded(s[0..], attrib) == Decoded(text, attrib) by { assert s[0..] == s; }
    while true
      invariant 0 <= i <= |s|
      invariant s[..i] + Decoded(s[i..], attrib) == Decoded(text, attrib)
      decreases |s| - i
    {
      var j := Find(s, '&', i);
      if j == NPOS {
        DecodedSkips(s, i, |s|, attrib);
        AllDecoded(s, i, attrib);
        return;
      }
      var n, c := 1, '&';
      if Starts(s, j + 1, "lt;") {
        n, c := 4, '<';
      } else if Starts(s, j + 1, "amp;") {
        n, c := 5, '&';
      } else if Starts(s, j + 1, "gt;") {
        n, c := 4, '>';
      } else if attrib {
        if Starts(s, j + 1, "apos;") {
          n, c := 6, '\'';
        } else if Starts(s, j + 1, "quot;") {
          n, c := 6, '"';
        }
      }
      EntityAt(s, j, attrib);
      DecodeNext(s, i, j, n, c, attrib);
      Replaced(s, i, j, [c], n);
      s := s[..j] + [c] + s[j + n..];
      i := j + 1;
    }
  }

  lemma AllDecoded(s: string, i: nat, attrib: bool)
    requires i <= |s| && Decoded(s[i..], attrib) == s[i..|s|] + Decoded(s[|s|..], attrib)
    ensures s[..i] + Decoded(s[i..], attrib) == s
  {
  }

  /** The second loop, which begins again at the front. */
  method ConvertNewlines(text: string) returns (s: string)
    requires Find(text, '\n', 0) > 0
    ensures s == AddCr(text, 0)
  {
    hide At;
    s := text;
    var i := 0;
    while true
      invariant 0 <= i && AddCr(s, i) == AddCr(text, 0)
      invariant i == 0 ==> s == text
      decreases |s| - i
    {
      var j := Find(s, '\n', i);
      if j == NPOS { return; }
      if At(s, j - 1) != '\r' {
        s := s[..j] + ['\r'] + s[j..];
      }
      i := j + 2;
    }
  }
}
