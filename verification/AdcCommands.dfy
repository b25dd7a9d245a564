/** ADC commands (adchpp/AdcCommand.cpp): printing, parsing, and exactly when parsing undoes printing. */
module AdcCommands {
  import opened Basics

  datatype Result<T> = Ok(value: T) | Error(message: string)

  /** The parts of a command. Session identifiers are the four characters that are sent for them. */
  datatype Cmd = Cmd(typ: char, cmd: string, from: string, to: string, features: string, parameters: seq<string>)

  const HUB_SID := "\U{ff}\U{ff}\U{ff}\U{ff}"
  const INVALID_SID := "\U{fe}\U{ff}\U{ff}\U{ff}"

  predicate IsType(t: char) { t in "BCDEFIHU" }
  predicate HasFrom(t: char) { t in "BDEF" }
  predicate HasTo(t: char) { t in "DE" }
  predicate HasFeatures(t: char) { t == 'F' }

  /** The fields that stand before the parameters. */
  function Fields(c: Cmd): seq<string> {
    (if HasFrom(c.typ) then [c.from] else []) + (if HasTo(c.typ) then [c.to] else []) + (if HasFeatures(c.typ) then [c.features] else [])
  }

  function FieldCount(t: char): nat {
    (if HasFrom(t) then 1 else 0) + (if HasTo(t) then 1 else 0) + (if HasFeatures(t) then 1 else 0)
  }

  // ---------------------------------------------------------------- printing

  function EscapeChar(c: char): string {
    if c == ' ' then "\\s" else if c == '\n' then "\\n" else if c == '\\' then "\\\\" else [c]
  }

  function Escaped(s: string): string {
    if s == "" then "" else Escaped(s[..|s| - 1]) + EscapeChar(s[|s| - 1])
  }

  /** Escaped text has no space and no newline. */
  lemma {:induction false} EscapedIsClean(s: string)
    ensures ' ' !in Escaped(s) && '\n' !in Escaped(s)
  {
    if s != "" { EscapedIsClean(s[..|s| - 1]); }
  }

  /** A C string ends at the first zero byte. */
  function CString(s: string): string {
    if s == "" || s[0] == '\0' then "" else [s[0]] + CString(s[1..])
  }

  /** Each word after a space. */
  function Words(ws: seq<string>): string {
    if ws == [] then "" else Words(ws[..|ws| - 1]) + [' '] + ws[|ws| - 1]
  }

  function EscapedAll(ps: seq<string>): seq<string> {
    seq(|ps|, i requires 0 <= i < |ps| => Escaped(ps[i]))
  }

  function Printed(c: Cmd): string {
    [c.typ] + CString(c.cmd) + Words(Fields(c) + EscapedAll(c.parameters)) + ['\n']
  }

  // ---------------------------------------------------------------- splitting

  function Unescape(c: char): Result<char> {
    if c == 's' then Ok(' ') else if c == 'n' then Ok('\n') else if c == '\\' then Ok('\\') else Error("Unknown escape")
  }

  /** The words of a text, unescaped, when `cur` is what came before of the first: those that a space ends, and the last one. */
  function Split(s: string, cur: string): Result<(seq<string>, string)> {
    if s == "" then Ok(([], cur))
    else if s[0] == '\\' then
      if |s| == 1 then Error("Escape at eol")
      else match Unescape(s[1])
           case Error(m) => Error(m)
           case Ok(c) => Split(s[2..], cur + [c])
    else if s[0] == ' ' then
      match Split(s[1..], "")
      case Error(m) => Error(m)
      case Ok((done, last)) => Ok(([cur] + done, last))
    else Split(s[1..], cur + [s[0]])
  }

  predicate Plain(s: string) { ' ' !in s && '\\' !in s }

  lemma {:induction false} SplitPlain(q: string, rest: string, cur: string)
    requires Plain(q)
    ensures Split(q + rest, cur) == Split(rest, cur + q)
    decreases |q|
  {
    if q == "" {
      assert q + rest == rest && cur + q == cur;
    } else {
      assert (q + rest)[1..] == q[1..] + rest && cur + [q[0]] + q[1..] == cur + q;
      SplitPlain(q[1..], rest, cur + [q[0]]);
    }
  }

  lemma SplitChar(c: char, rest: string, cur: string)
    ensures Split(EscapeChar(c) + rest, cur) == Split(rest, cur + [c])
  {
    var e := EscapeChar(c);
    assert (e + rest)[|e|..] == rest;
  }

  /** The parser undoes `escape`. */
  lemma {:induction false} SplitEscaped(p: string, rest: string, cur: string)
    ensures Split(Escaped(p) + rest, cur) == Split(rest, cur + p)
    decreases |p|
  {
    if p == "" {
      assert Escaped(p) + rest == rest && cur + p == cur;
    } else {
      var q, c := p[..|p| - 1], p[|p| - 1];
      assert Escaped(p) + rest == Escaped(q) + (EscapeChar(c) + rest);
      SplitEscaped(q, EscapeChar(c) + rest, cur);
      SplitChar(c, rest, cur + q);
      assert cur + q + [c] == cur + p;
    }
  }

  /** The end of a word; `rest` is the next one. */
  lemma SplitSpace(rest: string, cur: string)
    ensures Split([' '] + rest, cur) == match Split(rest, "") case Error(m) => Error(m) case Ok((done, last)) => Ok(([cur] + done, last))
  {
    assert ([' '] + rest)[1..] == rest;
  }

  /** All words: an empty last one does not count. */
  function Tokens(s: string): Result<seq<string>> {
    match Split(s, "")
    case Error(m) => Error(m)
    case Ok((done, last)) => Ok(if last == "" then done else done + [last])
  }

  // ---------------------------------------------------------------- parsing

  /** The words of a line are the fields of its type and the parameters. */
  ghost predicate FieldsOk(t: char, ts: seq<string>) {
    && FieldCount(t) <= |ts|
    && (HasFrom(t) ==> |ts[0]| == 4) && (HasTo(t) ==> |ts[1]| == 4) && (HasFeatures(t) ==> |ts[1]| % 5 == 0)
  }

  ghost predicate AllUtf8(utf8: string -> bool, ts: seq<string>) {
    forall i :: 0 <= i < |ts| ==> utf8(ts[i])
  }

  function Assigned(t: char, cmd: string, ts: seq<string>): Cmd
    requires FieldCount(t) <= |ts|
  {
    Cmd(t, cmd, if HasFrom(t) then ts[0] else INVALID_SID, if HasTo(t) then ts[1] else if t == 'H' then HUB_SID else INVALID_SID,
        if HasFeatures(t) then ts[1] else "", ts[FieldCount(t)..])
  }

  /** What follows the type, the name and a space; the last character, a newline, is skipped. */
  function Body(s: string): string {
    if |s| <= 5 then "" else s[5..|s| - 1]
  }

  /** What the parser accepts, and what it makes of it. */
  ghost predicate Parses(utf8: string -> bool, s: string, c: Cmd) {
    && |s| >= 5 && IsType(s[0]) && s[4] == ' ' && Tokens(Body(s)).Ok?
    && var ts := Tokens(Body(s)).value;
       FieldsOk(s[0], ts) && AllUtf8(utf8, ts[FieldCount(s[0])..]) && c == Assigned(s[0], s[1..4], ts)
  }

  /** What is wrong with the `k`-th word of a line of type `t`. */
  function WordFault(utf8: string -> bool, t: char, k: nat, w: string): Option<string> {
    if (k == 0 && HasFrom(t)) || (k == 1 && HasTo(t)) then if |w| != 4 then Some("Invalid SID length") else None
    else if k == 1 && HasFeatures(t) then if |w| % 5 != 0 then Some("Invalid feature length") else None
    else if !utf8(w) then Some("Invalid UTF-8 sequence") else None
  }

  /** The fields that are not among `n` words. */
  function MissingField(t: char, n: nat): Option<string> {
    if HasFrom(t) && n < 1 then Some("Missing from_sid")
    else if HasFeatures(t) && n < 2 then Some("Missing feature")
    else if HasTo(t) && n < 2 then Some("Missing to_sid")
    else None
  }

  /** The first fault of a text, after `k` words and the beginning `cur` of another. */
  function FirstFault(utf8: string -> bool, t: char, s: string, k: nat, cur: string): Option<string>
    decreases |s|
  {
    if s == "" then
      if cur == "" then MissingField(t, k)
      else if WordFault(utf8, t, k, cur).Some? then WordFault(utf8, t, k, cur)
      else MissingField(t, k + 1)
    else if s[0] == '\\' then
      if |s| == 1 then Some("Escape at eol")
      else
        match Unescape(s[1])
        case Error(m) => Some(m)
        case Ok(c) => FirstFault(utf8, t, s[2..], k, cur + [c])
    else if s[0] == ' ' then
      if WordFault(utf8, t, k, cur).Some? then WordFault(utf8, t, k, cur) else FirstFault(utf8, t, s[1..], k + 1, "")
    else FirstFault(utf8, t, s[1..], k, cur + [s[0]])
  }

  /** Why a line is refused. */
  function Fault(utf8: string -> bool, s: string): Option<string> {
    if |s| < 5 then Some("Command too short")
    else if !IsType(s[0]) then Some("Invalid type")
    else if s[4] != ' ' then Some("Missing space after command")
    else FirstFault(utf8, s[0], Body(s), 0, "")
  }

  // ---------------------------------------------------------------- the round trip

  /** The same command: the identifiers and features that its type does not send do not count. */
  predicate Same(a: Cmd, b: Cmd) {
    && a.typ == b.typ && a.cmd == b.cmd && a.parameters == b.parameters
    && (HasFrom(a.typ) ==> a.from == b.from) && (HasTo(a.typ) ==> a.to == b.to) && (HasFeatures(a.typ) ==> a.features == b.features)
  }

  /** Names have three characters and identifiers four. */
  ghost predicate Sized(c: Cmd) {
    |c.cmd| == 3 && |c.from| == 4 && |c.to| == 4
  }

  /** What a command needs for its printed form to be parsed back. */
  predicate Printable(utf8: string -> bool, c: Cmd) {
    && IsType(c.typ) && '\0' !in c.cmd
    && (HasFrom(c.typ) ==> Plain(c.from)) && (HasTo(c.typ) ==> Plain(c.to))
    && (HasFeatures(c.typ) ==> Plain(c.features) && |c.features| % 5 == 0 && (c.features != "" || c.parameters != []))
    && (FieldCount(c.typ) == 0 ==> c.parameters != [])
    && (c.parameters != [] ==> c.parameters[|c.parameters| - 1] != "")
    && forall i :: 0 <= i < |c.parameters| ==> utf8(c.parameters[i])
  }

  lemma {:induction false} CStringIs(s: string)
    ensures CString(s) == s <==> '\0' !in s
    ensures |CString(s)| <= |s| && (CString(s) != s ==> |CString(s)| < |s|) && CString(s) <= s
  {
    if s != "" && s[0] != '\0' {
      CStringIs(s[1..]);
      assert s == [s[0]] + s[1..];
    }
  }

  /** The words without the space before the first one. */
  function Joined(ws: seq<string>): string
    requires ws != []
  {
    if |ws| == 1 then ws[0] else ws[0] + [' '] + Joined(ws[1..])
  }

  lemma {:induction false} WordsJoined(ws: seq<string>)
    requires ws != []
    ensures Words(ws) == [' '] + Joined(ws)
    decreases |ws|
  {
    hide *;
    LastWord(ws);
    if |ws| > 1 {
      var w := ws[|ws| - 1];
      WordsJoined(ws[..|ws| - 1]);
      JoinedLast(ws[..|ws| - 1], w);
      assert ws[..|ws| - 1] + [w] == ws;
    }
  }

  lemma LastWord(ws: seq<string>)
    requires ws != []
    ensures Words(ws) == Words(ws[..|ws| - 1]) + [' '] + ws[|ws| - 1]
    ensures |ws| == 1 ==> Words(ws) == [' '] + Joined(ws)
  {
    if |ws| == 1 { assert ws[..0] == []; }
  }

  lemma {:induction false} JoinedLast(ws: seq<string>, w: string)
    requires ws != []
    ensures Joined(ws + [w]) == Joined(ws) + [' '] + w
    decreases |ws|
  {
    if |ws| == 1 {
      assert (ws + [w])[1..] == [w];
    } else {
      JoinedLast(ws[1..], w);
      assert (ws + [w])[1..] == ws[1..] + [w];
    }
  }

  function DropEmptyLast(ws: seq<string>): seq<string> {
    if ws != [] && ws[|ws| - 1] == "" then ws[..|ws| - 1] else ws
  }

  /** A word and the words after it. */
  lemma TokensThen(e: string, w: string, rest: string)
    requires Split(e + ([' '] + rest), "") == Split([' '] + rest, w)
    ensures Tokens(e + [' '] + rest) == match Tokens(rest) case Error(m) => Error(m) case Ok(ts) => Ok([w] + ts)
  {
    SplitSpace(rest, w);
    assert e + [' '] + rest == e + ([' '] + rest);
    match Split(rest, "")
    case Error(_) =>
    case Ok((done, last)) => assert [w] + done + [last] == [w] + (done + [last]);
  }

  /** The words of a printed command come back, but for an empty last one. */
  lemma {:induction false} TokensOf(fs: seq<string>, ps: seq<string>)
    requires fs + ps != [] && forall i :: 0 <= i < |fs| ==> Plain(fs[i])
    ensures Tokens(Joined(fs + EscapedAll(ps))) == Ok(DropEmptyLast(fs + ps))
    decreases |fs| + |ps|
  {
    var es, ws := fs + EscapedAll(ps), fs + ps;
    if fs == [] {
      assert es[0] == Escaped(ws[0]) && es[1..] == [] + EscapedAll(ps[1..]) && ws[1..] == [] + ps[1..];
      if |ws| > 1 { TokensOf([], ps[1..]); }
    } else {
      assert es[0] == ws[0] && es[1..] == fs[1..] + EscapedAll(ps) && ws[1..] == fs[1..] + ps;
      if |ws| > 1 { TokensOf(fs[1..], ps); }
    }
    TokensStep(es, ws);
  }

  lemma TokensStep(es: seq<string>, ws: seq<string>)
    requires |es| == |ws| > 0 && (es[0] == Escaped(ws[0]) || (es[0] == ws[0] && Plain(ws[0])))
    requires |ws| > 1 ==> Tokens(Joined(es[1..])) == Ok(DropEmptyLast(ws[1..]))
    ensures Tokens(Joined(es)) == Ok(DropEmptyLast(ws))
  {
    var e, w := es[0], ws[0];
    if |ws| > 1 {
      var rest := Joined(es[1..]);
      if e == Escaped(w) { SplitEscaped(w, [' '] + rest, ""); } else { SplitPlain(w, [' '] + rest, ""); }
      assert "" + w == w;
      TokensThen(e, w, rest);
      hide *;
      JoinedFirst(es);
      DropFirst(ws);
    } else {
      if e == Escaped(w) { SplitEscaped(w, "", ""); } else { SplitPlain(w, "", ""); }
      assert e + "" == e && "" + w == w;
      hide Escaped;
      assert Joined(es) == e && Split(e, "") == Ok(([], w));
      assert ws == [w] && [] + [w] == [w];
    }
  }

  lemma JoinedFirst(es: seq<string>)
    requires |es| > 1
    ensures Joined(es) == es[0] + [' '] + Joined(es[1..])
  {
  }

  lemma DropFirst(ws: seq<string>)
    requires |ws| > 1
    ensures DropEmptyLast(ws) == [ws[0]] + DropEmptyLast(ws[1..])
  {
  }

  /** A word that is printed as it is does not come back longer, and it comes back whole only if nothing in it is special. */
  lemma {:induction false} SplitRaw(r: string, rest: string, cur: string)
    requires rest == "" || rest[0] == ' '
    requires Split(r + rest, cur).Ok?
    ensures var (done, last) := Split(r + rest, cur).value; var first := if done == [] then last else done[0];
            && (rest != "" ==> done != []) && |first| <= |cur| + |r| && (|first| == |cur| + |r| ==> Plain(r))
    decreases |r|
  {
    if r == "" {
      assert r + rest == rest;
    } else if r[0] == '\\' {
      if |r| == 1 {
        assert rest != "" ==> (r + rest)[1] == ' ';
      } else {
        assert (r + rest)[2..] == r[2..] + rest && (r + rest)[1] == r[1];
        SplitRaw(r[2..], rest, cur + [Unescape(r[1]).value]);
      }
    } else if r[0] == ' ' {
      assert (r + rest)[1..] == r[1..] + rest;
    } else {
      assert (r + rest)[1..] == r[1..] + rest;
      SplitRaw(r[1..], rest, cur + [r[0]]);
      assert r == [r[0]] + r[1..];
    }
  }

  /** Fields that come back are plain. */
  lemma {:induction false} FieldsPlain(fs: seq<string>, ps: seq<string>, ts: seq<string>)
    requires fs + ps != [] && Tokens(Joined(fs + EscapedAll(ps))) == Ok(ts)
    requires |fs| <= |ts| && forall i :: 0 <= i < |fs| ==> ts[i] == fs[i]
    ensures forall i :: 0 <= i < |fs| ==> Plain(fs[i])
    decreases |fs|
  {
    if fs != [] {
      var es := fs + EscapedAll(ps);
      var r := fs[0];
      assert es[1..] == fs[1..] + EscapedAll(ps);
      if |es| == 1 {
        assert r + "" == r;
        SplitRaw(r, "", "");
      } else {
        var rest := [' '] + Joined(es[1..]);
        assert Joined(es) == r + rest;
        SplitRaw(r, rest, "");
        SplitPlain(r, rest, "");
        assert "" + r == r;
        TokensThen(r, r, Joined(es[1..]));
        assert Joined(es) == r + [' '] + Joined(es[1..]);
        assert ts == [r] + Tokens(Joined(es[1..])).value;
        assert forall i :: 0 <= i < |fs[1..]| ==> ts[1..][i] == ts[i + 1] && fs[1..][i] == fs[i + 1];
        FieldsPlain(fs[1..], ps, ts[1..]);
        assert fs == [r] + fs[1..];
      }
    }
  }

  lemma PrintedShape(c: Cmd)
    requires Sized(c) && '\0' !in c.cmd
    ensures var es := Fields(c) + EscapedAll(c.parameters); var s := Printed(c);
            && |s| >= 5 && s[0] == c.typ && s[1..4] == c.cmd && |Fields(c)| == FieldCount(c.typ)
            && (es == [] ==> s[4] == '\n') && (es != [] ==> s[4] == ' ' && Body(s) == Joined(es))
  {
    hide Joined;
    hide Escaped;
    hide EscapedAll;
    var es := Fields(c) + EscapedAll(c.parameters);
    CStringIs(c.cmd);
    if es == [] {
      assert Printed(c) == [c.typ] + c.cmd + ['\n'];
      assert Printed(c)[1..4] == c.cmd;
    } else {
      WordsJoined(es);
      hide Words;
      assert Printed(c) == [c.typ] + c.cmd + ([' '] + Joined(es)) + ['\n'];
      Cut(c.typ, c.cmd, Joined(es), Printed(c));
    }
  }

  lemma Cut(t: char, name: string, body: string, s: string)
    requires |name| == 3 && s == [t] + name + ([' '] + body) + ['\n']
    ensures |s| >= 5 && s[0] == t && s[1..4] == name && s[4] == ' ' && Body(s) == body
  {
  }

  lemma FieldsAt(c: Cmd)
    ensures |Fields(c)| == FieldCount(c.typ)
    ensures HasFrom(c.typ) ==> Fields(c)[0] == c.from
    ensures HasTo(c.typ) ==> HasFrom(c.typ) && Fields(c)[1] == c.to
    ensures HasFeatures(c.typ) ==> HasFrom(c.typ) && !HasTo(c.typ) && Fields(c)[1] == c.features
    ensures |EscapedAll(c.parameters)| == |c.parameters|
  {
  }

  /** A printable command is parsed back. */
  lemma PrintedParses(utf8: string -> bool, c: Cmd)
    requires Sized(c) && Printable(utf8, c)
    ensures var ts := Fields(c) + c.parameters;
            Parses(utf8, Printed(c), Assigned(c.typ, c.cmd, ts)) && Same(c, Assigned(c.typ, c.cmd, ts))
  {
    hide Split;
    hide Escaped;
    hide EscapedAll;
    hide Joined;
    hide Words;
    FieldsAt(c);
    PrintedShape(c);
    hide Printed;
    hide Body;
    hide Fields;
    var ts := Fields(c) + c.parameters;
    assert c.parameters == [] ==> ts == Fields(c);
    TokensOf(Fields(c), c.parameters);
    hide Tokens;
    assert ts[FieldCount(c.typ)..] == c.parameters;
    assert DropEmptyLast(ts) == ts;
  }

  /** With a zero byte in its name a command is printed with another name. */
  lemma ZeroInName(utf8: string -> bool, c: Cmd, d: Cmd)
    requires Sized(c) && '\0' in c.cmd && Parses(utf8, Printed(c), d)
    ensures d.cmd != c.cmd
  {
    CStringIs(c.cmd);
    CStringStops(c.cmd);
    var k := |CString(c.cmd)|;
    var ws := Words(Fields(c) + EscapedAll(c.parameters));
    WordsStart(Fields(c) + EscapedAll(c.parameters));
    var s := Printed(c);
    assert s[1 + k] == (ws + ['\n'])[0];
    assert s[1..4][k] == s[1 + k];
  }

  lemma {:induction false} CStringStops(s: string)
    requires '\0' in s
    ensures |CString(s)| < |s| && s[|CString(s)|] == '\0'
  {
    if s[0] != '\0' { CStringStops(s[1..]); }
  }

  lemma {:induction false} WordsStart(ws: seq<string>)
    ensures Words(ws) == "" || Words(ws)[0] == ' '
    decreases |ws|
  {
    if ws != [] { WordsStart(ws[..|ws| - 1]); }
  }

  /** What is parsed back was printable. */
  lemma ParsedIsPrintable(utf8: string -> bool, c: Cmd, d: Cmd)
    requires Sized(c) && Parses(utf8, Printed(c), d) && Same(c, d)
    ensures Printable(utf8, c)
  {
    if '\0' in c.cmd {
      ZeroInName(utf8, c, d);
    } else {
      FieldsAt(c);
      PrintedShape(c);
      var fs, ps := Fields(c), c.parameters;
      var es := fs + EscapedAll(ps);
      assert es == [] ==> fs + ps == [];
      assert es != [];
      WordsBack(utf8, c, d, fs, ps, Tokens(Body(Printed(c))).value);
    }
  }

  lemma WordsBack(utf8: string -> bool, c: Cmd, d: Cmd, fs: seq<string>, ps: seq<string>, ts: seq<string>)
    requires '\0' !in c.cmd && IsType(c.typ) && fs == Fields(c) && ps == c.parameters && fs + ps != []
    requires Tokens(Joined(fs + EscapedAll(ps))) == Ok(ts) && FieldsOk(c.typ, ts) && AllUtf8(utf8, ts[FieldCount(c.typ)..])
    requires d == Assigned(c.typ, c.cmd, ts) && Same(c, d)
    ensures Printable(utf8, c)
  {
    hide Split;
    hide Escaped;
    hide EscapedAll;
    hide Joined;
    FieldsAt(c);
    hide Fields;
    hide Tokens;
    assert forall i :: 0 <= i < |fs| ==> ts[i] == fs[i];
    FieldsPlain(fs, ps, ts);
    TokensOf(fs, ps);
    assert ts == DropEmptyLast(fs + ps);
    assert ts[|fs|..] == ps;
    assert |ts| == |fs| + |ps|;
    assert ps != [] ==> (fs + ps)[|fs + ps| - 1] == ps[|ps| - 1];
    assert ps == [] ==> fs + ps == fs;
  }

  /** A command is parsed back from its printed form exactly when it is printable. */
  lemma RoundTrip(utf8: string -> bool, c: Cmd)
    requires Sized(c)
    ensures (exists d :: Parses(utf8, Printed(c), d) && Same(c, d)) <==> Printable(utf8, c)
  {
    if Printable(utf8, c) {
      PrintedParses(utf8, c);
    } else if d :| Parses(utf8, Printed(c), d) && Same(c, d) {
      ParsedIsPrintable(utf8, c, d);
    }
  }

  // ---------------------------------------------------------------- the implementation

  /** The `k`-th word of a line of type `t` may be `w`. */
  predicate WordOk(utf8: string -> bool, t: char, k: nat, w: string) {
    && (k == 0 && HasFrom(t) ==> |w| == 4) && (k == 1 && HasTo(t) ==> |w| == 4) && (k == 1 && HasFeatures(t) ==> |w| % 5 == 0)
    && (k >= FieldCount(t) ==> utf8(w))
  }

  lemma FaultStep(utf8: string -> bool, t: char, rest: string, k: nat, cur: string)
    requires rest != ""
    ensures var f := FirstFault(utf8, t, rest, k, cur);
      && (rest[0] == ' ' && WordFault(utf8, t, k, cur).None? ==> f == FirstFault(utf8, t, rest[1..], k + 1, ""))
      && (rest[0] == ' ' && WordFault(utf8, t, k, cur).Some? ==> f == WordFault(utf8, t, k, cur))
      && (rest[0] == '\\' && |rest| > 1 && rest[1] == 's' ==> f == FirstFault(utf8, t, rest[2..], k, cur + [' ']))
      && (rest[0] == '\\' && |rest| > 1 && rest[1] == 'n' ==> f == FirstFault(utf8, t, rest[2..], k, cur + ['\n']))
      && (rest[0] == '\\' && |rest| > 1 && rest[1] == '\\' ==> f == FirstFault(utf8, t, rest[2..], k, cur + ['\\']))
      && (rest[0] == '\\' && |rest| == 1 ==> f == Some("Escape at eol"))
      && (rest[0] == '\\' && |rest| > 1 && rest[1] !in "sn\\" ==> f == Some("Unknown escape"))
      && (rest[0] != ' ' && rest[0] != '\\' ==> f == FirstFault(utf8, t, rest[1..], k, cur + [rest[0]]))
  {
  }

  lemma FaultAtEnd(utf8: string -> bool, t: char, rest: string, k: nat, cur: string)
    requires rest == ""
    ensures cur == "" ==> FirstFault(utf8, t, rest, k, cur) == MissingField(t, k)
    ensures cur != "" ==> FirstFault(utf8, t, rest, k, cur) ==
                          if WordFault(utf8, t, k, cur).Some? then WordFault(utf8, t, k, cur) else MissingField(t, k + 1)
  {
  }

  lemma Faultless(utf8: string -> bool, t: char, k: nat, w: string)
    ensures WordFault(utf8, t, k, w).None? <==> WordOk(utf8, t, k, w)
  {
  }

  lemma WordsOk(utf8: string -> bool, t: char, ts: seq<string>)
    ensures FieldsOk(t, ts) && AllUtf8(utf8, ts[FieldCount(t)..])
       <==> FieldCount(t) <= |ts| && forall k :: 0 <= k < |ts| ==> WordOk(utf8, t, k, ts[k])
  {
    if FieldCount(t) <= |ts| {
      var ps := ts[FieldCount(t)..];
      assert forall i :: 0 <= i < |ps| ==> ps[i] == ts[FieldCount(t) + i];
      assert forall k :: FieldCount(t) <= k < |ts| ==> ts[k] == ps[k - FieldCount(t)];
    }
  }

  /** The words found so far, and then those of the rest of the line. */
  function After(done: seq<string>, r: Result<(seq<string>, string)>): Result<(seq<string>, string)> {
    match r
    case Error(m) => Error(m)
    case Ok((more, last)) => Ok((done + more, last))
  }

  lemma AfterStep(body: string, done: seq<string>, rest: string, cur: string)
    requires rest != "" && Split(body, "") == After(done, Split(rest, cur))
    ensures rest[0] == ' ' ==> Split(body, "") == After(done + [cur], Split(rest[1..], ""))
    ensures rest[0] == '\\' && |rest| > 1 && rest[1] == 's' ==> Split(body, "") == After(done, Split(rest[2..], cur + [' ']))
    ensures rest[0] == '\\' && |rest| > 1 && rest[1] == 'n' ==> Split(body, "") == After(done, Split(rest[2..], cur + ['\n']))
    ensures rest[0] == '\\' && |rest| > 1 && rest[1] == '\\' ==> Split(body, "") == After(done, Split(rest[2..], cur + ['\\']))
    ensures rest[0] == '\\' && (|rest| == 1 || rest[1] !in "sn\\") ==> Tokens(body).Error?
    ensures rest[0] != ' ' && rest[0] != '\\' ==> Split(body, "") == After(done, Split(rest[1..], cur + [rest[0]]))
  {
    if rest[0] == ' ' && Split(rest[1..], "").Ok? {
      var (more, last) := Split(rest[1..], "").value;
      assert done + [cur] + more == done + ([cur] + more);
    }
  }

  class AdcCommand {
    var typ: char
    var cmd: string
    var from: string
    var to: string
    var features: string
    var parameters: seq<string>
    var fromSet: bool
    var toSet: bool
    var featureSet: bool
    const utf8: string -> bool

    constructor (utf8: string -> bool)
      ensures this.utf8 == utf8 && Empty()
    {
      this.utf8 := utf8;
      typ, cmd, from, to, features, parameters := '\0', "", INVALID_SID, INVALID_SID, "", [];
      fromSet, toSet, featureSet := false, false, false;
    }

    ghost predicate Empty()
      reads this
    {
      from == to == INVALID_SID && features == "" && parameters == [] && !fromSet && !toSet && !featureSet
    }

    ghost function Abstract(): Cmd
      reads this
    {
      Cmd(typ, cmd, from, to, features, parameters)
    }

    /** `escape`, which appends to `out`. */
    static method Escape(s: string, out: string) returns (out': string)
      ensures out' == out + Escaped(s)
    {
      out' := out;
      var i := 0;
      assert s[..0] == "";
      while i < |s|
        invariant 0 <= i <= |s| && out' == out + Escaped(s[..i])
      {
        assert s[..i + 1][..i] == s[..i];
        match s[i] {
          case ' ' => out' := out' + "\\s";
          case '\n' => out' := out' + "\\n";
          case '\\' => out' := out' + "\\\\";
          case c => out' := out' + [c];
        }
        i := i + 1;
      }
      assert s[..i] == s;
    }

    method ToString() returns (tmp: string)
      ensures tmp == Printed(Abstract())
    {
      hide *;
      tmp := [typ] + CString(cmd);
      ghost var head, ws := tmp, Fields(Abstract());
      FieldsByType();
      NoWords(head);
      if typ == 'B' || typ == 'D' || typ == 'E' || typ == 'F' {
        tmp := AppendWord(tmp, from, head, []);
      }
      if typ == 'D' || typ == 'E' {
        tmp := AppendWord(tmp, to, head, [from]);
      }
      if typ == 'F' {
        tmp := AppendWord(tmp, features, head, [from]);
      }
      var i := 0;
      NoParameters(ws);
      while i < |parameters|
        invariant 0 <= i <= |parameters| && tmp == head + Words(ws + EscapedAll(parameters[..i]))
        decreases |parameters| - i
      {
        var word := Escape(parameters[i], "");
        MoreParameters(ws, i);
        tmp := AppendWord(tmp, word, head, ws + EscapedAll(parameters[..i]));
        i := i + 1;
      }
      tmp := tmp + ['\n'];
      AllPrinted();
    }

    /** A space and a word. */
    static method AppendWord(tmp: string, w: string, ghost head: string, ghost ws: seq<string>) returns (tmp': string)
      requires tmp == head + Words(ws)
      ensures tmp' == head + Words(ws + [w])
    {
      tmp' := tmp + [' '] + w;
      WordsMore(head, ws, w);
    }

    lemma FieldsByType()
      ensures Fields(Abstract()) ==
              if typ == 'D' || typ == 'E' then [from] + [to] else if typ == 'F' then [from] + [features] else if typ == 'B' then [] + [from] else []
      ensures [] + [from] == [from]
    {
    }

    static lemma NoWords(head: string)
      ensures head + Words([]) == head
    {
    }

    lemma NoParameters(ws: seq<string>)
      ensures ws + EscapedAll(parameters[..0]) == ws
    {
    }

    lemma MoreParameters(ws: seq<string>, i: nat)
      requires i < |parameters|
      ensures ws + EscapedAll(parameters[..i + 1]) == ws + EscapedAll(parameters[..i]) + ["" + Escaped(parameters[i])]
    {
      assert "" + Escaped(parameters[i]) == Escaped(parameters[i]);
    }

    lemma AllPrinted()
      ensures [typ] + CString(cmd) + Words(Fields(Abstract()) + EscapedAll(parameters[..|parameters|])) + ['\n'] == Printed(Abstract())
    {
      assert parameters[..|parameters|] == parameters;
    }

    /** The words `done` are taken into the fields and parameters. */
    ghost predicate Took(done: seq<string>)
      reads this
    {
      && IsType(typ) && (forall k :: 0 <= k < |done| ==> WordOk(utf8, typ, k, done[k]))
      && fromSet == (HasFrom(typ) && |done| > 0) && toSet == (HasTo(typ) && |done| > 1) && featureSet == (HasFeatures(typ) && |done| > 1)
      && from == (if fromSet then done[0] else INVALID_SID)
      && to == (if toSet then done[1] else if typ == 'H' then HUB_SID else INVALID_SID)
      && features == (if featureSet then done[1] else "")
      && parameters == if |done| > FieldCount(typ) then done[FieldCount(typ)..] else []
    }

    /** A word is complete: it is the next field, or a parameter. */
    method TakeWord(cur: string, ghost done: seq<string>) returns (fault: Option<string>)
      requires Took(done)
      modifies this`from, this`to, this`features, this`parameters, this`fromSet, this`toSet, this`featureSet
      ensures fault == WordFault(utf8, typ, |done|, cur)
      ensures fault.None? ==> Took(done + [cur])
    {
      if (typ == 'B' || typ == 'D' || typ == 'E' || typ == 'F') && !fromSet {
        if |cur| != 4 {
          return Some("Invalid SID length");
        }
        from, fromSet := cur, true;
      } else if (typ == 'D' || typ == 'E') && !toSet {
        if |cur| != 4 {
          return Some("Invalid SID length");
        }
        to, toSet := cur, true;
      } else if typ == 'F' && !featureSet {
        if |cur| % 5 != 0 {
          return Some("Invalid feature length");
        }
        features, featureSet := cur, true;
      } else {
        if !utf8(cur) {
          return Some("Invalid UTF-8 sequence");
        }
        parameters := parameters + [cur];
        DoneMore(done, cur, FieldCount(typ));
      }
      fault := None;
    }

    static lemma DoneMore(done: seq<string>, cur: string, n: nat)
      requires n <= |done|
      ensures (done + [cur])[n..] == done[n..] + [cur]
    {
    }

    method Parse(buf: string) returns (r: Result<()>)
      requires Empty()
      modifies this
      ensures r.Ok? ==> Fault(utf8, buf).None? && Parses(utf8, buf, Abstract())
      ensures r.Error? ==> Fault(utf8, buf) == Some(r.message) && forall d :: !Parses(utf8, buf, d)
      ensures r.Ok? && typ == 'H' ==> |to| == 4 && forall i :: 0 <= i < 4 ==> to[i] as int == 0xff
      ensures r.Ok? && (typ == 'C' || typ == 'I' || typ == 'H' || typ == 'U') ==>
        |from| == 4 && from[0] as int == 0xfe && forall i :: 1 <= i < 4 ==> from[i] as int == 0xff
    {
      hide FirstFault, Tokens, ParsedWords, Took;
      if |buf| < 5 {
        return Error("Command too short");
      }
      typ := buf[0];
      if typ != 'B' && typ != 'C' && typ != 'D' && typ != 'E' && typ != 'F' && typ != 'I' && typ != 'H' && typ != 'U' {
        return Error("Invalid type");
      }
      if typ == 'H' {
        to := HUB_SID;
      }
      cmd := buf[1..4];
      if buf[4] != ' ' {
        return Error("Missing space after command");
      }
      NothingTook();
      r := ParseWords(if |buf| > 5 then buf[5..|buf| - 1] else "");
      ParsesWhen(buf);
      if r.Ok? {
        ghost var ts :| ParsedWords(Body(buf), ts) && Took(ts);
        DefaultSids(ts);
      }
    }

    lemma NothingTook()
      requires IsType(typ) && from == INVALID_SID && features == "" && parameters == [] && !fromSet && !toSet && !featureSet
      requires to == if typ == 'H' then HUB_SID else INVALID_SID
      ensures Took([])
    {
    }

    /** The numbers -1 and -2, in four bytes. */
    lemma DefaultSids(ts: seq<string>)
      requires Took(ts)
      ensures typ == 'H' ==> |to| == 4 && forall i :: 0 <= i < 4 ==> to[i] as int == 0xff
      ensures !HasFrom(typ) ==> |from| == 4 && from[0] as int == 0xfe && forall i :: 1 <= i < 4 ==> from[i] as int == 0xff
    {
    }

    lemma ParsesWhen(buf: string)
      requires |buf| >= 5 && IsType(typ) && typ == buf[0] && cmd == buf[1..4] && buf[4] == ' '
      ensures (exists ts :: ParsedWords(Body(buf), ts) && Took(ts)) ==> Parses(utf8, buf, Abstract())
      ensures (forall ts :: !ParsedWords(Body(buf), ts)) ==> forall d :: !Parses(utf8, buf, d)
    {
      if ts :| ParsedWords(Body(buf), ts) && Took(ts) {
        WordsOk(utf8, typ, ts);
      }
      if d :| Parses(utf8, buf, d) {
        WordsOk(utf8, typ, Tokens(Body(buf)).value);
        assert ParsedWords(Body(buf), Tokens(Body(buf)).value);
      }
    }

    ghost predicate ParsedWords(body: string, ts: seq<string>)
      reads this`typ
    {
      Tokens(body) == Ok(ts) && FieldCount(typ) <= |ts| && forall k :: 0 <= k < |ts| ==> WordOk(utf8, typ, k, ts[k])
    }

    /** The loop of `parse`, over what follows the name. */
    method ParseWords(body: string) returns (r: Result<()>)
      requires Took([])
      modifies this`from, this`to, this`features, this`parameters, this`fromSet, this`toSet, this`featureSet
      ensures r.Ok? ==> FirstFault(utf8, typ, body, 0, "").None? && exists ts :: ParsedWords(body, ts) && Took(ts)
      ensures r.Error? ==> FirstFault(utf8, typ, body, 0, "") == Some(r.message) && forall ts :: !ParsedWords(body, ts)
    {
      hide *;
      var cur, i := "", 0;
      ghost var done: seq<string> := [];
      StartWords(body);
      while i < |body|
        invariant 0 <= i <= |body| && Took(done) && Split(body, "") == After(done, Split(body[i..], cur))
        invariant FirstFault(utf8, typ, body, 0, "") == FirstFault(utf8, typ, body[i..], |done|, cur)
        decreases |body| - i
      {
        AfterStep(body, done, body[i..], cur);
        FaultStep(utf8, typ, body[i..], |done|, cur);
        ghost var rest := body[i..];
        assert rest[1..] == body[i + 1..] && (|rest| > 1 ==> rest[2..] == body[i + 2..] && rest[1] == body[i + 1]);
        if body[i] == '\\' {
          i := i + 1;
          if i == |body| {
            NoTokens(body);
            return Error("Escape at eol");
          }
          if body[i] == 's' {
            cur := cur + [' '];
          } else if body[i] == 'n' {
            cur := cur + ['\n'];
          } else if body[i] == '\\' {
            cur := cur + ['\\'];
          } else {
            NoTokens(body);
            return Error("Unknown escape");
          }
        } else if body[i] == ' ' {
          Faultless(utf8, typ, |done|, cur);
          var fault := TakeWord(cur, done);
          if fault.Some? {
            Refused(body, done, cur, body[i + 1..]);
            return Error(fault.value);
          }
          done := done + [cur];
          cur := "";
        } else {
          cur := cur + [body[i]];
        }
        i := i + 1;
      }
      EndWords(body, done, cur, body[i..]);
      FaultAtEnd(utf8, typ, body[i..], |done|, cur);
      if cur != "" {
        Faultless(utf8, typ, |done|, cur);
        var fault := TakeWord(cur, done);
        if fault.Some? {
          BadLast(body, done, cur);
          return Error(fault.value);
        }
        done := done + [cur];
      }
      AllFields(body, done);
      if (typ == 'B' || typ == 'D' || typ == 'E' || typ == 'F') && !fromSet {
        return Error("Missing from_sid");
      }
      if typ == 'F' && !featureSet {
        return Error("Missing feature");
      }
      if (typ == 'D' || typ == 'E') && !toSet {
        return Error("Missing to_sid");
      }
      r := Ok(());
    }

    lemma NoTokens(body: string)
      requires Tokens(body).Error?
      ensures forall ts :: !ParsedWords(body, ts)
    {
    }

    lemma BadLast(body: string, done: seq<string>, cur: string)
      requires Tokens(body) == Ok(done + [cur]) && !WordOk(utf8, typ, |done|, cur)
      ensures forall ts :: !ParsedWords(body, ts)
    {
      assert (done + [cur])[|done|] == cur;
    }

    /** All fields are there, or one is missing. */
    lemma AllFields(body: string, done: seq<string>)
      requires Tokens(body) == Ok(done) && Took(done)
      ensures if MissingField(typ, |done|).Some? then forall ts :: !ParsedWords(body, ts) else ParsedWords(body, done)
      ensures MissingField(typ, |done|) ==
              if (typ == 'B' || typ == 'D' || typ == 'E' || typ == 'F') && !fromSet then Some("Missing from_sid")
              else if typ == 'F' && !featureSet then Some("Missing feature")
              else if (typ == 'D' || typ == 'E') && !toSet then Some("Missing to_sid")
              else None
    {
    }

    lemma StartWords(body: string)
      ensures Split(body, "") == After([], Split(body[0..], ""))
    {
      assert body[0..] == body;
      if Split(body, "").Ok? { assert [] + Split(body, "").value.0 == Split(body, "").value.0; }
    }

    lemma EndWords(body: string, done: seq<string>, cur: string, rest: string)
      requires rest == "" && Split(body, "") == After(done, Split(rest, cur))
      ensures Tokens(body) == Ok(if cur == "" then done else done + [cur])
    {
      assert done + [] == done;
    }

    lemma Refused(body: string, done: seq<string>, cur: string, rest: string)
      requires Split(body, "") == After(done + [cur], Split(rest, "")) && !WordOk(utf8, typ, |done|, cur)
      ensures forall ts :: !ParsedWords(body, ts)
    {
      if Tokens(body).Ok? {
        assert Tokens(body).value[|done|] == cur;
      }
    }
  }

  lemma WordsMore(head: string, ws: seq<string>, w: string)
    ensures head + Words(ws) + [' '] + w == head + Words(ws + [w])
  {
    assert (ws + [w])[..|ws|] == ws;
  }
}
