/** The tag tree of adchpp/SimpleXML.cpp: printing, parsing, and what a round trip keeps. */
module XmlTree {
  import opened Basics
  import opened XmlText

  datatype Tag = Tag(name: string, attribs: seq<(string, string)>, data: string, children: seq<Tag>)

  // ---------------------------------------------------------------- printing

  function Tabs(n: nat): string {
    if n == 0 then "" else Tabs(n - 1) + "\t"
  }

  function OneAttrib(a: (string, string)): string {
    a.0 + "=\"" + Escaped(a.1, true) + "\""
  }

  /** Every attribute behind a space. */
  function AttribText(a: seq<(string, string)>): string {
    if a == [] then "" else " " + OneAttrib(a[0]) + AttribText(a[1..])
  }

  /** The text of a tag, from its name to the line end, without either `<` or line end. */
  function Body(t: Tag, n: nat): string
    decreases t, 1
  {
    t.name + AttribText(t.attribs) + Closing(t, n)
  }

  function Closing(t: Tag, n: nat): string
    decreases t, 0, 1
  {
    if t.children == [] && t.data == "" then "/>" else ">" + Inner(t, n)
  }

  function Within(t: Tag, n: nat): string
    decreases t, 0, 0, 0
  {
    if t.children == [] then Escaped(t.data, false) else "\r\n" + XmlAll(t.children, n + 1) + Tabs(n)
  }

  /** What stands between the head and the line end of a tag with data or children. */
  function Inner(t: Tag, n: nat): string
    decreases t, 0, 0
  {
    Within(t, n) + "</" + t.name + ">"
  }

  function Xml(t: Tag, n: nat): string
    decreases t, 2
  {
    Tabs(n) + "<" + Body(t, n) + "\r\n"
  }

  function XmlAll(ts: seq<Tag>, n: nat): string
    decreases ts
  {
    if ts == [] then "" else Xml(ts[0], n) + XmlAll(ts[1..], n)
  }

  // ---------------------------------------------------------------- parsing

  datatype Error = MissingRoot | MissingEnd | MissingInstructionEnd | MissingCommentEnd | MissingClose
    | MissingEquals | BadQuote | MissingQuote | ManyRoots

  datatype AttribResult = AttribFail(e: Error) | Attribs(pos: nat, attribs: seq<(string, string)>)

  const BLANK := "\r\n\t "
  const NAME_END := "\r\n\t />"

  function PrependAttribs(a: seq<(string, string)>, r: AttribResult): AttribResult {
    if r.Attribs? then Attribs(r.pos, a + r.attribs) else r
  }

  /** Attributes from position `i` up to the `/` or `>` behind them. */
  function LoadAttribs(s: string, i: nat): (r: AttribResult)
    ensures r.Attribs? ==> i < r.pos < |s| && s[r.pos] in "/>"
    decreases |s| - i
  {
    var j := Find(s, '=', i);
    if j == NPOS then AttribFail(MissingEquals)
    else
      var q := At(s, j + 1);
      if q != '"' && q != '\'' then AttribFail(BadQuote)
      else
        var y := Find(s, q, j + 2);
        if y == NPOS then AttribFail(MissingQuote)
        else
          var a := (s[i..j], Loaded(s[j + 2..y], true));
          var k := FindNot(s, BLANK, y + 1);
          if k == NPOS then AttribFail(MissingEquals)
          else if s[k] == '/' || s[k] == '>' then Attribs(k, [a])
          else PrependAttribs([a], LoadAttribs(s, k))
  }

  datatype Outcome = Fail(e: Error) | Done(pos: nat, data: string, children: seq<Tag>)

  datatype Elem = ElemFail(e: Error) | Elem(tag: Tag, next: nat, hasContent: bool)

  function Prepend(ts: seq<Tag>, r: Outcome): Outcome {
    if r.Done? then Done(r.pos, r.data, ts + r.children) else r
  }

  /** The head of a tag whose name begins at `i`: the name, the attributes, and the position of the `/` or `>` behind. */
  function Head(s: string, i: nat): (r: (string, AttribResult))
    ensures r.1.Attribs? ==> i <= r.1.pos < |s|
  {
    var j := FindAny(s, NAME_END, i);
    if j == NPOS then ("", AttribFail(MissingClose))
    else
      var k := if s[j] == ' ' then FindNot(s, BLANK, j + 1) else j;
      if k == NPOS then ("", AttribFail(MissingClose))
      else (s[i..j], if s[k] != '/' && s[k] != '>' then LoadAttribs(s, k) else Attribs(k, []))
  }

  /** One child, whose name begins at `i`. */
  function Element(s: string, i: nat): (r: Elem)
    ensures r.Elem? ==> i < r.next <= |s|
    decreases |s| - i, 0
  {
    var (name, h) := Head(s, i);
    if h.AttribFail? then ElemFail(h.e)
    else if s[h.pos] == '>' then
      var r := Content(s, h.pos + 1, name, false, h.pos + 1, false);
      if r.Fail? then ElemFail(r.e) else Elem(Tag(name, h.attribs, r.data, r.children), r.pos, true)
    else Elem(Tag(name, h.attribs, "", []), h.pos + 1, false)
  }

  /** The content of tag `name` that began at `start`, read from `i` on; `hasChildren` is the flag of the parsing loop. */
  function Content(s: string, start: nat, name: string, isRoot: bool, i: nat, hasChildren: bool): (r: Outcome)
    requires start <= i
    ensures r.Done? ==> i < r.pos <= |s|
    decreases |s| - i, 1
  {
    var j := Find(s, '<', i);
    if j == NPOS then Fail(if isRoot then MissingRoot else MissingEnd)
    else if j + 3 > |s| then Fail(MissingEnd)
    else if s[j + 1] == '?' then
      var k := FindText(s, "?>", j + 1);
      if k == NPOS then Fail(MissingInstructionEnd) else Content(s, start, name, isRoot, k + 2, hasChildren)
    else if s[j + 1] == '!' && s[j + 2] == '-' && At(s, j + 3) == '-' then
      var k := FindText(s, "-->", j + 1);
      if k == NPOS then Fail(MissingCommentEnd) else Content(s, start, name, isRoot, k, hasChildren)
    else if s[j + 1] == '/' then
      if Starts(s, j + 2, name) && At(s, j + 2 + |name|) == '>' then
        Done(j + 2 + |name| + 1, if hasChildren then "" else Loaded(s[start..j], false), [])
      else Fail(MissingEnd)
    else
      var c := Element(s, j + 1);
      if c.ElemFail? then Fail(c.e)
      else if isRoot then
        if Find(s, '<', c.next) != NPOS then Fail(ManyRoots) else Done(|s|, "", [c.tag])
      else Prepend([c.tag], Content(s, start, name, isRoot, c.next, hasChildren || c.hasContent))
  }

  const BOGUS_ROOT := "BOGUSROOT"

  /** `SimpleXML::fromXML`: a text with exactly one root tag. */
  function Parse(s: string): Outcome {
    var r := Content(s, 0, BOGUS_ROOT, true, 0, false);
    if r.Done? && |r.children| != 1 then Fail(ManyRoots) else r
  }

  // ---------------------------------------------------------------- what a round trip keeps

  predicate ValidName(name: string) {
    name != "" && name[0] != '?' && !Starts(name, 0, "!--") && forall c :: c in name ==> c !in NAME_END
  }

  predicate ValidAttribName(name: string) {
    '=' !in name && (name == "" || (name[0] !in BLANK && name[0] != '/' && name[0] != '>'))
  }

  predicate ValidAttribs(a: seq<(string, string)>) {
    forall k :: 0 <= k < |a| ==> ValidAttribName(a[k].0)
  }

  predicate ValidTag(t: Tag) {
    ValidName(t.name) && ValidAttribs(t.attribs) && forall k :: 0 <= k < |t.children| ==> ValidTag(t.children[k])
  }

  /** The attributes as they are loaded. */
  function LoadedAttribs(a: seq<(string, string)>): seq<(string, string)> {
    if a == [] then [] else [(a[0].0, Crlf(a[0].1))] + LoadedAttribs(a[1..])
  }

  /** `u` is `t` as it is loaded; the data of a tag that has children does not matter. */
  ghost predicate IsLoaded(t: Tag, u: Tag)
    decreases t, 1
  {
    && u.name == t.name
    && u.attribs == LoadedAttribs(t.attribs)
    && AllLoaded(t.children, u.children)
    && (t.children == [] ==> u.data == Crlf(t.data))
  }

  ghost predicate AllLoaded(ts: seq<Tag>, us: seq<Tag>)
    decreases ts
  {
    |us| == |ts| && forall k :: 0 <= k < |ts| ==> IsLoaded(ts[k], us[k])
  }

  // ---------------------------------------------------------------- parsing what was printed

  lemma ReadsChar(s: string, i: nat, c: char, b: string)
    requires Reads(s, i, [c] + b)
    ensures i < |s| && s[i] == c && Reads(s, i + 1, b)
  {
    ReadsParts(s, i, [c], b);
    ReadsAt(s, i, [c], 0);
  }

  lemma QuotedParts(s: string, i: nat, n: string, e: string)
    requires Reads(s, i, n + "=\"" + e + "\"")
    ensures var j := i + |n|; var y := j + 2 + |e|;
            && y < |s| && Reads(s, i, n) && s[j] == '=' && s[j + 1] == '"' && Reads(s, j + 2, e) && s[y] == '"'
            && s[i..j] == n && s[j + 2..y] == e
  {
    hide Reads;
    var j := i + |n|;
    var tail := e + "\"";
    assert n + "=\"" + e + "\"" == n + (['='] + (['"'] + tail));
    ReadsParts(s, i, n, ['='] + (['"'] + tail));
    ReadsChar(s, j, '=', ['"'] + tail);
    ReadsChar(s, j + 1, '"', tail);
    ReadsParts(s, j + 2, e, "\"");
    ReadsAt(s, j + 2 + |e|, "\"", 0);
    ReadsMeans(s, i, n);
    ReadsMeans(s, j + 2, e);
  }

  lemma FindHere(s: string, c: char, i: nat)
    requires i < |s| && s[i] == c
    ensures Find(s, c, i) == i
  {
  }

  /** An attribute is found again: its name, its quotes, its value. */
  lemma AttribFound(s: string, i: nat, a: (string, string))
    requires Reads(s, i, OneAttrib(a)) && '=' !in a.0
    ensures var j, y := i + |a.0|, i + |OneAttrib(a)| - 1;
            && j + 2 <= y < |s| && Find(s, '=', i) == j && At(s, j + 1) == '"' && Find(s, '"', j + 2) == y
            && s[i..j] == a.0 && s[j + 2..y] == Escaped(a.1, true)
  {
    hide Escaped, Reads, Find;
    var e := Escaped(a.1, true);
    var j := i + |a.0|;
    QuotedParts(s, i, a.0, e);
    FindSkips(s, '=', i, a.0);
    FindHere(s, '=', j);
    EscapedIsClean(a.1, true, '"');
    FindSkips(s, '"', j + 2, e);
    FindHere(s, '"', j + 2 + |e|);
  }

  lemma LoadedAgain(v: string, attrib: bool)
    ensures Loaded(Escaped(v, attrib), attrib) == Crlf(v)
  {
    DecodeEscaped(v, attrib);
  }

  predicate TagEnd(c: char) { c == '/' || c == '>' }

  /** What stands behind an attribute: the end of the head, or a space and the next attribute. */
  lemma NextAttrib(s: string, i: nat, a: seq<(string, string)>, c: char)
    requires ValidAttribs(a) && TagEnd(c) && Reads(s, i, AttribText(a) + [c])
    ensures i < |s|
    ensures a == [] ==> s[i] == c && FindNot(s, BLANK, i) == i
    ensures a != [] ==>
              && s[i] == ' ' && FindNot(s, BLANK, i + 1) == i + 1 && FindNot(s, BLANK, i) == i + 1 && !TagEnd(s[i + 1])
              && Reads(s, i + 1, OneAttrib(a[0]) + AttribText(a[1..]) + [c])
  {
    hide Escaped;
    if a == [] {
      assert AttribText(a) + [c] == [c] + "";
      ReadsChar(s, i, c, "");
      assert c !in BLANK by { BlankChars(c); }
    } else {
      var rest := OneAttrib(a[0]) + AttribText(a[1..]) + [c];
      assert AttribText(a) + [c] == [' '] + rest;
      ReadsChar(s, i, ' ', rest);
      assert ' ' in BLANK by { assert BLANK[3] == ' '; }
      ReadsAt(s, i + 1, rest, 0);
      assert rest[0] == if a[0].0 == "" then '=' else a[0].0[0];
      assert ValidAttribName(a[0].0);
      BlankChars(s[i + 1]);
    }
  }

  lemma BlankChars(c: char)
    ensures c in BLANK <==> c == '\r' || c == '\n' || c == '\t' || c == ' '
    ensures c in NAME_END <==> c in BLANK || TagEnd(c)
  {
    assert BLANK[0] == '\r' && BLANK[1] == '\n' && BLANK[2] == '\t' && BLANK[3] == ' ';
    assert NAME_END[0] == '\r' && NAME_END[1] == '\n' && NAME_END[2] == '\t' && NAME_END[3] == ' ';
    assert NAME_END[4] == '/' && NAME_END[5] == '>';
  }

  lemma LoadOne(s: string, i: nat, a: (string, string))
    requires Reads(s, i, OneAttrib(a)) && '=' !in a.0
    ensures var k := FindNot(s, BLANK, i + |OneAttrib(a)|);
            LoadAttribs(s, i) ==
            if k == NPOS then AttribFail(MissingEquals)
            else if TagEnd(s[k]) then Attribs(k, [(a.0, Crlf(a.1))])
            else PrependAttribs([(a.0, Crlf(a.1))], LoadAttribs(s, k))
  {
    hide Loaded, Crlf, Escaped, OneAttrib, Find, FindNot, At, Reads;
    AttribFound(s, i, a);
    LoadedAgain(a.1, true);
  }

  /** Printed attributes are loaded again. */
  lemma {:induction false} LoadAttribsPrinted(s: string, i: nat, a: seq<(string, string)>, c: char)
    requires a != [] && ValidAttribs(a) && TagEnd(c)
    requires Reads(s, i, OneAttrib(a[0]) + AttribText(a[1..]) + [c])
    ensures LoadAttribs(s, i) == Attribs(i + |OneAttrib(a[0])| + |AttribText(a[1..])|, LoadedAttribs(a))
    decreases |a|
  {
    hide Escaped, OneAttrib, Crlf, LoadAttribs;
    var k := i + |OneAttrib(a[0])|;
    assert OneAttrib(a[0]) + AttribText(a[1..]) + [c] == OneAttrib(a[0]) + (AttribText(a[1..]) + [c]);
    ReadsParts(s, i, OneAttrib(a[0]), AttribText(a[1..]) + [c]);
    assert ValidAttribName(a[0].0);
    LoadOne(s, i, a[0]);
    NextAttrib(s, k, a[1..], c);
    if a[1..] != [] {
      LoadAttribsPrinted(s, k + 1, a[1..], c);
    }
  }

  /** A head is found again. */
  lemma HeadPrinted(s: string, i: nat, name: string, a: seq<(string, string)>, c: char)
    requires ValidName(name) && ValidAttribs(a) && TagEnd(c)
    requires Reads(s, i, name + (AttribText(a) + [c]))
    ensures var pos := i + |name| + |AttribText(a)|;
            pos < |s| && s[pos] == c && Head(s, i) == (name, Attribs(pos, LoadedAttribs(a)))
  {
    hide AttribText, OneAttrib, LoadAttribs, LoadedAttribs, Reads, FindAny, FindNot;
    var j := i + |name|;
    var pos := j + |AttribText(a)|;
    ReadsParts(s, i, name, AttribText(a) + [c]);
    ReadsMeans(s, i, name);
    FindAnySkips(s, NAME_END, i, name);
    NextAttrib(s, j, a, c);
    BlankChars(s[j]);
    FindAnyHere(s, NAME_END, j);
    ReadsParts(s, j, AttribText(a), [c]);
    ReadsAt(s, pos, [c], 0);
    if a != [] {
      LoadAttribsPrinted(s, j + 1, a, c);
      assert AttribText(a) == " " + OneAttrib(a[0]) + AttribText(a[1..]) by { AttribTextMeans(a); }
    } else {
      AttribTextMeans(a);
    }
  }

  lemma AttribTextMeans(a: seq<(string, string)>)
    ensures a != [] ==> AttribText(a) == " " + OneAttrib(a[0]) + AttribText(a[1..])
    ensures a == [] ==> AttribText(a) == "" && LoadedAttribs(a) == []
  {
  }

  lemma FindAnyHere(s: string, set_: string, i: nat)
    requires i < |s| && s[i] in set_
    ensures FindAny(s, set_, i) == i
  {
  }

  /** Text before the next `<` is skipped. */
  lemma ContentSkips(s: string, start: nat, name: string, isRoot: bool, i: nat, a: string, hasChildren: bool)
    requires start <= i && Reads(s, i, a) && '<' !in a
    ensures Content(s, start, name, isRoot, i, hasChildren) == Content(s, start, name, isRoot, i + |a|, hasChildren)
  {
    hide Find, FindText, Element, Starts, Loaded, Reads, At, Prepend;
    FindSkips(s, '<', i, a);
  }

  /** The end tag. */
  lemma EndTag(s: string, start: nat, name: string, i: nat, a: string, hasChildren: bool)
    requires start <= i && '<' !in a && Reads(s, i, a + ("</" + name + ">"))
    ensures i + |a| <= |s|
    ensures Content(s, start, name, false, i, hasChildren)
         == Done(i + |a| + 3 + |name|, if hasChildren then "" else Loaded(s[start..i + |a|], false), [])
  {
    hide Element, Starts, Loaded, Reads, Find, Content;
    var j := i + |a|;
    ReadsParts(s, i, a, "</" + name + ">");
    ContentSkips(s, start, name, false, i, a, hasChildren);
    assert "</" + name + ">" == ['<'] + (['/'] + (name + ['>']));
    ReadsChar(s, j, '<', ['/'] + (name + ['>']));
    ReadsChar(s, j + 1, '/', name + ['>']);
    ReadsParts(s, j + 2, name, ['>']);
    ReadsAt(s, j + 2 + |name|, ['>'], 0);
    ReadsMeans(s, j + 2, name);
    ReadsMeans(s, j + 2 + |name|, ['>']);
    FindHere(s, '<', j);
    EndTagHere(s, start, name, j, hasChildren);
  }

  lemma EndTagHere(s: string, start: nat, name: string, j: nat, hasChildren: bool)
    requires start <= j && j + 3 + |name| <= |s| && Find(s, '<', j) == j
    requires s[j + 1] == '/' && s[j + 2..j + 2 + |name|] == name && s[j + 2 + |name|] == '>'
    ensures Content(s, start, name, false, j, hasChildren)
         == Done(j + 3 + |name|, if hasChildren then "" else Loaded(s[start..j], false), [])
  {
    hide Element, Loaded, Find;
  }

  lemma {:induction false} TabsLength(n: nat)
    ensures |Tabs(n)| == n && '<' !in Tabs(n)
  {
    if n > 0 { TabsLength(n - 1); }
  }

  /** A name decides that a tag begins. */
  lemma ContentElement(s: string, start: nat, name: string, isRoot: bool, i: nat, hasChildren: bool, tag: string, end: char)
    requires start <= i < |s| && s[i] == '<' && ValidName(tag) && Reads(s, i + 1, tag + [end]) && end != '-'
    ensures var c := Element(s, i + 1);
            Content(s, start, name, isRoot, i, hasChildren) ==
            if c.ElemFail? then Fail(c.e)
            else if isRoot then
              if Find(s, '<', c.next) != NPOS then Fail(ManyRoots) else Done(|s|, "", [c.tag])
            else Prepend([c.tag], Content(s, start, name, isRoot, c.next, hasChildren || c.hasContent))
  {
    hide Element, Find, FindText, Loaded, Starts, Reads, At;
    FindHere(s, '<', i);
    NameBegins(s, i + 1, tag, end);
  }

  lemma NameBegins(s: string, i: nat, tag: string, end: char)
    requires Reads(s, i, tag + [end]) && ValidName(tag) && end != '-'
    ensures i + 2 <= |s| && s[i] != '/' && s[i] != '?' && !(s[i] == '!' && s[i + 1] == '-' && At(s, i + 2) == '-')
  {
    hide Reads, Starts;
    BlankChars(tag[0]);
    var a := tag + [end];
    ReadsMeans(s, i, a);
    ReadsAt(s, i, a, 0);
    ReadsAt(s, i, a, 1);
    if |a| > 2 { ReadsAt(s, i, a, 2); }
    if |tag| > 2 && tag[0] == '!' && tag[1] == '-' && tag[2] == '-' {
      CommentStart(tag);
    }
  }

  lemma CommentStart(tag: string)
    requires |tag| > 2 && tag[0] == '!' && tag[1] == '-' && tag[2] == '-'
    ensures Starts(tag, 0, "!--")
  {
    assert tag[0..3] == "!--";
  }

  predicate Simple(t: Tag) {
    t.children == [] && t.data == ""
  }

  function EndOf(t: Tag): string {
    "</" + t.name + ">"
  }

  lemma BodyParts(s: string, i: nat, t: Tag, n: nat)
    requires Reads(s, i, Body(t, n))
    ensures var c := if Simple(t) then '/' else '>';
            var pos := i + |t.name| + |AttribText(t.attribs)|;
            && Reads(s, i, t.name + (AttribText(t.attribs) + [c]))
            && (if Simple(t) then Reads(s, pos + 1, ">") && pos + 2 == i + |Body(t, n)|
                else Reads(s, pos + 1, Inner(t, n)) && pos + 1 + |Inner(t, n)| == i + |Body(t, n)|)
  {
    hide AttribText, Inner, Reads;
    var c := if Simple(t) then '/' else '>';
    var a := t.name + (AttribText(t.attribs) + [c]);
    var b := if Simple(t) then ">" else Inner(t, n);
    assert Body(t, n) == a + b by {
      assert Closing(t, n) == [c] + b;
    }
    ReadsParts(s, i, a, b);
  }

  /** What `Element` finds behind a printed head. */
  lemma ElementHead(s: string, i: nat, t: Tag, n: nat)
    requires ValidName(t.name) && ValidAttribs(t.attribs) && Reads(s, i, Body(t, n))
    ensures var pos := i + |t.name| + |AttribText(t.attribs)|;
            && pos < |s|
            && Element(s, i) ==
               if Simple(t) then Elem(Tag(t.name, LoadedAttribs(t.attribs), "", []), pos + 1, false)
               else
                 var r := Content(s, pos + 1, t.name, false, pos + 1, false);
                 if r.Fail? then ElemFail(r.e) else Elem(Tag(t.name, LoadedAttribs(t.attribs), r.data, r.children), r.pos, true)
  {
    hide Head, Content, ValidName, ValidAttribs, AttribText, LoadedAttribs, Reads, Simple, Body;
    var c := if Simple(t) then '/' else '>';
    BodyParts(s, i, t, n);
    HeadPrinted(s, i, t.name, t.attribs, c);
  }

  lemma LeafInner(s: string, i: nat, t: Tag, n: nat)
    requires !Simple(t) && t.children == [] && Reads(s, i, Inner(t, n))
    ensures Content(s, i, t.name, false, i, false) == Done(i + |Inner(t, n)|, Crlf(t.data), [])
  {
    hide Content, Crlf, Reads, Escaped, Loaded;
    var a := Escaped(t.data, false);
    assert Inner(t, n) == a + EndOf(t);
    EscapedIsClean(t.data, false, '<');
    EndTag(s, i, t.name, i, a, false);
    ReadsParts(s, i, a, EndOf(t));
    ReadsMeans(s, i, a);
    LoadedAgain(t.data, false);
  }

  /** The line of a printed tag, read from its indentation on. */
  lemma XmlParts(s: string, i: nat, t: Tag, n: nat, rest: string)
    requires Reads(s, i, Xml(t, n) + rest) && ValidName(t.name)
    ensures var j := i + n; var e := j + 1 + |Body(t, n)|;
            && Reads(s, i, Tabs(n)) && '<' !in Tabs(n) && |Tabs(n)| == n
            && j < |s| && s[j] == '<' && Reads(s, j + 1, Body(t, n)) && Reads(s, e, "\r\n") && Reads(s, e + 2, rest)
            && i + |Xml(t, n)| == e + 2
  {
    hide Reads, Body, Tabs, ValidName;
    var j := i + n;
    var b := Body(t, n);
    TabsLength(n);
    assert Xml(t, n) + rest == Tabs(n) + (['<'] + (b + ("\r\n" + rest)));
    ReadsParts(s, i, Tabs(n), ['<'] + (b + ("\r\n" + rest)));
    ReadsChar(s, j, '<', b + ("\r\n" + rest));
    ReadsParts(s, j + 1, b, "\r\n" + rest);
    ReadsParts(s, j + 1 + |b|, "\r\n", rest);
  }

  lemma BodyBegins(s: string, i: nat, t: Tag, n: nat)
    requires Reads(s, i, Body(t, n)) && ValidAttribs(t.attribs)
    ensures exists end :: end != '-' && Reads(s, i, t.name + [end])
  {
    hide Reads, Body;
    BodyParts(s, i, t, n);
    var c := if Simple(t) then '/' else '>';
    var a := AttribText(t.attribs) + [c];
    var end := if t.attribs == [] then c else ' ';
    AttribTextMeans(t.attribs);
    assert t.name + a == (t.name + [end]) + a[1..];
    ReadsParts(s, i, t.name + [end], a[1..]);
  }

  /** One printed child, and then the rest of the content. */
  lemma ChildPrinted(s: string, start: nat, name: string, isRoot: bool, i: nat, hasChildren: bool, t: Tag, n: nat, rest: string)
    requires start <= i && ValidName(t.name) && ValidAttribs(t.attribs) && Reads(s, i, Xml(t, n) + rest)
    requires var c := Element(s, i + n + 1); c.Elem? && EndsAt(s, i + n + 1, t, n, c)
    ensures var c := Element(s, i + n + 1);
            var after := i + |Xml(t, n)|;
            Content(s, start, name, isRoot, i, hasChildren) ==
            if isRoot then
              if Find(s, '<', after) != NPOS then Fail(ManyRoots) else Done(|s|, "", [c.tag])
            else Prepend([c.tag], Content(s, start, name, isRoot, after, hasChildren || c.hasContent))
  {
    hide Reads, Body, Xml, Content, Element, ValidAttribs, ValidName, Find, EndsAt, Tabs;
    XmlParts(s, i, t, n, rest);
    ContentSkips(s, start, name, isRoot, i, Tabs(n), hasChildren);
    BodyBegins(s, i + n + 1, t, n);
    var end :| end != '-' && Reads(s, i + n + 1, t.name + [end]);
    ContentElement(s, start, name, isRoot, i + n, hasChildren, t.name, end);
    var c := Element(s, i + n + 1);
    LineEnd(s, i + n + 1, t, n, c);
    var tail := if c.next == i + n + 1 + |Body(t, n)| then "\r\n" else ">\r\n";
    FindSkips(s, '<', c.next, tail);
    if !isRoot { ContentSkips(s, start, name, isRoot, c.next, tail, hasChildren || c.hasContent); }
  }

  /** Where the parser goes on behind a tag: behind its `>`, or at the `>` of a tag without content. */
  ghost predicate EndsAt(s: string, i: nat, t: Tag, n: nat, c: Elem) {
    c.Elem? && (c.next == i + |Body(t, n)| || (c.next + 1 == i + |Body(t, n)| && Reads(s, c.next, ">")))
  }

  lemma LineEnd(s: string, i: nat, t: Tag, n: nat, c: Elem)
    requires EndsAt(s, i, t, n, c) && Reads(s, i + |Body(t, n)|, "\r\n")
    ensures if c.next == i + |Body(t, n)| then Reads(s, c.next, "\r\n") else c.next + 1 == i + |Body(t, n)| && Reads(s, c.next, ">\r\n")
  {
    hide Body;
    if c.next + 1 == i + |Body(t, n)| {
      assert s[c.next..c.next + 3] == s[c.next..c.next + 1] + s[c.next + 1..c.next + 3];
    }
  }

  /** A printed tag is parsed as the loaded tag. */
  lemma {:induction false} ElementPrinted(s: string, i: nat, t: Tag, n: nat)
    requires ValidTag(t) && Reads(s, i, Body(t, n))
    ensures var c := Element(s, i); c.Elem? && EndsAt(s, i, t, n, c) && IsLoaded(t, c.tag)
    decreases t
  {
    hide Reads, Body, Content, Element, ValidName, ValidAttribs, AttribText, LoadedAttribs, XmlAll, Tabs, Escaped, Crlf, Prepend;
    ElementHead(s, i, t, n);
    BodyParts(s, i, t, n);
    var pos := i + |t.name| + |AttribText(t.attribs)|;
    if Simple(t) {
      assert Crlf("") == "" by { CrlfEmpty(); }
    } else if t.children == [] {
      LeafInner(s, pos + 1, t, n);
    } else {
      var all := XmlAll(t.children, n + 1);
      assert Inner(t, n) == "\r\n" + (all + (Tabs(n) + EndOf(t)));
      ReadsParts(s, pos + 1, "\r\n", all + (Tabs(n) + EndOf(t)));
      ContentSkips(s, pos + 1, t.name, false, pos + 1, "\r\n", false);
      TabsLength(n);
      ChildrenPrinted(s, pos + 1, t, pos + 3, t.children, n + 1, Tabs(n), false);
    }
  }

  lemma CrlfEmpty()
    ensures Crlf("") == ""
  {
  }

  /** Printed children, and the end tag behind them. */
  lemma {:induction false} ChildrenPrinted(s: string, start: nat, p: Tag, i: nat, ts: seq<Tag>, n: nat, a: string, hasChildren: bool)
    requires start <= i && '<' !in a && Reads(s, i, XmlAll(ts, n) + (a + EndOf(p)))
    requires forall k :: 0 <= k < |ts| ==> ValidTag(ts[k])
    ensures var r := Content(s, start, p.name, false, i, hasChildren);
            r.Done? && r.pos == i + |XmlAll(ts, n)| + |a| + |EndOf(p)| && AllLoaded(ts, r.children)
    decreases ts
  {
    hide Reads, Xml, Body, Content, Element, EndsAt, IsLoaded, Find;
    if ts == [] {
      assert XmlAll(ts, n) + (a + EndOf(p)) == a + EndOf(p);
      EndTag(s, start, p.name, i, a, hasChildren);
    } else {
      var t := ts[0];
      var rest := XmlAll(ts[1..], n) + (a + EndOf(p));
      assert XmlAll(ts, n) + (a + EndOf(p)) == Xml(t, n) + rest;
      XmlParts(s, i, t, n, rest);
      ElementPrinted(s, i + n + 1, t, n);
      ChildPrinted(s, start, p.name, false, i, hasChildren, t, n, rest);
      var c := Element(s, i + n + 1);
      ReadsParts(s, i, Xml(t, n), rest);
      ChildrenPrinted(s, start, p, i + |Xml(t, n)|, ts[1..], n, a, hasChildren || c.hasContent);
    }
  }

  // ---------------------------------------------------------------- the round trip

  /** Only newlines that loading leaves alone, in every value that is printed. */
  predicate StableTag(t: Tag) {
    && (forall k :: 0 <= k < |t.attribs| ==> Stable(t.attribs[k].1))
    && (t.children == [] ==> Stable(t.data))
    && (forall k :: 0 <= k < |t.children| ==> StableTag(t.children[k]))
  }

  /** The same names, attributes, children and leaf data. */
  ghost predicate SameTree(t: Tag, u: Tag)
    decreases t, 1
  {
    && u.name == t.name && u.attribs == t.attribs && SameTrees(t.children, u.children)
    && (t.children == [] ==> u.data == t.data)
  }

  ghost predicate SameTrees(ts: seq<Tag>, us: seq<Tag>)
    decreases ts
  {
    |us| == |ts| && forall k :: 0 <= k < |ts| ==> SameTree(ts[k], us[k])
  }

  lemma CrlfKeeps(v: string)
    ensures Crlf(v) == v <==> Stable(v)
    ensures Stable(Crlf(v))
  {
    ValueRoundTrip(v, true);
    LoadedIsStable(Escaped(v, true), true);
    LoadedAgain(v, true);
  }

  lemma {:induction false} LoadedAttribsAt(a: seq<(string, string)>)
    ensures |LoadedAttribs(a)| == |a|
    ensures forall k :: 0 <= k < |a| ==> LoadedAttribs(a)[k] == (a[k].0, Crlf(a[k].1))
    ensures LoadedAttribs(a) == a <==> forall k :: 0 <= k < |a| ==> Stable(a[k].1)
  {
    hide Crlf, Stable;
    if a != [] {
      LoadedAttribsAt(a[1..]);
      CrlfKeeps(a[0].1);
      var la := LoadedAttribs(a);
      assert la[0] == (a[0].0, Crlf(a[0].1)) && la[1..] == LoadedAttribs(a[1..]);
      forall k | 0 <= k < |a| ensures la[k] == (a[k].0, Crlf(a[k].1)) {
        if k > 0 { assert la[k] == LoadedAttribs(a[1..])[k - 1] && a[k] == a[1..][k - 1]; }
      }
      if forall k :: 0 <= k < |a| ==> Stable(a[k].1) {
        assert forall k :: 0 <= k < |a[1..]| ==> a[1..][k] == a[k + 1];
        assert a == [a[0]] + a[1..];
      } else {
        var k :| 0 <= k < |a| && !Stable(a[k].1);
        CrlfKeeps(a[k].1);
        assert la[k] != a[k];
      }
    }
  }

  /** Loading restores a tree exactly when its values are stable, and gives a stable and valid tree anyway. */
  lemma {:induction false} LoadedTree(t: Tag, u: Tag)
    requires ValidTag(t) && IsLoaded(t, u)
    ensures SameTree(t, u) <==> StableTag(t)
    ensures StableTag(u) && ValidTag(u)
    decreases t
  {
    hide Crlf, Stable, ValidName, ValidAttribName, LoadedAttribs;
    LoadedAttribsAt(t.attribs);
    CrlfKeeps(t.data);
    forall k | 0 <= k < |t.attribs| ensures Stable(u.attribs[k].1) && u.attribs[k].0 == t.attribs[k].0 {
      CrlfKeeps(t.attribs[k].1);
    }
    forall k | 0 <= k < |t.children|
      ensures SameTree(t.children[k], u.children[k]) <==> StableTag(t.children[k])
      ensures StableTag(u.children[k]) && ValidTag(u.children[k])
    {
      LoadedTree(t.children[k], u.children[k]);
    }
  }

  /** Trees that differ only in the data of inner tags are printed alike. */
  lemma {:induction false} SamePrint(t: Tag, u: Tag, n: nat)
    requires SameTree(t, u)
    ensures Xml(t, n) == Xml(u, n)
    decreases t
  {
    hide Tabs, AttribText, Escaped, XmlAll;
    if t.children != [] { SamePrints(t.children, u.children, n + 1); }
    assert Inner(t, n) == Inner(u, n);
    assert Closing(t, n) == Closing(u, n);
  }

  lemma {:induction false} SamePrints(ts: seq<Tag>, us: seq<Tag>, n: nat)
    requires SameTrees(ts, us)
    ensures XmlAll(ts, n) == XmlAll(us, n)
    decreases ts
  {
    hide Xml, SameTree;
    if ts != [] {
      SamePrint(ts[0], us[0], n);
      SamePrints(ts[1..], us[1..], n);
    }
  }

  /**
   * Parsing the printed text gives one root: the loaded tree. It has the same names, attributes, children and leaf data
   * exactly when all values are stable, and then it is printed as the same text.
   */
  lemma RoundTrip(t: Tag)
    requires ValidTag(t)
    ensures var r := Parse(Xml(t, 0));
            && r.Done? && |r.children| == 1 && IsLoaded(t, r.children[0])
            && (SameTree(t, r.children[0]) <==> StableTag(t))
            && (StableTag(t) ==> Xml(r.children[0], 0) == Xml(t, 0))
  {
    hide Reads, Body, Xml, Content, Element, EndsAt, IsLoaded, Tabs, ValidName, ValidAttribs, StableTag, SameTree;
    var s := Xml(t, 0);
    assert Reads(s, 0, s + "") by { ReadsAll(s); }
    XmlParts(s, 0, t, 0, "");
    ElementPrinted(s, 1, t, 0);
    ChildPrinted(s, 0, BOGUS_ROOT, true, 0, false, t, 0, "");
    var u := Element(s, 1).tag;
    LoadedTree(t, u);
    if StableTag(t) { SamePrint(t, u, 0); }
  }

  lemma ReadsAll(s: string)
    ensures Reads(s, 0, s + "")
  {
    assert s + "" == s && s[0..|s|] == s;
  }

  /** From the second time on, printing and parsing changes nothing. */
  lemma SecondRoundTrip(t: Tag)
    requires ValidTag(t)
    ensures var first := Parse(Xml(t, 0));
            && first.Done? && |first.children| == 1
            && var u := first.children[0];
            var second := Parse(Xml(u, 0));
            second.Done? && |second.children| == 1 && SameTree(u, second.children[0]) && Xml(second.children[0], 0) == Xml(u, 0)
  {
    hide Parse, Xml, IsLoaded, StableTag, SameTree, ValidTag;
    RoundTrip(t);
    var u := Parse(Xml(t, 0)).children[0];
    LoadedTree(t, u);
    RoundTrip(u);
  }

  // ---------------------------------------------------------------- the loops of `Tag`

  predicate NeedsEscape(v: string, attrib: bool) {
    FindAny(v, Chars(attrib), 0) != NPOS
  }

  lemma NoEscape(v: string, attrib: bool)
    requires !NeedsEscape(v, attrib)
    ensures Escaped(v, attrib) == v
  {
    hide FindAny;
    Untouched(v, 0, |v|, attrib);
    assert v[0..] == v && v[0..|v|] == v && v[|v|..] == "";
  }

  method EscapeIfNeeded(v: string, attrib: bool) returns (s: string)
    ensures s == Escaped(v, attrib)
  {
    if NeedsEscape(v, attrib) {
      s := EscapeSaving(v, attrib);
    } else {
      NoEscape(v, attrib);
      s := v;
    }
  }

  lemma AttribTextStep(a: seq<(string, string)>, k: nat)
    requires k < |a|
    ensures AttribText(a[k..]) == " " + OneAttrib(a[k]) + AttribText(a[k + 1..])
  {
    hide OneAttrib;
    assert a[k..][1..] == a[k + 1..];
  }

  /** The attributes behind the tag name and a space; the space behind the last one is erased. */
  method AppendAttribString(head: string, attribs: seq<(string, string)>) returns (tmp: string)
    requires head != "" && head[|head| - 1] == ' '
    ensures tmp == head[..|head| - 1] + AttribText(attribs)
  {
    hide Escaped, AttribText, Chars, FindAny;
    tmp := head;
    var i := 0;
    assert attribs[0..] == attribs;
    while i < |attribs|
      invariant 0 <= i <= |attribs|
      invariant tmp != "" && tmp[|tmp| - 1] == ' '
      invariant tmp[..|tmp| - 1] + AttribText(attribs[i..]) == head[..|head| - 1] + AttribText(attribs)
    {
      ghost var was := tmp;
      tmp := tmp + attribs[i].0;
      tmp := tmp + "=\"";
      var v := EscapeIfNeeded(attribs[i].1, true);
      tmp := tmp + v;
      tmp := tmp + "\" ";
      AttribTextStep(attribs, i);
      Appended(was, attribs[i], tmp, AttribText(attribs[i + 1..]));
      i := i + 1;
    }
    assert AttribText(attribs[i..]) == "" by { AttribTextMeans(attribs[i..]); }
    tmp := tmp[..|tmp| - 1];
  }

  lemma Appended(was: string, a: (string, string), tmp: string, rest: string)
    requires was != "" && was[|was| - 1] == ' ' && tmp == was + a.0 + "=\"" + Escaped(a.1, true) + "\" "
    ensures tmp[|tmp| - 1] == ' ' && tmp[..|tmp| - 1] + rest == was[..|was| - 1] + (" " + OneAttrib(a) + rest)
  {
    hide Escaped;
    var w := was[..|was| - 1];
    assert was == w + " ";
    assert tmp == (w + (" " + OneAttrib(a))) + " ";
    assert tmp[..|tmp| - 1] == w + (" " + OneAttrib(a));
  }

  lemma XmlShape(t: Tag, n: nat)
    ensures var head := Tabs(n) + "<" + t.name + AttribText(t.attribs);
            && (Simple(t) ==> Xml(t, n) == head + "/>\r\n")
            && (!Simple(t) ==> Xml(t, n) == head + (">" + Within(t, n) + "</" + t.name + ">\r\n"))
  {
    hide Within, AttribText, Tabs;
    if Simple(t) {
      assert Closing(t, n) + "\r\n" == "/>\r\n";
    } else {
      assert Closing(t, n) + "\r\n" == ">" + Within(t, n) + "</" + t.name + ">\r\n";
    }
    assert Xml(t, n) == Tabs(n) + "<" + t.name + AttribText(t.attribs) + (Closing(t, n) + "\r\n");
  }

  lemma WithinMeans(t: Tag, n: nat)
    ensures Simple(t) <==> |t.children| == 0 && |t.data| == 0
    ensures Within(t, n) == if |t.children| == 0 then Escaped(t.data, false) else "\r\n" + XmlAll(t.children, n + 1) + Tabs(n)
  {
  }

  method ToXML(t: Tag, indent: nat) returns (tmp: string)
    ensures tmp == Xml(t, indent)
    decreases t
  {
    hide *;
    tmp := Tabs(indent) + "<" + t.name + " ";
    assert tmp[..|tmp| - 1] == Tabs(indent) + "<" + t.name;
    tmp := AppendAttribString(tmp, t.attribs);
    ghost var head := tmp;
    XmlShape(t, indent);
    WithinMeans(t, indent);
    if |t.children| == 0 && |t.data| == 0 {
      tmp := tmp + "/>\r\n";
    } else {
      ghost var inner;
      if |t.children| == 0 {
        tmp := tmp + ">";
        var v := EscapeIfNeeded(t.data, false);
        tmp := tmp + v;
        inner := v;
        assert tmp == head + (">" + inner);
      } else {
        tmp := tmp + ">\r\n";
        var i := 0;
        assert t.children[0..] == t.children;
        while i < |t.children|
          invariant 0 <= i <= |t.children|
          invariant tmp + XmlAll(t.children[i..], indent + 1) == head + ">\r\n" + XmlAll(t.children, indent + 1)
        {
          var child := ToXML(t.children[i], indent + 1);
          XmlAllStep(t.children, i, indent + 1);
          tmp := tmp + child;
          i := i + 1;
        }
        XmlAllEmpty(t.children[i..], indent + 1);
        assert tmp + "" == tmp;
        tmp := tmp + Tabs(indent);
        inner := "\r\n" + XmlAll(t.children, indent + 1) + Tabs(indent);
        assert tmp == head + (">" + inner);
      }
      tmp := tmp + "</";
      tmp := tmp + t.name;
      tmp := tmp + ">\r\n";
      assert tmp == head + (">" + inner + "</" + t.name + ">\r\n");
    }
  }

  lemma XmlAllStep(ts: seq<Tag>, k: nat, n: nat)
    requires k < |ts|
    ensures XmlAll(ts[k..], n) == Xml(ts[k], n) + XmlAll(ts[k + 1..], n)
  {
    hide Xml;
    assert ts[k..][1..] == ts[k + 1..];
  }

  lemma XmlAllEmpty(ts: seq<Tag>, n: nat)
    requires ts == []
    ensures XmlAll(ts, n) == ""
  {
  }

  lemma PrependAttribsTwice(a: seq<(string, string)>, b: seq<(string, string)>, r: AttribResult)
    ensures PrependAttribs(a, PrependAttribs(b, r)) == PrependAttribs(a + b, r)
    ensures r.Attribs? ==> PrependAttribs(a, r) == Attribs(r.pos, a + r.attribs)
  {
    if r.Attribs? { assert a + (b + r.attribs) == (a + b) + r.attribs; }
  }

  /** `loadAttribs`: the attributes, and the position behind them. */
  method LoadAttribsLoop(tmp: string, start: nat) returns (r: AttribResult)
    ensures r == LoadAttribs(tmp, start)
  {
    hide LoadAttribs, Find, FindNot, Loaded, Crlf, Decoded;
    var attribs: seq<(string, string)> := [];
    var i := start;
    PrependAttribsNone(LoadAttribs(tmp, i));
    while true
      invariant PrependAttribs(attribs, LoadAttribs(tmp, i)) == LoadAttribs(tmp, start)
      decreases |tmp| - i
    {
      LoadAttribsTurn(tmp, i);
      var j := Find(tmp, '=', i);
      if j == NPOS { return AttribFail(MissingEquals); }
      var q := At(tmp, j + 1);
      if q != '"' && q != '\'' { return AttribFail(BadQuote); }
      var x := j + 2;
      var y := Find(tmp, q, x);
      if y == NPOS { return AttribFail(MissingQuote); }
      var value := EscapeLoading(tmp[x..y], true);
      var a := [(tmp[i..j], value)];
      var k := FindNot(tmp, BLANK, y + 1);
      if k == NPOS { return AttribFail(MissingEquals); }
      PrependAttribsTwice(attribs, a, LoadAttribs(tmp, k));
      attribs := attribs + a;
      if tmp[k] == '/' || tmp[k] == '>' { return Attribs(k, attribs); }
      i := k;
    }
  }

  lemma PrependAttribsNone(r: AttribResult)
    ensures PrependAttribs([], r) == r
  {
    if r.Attribs? { assert [] + r.attribs == r.attribs; }
  }

  /** One turn of the loop of `loadAttribs`. */
  lemma LoadAttribsTurn(s: string, i: nat)
    ensures LoadAttribs(s, i) ==
            var j := Find(s, '=', i);
            if j == NPOS then AttribFail(MissingEquals)
            else
              var q := At(s, j + 1);
              if q != '"' && q != '\'' then AttribFail(BadQuote)
              else
                var y := Find(s, q, j + 2);
                if y == NPOS then AttribFail(MissingQuote)
                else
                  var a := (s[i..j], Loaded(s[j + 2..y], true));
                  var k := FindNot(s, BLANK, y + 1);
                  if k == NPOS then AttribFail(MissingEquals)
                  else if s[k] == '/' || s[k] == '>' then Attribs(k, [a])
                  else PrependAttribs([a], LoadAttribs(s, k))
  {
  }

  lemma PrependTwice(a: seq<Tag>, b: seq<Tag>, r: Outcome)
    ensures Prepend(a, Prepend(b, r)) == Prepend(a + b, r)
    ensures r.Done? ==> Prepend(a, r) == Done(r.pos, r.data, a + r.children)
    ensures r.Fail? ==> Prepend(a, r) == r
  {
    if r.Done? { assert a + (b + r.children) == (a + b) + r.children; }
  }

  /** `fromXML`: the content of a tag that begins at `start`. */
  method FromXML(tmp: string, start: nat, name: string, isRoot: bool) returns (r: Outcome)
    requires start <= |tmp|
    ensures r == Content(tmp, start, name, isRoot, start, false)
    decreases |tmp| - start, 1
  {
    hide *;
    var i := start;
    var hasChildren := false;
    var children: seq<Tag> := [];
    PrependNone(Content(tmp, start, name, isRoot, start, false));
    while true
      invariant start <= i <= |tmp|
      invariant Prepend(children, Content(tmp, start, name, isRoot, i, hasChildren)) == Content(tmp, start, name, isRoot, start, false)
      invariant isRoot ==> children == []
      decreases |tmp| - i
    {
      ContentTurn(tmp, start, name, isRoot, i, hasChildren);
      PrependEnds(children);
      var j := Find(tmp, '<', i);
      if j == NPOS { return if isRoot then Fail(MissingRoot) else Fail(MissingEnd); }
      if j + 3 > |tmp| { return Fail(MissingEnd); }
      i := j + 1;
      if tmp[i] == '?' {
        var k := FindText(tmp, "?>", i);
        if k == NPOS { return Fail(MissingInstructionEnd); }
        StartsMeans(tmp, k, "?>");
        i := k + 2;
        continue;
      }
      if tmp[i] == '!' && tmp[i + 1] == '-' && At(tmp, i + 2) == '-' {
        var k := FindText(tmp, "-->", i);
        if k == NPOS { return Fail(MissingCommentEnd); }
        StartsMeans(tmp, k, "-->");
        i := k;
        continue;
      }
      if tmp[i] == '/' {
        i := i + 1;
        if Starts(tmp, i, name) && At(tmp, i + |name|) == '>' {
          var data := "";
          if !hasChildren {
            data := EscapeLoading(tmp[start..i - 2], false);
          }
          return Done(i + |name| + 1, data, children);
        } else {
          return Fail(MissingEnd);
        }
      }
      var c := ReadChild(tmp, i);
      if c.ElemFail? { return Fail(c.e); }
      hasChildren := hasChildren || c.hasContent;
      i := c.next;
      if !isRoot { PrependTwice(children, [c.tag], Content(tmp, start, name, isRoot, i, hasChildren)); }
      children := children + [c.tag];
      if isRoot {
        assert children == [c.tag];
        if Find(tmp, '<', i) != NPOS { return Fail(ManyRoots); }
        return Done(|tmp|, "", children);
      }
    }
  }

  /** The part of that loop that reads a child, whose name begins at `i`. */
  method ReadChild(tmp: string, i: nat) returns (e: Elem)
    requires i <= |tmp|
    ensures e == Element(tmp, i)
    decreases |tmp| - i, 0
  {
    hide *;
    ElementTurn(tmp, i);
    var j := FindAny(tmp, NAME_END, i);
    if j == NPOS { return ElemFail(MissingClose); }
    var name := tmp[i..j];
    if tmp[j] == ' ' { j := FindNot(tmp, BLANK, j + 1); }
    if j == NPOS { return ElemFail(MissingClose); }
    var attribs := [];
    if tmp[j] != '/' && tmp[j] != '>' {
      var h := LoadAttribsLoop(tmp, j);
      if h.AttribFail? { return ElemFail(h.e); }
      attribs := h.attribs;
      j := h.pos;
    }
    if tmp[j] == '>' {
      var r := FromXML(tmp, j + 1, name, false);
      if r.Fail? { return ElemFail(r.e); }
      e := Elem(Tag(name, attribs, r.data, r.children), r.pos, true);
    } else {
      e := Elem(Tag(name, attribs, "", []), j + 1, false);
    }
  }

  /** One turn of the loop of `fromXML`. */
  lemma ContentTurn(s: string, start: nat, name: string, isRoot: bool, i: nat, hasChildren: bool)
    requires start <= i
    ensures Content(s, start, name, isRoot, i, hasChildren) ==
            var j := Find(s, '<', i);
            if j == NPOS then Fail(if isRoot then MissingRoot else MissingEnd)
            else if j + 3 > |s| then Fail(MissingEnd)
            else if s[j + 1] == '?' then
              var k := FindText(s, "?>", j + 1);
              if k == NPOS then Fail(MissingInstructionEnd) else Content(s, start, name, isRoot, k + 2, hasChildren)
            else if s[j + 1] == '!' && s[j + 2] == '-' && At(s, j + 3) == '-' then
              var k := FindText(s, "-->", j + 1);
              if k == NPOS then Fail(MissingCommentEnd) else Content(s, start, name, isRoot, k, hasChildren)
            else if s[j + 1] == '/' then
              if Starts(s, j + 2, name) && At(s, j + 2 + |name|) == '>' then
                Done(j + 2 + |name| + 1, if hasChildren then "" else Loaded(s[start..j], false), [])
              else Fail(MissingEnd)
            else
              var c := Element(s, j + 1);
              if c.ElemFail? then Fail(c.e)
              else if isRoot then
                if Find(s, '<', c.next) != NPOS then Fail(ManyRoots) else Done(|s|, "", [c.tag])
              else Prepend([c.tag], Content(s, start, name, isRoot, c.next, hasChildren || c.hasContent))
  {
    hide Element, Find, FindText, Starts, At, Loaded, Prepend;
  }

  /** The part of the loop that reads a child. */
  lemma ElementTurn(s: string, i: nat)
    ensures Element(s, i) ==
            var j := FindAny(s, NAME_END, i);
            if j == NPOS then ElemFail(MissingClose)
            else
              var k := if s[j] == ' ' then FindNot(s, BLANK, j + 1) else j;
              if k == NPOS then ElemFail(MissingClose)
              else
                var h := if s[k] != '/' && s[k] != '>' then LoadAttribs(s, k) else Attribs(k, []);
                if h.AttribFail? then ElemFail(h.e)
                else if s[h.pos] == '>' then
                  var r := Content(s, h.pos + 1, s[i..j], false, h.pos + 1, false);
                  if r.Fail? then ElemFail(r.e) else Elem(Tag(s[i..j], h.attribs, r.data, r.children), r.pos, true)
                else Elem(Tag(s[i..j], h.attribs, "", []), h.pos + 1, false)
  {
    hide Content, FindAny, FindNot, LoadAttribs;
  }

  lemma PrependEnds(ts: seq<Tag>)
    ensures forall e :: Prepend(ts, Fail(e)) == Fail(e)
    ensures forall pos, data, us :: Prepend(ts, Done(pos, data, us)) == Done(pos, data, ts + us)
  {
  }

  lemma StartsMeans(s: string, i: nat, p: string)
    requires Starts(s, i, p)
    ensures i + |p| <= |s|
  {
  }

  lemma PrependNone(r: Outcome)
    ensures Prepend([], r) == r
  {
    if r.Done? { assert [] + r.children == r.children; }
  }

  /** `SimpleXML::fromXML`. */
  method Load(text: string) returns (r: Outcome)
    ensures r == Parse(text)
  {
    r := FromXML(text, 0, BOGUS_ROOT, true);
    if r.Done? && |r.children| != 1 { return Fail(ManyRoots); }
  }
}
