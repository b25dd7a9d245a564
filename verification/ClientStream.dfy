/** Stream framing of adchpp/Client.cpp: chunks of bytes become commands, bad lines and binary data. */
module ClientStream {
  import opened Basics

  /** What a line is to `AdcCommand` and to the check of its sender. */
  datatype Verdict = Malformed | WrongSender | Accepted

  /** What a handler does: the new state of the hub, a call of `setDataMode`, a call of `disconnect`. */
  datatype Reaction<App> = Reaction(app: App, dataMode: Option<int>, disconnect: bool)

  /** A handler of a command may end with a `ParseException`, after what it has done so far. */
  datatype Handling<App> = Handling(reaction: Reaction<App>, throws: bool)

  /** What the client tells the hub. Blank lines are dropped. */
  datatype Event = Command(line: seq<byte>) | BadLine(line: seq<byte>) | Blank | Data(b: byte) | TooLong | InvalidSid

  /** The hub, as far as a client sees it: its settings and its deterministic handlers. */
  datatype Env<!App> = Env(maxCommandSize: int, judge: seq<byte> -> Verdict, onReceive: (App, seq<byte>) -> Handling<App>,
                          onBadLine: (App, seq<byte>) -> Reaction<App>, onByte: (App, byte) -> App)

  datatype State<App> = State(app: App, buffer: seq<byte>, dataBytes: int, disconnecting: bool, log: seq<Event>)

  // ---------------------------------------------------------------- one byte at a time

  /** The state after a handler. */
  function React<App>(s: State<App>, r: Reaction<App>): State<App> {
    s.(app := r.app, dataBytes := if r.dataMode.Some? then r.dataMode.value else s.dataBytes,
       disconnecting := s.disconnecting || r.disconnect)
  }

  /** The line is handled. */
  function Done<App>(s: State<App>, e: Event): State<App> {
    s.(buffer := [], log := s.log + [e])
  }

  function Bad<App>(env: Env<App>, s: State<App>): State<App> {
    Done(React(s, env.onBadLine(s.app, s.buffer)), BadLine(s.buffer))
  }

  /** A line is complete: it ends with a newline. */
  function Line<App>(env: Env<App>, s: State<App>): State<App> {
    if env.maxCommandSize > 0 && |s.buffer| > env.maxCommandSize then s.(disconnecting := true, log := s.log + [TooLong])
    else if |s.buffer| == 1 then s.(buffer := [], log := s.log + [Blank])
    else
      match env.judge(s.buffer)
      case WrongSender => s.(disconnecting := true, log := s.log + [InvalidSid])
      case Accepted =>
        var h := env.onReceive(s.app, s.buffer);
        var s' := React(s, h.reaction);
        if h.throws then Bad(env, s') else Done(s', Command(s.buffer))
      case Malformed => Bad(env, s)
  }

  function Step<App>(env: Env<App>, s: State<App>, b: byte): State<App> {
    if s.disconnecting then s
    else if s.dataBytes > 0 then s.(app := env.onByte(s.app, b), dataBytes := s.dataBytes - 1, log := s.log + [Data(b)])
    else
      var s' := s.(buffer := s.buffer + [b]);
      if b == 10 then Line(env, s') else s'
  }

  /** The meaning of a stream: its bytes one after the other. */
  function Feed<App>(env: Env<App>, s: State<App>, bs: seq<byte>): State<App>
    decreases |bs|
  {
    if bs == [] then s else Step(env, Feed(env, s, bs[..|bs| - 1]), bs[|bs| - 1])
  }

  lemma {:induction false} FeedThen<App>(env: Env<App>, s: State<App>, a: seq<byte>, b: seq<byte>)
    ensures Feed(env, s, a + b) == Feed(env, Feed(env, s, a), b)
    decreases |b|
  {
    if b == [] {
      assert a + b == a;
    } else {
      FeedThen(env, s, a, b[..|b| - 1]);
      assert (a + b)[..|a + b| - 1] == a + b[..|b| - 1];
    }
  }

  /** After a disconnect nothing happens. */
  lemma {:induction false} FeedStops<App>(env: Env<App>, s: State<App>, bs: seq<byte>)
    requires s.disconnecting
    ensures Feed(env, s, bs) == s
    decreases |bs|
  {
    if bs != [] { FeedStops(env, s, bs[..|bs| - 1]); }
  }

  function DataEvents(bs: seq<byte>): seq<Event> {
    seq(|bs|, i requires 0 <= i < |bs| => Data(bs[i]))
  }

  function Absorb<App>(env: Env<App>, app: App, bs: seq<byte>): App
    decreases |bs|
  {
    if bs == [] then app else env.onByte(Absorb(env, app, bs[..|bs| - 1]), bs[|bs| - 1])
  }

  /** Data mode takes bytes, newlines included, until `dataBytes` of them have come. */
  lemma {:induction false} FeedData<App>(env: Env<App>, s: State<App>, bs: seq<byte>)
    requires !s.disconnecting && |bs| <= s.dataBytes
    ensures Feed(env, s, bs) == s.(app := Absorb(env, s.app, bs), dataBytes := s.dataBytes - |bs|, log := s.log + DataEvents(bs))
    decreases |bs|
  {
    if bs == [] {
      assert s.log + DataEvents(bs) == s.log;
    } else {
      FeedData(env, s, bs[..|bs| - 1]);
      assert DataEvents(bs) == DataEvents(bs[..|bs| - 1]) + [Data(bs[|bs| - 1])];
    }
  }

  /** Outside data mode bytes other than newlines are kept. */
  lemma {:induction false} FeedText<App>(env: Env<App>, s: State<App>, bs: seq<byte>)
    requires !s.disconnecting && s.dataBytes <= 0 && 10 !in bs
    ensures Feed(env, s, bs) == s.(buffer := s.buffer + bs)
    decreases |bs|
  {
    if bs == [] {
      assert s.buffer + bs == s.buffer;
    } else {
      FeedText(env, s, bs[..|bs| - 1]);
      assert s.buffer + bs == s.buffer + bs[..|bs| - 1] + [bs[|bs| - 1]];
    }
  }

  // ---------------------------------------------------------------- conservation

  /** The bytes that an event accounts for. */
  function BytesOf(e: Event): seq<byte> {
    match e
    case Command(line) => line
    case BadLine(line) => line
    case Blank => [10]
    case Data(b) => [b]
    case _ => []
  }

  function Delivered(log: seq<Event>): seq<byte> {
    if log == [] then [] else Delivered(log[..|log| - 1]) + BytesOf(log[|log| - 1])
  }

  /** How many of the bytes are taken before a disconnect. */
  function Taken<App>(env: Env<App>, s: State<App>, bs: seq<byte>): (n: nat)
    ensures n <= |bs|
    decreases |bs|
  {
    if bs == [] then 0
    else Taken(env, s, bs[..|bs| - 1]) + if Feed(env, s, bs[..|bs| - 1]).disconnecting then 0 else 1
  }

  /** Lines are buffered only outside data mode. */
  ghost predicate Sound<App>(s: State<App>) {
    s.dataBytes > 0 ==> s.buffer == []
  }

  lemma StepConserves<App>(env: Env<App>, s: State<App>, b: byte)
    requires !s.disconnecting && Sound(s)
    ensures Delivered(Step(env, s, b).log) + Step(env, s, b).buffer == Delivered(s.log) + s.buffer + [b]
    ensures Sound(Step(env, s, b)) || Step(env, s, b).disconnecting
  {
    var s' := Step(env, s, b);
    if s.dataBytes > 0 {
      assert s'.log[..|s'.log| - 1] == s.log;
      assert Delivered(s'.log) + s'.buffer == Delivered(s.log) + [b];
    } else {
      var line := s.buffer + [b];
      assert Delivered(s.log) + line == Delivered(s.log) + s.buffer + [b];
      if b == 10 { LineConserves(env, s.(buffer := line)); }
    }
  }

  lemma LineConserves<App>(env: Env<App>, s: State<App>)
    requires s.buffer != [] && s.buffer[|s.buffer| - 1] == 10 && s.dataBytes <= 0
    ensures Delivered(Line(env, s).log) + Line(env, s).buffer == Delivered(s.log) + s.buffer
    ensures Sound(Line(env, s))
  {
    var s' := Line(env, s);
    assert s'.log[..|s'.log| - 1] == s.log;
    if |s.buffer| == 1 { assert s.buffer == [10]; }
  }

  /** Every byte taken before a disconnect goes, in order, to exactly one of: a command, a bad line, a dropped blank line, the data
      handler, or the line in progress. Without a disconnect all bytes are taken. */
  lemma {:induction false} Conservation<App>(env: Env<App>, s: State<App>, bs: seq<byte>)
    requires Sound(s)
    ensures var s' := Feed(env, s, bs); var n := Taken(env, s, bs);
            && Delivered(s'.log) + s'.buffer == Delivered(s.log) + s.buffer + bs[..n]
            && (!s'.disconnecting ==> n == |bs| && Sound(s'))
    decreases |bs|
  {
    if bs == [] {
      Nothing(Delivered(s.log) + s.buffer, bs);
    } else {
      var bs0, b := bs[..|bs| - 1], bs[|bs| - 1];
      Conservation(env, s, bs0);
      var s0, n0 := Feed(env, s, bs0), Taken(env, s, bs0);
      if s0.disconnecting {
        assert Step(env, s0, b) == s0;
        assert bs[..n0] == bs0[..n0];
      } else {
        StepConserves(env, s0, b);
        hide Step;
        hide Delivered;
        hide Taken;
        hide Feed;
        OneMore(Delivered(s.log) + s.buffer, bs);
      }
    }
  }

  lemma Nothing(a: seq<byte>, bs: seq<byte>)
    requires bs == []
    ensures a + bs[..0] == a
  {
  }

  lemma OneMore(a: seq<byte>, bs: seq<byte>)
    requires bs != []
    ensures a + bs[..|bs| - 1][..|bs| - 1] + [bs[|bs| - 1]] == a + bs[..|bs|]
  {
  }

  // ---------------------------------------------------------------- the implementation

  class Client<App> {
    var app: App
    var buffer: Option<seq<byte>>
    var dataBytes: int
    var disconnecting: bool
    var log: seq<Event>
    const cm: Env<App>

    constructor (cm: Env<App>, app: App)
      ensures Valid() && Abstract() == State(app, [], 0, false, []) && this.cm == cm
    {
      this.cm, this.app := cm, app;
      buffer, dataBytes, disconnecting, log := None, 0, false, [];
    }

    /** There is no empty buffer. */
    ghost predicate Valid()
      reads this
    {
      buffer != Some([])
    }

    ghost function Abstract(): State<App>
      reads this
    {
      State(app, if buffer.Some? then buffer.value else [], dataBytes, disconnecting, log)
    }

    method OnData(data: seq<byte>)
      requires Valid()
      modifies this
      ensures Valid() && Abstract() == Feed(cm, old(Abstract()), data)
    {
      hide *;
      var done, len := 0, |data|;
      IsDisconnecting();
      FedNone(cm, old(Abstract()), data);
      while !disconnecting && done < len
        invariant 0 <= done <= len && Valid() && Abstract().disconnecting == disconnecting
        invariant Abstract() == Feed(cm, old(Abstract()), data[..done])
        decreases len - done
      {
        ghost var done0 := done;
        if dataBytes > 0 {
          done := TakeData(data, done);
        } else {
          done := TakeText(data, done);
        }
        FedMore(cm, old(Abstract()), data, done0, done);
        IsDisconnecting();
      }
      FedAll(cm, old(Abstract()), data, done);
    }

    lemma IsDisconnecting()
      ensures Abstract().disconnecting == disconnecting
    {
    }

    /** The data handler gets what it still wants of the chunk. */
    method TakeData(data: seq<byte>, done: nat) returns (done': nat)
      requires Valid() && !disconnecting && done < |data| && dataBytes > 0
      modifies this
      ensures Valid() && done < done' <= |data| && Abstract() == Feed(cm, old(Abstract()), data[done..done'])
    {
      var n := if dataBytes <= |data| - done then dataBytes else |data| - done;
      FeedData(cm, Abstract(), data[done..done + n]);
      app := Absorb(cm, app, data[done..done + n]);
      log := log + DataEvents(data[done..done + n]);
      dataBytes := dataBytes - n;
      done' := done + n;
    }

    /** Up to a newline, or to the end of the chunk. */
    method TakeText(data: seq<byte>, done: nat) returns (done': nat)
      requires Valid() && !disconnecting && done < |data| && dataBytes <= 0
      modifies this
      ensures Valid() && done < done' <= |data| && Abstract() == Feed(cm, old(Abstract()), data[done..done'])
    {
      hide *;
      var j := NextNewline(data, done);
      ghost var s := Abstract();
      Holding();
      if j == |data| {
        FeedText(cm, s, data[done..j]);
        Keep(data[done..j]);
        return j;
      }
      FeedLine(cm, s, data[done..j]);
      assert data[done..j] + [10] == data[done..j + 1];
      Keep(data[done..j + 1]);
      EndOfLine();
      done' := j + 1;
    }

    /** The search for the end of the line, which is a newline: byte 10. */
    static method NextNewline(data: seq<byte>, done: nat) returns (j: nat)
      requires done < |data|
      ensures done <= j <= |data| && 10 !in data[done..j] && (j < |data| ==> data[j] == 10)
    {
      j := done;
      while j < |data| && data[j] != 10
        invariant done <= j <= |data| && 10 !in data[done..j]
        decreases |data| - j
      {
        j := j + 1;
      }
    }

    /** Appends to the line in progress. */
    method Keep(bs: seq<byte>)
      requires Valid() && bs != []
      modifies this`buffer
      ensures Valid() && buffer.Some? && Abstract() == old(Abstract()).(buffer := old(Abstract()).buffer + bs)
    {
      buffer := Some(if buffer.Some? then buffer.value + bs else bs);
    }

    lemma Holding()
      ensures Abstract().disconnecting == disconnecting && Abstract().dataBytes == dataBytes
    {
    }

    /** A whole line is in the buffer. */
    method EndOfLine()
      requires Valid() && buffer.Some?
      modifies this
      ensures Valid() && Abstract() == Line(cm, old(Abstract()))
    {
      var line := buffer.value;
      if cm.maxCommandSize > 0 && |line| > cm.maxCommandSize {
        log := log + [TooLong];
        disconnecting := true;
        return;
      }
      if |line| == 1 {
        buffer := None;
        log := log + [Blank];
        return;
      }
      match cm.judge(line)
      case WrongSender =>
        log := log + [InvalidSid];
        disconnecting := true;
      case Accepted =>
        var h := cm.onReceive(app, line);
        Handle(h.reaction);
        if h.throws {
          Handle(cm.onBadLine(app, line));
          log := log + [BadLine(line)];
        } else {
          log := log + [Command(line)];
        }
        buffer := None;
      case Malformed =>
        Handle(cm.onBadLine(app, line));
        log := log + [BadLine(line)];
        buffer := None;
    }

    /** What a handler did to the client. */
    method Handle(r: Reaction<App>)
      modifies this`app, this`dataBytes, this`disconnecting
      ensures app == r.app && disconnecting == (old(disconnecting) || r.disconnect)
      ensures dataBytes == if r.dataMode.Some? then r.dataMode.value else old(dataBytes)
    {
      app := r.app;
      if r.dataMode.Some? {
        dataBytes := r.dataMode.value;
      }
      if r.disconnect {
        disconnecting := true;
      }
    }

    /** Any split of a stream has the same effect. */
    method OnChunks(chunks: seq<seq<byte>>)
      requires Valid()
      modifies this
      ensures Valid() && Abstract() == Feed(cm, old(Abstract()), Concat(chunks))
    {
      var i := 0;
      while i < |chunks|
        invariant 0 <= i <= |chunks| && Valid() && Abstract() == Feed(cm, old(Abstract()), Concat(chunks[..i]))
      {
        OnData(chunks[i]);
        FeedThen(cm, old(Abstract()), Concat(chunks[..i]), chunks[i]);
        ConcatAppend(chunks[..i], chunks[i]);
        assert chunks[..i + 1] == chunks[..i] + [chunks[i]];
        i := i + 1;
      }
      assert chunks[..i] == chunks;
    }
  }

  lemma FeedLine<App>(env: Env<App>, s: State<App>, bs: seq<byte>)
    requires !s.disconnecting && s.dataBytes <= 0 && 10 !in bs
    ensures Feed(env, s, bs + [10]) == Line(env, s.(buffer := s.buffer + (bs + [10])))
  {
    FeedText(env, s, bs);
    assert (bs + [10])[..|bs|] == bs;
    assert s.buffer + bs + [10] == s.buffer + (bs + [10]);
  }

  lemma FedNone<App>(env: Env<App>, s: State<App>, data: seq<byte>)
    ensures Feed(env, s, data[..0]) == s
  {
  }

  lemma FedMore<App>(env: Env<App>, s: State<App>, data: seq<byte>, done: nat, done': nat)
    requires done <= done' <= |data|
    ensures Feed(env, s, data[..done']) == Feed(env, Feed(env, s, data[..done]), data[done..done'])
  {
    FeedThen(env, s, data[..done], data[done..done']);
    assert data[..done'] == data[..done] + data[done..done'];
  }

  lemma FedAll<App>(env: Env<App>, s: State<App>, data: seq<byte>, done: nat)
    requires done <= |data| && (Feed(env, s, data[..done]).disconnecting || done == |data|)
    ensures Feed(env, s, data) == Feed(env, s, data[..done])
  {
    FedMore(env, s, data, done, |data|);
    assert data[..|data|] == data;
    if done == |data| { assert data[done..] == []; } else { FeedStops(env, Feed(env, s, data[..done]), data[done..]); }
  }
}
