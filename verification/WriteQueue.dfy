/** The write queue of adchpp/ManagedSocket.cpp over an asynchronous stream (adchpp/SocketManager.cpp). */
module WriteQueue {
  import opened Basics

  datatype Reason = WriteOverflow | WriteTimeout | SocketError | Other

  type Buffer = seq<byte>

  const WRITE_TIMEOUT := 60000
  const MAX_BUFFERS: nat := 64
  const MAX_BYTES: nat := 1024

  lemma {:induction false} ConcatPrefix(bufs: seq<Buffer>, i: nat)
    requires i <= |bufs|
    ensures Concat(bufs[..i]) <= Concat(bufs)
    decreases i
  {
    if i > 0 {
      assert bufs[..i][0] == bufs[0] && bufs[..i][1..] == bufs[1..][..i - 1];
      ConcatPrefix(bufs[1..], i - 1);
    }
  }

  /** The buffers that one write may cover. */
  ghost function Covered(bufs: seq<Buffer>): seq<Buffer> {
    bufs[..if |bufs| <= 64 then |bufs| else 64]
  }

  /** A single buffer is offered whole; of several, at most 64 and at most 1024 bytes. */
  ghost predicate Offered(bufs: seq<Buffer>, offered: seq<byte>) {
    && offered <= Concat(bufs) && (bufs != [] && bufs[0] != [] ==> offered != [])
    && (|bufs| == 1 ==> offered == Concat(bufs))
    && (|bufs| > 1 ==> offered <= Concat(Covered(bufs)) && (|offered| == 1024 || (|offered| < 1024 && offered == Concat(Covered(bufs)))))
  }

  /** `SocketStream::write`: what is offered to the transport. */
  method Offer(bufs: seq<Buffer>) returns (offered: seq<byte>)
    requires bufs != []
    ensures Offered(bufs, offered)
  {
    if |bufs| == 1 {
      assert Concat(bufs) == bufs[0] + Concat([]);
      return bufs[0];
    }
    var n := if |bufs| <= MAX_BUFFERS then |bufs| else MAX_BUFFERS;
    offered := [];
    var i := 0;
    while i < n && |offered| < MAX_BYTES
      invariant 0 <= i <= n && |offered| <= MAX_BYTES
      invariant offered <= Concat(bufs[..i]) && (|offered| < MAX_BYTES ==> offered == Concat(bufs[..i]))
      invariant i > 0 && bufs[0] != [] ==> offered != []
    {
      var left := MAX_BYTES - |offered|;
      var bytes := if |bufs[i]| <= left then |bufs[i]| else left;
      assert bufs[..i + 1] == bufs[..i] + [bufs[i]];
      ConcatAppend(bufs[..i], bufs[i]);
      if i == 0 { assert bufs[..1] == [bufs[0]]; }
      offered := offered + bufs[i][..bytes];
      i := i + 1;
    }
    ConcatPrefix(bufs, n);
    FullOffer(bufs, i, n, offered);
  }

  lemma FullOffer(bufs: seq<Buffer>, i: nat, n: nat, offered: seq<byte>)
    requires i <= n <= |bufs| && offered <= Concat(bufs[..i])
    ensures offered <= Concat(bufs[..n])
  {
    assert bufs[..n][..i] == bufs[..i];
    ConcatPrefix(bufs[..n], i);
  }

  datatype Event = Send(buf: Buffer, lowPrio: bool, now: int) | Ack(bytes: nat, now: int) | Error | Leave(why: Reason, now: int) | Job

  // ---------------------------------------------------------------- a run, as an observer sees it

  /** One event: how many bytes were queued before and after it, whether the socket was, and is, disconnecting, and whether the
      write was accepted or the acknowledgement could happen. */
  datatype Entry = Entry(e: Event, before: nat, after: nat, gone: bool, leaves: bool, done: bool)

  /** The write does not fit behind what is queued. */
  predicate Over(max: nat, x: Entry) {
    x.e.Send? && max > 0 && x.before + |x.e.buf| > max
  }

  /** A write was accepted over the limit. */
  predicate Swells(max: nat, x: Entry) {
    Over(max, x) && x.done
  }

  /** The queue has become shorter than the limit. */
  predicate Drops(max: nat, x: Entry) {
    x.e.Ack? && x.done && x.after < max
  }

  /** When a write was last accepted over the limit, if the queue has not become shorter than the limit since. */
  ghost function Noted(max: nat, start: Option<int>, log: seq<Entry>): Option<int>
    decreases |log|
  {
    if log == [] then start
    else
      var x := log[|log| - 1];
      if Swells(max, x) then Some(x.e.now) else if Drops(max, x) then None else Noted(max, start, log[..|log| - 1])
  }

  lemma {:induction false} NotedMeans(max: nat, log: seq<Entry>, i: nat)
    requires i < |log| && Swells(max, log[i]) && forall k :: i < k < |log| ==> !Swells(max, log[k]) && !Drops(max, log[k])
    ensures Noted(max, None, log) == Some(log[i].e.now)
    decreases |log|
  {
    if i < |log| - 1 { NotedMeans(max, log[..|log| - 1], i); }
  }

  /** Every write over the limit is followed by a drop below it. */
  ghost predicate AllDropped(max: nat, log: seq<Entry>) {
    forall i :: 0 <= i < |log| && Swells(max, log[i]) ==> exists k :: i < k < |log| && Drops(max, log[k])
  }

  lemma DroppedBefore(max: nat, log: seq<Entry>)
    requires log != [] && AllDropped(max, log) && !Drops(max, log[|log| - 1])
    ensures !Swells(max, log[|log| - 1]) && AllDropped(max, log[..|log| - 1])
  {
    hide Swells, Drops;
    var log' := log[..|log| - 1];
    forall i | 0 <= i < |log'| && Swells(max, log'[i])
      ensures exists k :: i < k < |log'| && Drops(max, log'[k])
    {
      var k :| i < k < |log| && Drops(max, log[k]);
      assert log'[k] == log[k];
    }
  }

  lemma {:induction false} NothingNoted(max: nat, log: seq<Entry>)
    requires AllDropped(max, log)
    ensures Noted(max, None, log) == None
    decreases |log|
  {
    hide Swells, Drops, AllDropped;
    if log != [] {
      var x := log[|log| - 1];
      if Drops(max, x) {
        NotBoth(max, x);
      } else {
        DroppedBefore(max, log);
        NothingNoted(max, log[..|log| - 1]);
      }
    }
  }

  lemma NotBoth(max: nat, x: Entry)
    requires Drops(max, x)
    ensures !Swells(max, x)
  {
  }

  /** The write comes later than `timeout` after `since`. */
  predicate Late(timeout: int, since: Option<int>, now: int) {
    since.Some? && since.value + timeout < now
  }

  /** What an event does to the length of the queue, when a write is refused, and when this ends the connection. */
  ghost predicate Explains(max: nat, timeout: int, noted: Option<int>, x: Entry) {
    && (x.gone ==> x.leaves)
    && match x.e {
         case Send(buf, lowPrio, now) =>
           && x.done == (buf != [] && !x.gone && !(Over(max, x) && (lowPrio || Late(timeout, noted, now))))
           && x.after == x.before + (if x.done then |buf| else 0)
           && (buf != [] && !lowPrio && Over(max, x) && Late(timeout, noted, now) ==> x.leaves)
         case Ack(bytes, _) =>
           if x.done then bytes <= x.before && x.after == x.before - bytes else x.after == x.before
         case _ => x.after == x.before
       }
  }

  /** Entry `j` goes on where the one before it ended, and is explained by the log before it. */
  ghost predicate GoesOn(max: nat, timeout: int, start: Option<int>, queued: nat, gone: bool, log: seq<Entry>, j: nat)
    requires j < |log|
  {
    && log[j].before == (if j == 0 then queued else log[j - 1].after) && log[j].gone == (if j == 0 then gone else log[j - 1].leaves)
    && Explains(max, timeout, Noted(max, start, log[..j]), log[j])
  }

  /** The log of a run that begins with `queued` bytes in the queue. */
  ghost predicate IsLog(max: nat, timeout: int, start: Option<int>, queued: nat, gone: bool, log: seq<Entry>) {
    forall j :: 0 <= j < |log| ==> GoesOn(max, timeout, start, queued, gone, log, j)
  }

  lemma LogStep(max: nat, timeout: int, start: Option<int>, queued: nat, gone: bool, log: seq<Entry>, x: Entry)
    requires IsLog(max, timeout, start, queued, gone, log)
    requires x.before == (if log == [] then queued else log[|log| - 1].after) && x.gone == (if log == [] then gone else log[|log| - 1].leaves)
    requires Explains(max, timeout, Noted(max, start, log), x)
    ensures IsLog(max, timeout, start, queued, gone, log + [x])
    ensures Noted(max, start, log + [x]) == if Swells(max, x) then Some(x.e.now) else if Drops(max, x) then None else Noted(max, start, log)
  {
    var log' := log + [x];
    assert log'[..|log|] == log;
    hide Explains;
    forall j | 0 <= j < |log'|
      ensures GoesOn(max, timeout, start, queued, gone, log', j)
    {
      if j < |log| {
        assert GoesOn(max, timeout, start, queued, gone, log, j);
        assert log'[..j] == log[..j];
      }
    }
  }

  /**
   * A queue that stays too long: write `j` does not fit, and the last write accepted although it did not fit is write `i`, with the
   * queue not below the limit since. Write `j` is refused, and ends the connection, if and only if it comes more than the timeout
   * after write `i`; otherwise it is accepted.
   */
  lemma LateWriteEnds(max: nat, timeout: int, queued: nat, log: seq<Entry>, i: nat, j: nat)
    requires IsLog(max, timeout, None, queued, false, log) && i < j < |log| && Swells(max, log[i])
    requires forall k :: i < k < j ==> !Swells(max, log[k]) && !Drops(max, log[k])
    requires Over(max, log[j]) && log[j].e.buf != [] && !log[j].e.lowPrio && !log[j].gone
    ensures log[j].done <==> log[j].e.now <= log[i].e.now + timeout
    ensures !log[j].done ==> log[j].leaves
  {
    assert log[..j][i] == log[i] && GoesOn(max, timeout, None, queued, false, log, j);
    NotedMeans(max, log[..j], i);
  }

  /** Where the queue was below the limit after every such write, a write is accepted that is not of low priority. */
  lemma FirstWriteIsTaken(max: nat, timeout: int, queued: nat, log: seq<Entry>, j: nat)
    requires IsLog(max, timeout, None, queued, false, log) && j < |log| && AllDropped(max, log[..j])
    requires log[j].e.Send? && log[j].e.buf != [] && !log[j].e.lowPrio && !log[j].gone
    ensures log[j].done
  {
    NothingNoted(max, log[..j]);
    assert GoesOn(max, timeout, None, queued, false, log, j);
  }

  // ---------------------------------------------------------------- the socket

  class ManagedSocket {
    var outBuf: seq<Buffer>
    var overflow: Option<int>
    var disc: Option<int>
    var lastWrite: Option<int>
    var handlers: bool
    const maxBufferSize: nat
    const overflowTimeout: int
    const disconnectTimeout: int

    // The write in flight, the shutdowns of the stream, the jobs that will report a disconnect, and the reports to the owner.
    var inFlight: Option<seq<byte>>
    var shutdowns: nat
    var reporters: seq<Reason>
    var reports: seq<Reason>

    // The bytes accepted and acknowledged, whether the stream has reported an error, and whether a disconnect has shut it down
    // with something queued.
    ghost var accepted: seq<byte>
    ghost var acked: seq<byte>
    ghost var failed: bool
    ghost var cut: bool

    constructor (maxBufferSize: nat, overflowTimeout: int, disconnectTimeout: int)
      ensures Valid() && outBuf == [] && disc == None && shutdowns == 0 && !failed && !cut && accepted == acked == []
      ensures overflow == None && lastWrite == None && reports == reporters == []
      ensures this.maxBufferSize == maxBufferSize && this.overflowTimeout == overflowTimeout && this.disconnectTimeout == disconnectTimeout
    {
      this.maxBufferSize, this.overflowTimeout, this.disconnectTimeout := maxBufferSize, overflowTimeout, disconnectTimeout;
      outBuf, overflow, disc, lastWrite, handlers := [], None, None, None, true;
      accepted, acked, inFlight, shutdowns, reporters, reports, failed, cut := [], [], None, 0, [], [], false, false;
    }

    predicate Disconnecting()
      reads this`disc
    {
      disc.Some?
    }

    predicate Writing()
      reads this`lastWrite
    {
      lastWrite.Some?
    }

    /** Something is queued, but no write is in flight. */
    predicate Stalled()
      reads this`lastWrite, this`outBuf
    {
      !Writing() && outBuf != []
    }

    /** Nothing is lost, repeated or reordered; what is in flight is the beginning of the queue; a stream is shut down once: when
        everything accepted is acknowledged, or at once by a disconnect when the queue was stalled. */
    ghost predicate Queue()
      reads this
    {
      && acked + Concat(outBuf) == accepted
      && (forall i :: 0 <= i < |outBuf| ==> outBuf[i] != [])
      && (Writing() <==> inFlight.Some?)
      && (inFlight.Some? ==> outBuf != [] && inFlight.value <= Concat(outBuf) && inFlight.value != [])
      && shutdowns == (if Disconnecting() && (outBuf == [] || cut) then 1 else 0)
      && (cut ==> Disconnecting() && Stalled() && failed)
    }

    /** The owner is told of the end once; a job that will do so waits from the disconnect on. */
    ghost predicate Told()
      reads this`handlers, this`reports, this`reporters, this`disc
    {
      && |reports| <= 1 && (reports == [] <==> handlers)
      && (if Disconnecting() then |reporters| == 1 || reports != [] else reporters == [])
    }

    /** As long as the stream has reported no error the queue is not stalled. */
    ghost predicate Valid()
      reads this
    {
      Queue() && Told() && (Stalled() ==> failed)
    }

    /** The event has made the socket disconnect, which was stalled before. */
    twostate predicate CutNow()
      reads this
    {
      !old(Disconnecting()) && Disconnecting() && old(Stalled())
    }

    /** `getQueuedBytes`. */
    method QueuedBytes() returns (bytes: nat)
      ensures bytes == |Concat(outBuf)|
    {
      bytes := 0;
      var i := 0;
      while i < |outBuf|
        invariant 0 <= i <= |outBuf| && bytes == |Concat(outBuf[..i])|
      {
        ConcatAppend(outBuf[..i], outBuf[i]);
        assert outBuf[..i + 1] == outBuf[..i] + [outBuf[i]];
        bytes := bytes + |outBuf[i]|;
        i := i + 1;
      }
      assert outBuf[..i] == outBuf;
    }

    /** The queue is too long for another `size` bytes. */
    ghost predicate TooLong(size: nat)
      reads this`outBuf
    {
      maxBufferSize > 0 && |Concat(outBuf)| + size > maxBufferSize
    }

    /** A write that does not fit: low priority ones are dropped; others are only when the queue has been too long for too long. */
    ghost predicate Refused(size: nat, lowPrio: bool, now: int)
      reads this`outBuf, this`overflow
    {
      TooLong(size) && (lowPrio || Late(overflowTimeout, overflow, now))
    }

    ghost predicate Takes(buf: Buffer, lowPrio: bool, now: int)
      reads this`outBuf, this`overflow, this`disc
    {
      buf != [] && !Disconnecting() && !Refused(|buf|, lowPrio, now)
    }

    /** The write in flight has not ended for a minute. */
    ghost predicate Hangs(now: int)
      reads this`lastWrite
    {
      lastWrite.Some? && now > lastWrite.value + 60000
    }

    /** A write that ends the connection, and why. */
    ghost function Ends(buf: Buffer, lowPrio: bool, now: int): Option<Reason>
      reads this`outBuf, this`overflow, this`disc, this`lastWrite
    {
      if buf == [] || Disconnecting() then None
      else if Refused(|buf|, lowPrio, now) then if lowPrio then None else Some(WriteOverflow)
      else if Hangs(now) then Some(WriteTimeout) else None
    }

    /** The disconnect that has taken effect, if any: from when on the stream may be closed, the job that reports it, and the
        shutdown if nothing was in flight. */
    twostate predicate Ended(why: Option<Reason>, now: int, idle: bool)
      reads this`disc, this`reporters, this`shutdowns
    {
      if why.Some? && !old(Disconnecting()) then
        disc == Some(now + disconnectTimeout) && reporters == old(reporters) + [why.value] && shutdowns == old(shutdowns) + (if idle then 1 else 0)
      else
        disc == old(disc) && reporters == old(reporters) && shutdowns == old(shutdowns)
    }

    method Write(buf: Buffer, lowPrio: bool, now: int)
      requires Valid()
      modifies this
      ensures Valid() && failed == old(failed) && acked == old(acked) && reports == old(reports)
      ensures accepted == if old(Takes(buf, lowPrio, now)) then old(accepted) + buf else old(accepted)
      ensures outBuf == if old(Takes(buf, lowPrio, now)) then old(outBuf) + [buf] else old(outBuf)
      ensures overflow == if old(Takes(buf, lowPrio, now) && TooLong(|buf|)) then Some(now) else old(overflow)
      ensures Ended(old(Ends(buf, lowPrio, now)), now, !old(Writing()))
      ensures if old(Takes(buf, lowPrio, now) && !Writing()) then lastWrite == Some(now) && inFlight.Some? && Offered(outBuf, inFlight.value)
              else lastWrite == old(lastWrite) && inFlight == old(inFlight)
      ensures cut == (old(cut) || CutNow())
    {
      hide Concat, Offered;
      if |buf| == 0 || Disconnecting() {
        return;
      }
      var queued := QueuedBytes();
      if maxBufferSize > 0 && queued + |buf| > maxBufferSize {
        if lowPrio {
          return;
        } else if overflow.Some? && overflow.value + overflowTimeout < now {
          Disconnect(WriteOverflow, now);
          return;
        } else {
          overflow := Some(now);
        }
      }
      ConcatAppend(outBuf, buf);
      assert acked + (Concat(outBuf) + buf) == acked + Concat(outBuf) + buf;
      outBuf := outBuf + [buf];
      accepted := accepted + buf;
      PrepareWrite(now);
    }

    method PrepareWrite(now: int)
      requires Queue() && Told() && !cut
      modifies this`lastWrite, this`inFlight, this`disc, this`shutdowns, this`reporters, this`cut
      ensures Valid() && !Stalled() && !cut
      ensures Ended(if old(Hangs(now)) then Some(WriteTimeout) else None, now, false)
      ensures if !old(Writing()) && outBuf != [] then lastWrite == Some(now) && inFlight.Some? && Offered(outBuf, inFlight.value)
              else lastWrite == old(lastWrite) && inFlight == old(inFlight)
    {
      hide Concat;
      if !Writing() {
        if outBuf != [] {
          lastWrite := Some(now);
          var offered := Offer(outBuf);
          inFlight := Some(offered);
        }
      } else if now > lastWrite.value + WRITE_TIMEOUT {
        Disconnect(WriteTimeout, now);
      }
    }

    /** The stream has written the first `bytes` bytes of what it was offered. */
    method CompleteWrite(bytes: nat, now: int)
      requires Valid() && inFlight.Some? && bytes <= |inFlight.value|
      modifies this
      ensures Valid() && accepted == old(accepted) && acked == old(acked) + old(inFlight).value[..bytes] && failed == old(failed)
      ensures disc == old(disc) && !cut && reports == old(reports) && reporters == old(reporters)
      ensures |Concat(outBuf)| == old(|Concat(outBuf)|) - bytes
      ensures overflow == if |Concat(outBuf)| < maxBufferSize then None else old(overflow)
      ensures shutdowns == if Disconnecting() && acked == accepted then 1 else 0
      ensures if outBuf != [] then lastWrite == Some(now) && inFlight.Some? && Offered(outBuf, inFlight.value) else lastWrite == None
    {
      hide Concat, Offered;
      Acknowledge(bytes);
      if overflow.Some? {
        var left := QueuedBytes();
        if left < maxBufferSize {
          overflow := None;
        }
      }
      AllAcked();
      if Disconnecting() && outBuf == [] {
        shutdowns := shutdowns + 1;
      } else {
        PrepareWrite(now);
      }
    }

    /** What was written leaves the queue. */
    method Acknowledge(bytes: nat)
      requires Queue() && inFlight.Some? && bytes <= |inFlight.value|
      modifies this`lastWrite, this`inFlight, this`outBuf, this`acked
      ensures !Writing() && inFlight == None && acked == old(acked) + old(inFlight).value[..bytes]
      ensures acked + Concat(outBuf) == accepted && forall i :: 0 <= i < |outBuf| ==> outBuf[i] != []
      ensures |Concat(outBuf)| == old(|Concat(outBuf)|) - bytes
    {
      hide Concat;
      ghost var offered, all := inFlight.value, Concat(outBuf);
      lastWrite := None;
      inFlight := None;
      Consume(bytes);
      assert all[..bytes] == offered[..bytes];
      assert acked + all == acked + all[..bytes] + Concat(outBuf);
      acked := acked + offered[..bytes];
    }

    lemma AllAcked()
      requires acked + Concat(outBuf) == accepted && forall i :: 0 <= i < |outBuf| ==> outBuf[i] != []
      ensures outBuf == [] <==> acked == accepted
    {
      if outBuf != [] { assert |Concat(outBuf)| >= |outBuf[0]| > 0; }
    }

    /** The loop of `completeWrite`: drops the buffers that are written, and the written part of the last one. */
    method Consume(bytes0: nat)
      requires bytes0 <= |Concat(outBuf)| && forall i :: 0 <= i < |outBuf| ==> outBuf[i] != []
      modifies this`outBuf
      ensures Concat(outBuf) == Concat(old(outBuf))[bytes0..] && forall i :: 0 <= i < |outBuf| ==> outBuf[i] != []
    {
      var bytes: nat := bytes0;
      while bytes > 0
        invariant 0 <= bytes <= |Concat(outBuf)| && bytes <= bytes0 && Concat(outBuf)[bytes..] == Concat(old(outBuf))[bytes0..]
        invariant forall i :: 0 <= i < |outBuf| ==> outBuf[i] != []
        decreases bytes
      {
        var p := outBuf[0];
        ghost var rest := Concat(outBuf[1..]);
        if |p| <= bytes {
          assert (p + rest)[bytes..] == rest[bytes - |p|..];
          bytes := bytes - |p|;
          outBuf := outBuf[1..];
        } else {
          assert (p + rest)[bytes..] == p[bytes..] + rest;
          outBuf := [p[bytes..]] + outBuf[1..];
          bytes := 0;
        }
      }
    }

    /** The stream reports an error: what was in flight stays queued. */
    method WriteError()
      requires Valid() && inFlight.Some?
      modifies this`lastWrite, this`inFlight, this`failed, this`handlers, this`reports
      ensures Valid() && failed && Stalled() && !cut && lastWrite == None
      ensures reports == if old(reports) == [] then [SocketError] else old(reports)
    {
      lastWrite, inFlight, failed := None, None, true;
      Fail(SocketError);
    }

    method Fail(why: Reason)
      requires |reports| <= 1 && (reports == [] <==> handlers)
      modifies this`handlers, this`reports
      ensures reports == (if old(reports) == [] then [why] else old(reports)) && !handlers
    {
      if handlers {
        reports := reports + [why];
        handlers := false;
      }
    }

    method Disconnect(why: Reason, now: int)
      requires Valid()
      modifies this`disc, this`shutdowns, this`reporters, this`cut
      ensures Valid() && Ended(Some(why), now, !Writing())
      ensures cut == (old(cut) || CutNow())
    {
      if Disconnecting() {
        return;
      }
      disc := Some(now + disconnectTimeout);
      reporters := reporters + [why];
      if !Writing() {
        shutdowns := shutdowns + 1;
        cut := outBuf != [];
      }
    }

    /** The job that `disconnect` queued tells the owner, unless an error has already done so. */
    method Report()
      requires Valid() && reporters != []
      modifies this`reporters, this`handlers, this`reports
      ensures Valid() && reporters == old(reporters)[1..]
      ensures reports == if old(reports) == [] then [old(reporters)[0]] else old(reports)
    {
      Fail(reporters[0]);
      reporters := reporters[1..];
    }

    /** How many bytes are queued. */
    ghost function Queued(): nat
      reads this`outBuf
    {
      |Concat(outBuf)|
    }

    /** What the event did, for an observer. */
    twostate predicate Records(x: Entry)
      reads this
    {
      x.before == old(Queued()) && x.after == Queued() && x.gone == old(Disconnecting()) && x.leaves == Disconnecting()
    }

    /** Any event; those that cannot happen now are passed over. A shutdown happens at most once. */
    method Perform(e: Event) returns (ghost x: Entry)
      requires Valid()
      modifies this
      ensures Valid() && (!e.Error? ==> failed == old(failed))
      ensures old(shutdowns) <= shutdowns <= 1
      ensures cut == (old(cut) || CutNow())
      ensures x.e == e && Records(x) && Explains(maxBufferSize, overflowTimeout, old(overflow), x)
      ensures overflow == if Swells(maxBufferSize, x) then Some(e.now) else if Drops(maxBufferSize, x) then None else old(overflow)
      ensures e.Ack? ==> (x.done <==> old(inFlight.Some? && e.bytes <= |inFlight.value|))
      ensures e.Error? && old(inFlight.Some?) ==> failed && reports != []
      ensures e.Job? && old(reporters) != [] ==> reports != [] && reporters == old(reporters)[1..]
    {
      ghost var before, gone, done := Queued(), Disconnecting(), false;
      match e {
        case Send(buf, lowPrio, now) =>
          done := Takes(buf, lowPrio, now);
          ConcatAppend(outBuf, buf);
          Write(buf, lowPrio, now);
        case Ack(bytes, now) =>
          if inFlight.Some? && bytes <= |inFlight.value| {
            done := true;
            CompleteWrite(bytes, now);
          }
        case Error =>
          if inFlight.Some? {
            WriteError();
          }
        case Leave(why, now) => Disconnect(why, now);
        case Job =>
          if reporters != [] {
            Report();
          }
      }
      x := Entry(e, before, Queued(), gone, Disconnecting(), done);
    }

    /**
     * Any run, errors of the stream included: nothing is lost, repeated or reordered, and the stream is shut down at most once,
     * leaving bytes queued exactly if a disconnect came while the queue was stalled. Without an error that cannot be: then
     * something is queued exactly while a write is in flight. What an observer sees is a log, and `overflow` is the time that
     * can be told from it.
     */
    method Run(script: seq<Event>) returns (ghost log: seq<Entry>)
      requires Valid()
      modifies this
      ensures Valid() && shutdowns <= 1
      ensures shutdowns == 1 && outBuf != [] <==> cut
      ensures !old(failed) && (forall e :: e in script ==> !e.Error?) ==> !failed
      ensures !failed ==> !cut && (inFlight.Some? <==> outBuf != []) && shutdowns == if Disconnecting() && outBuf == [] then 1 else 0
      ensures |log| == |script| && forall i :: 0 <= i < |log| ==> log[i].e == script[i]
      ensures IsLog(maxBufferSize, overflowTimeout, old(overflow), old(Queued()), old(Disconnecting()), log)
      ensures overflow == Noted(maxBufferSize, old(overflow), log)
    {
      hide Explains, Concat, Noted, IsLog, GoesOn;
      var i := 0;
      log := [];
      NoLog(maxBufferSize, overflowTimeout, overflow, Queued(), Disconnecting());
      while i < |script|
        invariant 0 <= i <= |script| && Valid()
        invariant !old(failed) && (forall e :: e in script ==> !e.Error?) ==> !failed
        invariant |log| == i && forall k :: 0 <= k < i ==> log[k].e == script[k]
        invariant IsLog(maxBufferSize, overflowTimeout, old(overflow), old(Queued()), old(Disconnecting()), log)
        invariant overflow == Noted(maxBufferSize, old(overflow), log)
        invariant Queued() == (if log == [] then old(Queued()) else log[|log| - 1].after)
        invariant Disconnecting() == (if log == [] then old(Disconnecting()) else log[|log| - 1].leaves)
      {
        ghost var x := Perform(script[i]);
        LogStep(maxBufferSize, overflowTimeout, old(overflow), old(Queued()), old(Disconnecting()), log, x);
        log := log + [x];
        i := i + 1;
      }
    }
  }

  lemma NoLog(max: nat, timeout: int, start: Option<int>, queued: nat, gone: bool)
    ensures IsLog(max, timeout, start, queued, gone, []) && Noted(max, start, []) == start
  {
  }

  /** An error, and then a disconnect: the stream is shut down with a buffer still queued. */
  method ErrorLeavesQueue(buf: Buffer, now: int) returns (s: ManagedSocket)
    requires buf != []
    ensures fresh(s) && s.Valid() && s.cut && s.shutdowns == 1 && s.outBuf == [buf]
  {
    s := new ManagedSocket(0, 0, 0);
    s.Write(buf, false, now);
    s.WriteError();
    s.Disconnect(Other, now);
  }
}
