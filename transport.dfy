/**
 * The serial port as the Qt host uses it, replaced by a deterministic fake:
 * what the device will send is a script, one entry per
 * waitForReadyRead(1000) call, each either a chunk of bytes that arrived in
 * time or a second of silence. Every buffer passed to write() is recorded.
 * Beside the class, the pure account of what one command reads back
 * (Respond) and of a run of commands that stops at the first failure (Drive).
 */
module Transport {
  import opened Bytes
  import opened Protocol

  /** What one waitForReadyRead(1000) sees: bytes that arrived, or a timeout. */
  datatype Reading = Chunk(bytes: seq<byte>) | Silence

  /** The receive side of the port: bytes arrived and not yet read, and what later waits will see. */
  datatype Line = Line(buffered: seq<byte>, incoming: seq<Reading>)

  /** What one command's read loop gathered, and the receive side after it. */
  datatype Exchange = Exchange(reply: seq<byte>, after: Line)

  /** The success test of sendCommand: the reply ends with "a" (RSP_OK). */
  predicate Acknowledged(reply: seq<byte>)
  {
    EndsWith(reply, RSP_OK)
  }

  /** All bytes a script of readings delivers, in order. */
  function Delivered(incoming: seq<Reading>): seq<byte>
  {
    if incoming == [] then []
    else (match incoming[0] case Chunk(b) => b case Silence => []) + Delivered(incoming[1..])
  }

  /**
   * The read loop: keep appending what arrives until the reply ends with
   * "a", or a wait times out (a Silence, or nothing scripted any more).
   */
  function Collect(reply: seq<byte>, incoming: seq<Reading>): Exchange
    decreases |incoming|
  {
    if Acknowledged(reply) || incoming == [] then Exchange(reply, Line([], incoming))
    else
      match incoming[0]
      case Silence => Exchange(reply, Line([], incoming[1..]))
      case Chunk(b) => Collect(reply + b, incoming[1..])
  }

  /** One command's response: readAll() of what is buffered, then the read loop. */
  function Respond(line: Line): Exchange
  {
    Collect(line.buffered, line.incoming)
  }

  /**
   * The read loop loses and invents nothing: what it gathered plus what is
   * still to come is what was there plus what was to come; it only grows
   * the reply and leaves nothing buffered.
   */
  lemma {:induction false} CollectConserves(reply: seq<byte>, incoming: seq<Reading>)
    ensures var x := Collect(reply, incoming);
      && x.reply + Delivered(x.after.incoming) == reply + Delivered(incoming)
      && reply <= x.reply
      && x.after.buffered == []
    decreases |incoming|
  {
    if !Acknowledged(reply) && incoming != [] && incoming[0].Chunk? {
      var b := incoming[0].bytes;
      CollectConserves(reply + b, incoming[1..]);
      assert Delivered(incoming) == b + Delivered(incoming[1..]);
    } else if incoming != [] && !Acknowledged(reply) {
      assert Delivered(incoming) == Delivered(incoming[1..]);
    }
  }

  /**
   * The read loop consumes a prefix of the script, and when it gives up
   * without "a" the script is exhausted or the last reading it consumed was
   * a timeout.
   */
  lemma {:induction false} CollectStops(reply: seq<byte>, incoming: seq<Reading>)
    ensures var x := Collect(reply, incoming);
      && |x.after.incoming| <= |incoming|
      && x.after.incoming == incoming[|incoming| - |x.after.incoming|..]
      && (!Acknowledged(x.reply) ==>
            x.after.incoming == []
            || (|x.after.incoming| < |incoming| && incoming[|incoming| - |x.after.incoming| - 1] == Silence))
    decreases |incoming|
  {
    if !Acknowledged(reply) && incoming != [] {
      match incoming[0]
      case Silence =>
        assert incoming[1..] == incoming[|incoming| - |incoming[1..]|..];
      case Chunk(b) =>
        CollectStops(reply + b, incoming[1..]);
        var x := Collect(reply + b, incoming[1..]);
        assert incoming[1..][|incoming[1..]| - |x.after.incoming|..] == incoming[|incoming| - |x.after.incoming|..];
        if !Acknowledged(x.reply) && x.after.incoming != [] {
          assert incoming[1..][|incoming[1..]| - |x.after.incoming| - 1] == incoming[|incoming| - |x.after.incoming| - 1];
        }
    }
  }

  /** The result of sending frames one after another: one reply per frame sent, and the receive side after. */
  datatype Trace = Trace(replies: seq<seq<byte>>, after: Line)

  /** Send the frames in order; the first reply without "a" ends the run. */
  function Drive(frames: seq<seq<byte>>, line: Line): Trace
    decreases |frames|
  {
    if frames == [] then Trace([], line)
    else
      var x := Respond(line);
      if !Acknowledged(x.reply) then Trace([x.reply], x.after)
      else
        var t := Drive(frames[1..], x.after);
        Trace([x.reply] + t.replies, t.after)
  }

  predicate AllAcknowledged(replies: seq<seq<byte>>)
  {
    forall i | 0 <= i < |replies| :: Acknowledged(replies[i])
  }

  /** Every frame was sent and acknowledged. */
  predicate Completed(t: Trace, frames: seq<seq<byte>>)
  {
    |t.replies| == |frames| && AllAcknowledged(t.replies)
  }

  /**
   * Fail-fast: the frames sent are a prefix of the plan, the first is always
   * sent, every reply but the last was acknowledged, and a run that stopped
   * early stopped on a reply without "a".
   */
  lemma {:induction false} DriveFailsFast(frames: seq<seq<byte>>, line: Line)
    ensures var t := Drive(frames, line);
      && |t.replies| <= |frames|
      && (frames != [] ==> |t.replies| > 0)
      && (forall i | 0 <= i < |t.replies| - 1 :: Acknowledged(t.replies[i]))
      && (|t.replies| < |frames| ==> !Acknowledged(t.replies[|t.replies| - 1]))
      && (Completed(t, frames) <==> |t.replies| == |frames| && (frames == [] || Acknowledged(t.replies[|frames| - 1])))
    decreases |frames|
  {
    if frames != [] {
      var x := Respond(line);
      if Acknowledged(x.reply) {
        DriveFailsFast(frames[1..], x.after);
        var t := Drive(frames, line);
        var t' := Drive(frames[1..], x.after);
        assert t.replies == [x.reply] + t'.replies;
        assert forall i | 1 <= i < |t.replies| :: t.replies[i] == t'.replies[i - 1];
      }
    }
  }

  /** Appending one frame to a run that completed: it is sent and its reply decides. */
  lemma {:induction false} DriveStep(done: seq<seq<byte>>, f: seq<byte>, line: Line)
    requires Completed(Drive(done, line), done)
    ensures var t := Drive(done, line);
      var x := Respond(t.after);
      && Drive(done + [f], line) == Trace(t.replies + [x.reply], x.after)
      && (Completed(Drive(done + [f], line), done + [f]) <==> Acknowledged(x.reply))
      && Flatten(Drive(done + [f], line).replies) == Flatten(t.replies) + x.reply
    decreases |done|
  {
    var t := Drive(done, line);
    var x := Respond(t.after);
    if done == [] {
      DriveOne(f, line);
    } else {
      var x0 := Respond(line);
      assert Acknowledged(x0.reply) by {
        assert t.replies[0] == x0.reply;
      }
      DriveCons(done, line);
      var t' := Drive(done[1..], x0.after);
      assert t.after == t'.after && t.replies == [x0.reply] + t'.replies;
      DriveStep(done[1..], f, x0.after);
      var u' := Drive(done[1..] + [f], x0.after);
      assert u' == Trace(t'.replies + [x.reply], x.after);
      assert (done + [f])[1..] == done[1..] + [f];
      DriveCons(done + [f], line);
      ConcatAssoc([x0.reply], t'.replies, [x.reply]);
      assert Drive(done + [f], line) == Trace(t.replies + [x.reply], x.after);
    }
    FlattenSnoc(t.replies, x.reply);
  }

  /** A run of one frame: its reply alone decides. */
  lemma DriveOne(f: seq<byte>, line: Line)
    ensures var x := Respond(line);
      && Drive([] + [f], line) == Trace([x.reply], x.after)
      && (Completed(Drive([] + [f], line), [] + [f]) <==> Acknowledged(x.reply))
  {
    assert [] + [f] == [f];
    assert [f][1..] == [];
    var x := Respond(line);
    assert [x.reply] + [] == [x.reply];
    assert Drive([f], line).replies[0] == x.reply;
  }

  /** A run whose first frame is acknowledged goes on with the rest of the frames. */
  lemma DriveCons(frames: seq<seq<byte>>, line: Line)
    requires frames != [] && Acknowledged(Respond(line).reply)
    ensures var x := Respond(line);
      var t' := Drive(frames[1..], x.after);
      && Drive(frames, line) == Trace([x.reply] + t'.replies, t'.after)
      && (Completed(Drive(frames, line), frames) <==> Completed(t', frames[1..]))
  {
    var x := Respond(line);
    var t' := Drive(frames[1..], x.after);
    assert Drive(frames, line) == Trace([x.reply] + t'.replies, t'.after);
    AllAcknowledgedCons(x.reply, t'.replies);
  }

  lemma AllAcknowledgedCons(r: seq<byte>, rs: seq<seq<byte>>)
    ensures AllAcknowledged([r] + rs) <==> Acknowledged(r) && AllAcknowledged(rs)
  {
    var l := [r] + rs;
    if Acknowledged(r) && AllAcknowledged(rs) {
      forall i | 0 <= i < |l| ensures Acknowledged(l[i]) {
        if i > 0 {
          assert l[i] == rs[i - 1];
        }
      }
    }
    if AllAcknowledged(l) {
      assert l[0] == r;
      forall i | 0 <= i < |rs| ensures Acknowledged(rs[i]) {
        assert rs[i] == l[i + 1];
      }
    }
  }

  /** The log of a run grows by the reply of each frame sent. */
  lemma FlattenSnoc(replies: seq<seq<byte>>, r: seq<byte>)
    ensures Flatten(replies + [r]) == Flatten(replies) + r
  {
    assert (replies + [r])[..|replies|] == replies;
  }

  /** Once a run has failed, nothing planned after it is sent. */
  lemma {:induction false} DriveStops(a: seq<seq<byte>>, b: seq<seq<byte>>, line: Line)
    requires !Completed(Drive(a, line), a)
    ensures Drive(a + b, line) == Drive(a, line)
    decreases |a|
  {
    assert a != [];
    var x := Respond(line);
    if Acknowledged(x.reply) {
      assert (a + b)[1..] == a[1..] + b;
      DriveCons(a, line);
      DriveCons(a + b, line);
      DriveStops(a[1..], b, x.after);
    }
  }

  /** A device that answers every command with a single "a" receives the whole plan. */
  lemma {:induction false} DriveAlwaysAcknowledged(frames: seq<seq<byte>>, script: seq<Reading>)
    requires |script| >= |frames|
    requires forall i | 0 <= i < |script| :: script[i] == Chunk([RSP_OK])
    ensures Completed(Drive(frames, Line([], script)), frames)
    ensures Drive(frames, Line([], script)).after == Line([], script[|frames|..])
    decreases |frames|
  {
    if frames != [] {
      var x := Respond(Line([], script));
      assert script[0] == Chunk([RSP_OK]);
      assert [] + [RSP_OK] == [RSP_OK];
      assert Collect([], script) == Collect([RSP_OK], script[1..]);
      assert x == Exchange([RSP_OK], Line([], script[1..]));
      DriveAlwaysAcknowledged(frames[1..], script[1..]);
      assert script[1..][|frames[1..]|..] == script[|frames|..];
      var t' := Drive(frames[1..], Line([], script[1..]));
      var t := Drive(frames, Line([], script));
      assert t.replies == [[RSP_OK]] + t'.replies;
      assert forall i | 1 <= i < |t.replies| :: t.replies[i] == t'.replies[i - 1];
    }
  }

  /**
   * A silent device, or one that answers ERROR or OUT_OF_SYNC and then stays
   * silent for a second, stops the run at its first frame.
   */
  lemma FirstRefusalStops(frames: seq<seq<byte>>, script: seq<Reading>)
    requires frames != []
    requires script == [] || script[0] == Silence
          || ((script[0] == Chunk([RSP_ERROR]) || script[0] == Chunk([RSP_OUT_OF_SYNC]))
              && (|script| == 1 || script[1] == Silence))
    ensures Drive(frames, Line([], script)).replies == [Respond(Line([], script)).reply]
    ensures !Completed(Drive(frames, Line([], script)), frames)
  {
    if script != [] && script[0].Chunk? {
      var b := script[0].bytes;
      assert [] + b == b;
      assert Collect([], script) == Collect(b, script[1..]);
      assert !Acknowledged(b);
      assert Collect(b, script[1..]).reply == b;
      assert Drive(frames, Line([], script)).replies[0] == b;
      assert !AllAcknowledged(Drive(frames, Line([], script)).replies);
    } else {
      assert Drive(frames, Line([], script)).replies[0] == [];
    }
  }

  /**
   * The success test looks only at the last byte: an ERROR byte followed
   * within the timeout by an "a" still counts as acknowledged.
   */
  lemma LateAcknowledgement(script: seq<Reading>)
    requires |script| >= 2 && script[0] == Chunk([RSP_ERROR]) && script[1] == Chunk([RSP_OK])
    ensures Respond(Line([], script)) == Exchange([RSP_ERROR, RSP_OK], Line([], script[2..]))
    ensures Acknowledged(Respond(Line([], script)).reply)
  {
    assert [] + [RSP_ERROR] == [RSP_ERROR];
    assert Collect([], script) == Collect([RSP_ERROR], script[1..]);
    assert [RSP_ERROR] + [RSP_OK] == [RSP_ERROR, RSP_OK];
    assert script[1..][1..] == script[2..];
    assert Collect([RSP_ERROR], script[1..]) == Collect([RSP_ERROR, RSP_OK], script[2..]);
  }

  /**
   * The Qt serial port with a scripted device behind it. Only the calls
   * sendCommand makes are modelled: write (recorded), readAll (takes what is
   * buffered) and waitForReadyRead (consumes the next scripted reading).
   */
  class SerialPort {
    /** Every buffer passed to write(), in order. */
    var written: seq<seq<byte>>
    /** Bytes that arrived and were not read yet. */
    var buffered: seq<byte>
    /** What each later waitForReadyRead(1000) will see. */
    var incoming: seq<Reading>

    function State(): Line
      reads this
    {
      Line(buffered, incoming)
    }

    constructor (script: seq<Reading>)
      ensures written == [] && buffered == [] && incoming == script
    {
      written := [];
      buffered := [];
      incoming := script;
    }

    method Write(data: seq<byte>)
      modifies this`written
      ensures written == old(written) + [data]
    {
      written := written + [data];
    }

    method ReadAll() returns (data: seq<byte>)
      modifies this`buffered
      ensures data == old(buffered) && buffered == []
    {
      data := buffered;
      buffered := [];
    }

    /** True when new bytes arrived within the timeout; they are then buffered. */
    method WaitForReadyRead() returns (ready: bool)
      modifies this`buffered, this`incoming
      ensures old(incoming) == [] ==> !ready && incoming == [] && buffered == old(buffered)
      ensures old(incoming) != [] ==> incoming == old(incoming)[1..]
      ensures old(incoming) != [] && old(incoming)[0] == Silence ==> !ready && buffered == old(buffered)
      ensures old(incoming) != [] && old(incoming)[0].Chunk? ==> ready && buffered == old(buffered) + old(incoming)[0].bytes
    {
      if incoming == [] {
        ready := false;
      } else {
        match incoming[0]
        case Silence =>
          ready := false;
        case Chunk(b) =>
          ready := true;
          buffered := buffered + b;
      }
      if incoming != [] {
        incoming := incoming[1..];
      }
    }
  }
}
