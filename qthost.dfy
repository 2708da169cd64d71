/**
 * The Qt host's main window (MainWindow.cpp): the serial command exchange
 * and the button handlers that drive the bootloader. The widgets are
 * reduced to what the handlers read and write: the program and
 * configuration hex editors' contents, and the debug hex view, which
 * collects every reply read back.
 */
module QtHost {
  import opened Bytes
  import opened Protocol
  import opened Segmenter
  import opened Transport

  /** Size of the configuration block the download insists on. */
  const CONF_SIZE: nat := 12

  /** The port's write log and receive side, and the debug view's contents, at one moment. */
  datatype Observation = Observation(written: seq<seq<byte>>, state: Line, log: seq<byte>)

  /**
   * Bookkeeping of a run of commands begun on a port whose write log was
   * w0 and whose receive side was line0: the frames done were all sent and
   * acknowledged, and the port and the debug view are where Drive says.
   */
  ghost predicate Following(o: Observation, w0: seq<seq<byte>>, line0: Line, done: seq<seq<byte>>)
  {
    var t := Drive(done, line0);
    && Completed(t, done)
    && o.written == w0 + done
    && o.state == t.after
    && o.log == Flatten(t.replies)
  }

  /** The frames done were sent, and the last of them was not acknowledged. */
  ghost predicate Stopped(o: Observation, w0: seq<seq<byte>>, line0: Line, done: seq<seq<byte>>)
  {
    var t := Drive(done, line0);
    && |t.replies| == |done|
    && !Completed(t, done)
    && o.written == w0 + done
    && o.state == t.after
    && o.log == Flatten(t.replies)
  }

  /**
   * The outcome of attempting the whole plan: the port received the prefix
   * of the plan that Drive lets through, its receive side and the debug
   * view are where Drive leaves them.
   */
  ghost predicate Reached(o: Observation, w0: seq<seq<byte>>, line0: Line, plan: seq<seq<byte>>)
  {
    var t := Drive(plan, line0);
    && |t.replies| <= |plan|
    && o.written == w0 + plan[..|t.replies|]
    && o.state == t.after
    && o.log == Flatten(t.replies)
  }

  /** One more frame sent: the run goes on if its reply is acknowledged and has stopped otherwise. */
  lemma FollowingStep(o: Observation, w0: seq<seq<byte>>, line0: Line, done: seq<seq<byte>>, f: seq<byte>)
    requires Following(o, w0, line0, done)
    ensures var x := Respond(o.state);
      var o' := Observation(o.written + [f], x.after, o.log + x.reply);
      && (Acknowledged(x.reply) ==> Following(o', w0, line0, done + [f]))
      && (!Acknowledged(x.reply) ==> Stopped(o', w0, line0, done + [f]))
  {
    DriveStep(done, f, line0);
    ConcatAssoc(w0, done, [f]);
  }

  /** A run that stopped has reached whatever plan it was a prefix of. */
  lemma StoppedReaches(o: Observation, w0: seq<seq<byte>>, line0: Line, done: seq<seq<byte>>, later: seq<seq<byte>>)
    requires Stopped(o, w0, line0, done)
    ensures Reached(o, w0, line0, done + later)
  {
    DriveStops(done, later, line0);
    assert (done + later)[..|done|] == done;
  }

  /** A run that completed has reached its plan. */
  lemma CompletedReaches(o: Observation, w0: seq<seq<byte>>, line0: Line, done: seq<seq<byte>>)
    requires Following(o, w0, line0, done)
    ensures Reached(o, w0, line0, done)
  {
    assert done[..|done|] == done;
  }

  class MainWindow {
    /** The open port, or null while disconnected. */
    var serialPort: SerialPort?
    /** Contents of the debug hex view. */
    var dbgLog: seq<byte>
    /** Contents of the program hex editor: the flash image from address 0. */
    var programData: seq<byte>
    /** Contents of the configuration hex editor. */
    var confData: seq<byte>

    /** A new window is disconnected and its views are empty. */
    constructor ()
      ensures serialPort == null && dbgLog == [] && programData == [] && confData == []
    {
      serialPort := null;
      dbgLog := [];
      programData := [];
      confData := [];
    }

    /** What the download's bookkeeping looks at: the port's write log and receive side, and the debug view. */
    ghost function Observed(port: SerialPort): Observation
      reads this, port
    {
      Observation(port.written, port.State(), dbgLog)
    }

    /**
     * Write the command, then read until the reply ends with "a" or a
     * one-second wait sees nothing; append the reply to the debug view.
     * Succeeds exactly when the reply ends with "a"; without a port it
     * does nothing and fails.
     */
    method SendCommand(cmd: seq<byte>) returns (ok: bool)
      modifies this`dbgLog, serialPort
      ensures serialPort == null ==> !ok && dbgLog == old(dbgLog)
      ensures serialPort != null ==>
        var x := Respond(old(serialPort.State()));
        && serialPort.written == old(serialPort.written) + [cmd]
        && serialPort.State() == x.after
        && dbgLog == old(dbgLog) + x.reply
        && (ok <==> Acknowledged(x.reply))
    {
      if serialPort == null {
        return false;
      }
      var port := serialPort;
      port.Write(cmd);
      var readData := port.ReadAll();
      ghost var gathered := Respond(old(port.State()));
      var timedOut := false;
      while !Acknowledged(readData) && !timedOut
        invariant dbgLog == old(dbgLog)
        invariant port.written == old(port.written) + [cmd]
        invariant !timedOut ==> port.buffered == [] && Collect(readData, port.incoming) == gathered
        invariant timedOut ==> gathered == Exchange(readData, port.State())
        decreases |port.incoming|, if timedOut then 0 else 1
      {
        ghost var before := port.incoming;
        var ready := port.WaitForReadyRead();
        if ready {
          var more := port.ReadAll();
          assert more == before[0].bytes;
          assert Collect(readData, before) == Collect(readData + more, port.incoming);
          readData := readData + more;
        } else {
          timedOut := true;
        }
      }
      assert gathered == Exchange(readData, port.State());
      ok := Acknowledged(readData);
      dbgLog := dbgLog + readData;
    }

    /** Connect when disconnected (to the given, already opened port), disconnect otherwise. */
    method ToggleConnection(port: SerialPort)
      modifies this`serialPort
      ensures old(serialPort) == null ==> serialPort == port
      ensures old(serialPort) != null ==> serialPort == null
    {
      if serialPort == null {
        serialPort := port;
      } else {
        serialPort := null;
      }
    }

    /** Enter low-voltage programming: one START_PROG command. */
    method EnableLvp()
      modifies this`dbgLog, serialPort
      ensures serialPort == null ==> dbgLog == old(dbgLog)
      ensures serialPort != null ==>
        var x := Respond(old(serialPort.State()));
        && serialPort.written == old(serialPort.written) + [SimpleFrame(StartProg)]
        && serialPort.State() == x.after
        && dbgLog == old(dbgLog) + x.reply
    {
      if serialPort != null {
        var _ := SendCommand([CMD_START_PROG, CMD_OK]);
      }
    }

    /** Leave low-voltage programming: one END_PROG command. */
    method StopLvp()
      modifies this`dbgLog, serialPort
      ensures serialPort == null ==> dbgLog == old(dbgLog)
      ensures serialPort != null ==>
        var x := Respond(old(serialPort.State()));
        && serialPort.written == old(serialPort.written) + [SimpleFrame(EndProg)]
        && serialPort.State() == x.after
        && dbgLog == old(dbgLog) + x.reply
    {
      if serialPort != null {
        var _ := SendCommand([CMD_END_PROG, CMD_OK]);
      }
    }

    /** Bulk-erase the device: one ERASE_CHIP command. */
    method Erase()
      modifies this`dbgLog, serialPort
      ensures serialPort == null ==> dbgLog == old(dbgLog)
      ensures serialPort != null ==>
        var x := Respond(old(serialPort.State()));
        && serialPort.written == old(serialPort.written) + [SimpleFrame(EraseChip)]
        && serialPort.State() == x.after
        && dbgLog == old(dbgLog) + x.reply
    {
      if serialPort != null {
        var _ := SendCommand([CMD_ERASE_CHIP, CMD_OK]);
      }
    }

    /** Ask the device to identify itself: one QUERYINFO command. */
    method Identify()
      modifies this`dbgLog, serialPort
      ensures serialPort == null ==> dbgLog == old(dbgLog)
      ensures serialPort != null ==>
        var x := Respond(old(serialPort.State()));
        && serialPort.written == old(serialPort.written) + [SimpleFrame(QueryInfo)]
        && serialPort.State() == x.after
        && dbgLog == old(dbgLog) + x.reply
    {
      if serialPort != null {
        var _ := SendCommand([CMD_QUERYINFO, CMD_OK]);
      }
    }

    /** sendCommand inside a run: one more frame done, acknowledged or not. */
    method Transmit(port: SerialPort, f: seq<byte>, ghost w0: seq<seq<byte>>, ghost line0: Line, ghost done: seq<seq<byte>>)
      returns (ok: bool)
      requires serialPort == port
      requires Following(Observed(port), w0, line0, done)
      modifies this`dbgLog, port
      ensures ok ==> Following(Observed(port), w0, line0, done + [f])
      ensures !ok ==> Stopped(Observed(port), w0, line0, done + [f])
    {
      ghost var o := Observed(port);
      ok := SendCommand(f);
      ghost var x := Respond(o.state);
      assert Observed(port) == Observation(o.written + [f], x.after, o.log + x.reply);
      FollowingStep(o, w0, line0, done, f);
    }

    /**
     * The inner loop of one download row and the flush after it: scan the
     * row that starts at s and latch each run of programmed bytes as it
     * closes. segmentStart is carried over from the previous row, as in the
     * source, and plays no part. Reports whether anything was latched.
     */
    method LatchRuns(port: SerialPort, image: seq<byte>, s: nat, segmentStart0: nat,
                     ghost w0: seq<seq<byte>>, ghost line0: Line, ghost done0: seq<seq<byte>>)
      returns (ok: bool, haveSomething: bool, segmentStart: nat, ghost done: seq<seq<byte>>, ghost later: seq<seq<byte>>)
      requires serialPort == port && s < |image|
      requires Following(Observed(port), w0, line0, done0)
      modifies this`dbgLog, port
      ensures ok ==> && Following(Observed(port), w0, line0, done)
                     && done == done0 + LatchFrames(RowSegments(image, s))
                     && (haveSomething <==> RowSegments(image, s) != [])
      ensures !ok ==> Stopped(Observed(port), w0, line0, done) && done + later == done0 + LatchFrames(RowSegments(image, s))
    {
      segmentStart := segmentStart0;
      var segmentData: seq<byte> := [];
      done := done0;
      later := [];
      haveSomething := false;
      var end := Min(s + ROW_SIZE, |image|);
      RowScanStart(image, s, segmentStart, done0);
      var addr := s;
      while addr < end
        invariant Following(Observed(port), w0, line0, done)
        invariant RowScan(image, s, addr, segmentStart, segmentData, haveSomething, done, done0)
        decreases end - addr
      {
        if image[addr] != ERASED {
          RowScanExtend(image, s, addr, segmentStart, segmentData, haveSomething, done, done0);
          if |segmentData| == 0 {
            segmentStart := addr;
          }
          segmentData := segmentData + [image[addr]];
        } else if |segmentData| != 0 {
          RowScanClose(image, s, addr, segmentStart, segmentData, haveSomething, done, done0);
          haveSomething := true;
          var latchDataCmd := LatchFrame(segmentStart, segmentData);
          later := LatchFrames(Scan(image, addr + 1, end, segmentStart, []));
          ok := Transmit(port, latchDataCmd, w0, line0, done);
          done := done + [latchDataCmd];
          if !ok {
            return;
          }
          segmentData := [];
        } else {
          RowScanSkip(image, s, addr, segmentStart, haveSomething, done, done0);
        }
        addr := addr + 1;
      }

      RowScanEnd(image, s, segmentStart, segmentData, haveSomething, done, done0);
      if |segmentData| != 0 {
        haveSomething := true;
        var latchDataCmd := LatchFrame(segmentStart, segmentData);
        later := [];
        ok := Transmit(port, latchDataCmd, w0, line0, done);
        done := done + [latchDataCmd];
        if !ok {
          return;
        }
      }
      ok := true;
    }

    /**
     * One pass of the download's row loop, for the row that starts at s:
     * latch its runs, then erase and write the row if anything was latched.
     */
    method DownloadRow(port: SerialPort, image: seq<byte>, s: nat, segmentStart0: nat,
                       ghost w0: seq<seq<byte>>, ghost line0: Line, ghost done0: seq<seq<byte>>, ghost all: seq<seq<byte>>)
      returns (ok: bool, segmentStart: nat, ghost done: seq<seq<byte>>)
      requires serialPort == port && s < |image|
      requires Progress(Observed(port), w0, line0, image, s, done0, all)
      modifies this`dbgLog, port
      ensures ok ==> Progress(Observed(port), w0, line0, image, s + ROW_SIZE, done, all)
      ensures !ok ==> Reached(Observed(port), w0, line0, all)
    {
      var haveSomething;
      ghost var later;
      ok, haveSomething, segmentStart, done, later := LatchRuns(port, image, s, segmentStart0, w0, line0, done0);
      if !ok {
        LatchesStopped(Observed(port), w0, line0, image, s, done0, done, later, all);
        return;
      }
      ok, done := CloseRow(port, image, s, haveSomething, w0, line0, done0, done, all);
    }

    /** The end of a row's pass: erase and write the row when anything was latched. */
    method CloseRow(port: SerialPort, image: seq<byte>, s: nat, haveSomething: bool,
                    ghost w0: seq<seq<byte>>, ghost line0: Line, ghost done0: seq<seq<byte>>,
                    ghost done1: seq<seq<byte>>, ghost all: seq<seq<byte>>)
      returns (ok: bool, ghost done: seq<seq<byte>>)
      requires serialPort == port && s < |image|
      requires Following(Observed(port), w0, line0, done1)
      requires all == done0 + ProgramFrames(image, s)
      requires done1 == done0 + LatchFrames(RowSegments(image, s))
      requires haveSomething <==> RowSegments(image, s) != []
      modifies this`dbgLog, port
      ensures ok ==> Progress(Observed(port), w0, line0, image, s + ROW_SIZE, done, all)
      ensures !ok ==> Reached(Observed(port), w0, line0, all)
    {
      ClosingFrames(image, s, done0, done1);
      done := done1;
      if haveSomething {
        var erase := AddressFrame(CMD_ERASE_ROW, s);
        ok := Transmit(port, erase, w0, line0, done);
        done := done + [erase];
        if !ok {
          RowStopped(Observed(port), w0, line0, image, s, done0, done, [WriteRowFrame(s)], all);
          return;
        }
        var write := AddressFrame(CMD_WRITE_ROW, s);
        ok := Transmit(port, write, w0, line0, done);
        done := done + [write];
        if !ok {
          assert done + [] == done;
          RowStopped(Observed(port), w0, line0, image, s, done0, done, [], all);
          return;
        }
      }
      ok := true;
      PlanStep(image, s, done0, done, all);
    }

    /**
     * Download: clear the debug view; refuse a configuration that is not
     * 12 bytes; otherwise send the configuration, then row by row the
     * latches of its programmed runs followed by erase and write of the row,
     * skipping blank rows, and abandon the download at the first command
     * that is not acknowledged. What goes out is exactly the prefix of the
     * planned DownloadFrames that Drive says the device lets through.
     */
    method Download()
      modifies this`dbgLog, serialPort
      ensures serialPort == null ==> dbgLog == old(dbgLog)
      ensures serialPort != null && |confData| != CONF_SIZE ==>
        && dbgLog == []
        && serialPort.written == old(serialPort.written)
        && serialPort.State() == old(serialPort.State())
      ensures serialPort != null && |confData| == CONF_SIZE ==>
        Reached(Observed(serialPort), old(serialPort.written), old(serialPort.State()), DownloadFrames(programData, confData))
    {
      if serialPort == null {
        return;
      }
      var port := serialPort;
      dbgLog := [];
      var confCommand := ConfigFrame(confData);
      if |confData| != CONF_SIZE {
        return;
      }
      ghost var w0 := port.written;
      ghost var line0 := port.State();
      var image := programData;
      ghost var all := DownloadFrames(image, confData);
      ghost var done: seq<seq<byte>> := [];
      assert Following(Observed(port), w0, line0, done);

      var ok := Transmit(port, confCommand, w0, line0, done);
      done := done + [confCommand];
      if !ok {
        StoppedReaches(Observed(port), w0, line0, done, ProgramFrames(image, 0));
        assert all == done + ProgramFrames(image, 0);
        return;
      }

      DownloadRows(port, image, w0, line0, done);
    }

    /**
     * The download's row loop, once the configuration was acknowledged:
     * rows of ROW_SIZE bytes from address 0 up to the image's end, stopping
     * at the first command not acknowledged.
     */
    method DownloadRows(port: SerialPort, image: seq<byte>,
                        ghost w0: seq<seq<byte>>, ghost line0: Line, ghost done0: seq<seq<byte>>)
      requires serialPort == port
      requires Following(Observed(port), w0, line0, done0)
      modifies this`dbgLog, port
      ensures Reached(Observed(port), w0, line0, done0 + ProgramFrames(image, 0))
    {
      ghost var all := done0 + ProgramFrames(image, 0);
      ghost var done := done0;
      var segmentStart: nat := 0;
      var s: nat := 0;
      while s < |image|
        invariant Progress(Observed(port), w0, line0, image, s, done, all)
        decreases |image| - s
      {
        var ok;
        ok, segmentStart, done := DownloadRow(port, image, s, segmentStart, w0, line0, done, all);
        if !ok {
          return;
        }
        s := s + ROW_SIZE;
      }
      assert all == done;
      CompletedReaches(Observed(port), w0, line0, done);
    }
  }

  /** The download at the start of row s: every frame so far acknowledged, and the rows from s on still to send. */
  ghost predicate Progress(o: Observation, w0: seq<seq<byte>>, line0: Line, image: seq<byte>, s: nat,
                           done: seq<seq<byte>>, all: seq<seq<byte>>)
  {
    Following(o, w0, line0, done) && all == done + ProgramFrames(image, s)
  }

  /** The frames that close a row, after its latches. */
  lemma ClosingFrames(image: seq<byte>, s: nat, done0: seq<seq<byte>>, done1: seq<seq<byte>>)
    requires s < |image| && done1 == done0 + LatchFrames(RowSegments(image, s))
    ensures RowSegments(image, s) != [] ==>
      done1 + [EraseRowFrame(s)] + [WriteRowFrame(s)] == done0 + RowFrames(image, s)
    ensures RowSegments(image, s) == [] ==> done1 == done0 + RowFrames(image, s)
  {
    var l := LatchFrames(RowSegments(image, s));
    ConcatAssoc(done0, l, RowClose(image, s));
    if RowSegments(image, s) != [] {
      ConcatAssoc(done1, [EraseRowFrame(s)], [WriteRowFrame(s)]);
    }
  }

  /** A latch of row s was refused, with later of the row's latches unsent: the whole plan has been reached. */
  lemma LatchesStopped(o: Observation, w0: seq<seq<byte>>, line0: Line, image: seq<byte>, s: nat,
                       done0: seq<seq<byte>>, done: seq<seq<byte>>, later: seq<seq<byte>>, all: seq<seq<byte>>)
    requires s < |image|
    requires all == done0 + ProgramFrames(image, s)
    requires done + later == done0 + LatchFrames(RowSegments(image, s))
    requires Stopped(o, w0, line0, done)
    ensures Reached(o, w0, line0, all)
  {
    var close := RowClose(image, s);
    ConcatAssoc(done, later, close);
    ConcatAssoc(done0, LatchFrames(RowSegments(image, s)), close);
    RowStopped(o, w0, line0, image, s, done0, done, later + close, all);
  }

  /** Row s done: what was pending is the rest of the rows. */
  lemma PlanStep(image: seq<byte>, s: nat, before: seq<seq<byte>>, done: seq<seq<byte>>, all: seq<seq<byte>>)
    requires s < |image|
    requires all == before + ProgramFrames(image, s) && done == before + RowFrames(image, s)
    ensures all == done + ProgramFrames(image, s + ROW_SIZE)
  {
    ConcatAssoc(before, RowFrames(image, s), ProgramFrames(image, s + ROW_SIZE));
  }

  /** Row s stopped with later of its frames unsent: the whole plan has been reached. */
  lemma RowStopped(o: Observation, w0: seq<seq<byte>>, line0: Line, image: seq<byte>, s: nat,
                   before: seq<seq<byte>>, done: seq<seq<byte>>, later: seq<seq<byte>>, all: seq<seq<byte>>)
    requires s < |image|
    requires all == before + ProgramFrames(image, s) && done + later == before + RowFrames(image, s)
    requires Stopped(o, w0, line0, done)
    ensures Reached(o, w0, line0, all)
  {
    var next := ProgramFrames(image, s + ROW_SIZE);
    ConcatAssoc(before, RowFrames(image, s), next);
    ConcatAssoc(done, later, next);
    StoppedReaches(o, w0, line0, done, later + next);
  }

  /**
   * The download's scan of the row that starts at s, at address addr: with
   * the run acc that began at start still open, the frames sent since done0
   * followed by those the rest of the scan will send are the row's latches;
   * have records whether a latch was sent.
   */
  ghost predicate RowScan(image: seq<byte>, s: nat, addr: nat, start: nat, acc: seq<byte>, have: bool,
                          done: seq<seq<byte>>, done0: seq<seq<byte>>)
  {
    && s < |image|
    && s <= addr <= WindowEnd(image, s)
    && done + LatchFrames(Scan(image, addr, WindowEnd(image, s), start, acc)) == done0 + LatchFrames(RowSegments(image, s))
    && (have ==> RowSegments(image, s) != [])
    && (!have ==> Scan(image, addr, WindowEnd(image, s), start, acc) == RowSegments(image, s))
  }

  /** At the row start, with whatever start address the previous row left. */
  lemma RowScanStart(image: seq<byte>, s: nat, start: nat, done0: seq<seq<byte>>)
    requires s < |image|
    ensures RowScan(image, s, s, start, [], false, done0, done0)
  {
    ScanStaleStart(image, s, WindowEnd(image, s), start, s);
  }

  /** A programmed byte joins the open run, opening it at addr if it was empty. */
  lemma RowScanExtend(image: seq<byte>, s: nat, addr: nat, start: nat, acc: seq<byte>, have: bool,
                      done: seq<seq<byte>>, done0: seq<seq<byte>>)
    requires RowScan(image, s, addr, start, acc, have, done, done0)
    requires addr < WindowEnd(image, s) && image[addr] != ERASED
    ensures RowScan(image, s, addr + 1, if |acc| == 0 then addr else start, acc + [image[addr]], have, done, done0)
  {
  }

  /** An erased byte with no open run changes nothing. */
  lemma RowScanSkip(image: seq<byte>, s: nat, addr: nat, start: nat, have: bool,
                    done: seq<seq<byte>>, done0: seq<seq<byte>>)
    requires RowScan(image, s, addr, start, [], have, done, done0)
    requires addr < WindowEnd(image, s) && image[addr] == ERASED
    ensures RowScan(image, s, addr + 1, start, [], have, done, done0)
  {
    assert Scan(image, addr, WindowEnd(image, s), start, []) == Scan(image, addr + 1, WindowEnd(image, s), start, []);
  }

  /** An erased byte closes the open run: its latch frame is the next one sent. */
  lemma RowScanClose(image: seq<byte>, s: nat, addr: nat, start: nat, acc: seq<byte>, have: bool,
                     done: seq<seq<byte>>, done0: seq<seq<byte>>)
    requires RowScan(image, s, addr, start, acc, have, done, done0)
    requires addr < WindowEnd(image, s) && image[addr] == ERASED && acc != []
    ensures RowScan(image, s, addr + 1, start, [], true, done + [LatchFrame(start, acc)], done0)
  {
    var end := WindowEnd(image, s);
    var rest := Scan(image, addr + 1, end, start, []);
    assert Scan(image, addr, end, start, acc) == [Segment(start, acc)] + rest;
    LatchFramesAppend([Segment(start, acc)], rest);
    ConcatAssoc(done, [LatchFrame(start, acc)], LatchFrames(rest));
  }

  /** At the window's end what is left to send is the open run's latch, if any. */
  lemma RowScanEnd(image: seq<byte>, s: nat, start: nat, acc: seq<byte>, have: bool,
                   done: seq<seq<byte>>, done0: seq<seq<byte>>)
    requires s < |image| && RowScan(image, s, WindowEnd(image, s), start, acc, have, done, done0)
    ensures acc != [] ==> done + [LatchFrame(start, acc)] == done0 + LatchFrames(RowSegments(image, s))
                          && RowSegments(image, s) != []
    ensures acc == [] ==> done == done0 + LatchFrames(RowSegments(image, s))
                          && (have <==> RowSegments(image, s) != [])
  {
    var end := WindowEnd(image, s);
    assert Scan(image, end, end, start, acc) == Flush(start, acc);
    if acc != [] {
      assert LatchFrames([Segment(start, acc)]) == [LatchFrame(start, acc)];
    }
  }
}
