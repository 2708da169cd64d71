/**
 * What the Qt host's download sends, as values: the row-by-row scan of the
 * program image into runs of programmed bytes, the frame of each command,
 * and the whole planned command sequence of one download
 * (MainWindow.cpp, on_downloadButton_clicked).
 */
module Segmenter {
  import opened Bytes
  import opened Wrappers
  import opened Protocol
  import opened Codec

  /** The value of an unprogrammed flash cell. */
  const ERASED: byte := 0xFF

  /** A run of programmed bytes and the image address of its first byte. */
  datatype Segment = Segment(start: nat, data: seq<byte>)

  function End(seg: Segment): nat
  {
    seg.start + |seg.data|
  }

  /** Exclusive end of the window of the row that starts at s: a short last row is cut at the image's end. */
  function WindowEnd(image: seq<byte>, s: nat): (e: nat)
    requires s <= |image|
    ensures s <= e <= |image| && e <= s + ROW_SIZE
    ensures e == s + ROW_SIZE || e == |image|
  {
    Min(s + ROW_SIZE, |image|)
  }

  /** The accumulator, emitted as a segment when it is not empty. */
  function Flush(start: nat, acc: seq<byte>): seq<Segment>
  {
    if acc == [] then [] else [Segment(start, acc)]
  }

  /**
   * The inner loop over one row window: from addr to end, with the
   * accumulated run acc that began at start. A programmed byte extends the
   * run (starting it if it is empty); an erased byte closes and emits it;
   * the window's end emits what is left.
   */
  function Scan(image: seq<byte>, addr: nat, end: nat, start: nat, acc: seq<byte>): seq<Segment>
    requires addr <= end <= |image|
    decreases end - addr
  {
    if addr == end then Flush(start, acc)
    else if image[addr] != ERASED then
      Scan(image, addr + 1, end, if acc == [] then addr else start, acc + [image[addr]])
    else
      Flush(start, acc) + Scan(image, addr + 1, end, start, [])
  }

  /** The segments of the row that starts at s; the accumulator is empty when a row starts. */
  function RowSegments(image: seq<byte>, s: nat): seq<Segment>
    requires s <= |image|
  {
    Scan(image, s, WindowEnd(image, s), s, [])
  }

  /** Number of programmed (non-0xFF) bytes in image[lo..hi]. */
  function Live(image: seq<byte>, lo: nat, hi: nat): nat
    requires lo <= hi <= |image|
    decreases hi - lo
  {
    if lo == hi then 0 else (if image[lo] != ERASED then 1 else 0) + Live(image, lo + 1, hi)
  }

  function TotalLength(segs: seq<Segment>): nat
  {
    if segs == [] then 0 else |segs[0].data| + TotalLength(segs[1..])
  }

  /** A maximal run of programmed bytes of the window [lo, hi), copied from the image. */
  ghost predicate IsRun(image: seq<byte>, lo: nat, hi: nat, seg: Segment)
    requires lo <= hi <= |image|
  {
    && seg.data != []
    && lo <= seg.start && End(seg) <= hi
    && seg.data == image[seg.start..End(seg)]
    && ERASED !in seg.data
    && (seg.start == lo || image[seg.start - 1] == ERASED)
    && (End(seg) == hi || image[End(seg)] == ERASED)
  }

  /** Maximal runs of the window, in strictly increasing address order, separated by erased bytes. */
  ghost predicate AreRuns(image: seq<byte>, lo: nat, hi: nat, segs: seq<Segment>)
    requires lo <= hi <= |image|
  {
    && (forall k | 0 <= k < |segs| :: IsRun(image, lo, hi, segs[k]))
    && (forall i, j | 0 <= i < j < |segs| :: End(segs[i]) < segs[j].start)
  }

  /** Every programmed byte of [from, hi) lies inside one of the segments. */
  ghost predicate Covers(image: seq<byte>, from: nat, hi: nat, segs: seq<Segment>)
    requires hi <= |image|
  {
    forall a | from <= a < hi && image[a] != ERASED :: exists k :: 0 <= k < |segs| && segs[k].start <= a < End(segs[k])
  }

  /** What the loop knows about its accumulator at address addr of the window that begins at lo. */
  ghost predicate AccumulatorOk(image: seq<byte>, lo: nat, addr: nat, start: nat, acc: seq<byte>)
    requires lo <= addr <= |image|
  {
    if acc == [] then addr == lo || image[addr - 1] == ERASED
    else
      && lo <= start && start + |acc| == addr
      && acc == image[start..addr]
      && ERASED !in acc
      && (start == lo || image[start - 1] == ERASED)
  }

  lemma {:induction false} ScanLength(image: seq<byte>, addr: nat, end: nat, start: nat, acc: seq<byte>)
    requires addr <= end <= |image|
    ensures TotalLength(Scan(image, addr, end, start, acc)) == |acc| + Live(image, addr, end)
    decreases end - addr
  {
    if addr == end {
      if acc != [] {
        assert TotalLength(Flush(start, acc)) == |acc| + TotalLength([]);
      }
    } else if image[addr] != ERASED {
      ScanLength(image, addr + 1, end, if acc == [] then addr else start, acc + [image[addr]]);
    } else {
      ScanLength(image, addr + 1, end, start, []);
      TotalLengthAppend(Flush(start, acc), Scan(image, addr + 1, end, start, []));
      if acc != [] {
        assert TotalLength(Flush(start, acc)) == |acc| + TotalLength([]);
      }
    }
  }

  lemma {:induction false} ScanRuns(image: seq<byte>, lo: nat, addr: nat, end: nat, start: nat, acc: seq<byte>)
    requires lo <= addr <= end <= |image|
    requires AccumulatorOk(image, lo, addr, start, acc)
    ensures AreRuns(image, lo, end, Scan(image, addr, end, start, acc))
    ensures forall seg | seg in Scan(image, addr, end, start, acc) :: seg.start >= (if acc == [] then addr else start)
    decreases end - addr
  {
    if addr == end {
      if acc != [] {
        FlushedRun(image, lo, addr, end, start, acc);
        assert Scan(image, addr, end, start, acc) == [Segment(start, acc)];
      }
    } else if image[addr] != ERASED {
      var start' := if acc == [] then addr else start;
      AccumulatorExtend(image, lo, addr, start, acc);
      ScanRuns(image, lo, addr + 1, end, start', acc + [image[addr]]);
    } else {
      var rest := Scan(image, addr + 1, end, start, []);
      ScanRuns(image, lo, addr + 1, end, start, []);
      if acc != [] {
        FlushedRun(image, lo, addr, end, start, acc);
        assert Scan(image, addr, end, start, acc) == [Segment(start, acc)] + rest;
        ConsRuns(image, lo, end, Segment(start, acc), rest);
      } else {
        assert Scan(image, addr, end, start, acc) == rest;
      }
    }
  }

  /** A programmed byte extends the accumulator, or starts it. */
  lemma AccumulatorExtend(image: seq<byte>, lo: nat, addr: nat, start: nat, acc: seq<byte>)
    requires lo <= addr < |image| && image[addr] != ERASED
    requires AccumulatorOk(image, lo, addr, start, acc)
    ensures AccumulatorOk(image, lo, addr + 1, if acc == [] then addr else start, acc + [image[addr]])
  {
    var start' := if acc == [] then addr else start;
    assert acc + [image[addr]] == image[start'..addr + 1];
  }

  /** An accumulator flushed at the window's end or at an erased byte is a maximal run. */
  lemma FlushedRun(image: seq<byte>, lo: nat, addr: nat, end: nat, start: nat, acc: seq<byte>)
    requires lo <= addr <= end <= |image| && acc != []
    requires AccumulatorOk(image, lo, addr, start, acc)
    requires addr == end || image[addr] == ERASED
    ensures IsRun(image, lo, end, Segment(start, acc))
  {
  }

  lemma ConsRuns(image: seq<byte>, lo: nat, hi: nat, seg: Segment, rest: seq<Segment>)
    requires lo <= hi <= |image|
    requires IsRun(image, lo, hi, seg) && AreRuns(image, lo, hi, rest)
    requires forall r | r in rest :: End(seg) < r.start
    ensures AreRuns(image, lo, hi, [seg] + rest)
  {
    var segs := [seg] + rest;
    forall k | 0 <= k < |segs| ensures IsRun(image, lo, hi, segs[k]) {
      if k > 0 {
        assert segs[k] == rest[k - 1];
      }
    }
    forall i, j | 0 <= i < j < |segs| ensures End(segs[i]) < segs[j].start {
      assert segs[j] == rest[j - 1] && segs[j] in rest;
      if i > 0 {
        assert segs[i] == rest[i - 1];
      }
    }
  }

  lemma {:induction false} ScanCovers(image: seq<byte>, addr: nat, end: nat, start: nat, acc: seq<byte>)
    requires addr <= end <= |image|
    requires acc != [] ==> start + |acc| == addr
    ensures Covers(image, if acc == [] then addr else start, end, Scan(image, addr, end, start, acc))
    decreases end - addr
  {
    var segs := Scan(image, addr, end, start, acc);
    if addr == end {
      if acc != [] {
        assert segs == [Segment(start, acc)];
        forall a | start <= a < end && image[a] != ERASED
          ensures exists k :: 0 <= k < |segs| && segs[k].start <= a < End(segs[k])
        {
          assert segs[0].start <= a < End(segs[0]);
        }
      }
    } else if image[addr] != ERASED {
      ScanCovers(image, addr + 1, end, if acc == [] then addr else start, acc + [image[addr]]);
    } else {
      var from := if acc == [] then addr else start;
      var head := Flush(start, acc);
      var rest := Scan(image, addr + 1, end, start, []);
      ScanCovers(image, addr + 1, end, start, []);
      assert segs == head + rest;
      forall a | from <= a < addr + 1 && image[a] != ERASED
        ensures exists k :: 0 <= k < |head| && head[k].start <= a < End(head[k])
      {
        assert head[0] == Segment(start, acc);
      }
      CoversJoin(image, from, addr + 1, end, head, rest);
    }
  }

  /** Coverage of two adjacent ranges by two lists of segments is coverage of their union by the concatenation. */
  lemma CoversJoin(image: seq<byte>, lo: nat, mid: nat, hi: nat, head: seq<Segment>, rest: seq<Segment>)
    requires lo <= mid <= hi <= |image|
    requires Covers(image, lo, mid, head) && Covers(image, mid, hi, rest)
    ensures Covers(image, lo, hi, head + rest)
  {
    var segs := head + rest;
    forall a | lo <= a < hi && image[a] != ERASED
      ensures exists k :: 0 <= k < |segs| && segs[k].start <= a < End(segs[k])
    {
      if a < mid {
        var k :| 0 <= k < |head| && head[k].start <= a < End(head[k]);
        assert segs[k] == head[k];
      } else {
        var k :| 0 <= k < |rest| && rest[k].start <= a < End(rest[k]);
        assert segs[|head| + k] == rest[k];
      }
    }
  }


  lemma {:induction false} TotalLengthAppend(a: seq<Segment>, b: seq<Segment>)
    ensures TotalLength(a + b) == TotalLength(a) + TotalLength(b)
    decreases |a|
  {
    if a == [] {
      assert a + b == b;
    } else {
      assert (a + b)[1..] == a[1..] + b;
      TotalLengthAppend(a[1..], b);
    }
  }

  /**
   * The segments of a row are the maximal runs of programmed bytes of its
   * window, in increasing address order, never crossing the window, never
   * holding 0xFF; together they hold every programmed byte of the window, so
   * their lengths add up to the number of programmed bytes.
   */
  lemma RowSegmentsAreRuns(image: seq<byte>, s: nat)
    requires s <= |image|
    ensures var segs := RowSegments(image, s);
      && AreRuns(image, s, WindowEnd(image, s), segs)
      && Covers(image, s, WindowEnd(image, s), segs)
      && TotalLength(segs) == Live(image, s, WindowEnd(image, s))
  {
    ScanRuns(image, s, s, WindowEnd(image, s), s, []);
    ScanCovers(image, s, WindowEnd(image, s), s, []);
    ScanLength(image, s, WindowEnd(image, s), s, []);
  }

  /** With an empty accumulator, the start address it carries plays no part. */
  lemma {:induction false} ScanStaleStart(image: seq<byte>, addr: nat, end: nat, x: nat, y: nat)
    requires addr <= end <= |image|
    ensures Scan(image, addr, end, x, []) == Scan(image, addr, end, y, [])
    decreases end - addr
  {
    if addr < end {
      if image[addr] == ERASED {
        ScanStaleStart(image, addr + 1, end, x, y);
        assert Scan(image, addr, end, x, []) == Scan(image, addr + 1, end, x, []);
        assert Scan(image, addr, end, y, []) == Scan(image, addr + 1, end, y, []);
      } else {
        assert [] + [image[addr]] == [image[addr]];
        assert Scan(image, addr, end, x, []) == Scan(image, addr + 1, end, addr, [image[addr]]);
        assert Scan(image, addr, end, y, []) == Scan(image, addr + 1, end, addr, [image[addr]]);
      }
    }
  }

  /** The scan reads nothing outside [addr, end): images that agree there give the same segments. */
  lemma {:induction false} ScanReadsOnlyWindow(image: seq<byte>, other: seq<byte>, addr: nat, end: nat, start: nat, acc: seq<byte>)
    requires addr <= end <= |image| && end <= |other|
    requires image[addr..end] == other[addr..end]
    ensures Scan(image, addr, end, start, acc) == Scan(other, addr, end, start, acc)
    decreases end - addr
  {
    if addr < end {
      assert image[addr] == image[addr..end][0] == other[addr];
      assert image[addr + 1..end] == image[addr..end][1..];
      assert other[addr + 1..end] == other[addr..end][1..];
      var start' := if acc == [] then addr else start;
      ScanReadsOnlyWindow(image, other, addr + 1, end, start', acc + [image[addr]]);
      ScanReadsOnlyWindow(image, other, addr + 1, end, start, []);
    }
  }

  lemma {:induction false} LiveZero(image: seq<byte>, lo: nat, hi: nat)
    requires lo <= hi <= |image|
    ensures Live(image, lo, hi) == 0 <==> forall a | lo <= a < hi :: image[a] == ERASED
    decreases hi - lo
  {
    if lo < hi {
      LiveZero(image, lo + 1, hi);
    }
  }

  // ---------------------------------------------------------------------
  // Frames

  /**
   * A latch-data command: the opcode, the start address as a big-endian
   * uint32, the length as a big-endian uint16, the bytes, the terminator.
   */
  function LatchFrame(start: nat, data: seq<byte>): seq<byte>
  {
    [CMD_LATCH_DATA] + EncodeUInt32(ToUInt32(start)) + EncodeUInt16(ToUInt16(|data|)) + data + [CMD_OK]
  }

  /** An opcode followed by a big-endian uint32 row address and the terminator. */
  function AddressFrame(opcode: byte, s: nat): seq<byte>
  {
    [opcode] + EncodeUInt32(ToUInt32(s)) + [CMD_OK]
  }

  function EraseRowFrame(s: nat): seq<byte>
  {
    AddressFrame(CMD_ERASE_ROW, s)
  }

  function WriteRowFrame(s: nat): seq<byte>
  {
    AddressFrame(CMD_WRITE_ROW, s)
  }

  /** The write-config command: the opcode, the configuration bytes verbatim, the terminator. */
  function ConfigFrame(conf: seq<byte>): seq<byte>
  {
    [CMD_WRITE_CONF] + conf + [CMD_OK]
  }

  /** A two-byte command: the opcode and the terminator. */
  function SimpleFrame(c: Command): seq<byte>
  {
    [Opcode(c), CMD_OK]
  }

  /** How the device reads a latch-data frame back: address, declared length, payload. */
  function ParseLatch(f: seq<byte>): Option<Segment>
  {
    if |f| < 8 || f[0] != CMD_LATCH_DATA || f[|f| - 1] != CMD_OK then None
    else
      var n := DecodeUInt16(f[5..7]);
      if |f| != 8 + n then None else Some(Segment(DecodeUInt32(f[1..5]), f[7..7 + n]))
  }

  /** How the device reads an erase-row or write-row frame back: opcode and row address. */
  function ParseAddressFrame(f: seq<byte>): Option<(byte, nat)>
  {
    if |f| != 6 || f[5] != CMD_OK then None else Some((f[0], DecodeUInt32(f[1..5])))
  }

  /** A latch frame carries its segment's address, length and bytes intact. */
  lemma LatchRoundTrip(seg: Segment)
    requires seg.start < 0x1_0000_0000 && |seg.data| < 0x1_0000
    ensures ParseLatch(LatchFrame(seg.start, seg.data)) == Some(seg)
    ensures |LatchFrame(seg.start, seg.data)| == |seg.data| + 8
  {
    var f := LatchFrame(seg.start, seg.data);
    assert f[1..5] == EncodeUInt32(seg.start);
    assert f[5..7] == EncodeUInt16(|seg.data|);
    DecodeEncode32(seg.start);
    DecodeEncode16(|seg.data|);
    assert f[7..7 + |seg.data|] == seg.data;
  }

  lemma AddressFrameRoundTrip(opcode: byte, s: nat)
    requires s < 0x1_0000_0000
    ensures ParseAddressFrame(AddressFrame(opcode, s)) == Some((opcode, s))
  {
    var f := AddressFrame(opcode, s);
    assert f[1..5] == EncodeUInt32(s);
    DecodeEncode32(s);
  }

  /** The four one-shot commands, byte for byte. */
  lemma SimpleFrames()
    ensures SimpleFrame(StartProg) == [0x40, 0x20] && SimpleFrame(EndProg) == [0x41, 0x20]
    ensures SimpleFrame(EraseChip) == [0x45, 0x20] && SimpleFrame(QueryInfo) == [0x46, 0x20]
  {
  }

  function LatchFrames(segs: seq<Segment>): (fs: seq<seq<byte>>)
    ensures |fs| == |segs|
  {
    seq(|segs|, i requires 0 <= i < |segs| => LatchFrame(segs[i].start, segs[i].data))
  }

  lemma LatchFramesAppend(a: seq<Segment>, b: seq<Segment>)
    ensures LatchFrames(a + b) == LatchFrames(a) + LatchFrames(b)
  {
    var l, r := LatchFrames(a + b), LatchFrames(a) + LatchFrames(b);
    assert |l| == |r|;
    forall i | 0 <= i < |l| ensures l[i] == r[i] {
      if i < |a| {
        assert (a + b)[i] == a[i];
      } else {
        assert (a + b)[i] == b[i - |a|];
      }
    }
  }

  /** What closes a row: erase and write when it had something to latch, nothing otherwise. */
  function RowClose(image: seq<byte>, s: nat): seq<seq<byte>>
    requires s <= |image|
  {
    if RowSegments(image, s) == [] then [] else [EraseRowFrame(s), WriteRowFrame(s)]
  }

  /** The commands of one row: its latches, then erase and write, or nothing at all for a blank row. */
  function RowFrames(image: seq<byte>, s: nat): seq<seq<byte>>
    requires s <= |image|
  {
    LatchFrames(RowSegments(image, s)) + RowClose(image, s)
  }

  /** The commands of the rows starting at s, s + ROW_SIZE, ... below the image's end, in that order. */
  function ProgramFrames(image: seq<byte>, s: nat): seq<seq<byte>>
    decreases |image| - s
  {
    if s >= |image| then [] else RowFrames(image, s) + ProgramFrames(image, s + ROW_SIZE)
  }

  /** Everything one download sends when every command succeeds: the configuration, then the rows. */
  function DownloadFrames(image: seq<byte>, conf: seq<byte>): seq<seq<byte>>
  {
    [ConfigFrame(conf)] + ProgramFrames(image, 0)
  }

  /** Number of frames whose first byte is the given opcode. */
  function CountOpcode(frames: seq<seq<byte>>, opcode: byte): nat
  {
    if frames == [] then 0
    else (if |frames[0]| > 0 && frames[0][0] == opcode then 1 else 0) + CountOpcode(frames[1..], opcode)
  }

  lemma {:induction false} CountOpcodeAppend(a: seq<seq<byte>>, b: seq<seq<byte>>, opcode: byte)
    ensures CountOpcode(a + b, opcode) == CountOpcode(a, opcode) + CountOpcode(b, opcode)
    decreases |a|
  {
    if a == [] {
      assert a + b == b;
    } else {
      assert (a + b)[1..] == a[1..] + b;
      CountOpcodeAppend(a[1..], b, opcode);
    }
  }

  lemma CountPair(f: seq<byte>, g: seq<byte>, opcode: byte)
    requires |f| > 0 && |g| > 0
    ensures CountOpcode([f, g], opcode) == (if f[0] == opcode then 1 else 0) + (if g[0] == opcode then 1 else 0)
  {
    assert [f, g][1..] == [g];
    assert [g][1..] == [];
    assert CountOpcode([g], opcode) == (if g[0] == opcode then 1 else 0) + CountOpcode([], opcode);
  }

  lemma {:induction false} CountLatches(segs: seq<Segment>, opcode: byte)
    ensures CountOpcode(LatchFrames(segs), opcode) == if opcode == CMD_LATCH_DATA then |segs| else 0
    decreases |segs|
  {
    if segs != [] {
      assert LatchFrames(segs) == [LatchFrames(segs)[0]] + LatchFrames(segs[1..]);
      CountLatches(segs[1..], opcode);
    }
  }

  /** One segment of row s lies inside the row's window and is not empty. */
  lemma RowSegmentInside(image: seq<byte>, s: nat, k: nat)
    requires s <= |image| && k < |RowSegments(image, s)|
    ensures var seg := RowSegments(image, s)[k];
      0 < |seg.data| && s <= seg.start && End(seg) <= WindowEnd(image, s)
  {
    RowSegmentsAreRuns(image, s);
    assert IsRun(image, s, WindowEnd(image, s), RowSegments(image, s)[k]);
  }

  /** A row has no segment exactly when its whole window is 0xFF. */
  lemma RowBlank(image: seq<byte>, s: nat)
    requires s <= |image|
    ensures RowSegments(image, s) == [] <==> forall a | s <= a < WindowEnd(image, s) :: image[a] == ERASED
  {
    var segs := RowSegments(image, s);
    ScanLength(image, s, WindowEnd(image, s), s, []);
    LiveZero(image, s, WindowEnd(image, s));
    if segs != [] {
      RowSegmentInside(image, s, 0);
      assert TotalLength(segs) >= |segs[0].data|;
    }
  }

  /**
   * A row whose window is all 0xFF produces no command at all; any other row
   * produces one latch per segment and exactly one erase-row and one
   * write-row command, the latches first.
   */
  lemma RowCommands(image: seq<byte>, s: nat)
    requires s <= |image|
    ensures var frames := RowFrames(image, s);
      var blank := forall a | s <= a < WindowEnd(image, s) :: image[a] == ERASED;
      && (frames == [] <==> blank)
      && CountOpcode(frames, CMD_LATCH_DATA) == |RowSegments(image, s)|
      && CountOpcode(frames, CMD_ERASE_ROW) == (if blank then 0 else 1)
      && CountOpcode(frames, CMD_WRITE_ROW) == (if blank then 0 else 1)
      && (!blank ==> frames[|frames| - 2] == EraseRowFrame(s) && frames[|frames| - 1] == WriteRowFrame(s))
      && (forall i | 0 <= i < |frames| - 2 :: frames[i][0] == CMD_LATCH_DATA)
  {
    var segs := RowSegments(image, s);
    RowBlank(image, s);
    var latches := LatchFrames(segs);
    var tail: seq<seq<byte>> := if segs == [] then [] else [EraseRowFrame(s), WriteRowFrame(s)];
    assert RowFrames(image, s) == latches + tail;
    CountOpcodeAppend(latches, tail, CMD_LATCH_DATA);
    CountOpcodeAppend(latches, tail, CMD_ERASE_ROW);
    CountOpcodeAppend(latches, tail, CMD_WRITE_ROW);
    CountLatches(segs, CMD_LATCH_DATA);
    CountLatches(segs, CMD_ERASE_ROW);
    CountLatches(segs, CMD_WRITE_ROW);
    if segs != [] {
      CountPair(EraseRowFrame(s), WriteRowFrame(s), CMD_LATCH_DATA);
      CountPair(EraseRowFrame(s), WriteRowFrame(s), CMD_ERASE_ROW);
      CountPair(EraseRowFrame(s), WriteRowFrame(s), CMD_WRITE_ROW);
    }
  }

  /** Every segment of every row of the image, rows in increasing order. */
  function AllSegments(image: seq<byte>, s: nat): seq<Segment>
    decreases |image| - s
  {
    if s >= |image| then [] else RowSegments(image, s) + AllSegments(image, s + ROW_SIZE)
  }

  /** The row (by start address) an image address belongs to. */
  function RowOf(a: nat): nat
  {
    a / ROW_SIZE * ROW_SIZE
  }

  lemma RowOfInside(s: nat, a: nat)
    requires s % ROW_SIZE == 0 && s <= a < s + ROW_SIZE
    ensures RowOf(a) == s
  {
    assert s == s / ROW_SIZE * ROW_SIZE;
    assert a / ROW_SIZE == s / ROW_SIZE;
  }

  /** A segment at or after s, inside the image and inside one row; so no longer than a row. */
  ghost predicate InOneRow(image: seq<byte>, s: nat, seg: Segment)
  {
    && 0 < |seg.data| <= ROW_SIZE && s <= seg.start && End(seg) <= |image|
    && RowOf(seg.start) == RowOf(End(seg) - 1)
  }

  /**
   * Across the whole download every latched segment lies inside one row and
   * the image, and none is longer than a row, so its uint16 length field is exact.
   */
  lemma {:induction false} AllSegmentsInRows(image: seq<byte>, s: nat)
    requires s % ROW_SIZE == 0
    ensures forall seg | seg in AllSegments(image, s) :: InOneRow(image, s, seg)
    decreases |image| - s
  {
    if s < |image| {
      var row := RowSegments(image, s);
      var rest := AllSegments(image, s + ROW_SIZE);
      AllSegmentsInRows(image, s + ROW_SIZE);
      forall seg | seg in row + rest ensures InOneRow(image, s, seg) {
        if seg in row {
          var k :| 0 <= k < |row| && row[k] == seg;
          RowSegmentInside(image, s, k);
          RowOfInside(s, seg.start);
          RowOfInside(s, End(seg) - 1);
        } else {
          assert InOneRow(image, s + ROW_SIZE, seg);
        }
      }
    }
  }

  /** Segments in increasing address order, none overlapping the next. */
  ghost predicate Ascending(segs: seq<Segment>)
  {
    forall i, j | 0 <= i < j < |segs| :: End(segs[i]) <= segs[j].start
  }

  /**
   * Across the whole download the latched segments come in increasing
   * address order and never overlap (within a row they are also separated
   * by an erased byte; across a row boundary they may touch).
   */
  lemma {:induction false} AllSegmentsIncreasing(image: seq<byte>, s: nat)
    requires s % ROW_SIZE == 0
    ensures Ascending(AllSegments(image, s))
    decreases |image| - s
  {
    if s < |image| {
      var row := RowSegments(image, s);
      var rest := AllSegments(image, s + ROW_SIZE);
      var segs := row + rest;
      AllSegmentsIncreasing(image, s + ROW_SIZE);
      AllSegmentsInRows(image, s + ROW_SIZE);
      RowSegmentsAreRuns(image, s);
      forall i, j | 0 <= i < j < |segs| ensures End(segs[i]) <= segs[j].start {
        if j < |row| {
          assert segs[i] == row[i] && segs[j] == row[j];
          assert End(row[i]) < row[j].start;
        } else if i < |row| {
          assert segs[i] == row[i] && segs[j] == rest[j - |row|];
          assert rest[j - |row|] in rest;
          RowSegmentInside(image, s, i);
          assert End(row[i]) <= s + ROW_SIZE <= rest[j - |row|].start;
        } else {
          assert segs[i] == rest[i - |row|] && segs[j] == rest[j - |row|];
          assert End(rest[i - |row|]) <= rest[j - |row|].start;
        }
      }
    }
  }

  /** The commands of the download are the row commands in row order, and the latches among them are the segments. */
  lemma {:induction false} ProgramLatches(image: seq<byte>, s: nat)
    ensures CountOpcode(ProgramFrames(image, s), CMD_LATCH_DATA) == |AllSegments(image, s)|
    decreases |image| - s
  {
    if s < |image| {
      RowCommands(image, s);
      CountOpcodeAppend(RowFrames(image, s), ProgramFrames(image, s + ROW_SIZE), CMD_LATCH_DATA);
      ProgramLatches(image, s + ROW_SIZE);
    }
  }
}
