/**
 * The programming side of the Python host (pic18prog.py, class PIC18K40ICSP
 * and the download branch of main). Every command is one write to the serial
 * port followed by one read of a fixed number of reply bytes; a reply that
 * does not end with 'a' raises, and otherwise the reply without its 'a' is
 * returned. Addresses and words are packed with struct.pack, which raises on
 * a value that does not fit its field.
 *
 * The operations are specified as functions of a Wire value (the buffers
 * written so far and the reply bytes still to arrive); the class methods are
 * proved to change the port exactly as those functions say.
 */
module Icsp {
  import opened Bytes
  import opened Wrappers
  import Codec
  import Protocol
  import Segmenter
  import opened Rows
  import opened HexFile

  /** What the operations raise. */
  datatype IcspError =
    | CommError              // serial_send: the reply does not end with 'a'
    | StructError            // struct.pack or struct.unpack refuses a value
    | VerifyError            // program_one_word: the word read back differs
    | UnrecognizedSegment    // main: a row outside the flash, user-ID and configuration areas
    | HexFailed(hex: HexError)
    | RowsFailed(rows: RowError)

  /** The serial link: every buffer written, in order, and the reply bytes that arrive within the timeout. */
  datatype Wire = Wire(written: seq<seq<byte>>, incoming: seq<byte>)

  /** The link after an operation, and what the operation returned or raised. */
  datatype Step<T> = Step(wire: Wire, result: Result<T, IcspError>)

  /** The acknowledgement that ends every reply: 'a'. */
  const ACK: byte := 0x61

  const LVP_BEGIN: seq<byte> := [0x40, 0x20]  // b'@ '
  const LVP_END: seq<byte> := [0x41, 0x20]    // b'A '
  const CMD_ROW: byte := 0x42                 // 'B'
  const CMD_LOAD_PC: byte := 0x48             // 'H'
  const CMD_ERASE: byte := 0x49               // 'I'
  const CMD_READ: byte := 0x4B                // 'K'
  const CMD_LOAD_WORD: byte := 0x4E           // 'N'
  const CMD_PROGRAM: byte := 0x50             // 'P'
  const SPACE: byte := 0x20                   // ' '

  /** The addresses main programs word by word: the user-ID and the configuration areas. */
  const USER_ID_ADDRESS: nat := 0x20_0000
  const CONFIG_ADDRESS: nat := 0x30_0000
  /** The last row address main still programs as flash. */
  const FLASH_LIMIT: nat := 0x2_0000

  /** The geometry main passes to to_rows: 64 words of 2 bytes. */
  const ROW_WORDS: nat := 64
  const WORD_SIZE: nat := 2

  // ---------------------------------------------------------------------
  // serial_send
  // ---------------------------------------------------------------------

  /** How many bytes ser.read(n) returns: n, or fewer when the timeout ends the wait. */
  function Available(incoming: seq<byte>, n: nat): (k: nat)
    ensures k <= n && k <= |incoming|
    ensures k < n ==> k == |incoming|
  {
    Min(n, |incoming|)
  }

  /** serial_send(buffer, resp_len) as a function of the link. */
  function Send(w: Wire, buffer: seq<byte>, respLen: nat): Step<seq<byte>>
  {
    var k := Available(w.incoming, respLen);
    var ret := w.incoming[..k];
    var after := Wire(w.written + [buffer], w.incoming[k..]);
    if EndsWith(ret, ACK) then Step(after, Ok(ret[..k - 1])) else Step(after, Err(CommError))
  }

  /** A Step that only signals success or failure. */
  function Done<T>(s: Step<T>): Step<()>
  {
    Step(s.wire, if s.result.Ok? then Ok(()) else Err(s.result.error))
  }

  /** Send each frame in turn with a one-byte reply, stopping at the first that raises. */
  function SendAll(w: Wire, frames: seq<seq<byte>>): Step<()>
    decreases |frames|
  {
    if frames == [] then Step(w, Ok(()))
    else
      var x := Send(w, frames[0], 1);
      if x.result.Err? then Step(x.wire, Err(x.result.error)) else SendAll(x.wire, frames[1..])
  }

  /** The last frame of a sequence: its reply decides the outcome. */
  lemma SendAllOne(w: Wire, f: seq<byte>)
    ensures SendAll(w, [f]) == Done(Send(w, f, 1))
  {
    var x := Send(w, f, 1);
    if x.result.Ok? {
      assert [f][1..] == [];
    }
  }

  /** The first frame of a sequence, then the others unless it raised. */
  lemma SendAllCons(w: Wire, f: seq<byte>, fs: seq<seq<byte>>)
    ensures SendAll(w, [f] + fs) ==
      var x := Send(w, f, 1);
      if x.result.Err? then Step(x.wire, Err(x.result.error)) else SendAll(x.wire, fs)
  {
    assert ([f] + fs)[1..] == fs;
  }

  /** n acknowledgements in a row. */
  function Acks(n: nat): (r: seq<byte>)
    ensures |r| == n && forall i | 0 <= i < n :: r[i] == ACK
  {
    seq(n, i => ACK)
  }

  lemma AcksSplit(a: nat, b: nat)
    ensures Acks(a + b) == Acks(a) + Acks(b)
  {
    assert forall i | 0 <= i < a + b :: Acks(a + b)[i] == (Acks(a) + Acks(b))[i];
  }

  // ---------------------------------------------------------------------
  // struct.pack and the frames
  // ---------------------------------------------------------------------

  /** Every word fits in 16 bits. */
  predicate Words16(ws: seq<nat>)
  {
    forall i | 0 <= i < |ws| :: ws[i] < 0x1_0000
  }

  /** The words as consecutive little-endian byte pairs. */
  function LeBytes(ws: seq<nat>): (r: seq<byte>)
    requires Words16(ws)
    ensures |r| == 2 * |ws|
    ensures forall i | 0 <= i < |ws| :: r[2 * i] == ws[i] % 0x100 && r[2 * i + 1] == ws[i] / 0x100
  {
    if ws == [] then []
    else
      var rest := LeBytes(ws[..|ws| - 1]);
      var last := ws[|ws| - 1];
      rest + [last % 0x100, last / 0x100]
  }

  /** H followed by the address big-endian, no terminator: load_pc's frame. */
  function LoadPcFrame(addr: uint32): seq<byte>
  {
    [CMD_LOAD_PC] + Codec.EncodeUInt32(addr)
  }

  /** N followed by the word big-endian: program_one_word's latch frame. */
  function LoadWordFrame(word: uint16): seq<byte>
  {
    [CMD_LOAD_WORD] + Codec.EncodeUInt16(word)
  }

  /**
   * program_row's command: B, the address, the byte count, the words low byte
   * first, and a space; None when struct.pack refuses one of the fields.
   */
  function RowCommand(row: Row): (c: Option<seq<byte>>)
    ensures c.Some? <==> row.address < 0x1_0000_0000 && 2 * |row.words| < 0x1_0000 && Words16(row.words)
  {
    if row.address < 0x1_0000_0000 && 2 * |row.words| < 0x1_0000 && Words16(row.words) then
      Some([CMD_ROW] + Codec.EncodeUInt32(row.address) + Codec.EncodeUInt16(2 * |row.words|) + LeBytes(row.words) + [SPACE])
    else None
  }

  // ---------------------------------------------------------------------
  // The operations, as functions of the link
  // ---------------------------------------------------------------------

  function LvpBeginOp(w: Wire): Step<()>
  {
    Done(Send(w, LVP_BEGIN, 1))
  }

  function LvpEndOp(w: Wire): Step<()>
  {
    Done(Send(w, LVP_END, 1))
  }

  function LoadPcOp(w: Wire, addr: nat): Step<()>
  {
    if addr < 0x1_0000_0000 then Done(Send(w, LoadPcFrame(addr), 1)) else Step(w, Err(StructError))
  }

  function EraseDeviceOp(w: Wire): Step<()>
  {
    SendAll(w, [LoadPcFrame(0), [CMD_ERASE]])
  }

  function ProgramRowOp(w: Wire, row: Row): Step<()>
  {
    match RowCommand(row)
    case None => Step(w, Err(StructError))
    case Some(c) => SendAll(w, [c, LoadPcFrame(row.address), [CMD_PROGRAM]])
  }

  /** struct.unpack('>H', rsp) compared with the word written. */
  function CheckReadBack(rsp: seq<byte>, word: nat): Result<(), IcspError>
  {
    if |rsp| != 2 then Err(StructError)
    else if rsp[0] as int * 0x100 + rsp[1] != word then Err(VerifyError)
    else Ok(())
  }

  function ProgramOneWordOp(w: Wire, addr: nat, word: nat): Step<()>
  {
    var x := LoadPcOp(w, addr);
    if x.result.Err? then x
    else if word >= 0x1_0000 then Step(x.wire, Err(StructError))
    else
      var y := SendAll(x.wire, [LoadWordFrame(word), [CMD_PROGRAM]]);
      if y.result.Err? then y
      else
        var z := Send(y.wire, [CMD_READ], 3);
        match z.result
        case Err(e) => Step(z.wire, Err(e))
        case Ok(rsp) => Step(z.wire, CheckReadBack(rsp, word))
  }

  /** program_one_word_list from word i on: word i goes to address + 2i. */
  function ProgramWordsFrom(w: Wire, address: nat, words: seq<nat>, i: nat): Step<()>
    requires i <= |words|
    decreases |words| - i
  {
    if i == |words| then Step(w, Ok(()))
    else
      var x := ProgramOneWordOp(w, address + i * 2, words[i]);
      if x.result.Err? then x else ProgramWordsFrom(x.wire, address, words, i + 1)
  }

  /** main's choice for one row: flash by row, user ID and configuration word by word, anything else raises. */
  function DispatchRow(w: Wire, row: Row): Step<()>
  {
    if row.address <= FLASH_LIMIT then ProgramRowOp(w, row)
    else if row.address == USER_ID_ADDRESS || row.address == CONFIG_ADDRESS then
      ProgramWordsFrom(w, row.address, row.words, 0)
    else Step(w, Err(UnrecognizedSegment))
  }

  /** main's loop over the pending rows, stopping at the first that raises. */
  function ProgramRowsOp(w: Wire, rows: seq<Row>): Step<()>
    decreases |rows|
  {
    if rows == [] then Step(w, Ok(()))
    else
      var x := DispatchRow(w, rows[0]);
      if x.result.Err? then x else ProgramRowsOp(x.wire, rows[1..])
  }

  /**
   * main's download branch: enter programming mode and erase the device, then
   * read the HEX lines, group them into rows of 64 two-byte words, program
   * them, and leave programming mode.
   */
  function DownloadOp(w: Wire, lines: seq<string>): Step<()>
  {
    var b := LvpBeginOp(w);
    if b.result.Err? then b
    else
      var e := EraseDeviceOp(b.wire);
      if e.result.Err? then e else ProgramFileOp(e.wire, lines)
  }

  /** The part of the download branch after the erase: read the file, program its rows, leave programming mode. */
  function ProgramFileOp(w: Wire, lines: seq<string>): Step<()>
  {
    var loaded := Feed(HexState(map[], 0), lines, false);
    match HexFile.Outcome(loaded)
    case Some(err) => Step(w, Err(HexFailed(err)))
    case None =>
      match RowsOf(loaded.state.memory, ROW_WORDS, WORD_SIZE)
      case Err(re) => Step(w, Err(RowsFailed(re)))
      case Ok(rs) =>
        var p := ProgramRowsOp(w, rs);
        if p.result.Err? then p else LvpEndOp(p.wire)
  }

  // ---------------------------------------------------------------------
  // Properties
  // ---------------------------------------------------------------------

  /**
   * serial_send writes its buffer once, consumes up to resp_len reply bytes,
   * and succeeds exactly when the consumed bytes end with 'a', returning them
   * without it.
   */
  lemma SendReply(w: Wire, buffer: seq<byte>, respLen: nat)
    ensures var x := Send(w, buffer, respLen);
      var k := Available(w.incoming, respLen);
      && x.wire.written == w.written + [buffer]
      && w.incoming == w.incoming[..k] + x.wire.incoming
      && (x.result.Ok? <==> k > 0 && w.incoming[k - 1] == ACK)
      && (x.result.Ok? ==> w.incoming[..k] == x.result.value + [ACK])
  {
    var k := Available(w.incoming, respLen);
    assert w.incoming == w.incoming[..k] + w.incoming[k..];
    if k > 0 {
      assert w.incoming[..k] == w.incoming[..k][..k - 1] + [ACK] || w.incoming[k - 1] != ACK;
    }
  }

  /**
   * The frames SendAll writes are a prefix of the plan: all of them when it
   * succeeds; when it fails, the frames before the last one written all
   * succeeded, the last one's reply lacked the acknowledgement, and the
   * link is left where that send left it, with nothing written after it.
   */
  lemma {:induction false} SendAllWrites(w: Wire, frames: seq<seq<byte>>) returns (k: nat)
    ensures k <= |frames|
    ensures SendAll(w, frames).wire.written == w.written + frames[..k]
    ensures SendAll(w, frames).result.Ok? ==> k == |frames|
    ensures SendAll(w, frames).result.Err? ==> k > 0 && SendAll(w, frames).result.error == CommError
    ensures SendAll(w, frames).result.Err? ==>
      var before := SendAll(w, frames[..k - 1]);
      && before.result.Ok?
      && Send(before.wire, frames[k - 1], 1).result.Err?
      && SendAll(w, frames).wire == Send(before.wire, frames[k - 1], 1).wire
    decreases |frames|
  {
    if frames == [] {
      k := 0;
    } else {
      var x := Send(w, frames[0], 1);
      if x.result.Err? {
        k := 1;
        assert frames[..0] == [];
      } else {
        var k' := SendAllWrites(x.wire, frames[1..]);
        k := k' + 1;
        assert frames[..k] == [frames[0]] + frames[1..][..k'];
        if SendAll(w, frames).result.Err? {
          assert frames[..k - 1] == [frames[0]] + frames[1..][..k' - 1];
          SendAllCons(w, frames[0], frames[1..][..k' - 1]);
          assert frames[k - 1] == frames[1..][k' - 1];
        }
      }
    }
  }

  /** A device that acknowledges every frame: SendAll writes them all and consumes one 'a' each. */
  lemma {:induction false} SendAllAcked(w: Wire, frames: seq<seq<byte>>, rest: seq<byte>)
    requires w.incoming == Acks(|frames|) + rest
    ensures SendAll(w, frames) == Step(Wire(w.written + frames, rest), Ok(()))
    decreases |frames|
  {
    if frames != [] {
      var x := Send(w, frames[0], 1);
      assert x.wire.incoming == Acks(|frames| - 1) + rest;
      SendAllAcked(x.wire, frames[1..], rest);
      assert w.written + [frames[0]] + frames[1..] == w.written + frames;
    }
  }

  /** A first reply that is not 'a' ends the sequence after its first frame. */
  lemma SendAllRefused(w: Wire, frames: seq<seq<byte>>)
    requires frames != [] && w.incoming != [] && w.incoming[0] != ACK
    ensures SendAll(w, frames) == Step(Wire(w.written + [frames[0]], w.incoming[1..]), Err(CommError))
  {
  }

  /** A silent device (no reply at all) also ends the sequence after its first frame. */
  lemma SendAllSilent(w: Wire, frames: seq<seq<byte>>)
    requires frames != [] && w.incoming == []
    ensures SendAll(w, frames) == Step(Wire(w.written + [frames[0]], []), Err(CommError))
  {
  }

  /** The frames of two sequences sent one after the other. */
  lemma {:induction false} SendAllAppend(w: Wire, a: seq<seq<byte>>, b: seq<seq<byte>>)
    ensures SendAll(w, a + b) ==
      var x := SendAll(w, a);
      if x.result.Err? then x else SendAll(x.wire, b)
    decreases |a|
  {
    if a == [] {
      assert a + b == b;
    } else {
      assert (a + b)[1..] == a[1..] + b;
      var x := Send(w, a[0], 1);
      if x.result.Ok? {
        SendAllAppend(x.wire, a[1..], b);
      }
    }
  }

  /**
   * The row command has the layout the device expects: 8 bytes of framing
   * around the words, with the byte count in the length field.
   */
  lemma RowCommandLayout(row: Row)
    requires RowCommand(row).Some?
    ensures var c := RowCommand(row).value;
      && |c| == 8 + 2 * |row.words|
      && c[0] == CMD_ROW && c[|c| - 1] == SPACE
      && Codec.DecodeUInt32(c[1..5]) == row.address
      && Codec.DecodeUInt16(c[5..7]) == 2 * |row.words|
      && c[7..|c| - 1] == LeBytes(row.words)
  {
    var c := RowCommand(row).value;
    var a := Codec.EncodeUInt32(row.address);
    var n := Codec.EncodeUInt16(2 * |row.words|);
    assert c == [CMD_ROW] + a + n + LeBytes(row.words) + [SPACE];
    assert c[1..5] == a;
    assert c[5..7] == n;
    assert c[7..|c| - 1] == LeBytes(row.words);
    Codec.DecodeEncode32(row.address);
    Codec.DecodeEncode16(2 * |row.words|);
  }

  /**
   * The Python host's row command is the Qt host's LATCH_DATA frame for the
   * row's bytes: the same opcode (0x42), fields and terminator.
   */
  lemma RowCommandIsLatchFrame(row: Row)
    requires RowCommand(row).Some?
    ensures RowCommand(row).value == Segmenter.LatchFrame(row.address, LeBytes(row.words))
  {
    assert Protocol.CMD_LATCH_DATA == CMD_ROW && Protocol.CMD_OK == SPACE;
  }

  /** Entering and leaving programming mode are the Qt host's START_PROG and END_PROG frames. */
  lemma LvpFramesAreSimpleFrames()
    ensures LVP_BEGIN == Segmenter.SimpleFrame(Protocol.StartProg)
    ensures LVP_END == Segmenter.SimpleFrame(Protocol.EndProg)
  {
    assert Protocol.Opcode(Protocol.StartProg) == 0x40;
  }

  /** With three acknowledgements, program_row writes its command, then H with the address, then P. */
  lemma ProgramRowAcked(w: Wire, row: Row, rest: seq<byte>)
    requires RowCommand(row).Some? && w.incoming == Acks(3) + rest
    ensures row.address < 0x1_0000_0000
    ensures ProgramRowOp(w, row) ==
      Step(Wire(w.written + [RowCommand(row).value, LoadPcFrame(row.address), [CMD_PROGRAM]], rest), Ok(()))
  {
    SendAllAcked(w, [RowCommand(row).value, LoadPcFrame(row.address), [CMD_PROGRAM]], rest);
  }

  /** A row struct.pack refuses raises before anything is written. */
  lemma ProgramRowRefused(w: Wire, row: Row)
    requires row.address >= 0x1_0000_0000 || 2 * |row.words| >= 0x1_0000 || !Words16(row.words)
    ensures ProgramRowOp(w, row) == Step(w, Err(StructError))
  {
  }

  /**
   * program_one_word with a device that acknowledges H, N and P and answers K
   * with two bytes and 'a': it writes the four frames, and succeeds exactly
   * when the big-endian word read back is the word written.
   */
  lemma ProgramOneWordReadBack(w: Wire, addr: nat, word: nat, hi: byte, lo: byte, rest: seq<byte>)
    requires addr < 0x1_0000_0000 && word < 0x1_0000
    requires w.incoming == Acks(3) + [hi, lo, ACK] + rest
    ensures var x := ProgramOneWordOp(w, addr, word);
      && x.wire == Wire(w.written + [LoadPcFrame(addr), LoadWordFrame(word), [CMD_PROGRAM], [CMD_READ]], rest)
      && (x.result.Ok? <==> hi as int * 0x100 + lo == word)
      && (x.result.Err? ==> x.result.error == VerifyError)
  {
    var in0 := w.incoming;
    assert in0[1..] == Acks(2) + [hi, lo, ACK] + rest;
    var x := LoadPcOp(w, addr);
    assert x.wire == Wire(w.written + [LoadPcFrame(addr)], in0[1..]);
    SendAllAcked(x.wire, [LoadWordFrame(word), [CMD_PROGRAM]], [hi, lo, ACK] + rest);
    var y := SendAll(x.wire, [LoadWordFrame(word), [CMD_PROGRAM]]);
    var z := Send(y.wire, [CMD_READ], 3);
    assert y.wire.incoming == [hi, lo, ACK] + rest;
    assert y.wire.incoming[..3] == [hi, lo, ACK];
    assert [hi, lo, ACK][..2] == [hi, lo];
    assert z.result == Ok([hi, lo]);
    assert z.wire.incoming == rest;
    assert w.written + [LoadPcFrame(addr)] + [LoadWordFrame(word), [CMD_PROGRAM]] + [[CMD_READ]] ==
      w.written + [LoadPcFrame(addr), LoadWordFrame(word), [CMD_PROGRAM], [CMD_READ]];
  }

  /** A word that does not fit 16 bits raises after the address was loaded, before N is sent. */
  lemma ProgramOneWordTooWide(w: Wire, addr: nat, word: nat, rest: seq<byte>)
    requires addr < 0x1_0000_0000 && word >= 0x1_0000 && w.incoming == [ACK] + rest
    ensures ProgramOneWordOp(w, addr, word) == Step(Wire(w.written + [LoadPcFrame(addr)], rest), Err(StructError))
  {
    assert w.incoming[1..] == rest;
  }

  /** Programming a list of rows: the first, then the rest, unless the first raised. */
  lemma {:induction false} ProgramRowsAppend(w: Wire, a: seq<Row>, b: seq<Row>)
    ensures ProgramRowsOp(w, a + b) ==
      var x := ProgramRowsOp(w, a);
      if x.result.Err? then x else ProgramRowsOp(x.wire, b)
    decreases |a|
  {
    if a == [] {
      assert a + b == b;
    } else {
      assert (a + b)[1..] == a[1..] + b;
      var x := DispatchRow(w, a[0]);
      if x.result.Ok? {
        ProgramRowsAppend(x.wire, a[1..], b);
      }
    }
  }

  /**
   * A row outside the three areas makes main raise: nothing is written for
   * it or for any row after it, and the run ends with UnrecognizedSegment
   * unless an earlier row already raised.
   */
  lemma UnrecognizedRowStops(w: Wire, before: seq<Row>, row: Row, after: seq<Row>)
    requires row.address > FLASH_LIMIT && row.address != USER_ID_ADDRESS && row.address != CONFIG_ADDRESS
    ensures ProgramRowsOp(w, before + [row] + after) ==
      var x := ProgramRowsOp(w, before);
      if x.result.Err? then x else Step(x.wire, Err(UnrecognizedSegment))
  {
    ProgramRowsAppend(w, before, [row] + after);
    assert before + [row] + after == before + ([row] + after);
  }

  /**
   * A row of to_rows(64, 2) at a flash address never makes struct.pack fail:
   * it has at most 64 words, each of 16 bits. Its command is the Qt host's
   * LATCH_DATA frame for its bytes.
   */
  lemma FlashRowPacks(memory: map<nat, byte>, rs: seq<Row>, i: nat)
    requires RowsOf(memory, ROW_WORDS, WORD_SIZE) == Ok(rs) && i < |rs| && rs[i].address <= FLASH_LIMIT
    ensures RowCommand(rs[i]).Some?
    ensures RowCommand(rs[i]).value == Segmenter.LatchFrame(rs[i].address, LeBytes(rs[i].words))
  {
    FlashRowFits(memory, rs, i);
    RowCommandIsLatchFrame(rs[i]);
  }

  /** A row of to_rows(64, 2) has at most 64 words of 16 bits each. */
  lemma FlashRowFits(memory: map<nat, byte>, rs: seq<Row>, i: nat)
    requires RowsOf(memory, ROW_WORDS, WORD_SIZE) == Ok(rs) && i < |rs|
    ensures |rs[i].words| <= ROW_WORDS && Words16(rs[i].words)
  {
    GeometryPositive(ROW_WORDS, WORD_SIZE);
    var rowBytes := RowBytes(ROW_WORDS, WORD_SIZE);
    RowsOrdered(memory, ROW_WORDS, WORD_SIZE, rowBytes, rs);
    forall j | 0 <= j < |rs[i].words| ensures rs[i].words[j] < 0x1_0000 {
      RowsWordBound(memory, ROW_WORDS, WORD_SIZE, rowBytes, rs, i, j);
    }
  }

  /**
   * main erases the device before it reads the HEX file: when the file is
   * refused, the device has still been put into programming mode and erased,
   * and programming mode is not left.
   */
  lemma DownloadBadFile(w: Wire, lines: seq<string>, rest: seq<byte>)
    requires HexFile.Outcome(Feed(HexState(map[], 0), lines, false)).Some?
    requires w.incoming == Acks(3) + rest
    ensures DownloadOp(w, lines) == Step(Wire(w.written + [LVP_BEGIN, LoadPcFrame(0), [CMD_ERASE]], rest),
      Err(HexFailed(HexFile.Outcome(Feed(HexState(map[], 0), lines, false)).value)))
  {
    var e := OpeningAcked(w, rest);
    FileRefused(e, lines);
  }

  /** A device that acknowledges the opening frames: programming mode is entered and the device erased. */
  lemma OpeningAcked(w: Wire, rest: seq<byte>) returns (e: Wire)
    requires w.incoming == Acks(3) + rest
    ensures e == Wire(w.written + [LVP_BEGIN, LoadPcFrame(0), [CMD_ERASE]], rest)
    ensures var b := LvpBeginOp(w); b.result.Ok? && EraseDeviceOp(b.wire) == Step(e, Ok(()))
  {
    var b := LvpBeginOp(w);
    assert b.wire == Wire(w.written + [LVP_BEGIN], Acks(2) + rest);
    SendAllAcked(b.wire, [LoadPcFrame(0), [CMD_ERASE]], rest);
    assert w.written + [LVP_BEGIN] + [LoadPcFrame(0), [CMD_ERASE]] == w.written + [LVP_BEGIN, LoadPcFrame(0), [CMD_ERASE]];
    e := EraseDeviceOp(b.wire).wire;
  }

  /** A refused HEX file ends the download with its error, before anything more is written. */
  lemma FileRefused(w: Wire, lines: seq<string>)
    requires HexFile.Outcome(Feed(HexState(map[], 0), lines, false)).Some?
    ensures ProgramFileOp(w, lines) == Step(w, Err(HexFailed(HexFile.Outcome(Feed(HexState(map[], 0), lines, false)).value)))
  {
  }

  /**
   * With a device that acknowledges everything, a file whose rows are all
   * flash rows is programmed row by row: after the opening frames come the
   * three frames of each row, in row order, and then the closing frame.
   */
  lemma {:induction false} FlashRowsAcked(w: Wire, rs: seq<Row>, rest: seq<byte>)
    requires forall i | 0 <= i < |rs| :: rs[i].address <= FLASH_LIMIT && RowCommand(rs[i]).Some?
    requires w.incoming == Acks(3 * |rs|) + rest
    ensures ProgramRowsOp(w, rs) == Step(Wire(w.written + RowPlan(rs), rest), Ok(()))
    decreases |rs|
  {
    if rs != [] {
      AcksSplit(3, 3 * (|rs| - 1));
      assert w.incoming == Acks(3) + (Acks(3 * (|rs| - 1)) + rest);
      ProgramRowAcked(w, rs[0], Acks(3 * (|rs| - 1)) + rest);
      var x := DispatchRow(w, rs[0]);
      assert x == Step(Wire(w.written + ProgramRowFrames(rs[0]), Acks(3 * (|rs| - 1)) + rest), Ok(()));
      FlashRowsAcked(x.wire, rs[1..], rest);
      assert RowPlan(rs) == ProgramRowFrames(rs[0]) + RowPlan(rs[1..]);
      assert w.written + ProgramRowFrames(rs[0]) + RowPlan(rs[1..]) == w.written + RowPlan(rs);
    }
  }

  /** program_row's three frames for one row that packs. */
  function ProgramRowFrames(row: Row): seq<seq<byte>>
    requires RowCommand(row).Some?
  {
    [RowCommand(row).value, LoadPcFrame(row.address), [CMD_PROGRAM]]
  }

  /** The frames of programming the rows in order. */
  function RowPlan(rs: seq<Row>): (p: seq<seq<byte>>)
    requires forall i | 0 <= i < |rs| :: RowCommand(rs[i]).Some?
    ensures |p| == 3 * |rs|
  {
    if rs == [] then [] else ProgramRowFrames(rs[0]) + RowPlan(rs[1..])
  }

  // ---------------------------------------------------------------------
  // The serial port and class PIC18K40ICSP
  // ---------------------------------------------------------------------

  /** A pyserial port with a one-second timeout: written buffers, and the reply bytes that arrive in time. */
  class Link {
    var written: seq<seq<byte>>
    var incoming: seq<byte>

    function State(): Wire
      reads this
    {
      Wire(written, incoming)
    }

    constructor (replies: seq<byte>)
      ensures written == [] && incoming == replies
    {
      written := [];
      incoming := replies;
    }

    method Write(buffer: seq<byte>)
      modifies this`written
      ensures written == old(written) + [buffer]
    {
      written := written + [buffer];
    }

    /** read(n): up to n bytes; fewer when the timeout expires first. */
    method Read(n: nat) returns (data: seq<byte>)
      modifies this`incoming
      ensures data == old(incoming)[..Available(old(incoming), n)]
      ensures incoming == old(incoming)[Available(old(incoming), n)..]
    {
      var k := Available(incoming, n);
      data := incoming[..k];
      incoming := incoming[k..];
    }
  }

  class Pic18K40Icsp {
    const ser: Link

    constructor (serialport: Link)
      ensures ser == serialport
    {
      ser := serialport;
    }

    method SerialSend(buffer: seq<byte>, respLen: nat) returns (r: Result<seq<byte>, IcspError>)
      modifies ser
      ensures Step(ser.State(), r) == Send(old(ser.State()), buffer, respLen)
    {
      ser.Write(buffer);
      var ret := ser.Read(respLen);
      if !EndsWith(ret, ACK) {
        return Err(CommError);
      }
      return Ok(ret[..|ret| - 1]);
    }

    method LvpBegin() returns (r: Result<(), IcspError>)
      modifies ser
      ensures Step(ser.State(), r) == LvpBeginOp(old(ser.State()))
    {
      var x := SerialSend(LVP_BEGIN, 1);
      r := if x.Ok? then Ok(()) else Err(x.error);
    }

    method LvpEnd() returns (r: Result<(), IcspError>)
      modifies ser
      ensures Step(ser.State(), r) == LvpEndOp(old(ser.State()))
    {
      var x := SerialSend(LVP_END, 1);
      r := if x.Ok? then Ok(()) else Err(x.error);
    }

    method LoadPc(addr: nat) returns (r: Result<(), IcspError>)
      modifies ser
      ensures Step(ser.State(), r) == LoadPcOp(old(ser.State()), addr)
    {
      if addr >= 0x1_0000_0000 {
        return Err(StructError);
      }
      var addrbuf := Codec.EncodeUInt32(addr);
      var x := SerialSend([CMD_LOAD_PC] + addrbuf, 1);
      r := if x.Ok? then Ok(()) else Err(x.error);
    }

    method EraseDevice() returns (r: Result<(), IcspError>)
      modifies ser
      ensures Step(ser.State(), r) == EraseDeviceOp(old(ser.State()))
    {
      ghost var w0 := ser.State();
      SendAllCons(w0, LoadPcFrame(0), [[CMD_ERASE]]);
      r := LoadPc(0);
      if r.Err? {
        return;
      }
      SendAllOne(ser.State(), [CMD_ERASE]);
      var x := SerialSend([CMD_ERASE], 1);
      r := if x.Ok? then Ok(()) else Err(x.error);
    }

    /** program_row: build the command field by field, then send it, load the address and program. */
    method ProgramRow(row: Row) returns (r: Result<(), IcspError>)
      modifies ser
      ensures Step(ser.State(), r) == ProgramRowOp(old(ser.State()), row)
    {
      if row.address >= 0x1_0000_0000 || 2 * |row.words| >= 0x1_0000 {
        return Err(StructError);
      }
      var command := [CMD_ROW] + Codec.EncodeUInt32(row.address) + Codec.EncodeUInt16(2 * |row.words|);
      var head := command;
      for i := 0 to |row.words|
        invariant Words16(row.words[..i]) && command == head + LeBytes(row.words[..i])
      {
        var word := row.words[i];
        if word >= 0x1_0000 {
          assert !Words16(row.words);
          return Err(StructError);
        }
        assert row.words[..i + 1][..i] == row.words[..i];
        command := command + [word % 0x100, word / 0x100];
      }
      assert row.words[..|row.words|] == row.words;
      command := command + [SPACE];
      assert RowCommand(row) == Some(command);
      SendAllCons(ser.State(), command, [LoadPcFrame(row.address), [CMD_PROGRAM]]);
      var x := SerialSend(command, 1);
      if x.Err? {
        return Err(x.error);
      }
      SendAllCons(ser.State(), LoadPcFrame(row.address), [[CMD_PROGRAM]]);
      r := LoadPc(row.address);
      if r.Err? {
        return;
      }
      SendAllOne(ser.State(), [CMD_PROGRAM]);
      x := SerialSend([CMD_PROGRAM], 1);
      r := if x.Ok? then Ok(()) else Err(x.error);
    }

    method ProgramOneWord(addr: nat, word: nat) returns (r: Result<(), IcspError>)
      modifies ser
      ensures Step(ser.State(), r) == ProgramOneWordOp(old(ser.State()), addr, word)
    {
      r := LoadPc(addr);
      if r.Err? {
        return;
      }
      if word >= 0x1_0000 {
        return Err(StructError);
      }
      SendAllCons(ser.State(), LoadWordFrame(word), [[CMD_PROGRAM]]);
      var x := SerialSend([CMD_LOAD_WORD] + Codec.EncodeUInt16(word), 1);
      if x.Err? {
        return Err(x.error);
      }
      SendAllOne(ser.State(), [CMD_PROGRAM]);
      x := SerialSend([CMD_PROGRAM], 1);
      if x.Err? {
        return Err(x.error);
      }
      var readrsp := SerialSend([CMD_READ], 3);
      if readrsp.Err? {
        return Err(readrsp.error);
      }
      r := CheckReadBack(readrsp.value, word);
    }

    method ProgramOneWordList(row: Row) returns (r: Result<(), IcspError>)
      modifies ser
      ensures Step(ser.State(), r) == ProgramWordsFrom(old(ser.State()), row.address, row.words, 0)
    {
      for i := 0 to |row.words|
        invariant ProgramWordsFrom(old(ser.State()), row.address, row.words, 0) ==
          ProgramWordsFrom(ser.State(), row.address, row.words, i)
      {
        var x := ProgramOneWord(row.address + i * 2, row.words[i]);
        if x.Err? {
          return x;
        }
      }
      return Ok(());
    }

    /** The loop of main over the pending rows, run without --verify. */
    method ProgramRows(rows: seq<Row>) returns (r: Result<(), IcspError>)
      modifies ser
      ensures Step(ser.State(), r) == ProgramRowsOp(old(ser.State()), rows)
    {
      for i := 0 to |rows|
        invariant ProgramRowsOp(old(ser.State()), rows) == ProgramRowsOp(ser.State(), rows[i..])
      {
        assert rows[i..][1..] == rows[i + 1..];
        var row := rows[i];
        if row.address <= FLASH_LIMIT {
          r := ProgramRow(row);
        } else if row.address == USER_ID_ADDRESS {
          r := ProgramOneWordList(row);
        } else if row.address == CONFIG_ADDRESS {
          r := ProgramOneWordList(row);
        } else {
          r := Err(UnrecognizedSegment);
        }
        if r.Err? {
          return;
        }
      }
      return Ok(());
    }

    /** main's download branch without --verify, with the HEX file given as its lines. */
    method Download(lines: seq<string>) returns (r: Result<(), IcspError>)
      modifies ser
      ensures Step(ser.State(), r) == DownloadOp(old(ser.State()), lines)
    {
      r := LvpBegin();
      if r.Err? {
        return;
      }
      r := EraseDevice();
      if r.Err? {
        return;
      }
      var hf := new IntelHex();
      var err := hf.FromFile(lines);
      if err.Some? {
        return Err(HexFailed(err.value));
      }
      var pending := hf.ToRows(ROW_WORDS, WORD_SIZE);
      if pending.Err? {
        return Err(RowsFailed(pending.error));
      }
      r := ProgramRows(pending.value);
      if r.Err? {
        return;
      }
      r := LvpEnd();
    }
  }
}
