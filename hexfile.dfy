/**
 * The Intel HEX reader of the Python host (pic18prog.py, class IntelHex).
 * A line is stripped, checked for the ':' mark, turned into bytes the way
 * bytearray.fromhex does, checked for length and checksum, and dispatched on
 * its record type: data (0), end of file (1) and extended linear address (4).
 * The reader keeps a sparse byte map and the current upper address offset;
 * from_file feeds it every line and insists that the last one ended the file.
 */
module HexFile {
  import opened Bytes
  import opened Wrappers
  import opened Rows

  /** The exceptions decode_record and from_file raise. */
  datatype HexError =
    | UnexpectedLine   // a non-blank line that does not start with ':'
    | BadHex           // bytearray.fromhex refuses the rest of the line
    | Truncated        // an index past the end of the record's bytes
    | BadChecksum      // the record's bytes do not sum to 0 modulo 256
    | Unimplemented    // a record type other than 0, 1 and 4
    | NoEof            // from_file: the last line decoded was not an end-of-file record

  /** What one line stands for. */
  datatype Record =
    | Blank
    | Data(load: uint16, data: seq<byte>)
    | EndOfFile
    | ExtendedLinear(upper: uint16)

  // ---------------------------------------------------------------------
  // Text: str.strip(' \t\n\r') and bytearray.fromhex
  // ---------------------------------------------------------------------

  /** The characters the reader strips from both ends of a line. */
  predicate StripChar(c: char)
  {
    c == ' ' || c == '\t' || c == '\n' || c == '\r'
  }

  function StripLeft(s: string): (r: string)
    ensures |r| <= |s| && r == s[|s| - |r|..]
    ensures r == [] || !StripChar(r[0])
    ensures forall k | 0 <= k < |s| - |r| :: StripChar(s[k])
  {
    if s != [] && StripChar(s[0]) then StripLeft(s[1..]) else s
  }

  function StripRight(s: string): (r: string)
    ensures |r| <= |s| && r == s[..|r|]
    ensures r == [] || !StripChar(r[|r| - 1])
    ensures forall k | |r| <= k < |s| :: StripChar(s[k])
  {
    if s != [] && StripChar(s[|s| - 1]) then StripRight(s[..|s| - 1]) else s
  }

  /** r is the infix of s starting at i, and everything before and after it in s is a stripped character. */
  predicate CutAt(s: string, i: nat, r: string)
  {
    && i + |r| <= |s|
    && r == s[i..i + |r|]
    && (forall k | 0 <= k < i :: StripChar(s[k]))
    && (forall k | i + |r| <= k < |s| :: StripChar(s[k]))
  }

  /**
   * str.strip(' \t\n\r'): the longest infix whose two ends are not stripped characters,
   * everything cut off being stripped characters.
   */
  function Strip(s: string): (r: string)
    ensures r == [] || (!StripChar(r[0]) && !StripChar(r[|r| - 1]))
    ensures |r| <= |s|
    ensures exists i: nat :: CutAt(s, i, r)
  {
    var l := StripLeft(s);
    CutTwice(s, l, StripRight(l));
    StripRight(l)
  }

  /** Cutting stripped characters off the left of s and then off the right of what is left is one cut of s. */
  lemma CutTwice(s: string, l: string, r: string)
    requires |l| <= |s| && l == s[|s| - |l|..]
    requires forall k | 0 <= k < |s| - |l| :: StripChar(s[k])
    requires |r| <= |l| && r == l[..|r|]
    requires forall k | |r| <= k < |l| :: StripChar(l[k])
    ensures CutAt(s, |s| - |l|, r)
  {
    var i := |s| - |l|;
    assert r == s[i..i + |r|];
    forall k | i + |r| <= k < |s|
      ensures StripChar(s[k])
    {
      assert s[k] == l[k - i];
    }
  }

  /** A line made only of stripped characters strips to nothing, and only such a line does. */
  lemma StripEmpty(s: string)
    ensures Strip(s) == [] <==> forall k | 0 <= k < |s| :: StripChar(s[k])
  {
    var l := StripLeft(s);
    assert Strip(s) == StripRight(l);
  }

  /** The ASCII whitespace bytearray.fromhex skips between digit pairs (Python 3.7 and later). */
  predicate HexSpace(c: char)
  {
    c == ' ' || c == '\t' || c == '\n' || c as int == 0x0B || c as int == 0x0C || c == '\r'
  }

  /** The value of one hexadecimal digit, either case. */
  function HexDigit(c: char): (d: Option<nat>)
    ensures d.Some? ==> d.value < 16
    ensures d.Some? <==> ('0' <= c <= '9' || 'a' <= c <= 'f' || 'A' <= c <= 'F')
  {
    if '0' <= c <= '9' then Some(c as int - '0' as int)
    else if 'a' <= c <= 'f' then Some(c as int - 'a' as int + 10)
    else if 'A' <= c <= 'F' then Some(c as int - 'A' as int + 10)
    else None
  }

  /**
   * bytearray.fromhex: skip whitespace, then read two hexadecimal digits for
   * one byte; a lone or non-hexadecimal digit is an error.
   */
  function FromHex(s: string): Option<seq<byte>>
    decreases |s|
  {
    if s == [] then Some([])
    else if HexSpace(s[0]) then FromHex(s[1..])
    else if |s| < 2 || HexDigit(s[0]).None? || HexDigit(s[1]).None? then None
    else match FromHex(s[2..])
      case None => None
      case Some(rest) => Some([HexDigit(s[0]).value * 16 + HexDigit(s[1]).value] + rest)
  }

  /** The upper-case digit for a value below 16. */
  function DigitChar(d: nat): (c: char)
    requires d < 16
    ensures HexDigit(c) == Some(d)
  {
    if d < 10 then ('0' as int + d) as char else ('A' as int + d - 10) as char
  }

  /** Two digits per byte, high nibble first: the writer's side of fromhex. */
  function ToHex(b: seq<byte>): (s: string)
    ensures |s| == 2 * |b|
  {
    if b == [] then [] else [DigitChar(b[0] / 16), DigitChar(b[0] % 16)] + ToHex(b[1..])
  }

  lemma {:induction false} FromHexToHex(b: seq<byte>)
    ensures FromHex(ToHex(b)) == Some(b)
  {
    if b != [] {
      var s := ToHex(b);
      assert s[2..] == ToHex(b[1..]);
      FromHexToHex(b[1..]);
      assert !HexSpace(s[0]);
      assert [b[0]] + b[1..] == b;
    }
  }

  // ---------------------------------------------------------------------
  // Records
  // ---------------------------------------------------------------------

  /** sum(b): the plain sum of the record's bytes. */
  function Sum(b: seq<byte>): nat
  {
    if b == [] then 0 else b[0] + Sum(b[1..])
  }

  lemma {:induction false} SumAppend(a: seq<byte>, c: byte)
    ensures Sum(a + [c]) == Sum(a) + c
  {
    if a != [] {
      assert (a + [c])[1..] == a[1..] + [c];
      SumAppend(a[1..], c);
    }
  }

  /** Replacing one byte changes the sum by the difference. */
  lemma {:induction false} SumUpdate(b: seq<byte>, k: nat, v: byte)
    requires k < |b|
    ensures Sum(b[k := v]) + b[k] == Sum(b) + v
  {
    if k > 0 {
      assert b[k := v][1..] == b[1..][k - 1 := v];
      SumUpdate(b[1..], k - 1, v);
    }
  }

  /**
   * decode_record after fromhex. Reading b[0], b[1], b[2], b[3] and
   * b[4 + b[0]] fails on a record that short; only then is the checksum
   * checked; a type 4 record also reads b[4] and b[5].
   */
  function ParseBytes(b: seq<byte>): Result<Record, HexError>
  {
    if |b| == 0 || |b| <= 4 + b[0] as int then Err(Truncated)
    else if Sum(b) % 0x100 != 0 then Err(BadChecksum)
    else if b[3] == 0 then Ok(Data(b[1] as int * 0x100 + b[2], b[4..4 + b[0]]))
    else if b[3] == 1 then Ok(EndOfFile)
    else if b[3] == 4 then (if |b| < 6 then Err(Truncated) else Ok(ExtendedLinear(b[4] as int * 0x100 + b[5])))
    else Err(Unimplemented)
  }

  /** What decode_record makes of one line, before it touches any state. */
  function ParseLine(line: string): Result<Record, HexError>
  {
    var s := Strip(line);
    if s == [] then Ok(Blank)
    else if s[0] != ':' then Err(UnexpectedLine)
    else match FromHex(s[1..])
      case None => Err(BadHex)
      case Some(b) => ParseBytes(b)
  }

  /** A record a writer can produce: data records carry at most 255 bytes. */
  predicate Encodable(r: Record)
  {
    r.Data? ==> |r.data| < 0x100
  }

  /** The bytes followed by the two's complement of their sum, as a writer appends it. */
  function WithChecksum(b: seq<byte>): (c: seq<byte>)
    ensures |c| == |b| + 1 && c[..|b|] == b
    ensures Sum(c) % 0x100 == 0
  {
    var c := b + [(0x100 - Sum(b) % 0x100) % 0x100];
    SumAppend(b, c[|b|]);
    c
  }

  function RecordBytes(r: Record): seq<byte>
    requires Encodable(r) && !r.Blank?
  {
    match r
    case Data(load, data) => WithChecksum([|data|, load / 0x100, load % 0x100, 0] + data)
    case EndOfFile => WithChecksum([0, 0, 0, 1])
    case ExtendedLinear(upper) => WithChecksum([2, 0, 0, 4, upper / 0x100, upper % 0x100])
  }

  /** The line an Intel HEX writer emits for a record (no line terminator). */
  function EncodeRecord(r: Record): string
    requires Encodable(r)
  {
    if r.Blank? then [] else [':'] + ToHex(RecordBytes(r))
  }

  /** Every encodable record is read back as itself. */
  lemma ParseEncode(r: Record)
    requires Encodable(r)
    ensures ParseLine(EncodeRecord(r)) == Ok(r)
  {
    if !r.Blank? {
      HexLine(RecordBytes(r));
      ParseRecordBytes(r);
    }
  }

  /** A ':' followed by the digits of some bytes is read as those bytes. */
  lemma HexLine(b: seq<byte>)
    requires b != []
    ensures ParseLine([':'] + ToHex(b)) == ParseBytes(b)
  {
    var line := [':'] + ToHex(b);
    HexLast(b);
    StripPlain(line);
    assert line[1..] == ToHex(b);
    FromHexToHex(b);
  }

  /** A line that neither starts nor ends with a stripped character is left as it is. */
  lemma StripPlain(line: string)
    requires line != [] && !StripChar(line[0]) && !StripChar(line[|line| - 1])
    ensures Strip(line) == line
  {
  }

  /** The bytes a writer emits for a record parse back to the record. */
  lemma ParseRecordBytes(r: Record)
    requires Encodable(r) && !r.Blank?
    ensures ParseBytes(RecordBytes(r)) == Ok(r)
  {
    var b := RecordBytes(r);
    match r
    case Data(load, data) =>
      assert b[4..4 + b[0]] == data;
    case EndOfFile =>
    case ExtendedLinear(upper) =>
  }

  /** The last character of a non-empty hex string is a digit. */
  lemma {:induction false} HexLast(b: seq<byte>)
    requires b != []
    ensures HexDigit(ToHex(b)[|ToHex(b)| - 1]).Some?
  {
    if |b| > 1 {
      HexLast(b[1..]);
      assert ToHex(b)[|ToHex(b)| - 1] == ToHex(b[1..])[|ToHex(b[1..])| - 1];
    }
  }

  /**
   * A record corrupted in one byte is refused: the checksum catches any
   * change past the length byte; a changed length byte is refused too,
   * as too short or by the checksum.
   */
  lemma Corruption(b: seq<byte>, k: nat, v: byte)
    requires ParseBytes(b).Ok? && k < |b| && v != b[k]
    ensures ParseBytes(b[k := v]).Err?
    ensures k > 0 ==> ParseBytes(b[k := v]) == Err(BadChecksum)
  {
    SumUpdate(b, k, v);
    var d := Sum(b[k := v]) - Sum(b);
    assert -0x100 < d < 0x100 && d != 0;
  }

  // ---------------------------------------------------------------------
  // The reader's state and from_file
  // ---------------------------------------------------------------------

  /** self.memory and self._offset. */
  datatype HexState = HexState(memory: map<nat, byte>, offset: nat)

  /** memory[addr + i] = data[i] for each i in order. */
  function Store(memory: map<nat, byte>, addr: nat, data: seq<byte>): map<nat, byte>
  {
    if data == [] then memory
    else Store(memory, addr, data[..|data| - 1])[addr + |data| - 1 := data[|data| - 1]]
  }

  /** The stored bytes land at addr onwards, replacing what was there; every other byte stays. */
  lemma {:induction false} StoreContents(memory: map<nat, byte>, addr: nat, data: seq<byte>)
    ensures forall a :: a in Store(memory, addr, data) <==> a in memory || addr <= a < addr + |data|
    ensures forall a | a in Store(memory, addr, data) ::
      Store(memory, addr, data)[a] == if addr <= a < addr + |data| then data[a - addr] else memory[a]
    decreases |data|
  {
    if data != [] {
      var init := data[..|data| - 1];
      StoreContents(memory, addr, init);
      forall k | 0 <= k < |init| ensures init[k] == data[k] { }
    }
  }

  /** A decoded line: the new state and whether it was an end-of-file record. */
  datatype Decoded = Decoded(state: HexState, eof: bool)

  /** The effect of one record on the reader. */
  function Apply(st: HexState, r: Record): Decoded
  {
    match r
    case Blank => Decoded(st, false)
    case Data(load, data) => Decoded(HexState(Store(st.memory, load + st.offset, data), st.offset), false)
    case EndOfFile => Decoded(st, true)
    case ExtendedLinear(upper) => Decoded(HexState(st.memory, upper * 0x1_0000), false)
  }

  /** decode_record on a state value: an error leaves the state as it was. */
  function Decode(st: HexState, line: string): Result<Decoded, HexError>
  {
    match ParseLine(line)
    case Err(e) => Err(e)
    case Ok(r) => Ok(Apply(st, r))
  }

  /** The reader after a sequence of lines: its state, the flag of the last line and the error that stopped it. */
  datatype Loaded = Loaded(state: HexState, eof: bool, error: Option<HexError>)

  /** from_file's loop: decode lines in order; the first error ends it. */
  function Feed(st: HexState, lines: seq<string>, eof: bool): Loaded
    decreases |lines|
  {
    if lines == [] then Loaded(st, eof, None)
    else match Decode(st, lines[0])
      case Err(e) => Loaded(st, eof, Some(e))
      case Ok(d) => Feed(d.state, lines[1..], d.eof)
  }

  /** What from_file raises, if anything: the first decoding error, else a missing end of file. */
  function Outcome(l: Loaded): Option<HexError>
  {
    if l.error.Some? then l.error else if !l.eof then Some(NoEof) else None
  }

  predicate IsEof(line: string)
  {
    ParseLine(line) == Ok(EndOfFile)
  }

  /** Every line parses. */
  ghost predicate AllParse(lines: seq<string>)
  {
    forall k | 0 <= k < |lines| :: ParseLine(lines[k]).Ok?
  }

  lemma AllParseCons(lines: seq<string>)
    requires lines != []
    ensures AllParse(lines) <==> ParseLine(lines[0]).Ok? && AllParse(lines[1..])
  {
    if ParseLine(lines[0]).Ok? && AllParse(lines[1..]) {
      forall k | 0 <= k < |lines| ensures ParseLine(lines[k]).Ok? {
        if k > 0 {
          assert lines[k] == lines[1..][k - 1];
        }
      }
    }
  }

  /** A run of lines fails exactly when one of the lines does not parse; whether it does depends on the line alone. */
  lemma {:induction false} FeedFails(st: HexState, lines: seq<string>, eof: bool)
    ensures Feed(st, lines, eof).error.Some? <==> !AllParse(lines)
    decreases |lines|
  {
    if lines != [] {
      AllParseCons(lines);
      match Decode(st, lines[0])
      case Err(e) =>
      case Ok(d) =>
        FeedFails(d.state, lines[1..], d.eof);
    }
  }

  /** Without an error, the flag left is the last line's: an end-of-file record anywhere but last does not count. */
  lemma {:induction false} FeedEof(st: HexState, lines: seq<string>, eof: bool)
    requires Feed(st, lines, eof).error.None?
    ensures Feed(st, lines, eof).eof == if lines == [] then eof else IsEof(lines[|lines| - 1])
    decreases |lines|
  {
    if lines != [] {
      var d := Decode(st, lines[0]).value;
      FeedEof(d.state, lines[1..], d.eof);
      if |lines| > 1 {
        assert lines[1..][|lines| - 2] == lines[|lines| - 1];
      } else {
        match ParseLine(lines[0])
        case Ok(r) => assert d.eof <==> r == EndOfFile;
      }
    }
  }

  /** from_file succeeds exactly when every line parses and the last one is an end-of-file record. */
  lemma FromFileSucceeds(st: HexState, lines: seq<string>)
    ensures Outcome(Feed(st, lines, false)).None? <==>
      && lines != []
      && AllParse(lines)
      && IsEof(lines[|lines| - 1])
  {
    FeedFails(st, lines, false);
    if Feed(st, lines, false).error.None? {
      FeedEof(st, lines, false);
    }
  }

  /** A file that ends with a blank line is refused even after an end-of-file record. */
  lemma TrailingBlankFails(st: HexState, lines: seq<string>, blank: string)
    requires forall k | 0 <= k < |blank| :: StripChar(blank[k])
    ensures Outcome(Feed(st, lines + [blank], false)).Some?
  {
    StripEmpty(blank);
    FromFileSucceeds(st, lines + [blank]);
  }

  /** A record after the end-of-file record makes the file fail as well. */
  lemma RecordAfterEofFails(st: HexState, lines: seq<string>, last: string)
    requires !IsEof(last)
    ensures Outcome(Feed(st, lines + [last], false)).Some?
  {
    FromFileSucceeds(st, lines + [last]);
  }

  /** A blank or whitespace-only line changes nothing and is not an end of file. */
  lemma BlankLine(st: HexState, line: string)
    requires forall k | 0 <= k < |line| :: StripChar(line[k])
    ensures Decode(st, line) == Ok(Decoded(st, false))
  {
    StripEmpty(line);
  }

  /** A line that starts with anything but ':' or a stripped character is refused, the state untouched. */
  lemma UnmarkedLine(st: HexState, line: string)
    requires line != [] && line[0] != ':' && !StripChar(line[0])
    ensures Decode(st, line) == Err(UnexpectedLine)
  {
    assert Strip(line)[0] == line[0];
  }

  /**
   * A data record stores its bytes at its load address plus the current
   * offset, keeps every other byte, and leaves the offset alone.
   */
  lemma DataRecord(st: HexState, line: string, load: uint16, data: seq<byte>)
    requires ParseLine(line) == Ok(Data(load, data))
    ensures Decode(st, line).Ok? && !Decode(st, line).value.eof
    ensures var m := Decode(st, line).value.state.memory;
      && (forall i | 0 <= i < |data| :: load + st.offset + i in m && m[load + st.offset + i] == data[i])
      && (forall a | a in st.memory && !(load + st.offset <= a < load + st.offset + |data|) :: a in m && m[a] == st.memory[a])
    ensures Decode(st, line).value.state.offset == st.offset
  {
    assert Decode(st, line) == Ok(Apply(st, Data(load, data)));
    StoreContents(st.memory, load + st.offset, data);
  }

  /**
   * An extended linear address record sets the upper 16 bits of every later
   * load address: a data record after it lands at upper * 0x10000 + load,
   * whatever offset was in force before.
   */
  lemma ExtendedThenData(st: HexState, ext: string, line: string, upper: uint16, load: uint16, data: seq<byte>, i: nat)
    requires ParseLine(ext) == Ok(ExtendedLinear(upper)) && ParseLine(line) == Ok(Data(load, data)) && i < |data|
    ensures Feed(st, [ext, line], false).error.None?
    ensures var m := Feed(st, [ext, line], false).state.memory;
      upper * 0x1_0000 + load + i in m && m[upper * 0x1_0000 + load + i] == data[i]
  {
    var st1 := HexState(st.memory, upper * 0x1_0000);
    assert Decode(st, ext) == Ok(Decoded(st1, false));
    assert [ext, line][1..] == [line];
    assert Feed(st, [ext, line], false) == Feed(st1, [line], false);
    DataRecord(st1, line, load, data);
    var d := Decode(st1, line).value;
    assert [line][1..] == [];
    assert Feed(st1, [line], false) == Loaded(d.state, d.eof, None);
    var b := data[i];
    assert upper * 0x1_0000 + load + i == load + st1.offset + i;
  }

  // ---------------------------------------------------------------------
  // class IntelHex
  // ---------------------------------------------------------------------

  class IntelHex {
    var memory: map<nat, byte>
    var offset: nat

    constructor()
      ensures memory == map[] && offset == 0
    {
      memory := map[];
      offset := 0;
    }

    function State(): HexState
      reads this
    {
      HexState(memory, offset)
    }

    /**
     * decode_record: parse the line, then apply it, writing a data record's
     * bytes one at a time. Ok(true) is an end-of-file record.
     */
    method DecodeRecord(line: string) returns (r: Result<bool, HexError>)
      modifies this
      ensures Decode(old(State()), line).Err? ==>
        r == Err(Decode(old(State()), line).error) && State() == old(State())
      ensures Decode(old(State()), line).Ok? ==>
        r == Ok(Decode(old(State()), line).value.eof) && State() == Decode(old(State()), line).value.state
    {
      var rec := ParseLine(line);
      match rec
      case Err(e) =>
        return Err(e);
      case Ok(Blank) =>
        return Ok(false);
      case Ok(Data(load, data)) =>
        StoreBytes(load + offset, data);
        return Ok(false);
      case Ok(EndOfFile) =>
        return Ok(true);
      case Ok(ExtendedLinear(upper)) =>
        offset := upper * 0x1_0000;
        return Ok(false);
    }

    /** The loop of a data record: memory[addr + i] = data[i] for i in range(len(data)). */
    method StoreBytes(addr: nat, data: seq<byte>)
      modifies this`memory
      ensures memory == Store(old(memory), addr, data)
    {
      for i := 0 to |data|
        invariant memory == Store(old(memory), addr, data[..i])
      {
        assert data[..i + 1][..i] == data[..i];
        memory := memory[addr + i := data[i]];
      }
      assert data[..|data|] == data;
    }

    /** from_file over the file's lines: the first error propagates, and the last line must end the file. */
    method FromFile(lines: seq<string>) returns (error: Option<HexError>)
      modifies this
      ensures State() == Feed(old(State()), lines, false).state
      ensures error == Outcome(Feed(old(State()), lines, false))
    {
      var isEof := false;
      for i := 0 to |lines|
        invariant Feed(old(State()), lines, false) == Feed(State(), lines[i..], isEof)
      {
        assert lines[i..][1..] == lines[i + 1..];
        var r := DecodeRecord(lines[i]);
        match r
        case Err(e) =>
          return Some(e);
        case Ok(eof) =>
          isEof := eof;
      }
      if !isEof {
        return Some(NoEof);
      }
      return None;
    }

    /**
     * to_rows: visit the byte addresses in increasing order, open the row of
     * each, and store the little-endian word that starts at each aligned
     * address; the rows come out by increasing row number.
     */
    method ToRows(rowSize: nat, wordSize: nat) returns (r: Result<seq<Row>, RowError>)
      ensures r == RowsOf(memory, rowSize, wordSize)
    {
      var keys := Sorted(memory.Keys);
      var rowBytes := RowBytes(rowSize, wordSize);
      var rows: map<nat, seq<nat>> := map[];
      for i := 0 to |keys|
        invariant PlaceAll(memory, keys[..i], rowSize, wordSize) == Ok(rows)
      {
        var a := keys[i];
        PlaceAllNext(memory, keys, i, rowSize, wordSize, rows);
        if rowBytes == 0 {
          PlaceAllStops(memory, keys, i + 1, rowSize, wordSize);
          return Err(ZeroRowSize);
        }
        PlaceByteIs(rows, memory, a, rowSize, wordSize, rowBytes);
        var rn := Div(a, rowBytes);
        var words := if rn in rows then rows[rn] else [];
        if Mod(a, wordSize) != 0 {
          rows := rows[rn := words];
        } else {
          var w := WordAt(memory, a, wordSize);
          if w.Err? {
            PlaceAllStops(memory, keys, i + 1, rowSize, wordSize);
            return Err(w.error);
          }
          rows := rows[rn := StoreWord(words, WordIndex(a, rowBytes, wordSize), w.value)];
        }
      }
      assert keys[..|keys|] == keys;
      return Ok(RowList(rows, rowBytes));
    }
  }
}
