/**
 * The wire constants of the bootloader protocol spoken by the Qt host: the
 * command opcodes (a C enum starting at 0x40, each later enumerator one more
 * than the previous), the outgoing terminator, the device's response codes,
 * and the row and flash sizes of the PIC18 K40 target.
 */
module Protocol {
  import opened Bytes
  import opened Wrappers

  /** The enumerators of the opcode enum, in declaration order. */
  datatype Command =
    | StartProg
    | EndProg
    | LatchData
    | EraseRow
    | WriteRow
    | EraseChip
    | QueryInfo
    | WriteConf

  /** Position of the enumerator in the declaration. */
  function Ordinal(c: Command): (n: nat)
    ensures n < 8
  {
    match c
    case StartProg => 0
    case EndProg => 1
    case LatchData => 2
    case EraseRow => 3
    case WriteRow => 4
    case EraseChip => 5
    case QueryInfo => 6
    case WriteConf => 7
  }

  const CMD_BASE: byte := 0x40

  /** The enum value: the first enumerator is set to 0x40, each later one counts up by one. */
  function Opcode(c: Command): (b: byte)
    ensures CMD_BASE <= b < CMD_BASE + 8
  {
    CMD_BASE + Ordinal(c)
  }

  /** CMD_OK: the terminator appended to every outgoing command (ASCII space). */
  const CMD_OK: byte := 0x20

  const CMD_START_PROG: byte := Opcode(StartProg)
  const CMD_END_PROG: byte := Opcode(EndProg)
  const CMD_LATCH_DATA: byte := Opcode(LatchData)
  const CMD_ERASE_ROW: byte := Opcode(EraseRow)
  const CMD_WRITE_ROW: byte := Opcode(WriteRow)
  const CMD_ERASE_CHIP: byte := Opcode(EraseChip)
  const CMD_QUERYINFO: byte := Opcode(QueryInfo)
  const CMD_WRITE_CONF: byte := Opcode(WriteConf)

  /** Response bytes sent by the device. */
  const RSP_OK: byte := 0x61
  const RSP_ERROR: byte := 0x62
  const RSP_OUT_OF_SYNC: byte := 0x63

  /** Geometry of the target flash. */
  const ROW_SIZE: nat := 128
  const FLASH_SIZE_KB: nat := 128
  const FLASH_BYTES: nat := FLASH_SIZE_KB * 1024

  /** The enumerator an opcode byte stands for, if any (the device side of the enum). */
  function CommandOf(b: byte): (r: Option<Command>)
    ensures r.Some? <==> CMD_BASE <= b < CMD_BASE + 8
    ensures r.Some? ==> Opcode(r.value) == b
  {
    if b == 0x40 then Some(StartProg)
    else if b == 0x41 then Some(EndProg)
    else if b == 0x42 then Some(LatchData)
    else if b == 0x43 then Some(EraseRow)
    else if b == 0x44 then Some(WriteRow)
    else if b == 0x45 then Some(EraseChip)
    else if b == 0x46 then Some(QueryInfo)
    else if b == 0x47 then Some(WriteConf)
    else None
  }

  /** Every opcode names its own enumerator back: the eight opcodes are pairwise distinct. */
  lemma OpcodeRoundTrip(c: Command)
    ensures CommandOf(Opcode(c)) == Some(c)
  {
  }

  lemma OpcodeInjective(c: Command, d: Command)
    ensures Opcode(c) == Opcode(d) <==> c == d
  {
    OpcodeRoundTrip(c);
    OpcodeRoundTrip(d);
  }

  /** The opcodes are exactly the consecutive bytes 0x40 .. 0x47, and the terminator is none of them. */
  lemma OpcodeValues()
    ensures CMD_START_PROG == 0x40 && CMD_END_PROG == 0x41 && CMD_LATCH_DATA == 0x42
    ensures CMD_ERASE_ROW == 0x43 && CMD_WRITE_ROW == 0x44 && CMD_ERASE_CHIP == 0x45
    ensures CMD_QUERYINFO == 0x46 && CMD_WRITE_CONF == 0x47
    ensures forall c: Command :: Opcode(c) != CMD_OK
    ensures CommandOf(CMD_OK) == None
  {
  }

  /** The three response codes are distinct, and only RSP_OK is the ASCII 'a' the host tests for. */
  lemma ResponseCodes()
    ensures RSP_OK == 'a' as int && RSP_ERROR == 'b' as int && RSP_OUT_OF_SYNC == 'c' as int
    ensures RSP_OK != RSP_ERROR && RSP_OK != RSP_OUT_OF_SYNC && RSP_ERROR != RSP_OUT_OF_SYNC
  {
  }

  /** The flash is a whole number of rows: 131072 bytes, 1024 rows of 128 bytes. */
  lemma FlashIsWholeRows()
    ensures FLASH_BYTES == 131072
    ensures FLASH_BYTES % ROW_SIZE == 0 && FLASH_BYTES / ROW_SIZE == 1024
  {
  }
}
