# PIC18 K40 serial bootloader host, modelled in Dafny

This project models the host side of a small serial protocol for programming
a PIC18 K40 microcontroller, in both of the repository's implementations.

The **Qt host** (`MainWindow.cpp`, `MainWindow.h`) has these parts:

- **Codecs:** the big-endian integer encoders and decoders.
- **`sendCommand`:** writes a command, then reads until the reply ends with
  `'a'` or a one-second wait sees nothing. The reply goes into the debug view.
- **Single-frame handlers:** the four buttons that each send one two-byte
  frame.
- **Download:** sends the 12-byte configuration, then walks the program image
  row by row (128 bytes). It latches each maximal run of non-`0xFF` bytes of
  a row. After the latches it erases and writes that row, and it skips rows
  that are entirely `0xFF`. The first command that is not acknowledged ends
  the download.

The **Python host** (`pic18prog.py`) has these parts:

- **Intel HEX reader:** `strip`, `bytearray.fromhex`, checksum, and record
  types 0, 1 and 4. `from_file` requires the last line to be an end-of-file
  record.
- **`to_rows`:** groups the sparse byte map that the reader builds into
  aligned rows of little-endian words, with `store_word_at` zero-padding.
- **`PIC18K40ICSP` commands:** each command is one write followed by a
  fixed-length read that must end with `'a'`.
- **Download branch of `main`:** enters programming mode and erases the chip,
  then reads the file and groups it into rows of 64 two-byte words. It
  programs flash rows by row, programs the user-ID and configuration rows
  word by word, and raises on any other row.

## Modules

| module | file | what it holds |
|---|---|---|
| `Bytes`, `Wrappers` | bytes.dfy, wrappers.dfy | `byte`/`uint16`/`uint32`, C's truncating conversions, `Result`/`Option` |
| `Protocol` | protocol.dfy | the opcode enum, the response codes, the row and flash sizes |
| `Codec` | codec.dfy | the four codecs, with the `int16_t` wrap-around of `DecodeUInt16` written out |
| `Segmenter` | segmenter.dfy | the row scan as pure functions; the frame layouts; the frames of a whole download |
| `Transport` | transport.dfy | a scripted `QSerialPort` class; `Respond` and `Drive`, the pure specifications of one command and of a sequence of commands |
| `QtHost` | qthost.dfy | class `MainWindow`: `sendCommand`, the four handlers and the download, all proved against `Drive` |
| `Rows` | rows.dfy | `MemoryRow`, and `to_rows` as a fold with its properties |
| `HexFile` | hexfile.dfy | the line parser, the reader state, and class `IntelHex` (`decode_record`, `from_file`, `to_rows`) |
| `Icsp` | icsp.dfy | a pyserial link class, class `Pic18K40Icsp` and `main`'s download, all proved against functions of a `Wire` value |

In both hosts the imperative code stays imperative, and each method is proved
to equal a pure specification function:

- **Loops:** `sendCommand`'s read loop, the download's nested row and address
  loops, `decode_record`'s store loop, `from_file`'s line loop, `to_rows`'s
  loop over sorted keys, and `program_row`'s packing loop.
- **State:** the port's write log, the debug view, the reader's `memory` and
  `_offset`, and `MemoryRow.data` are fields that the methods update.

The lemmas then state what the source promises about those functions.

## Model

| member | source | states |
|---|---|---|
| Codec.EncodeUInt16 | MainWindow.cpp:11-15 | two bytes, high byte first, that recombine to the value |
| Codec.DecodeUInt16 | MainWindow.cpp:17-23 | the result is `256*i[0] + i[1]` for any bytes: the `int16_t` accumulator's wrap-arounds cancel out |
| Codec.ToInt16 | MainWindow.cpp:19-21 | the conversion to `int16_t` lands in range and is congruent to its input modulo 2^16 |
| Codec.EncodeUInt32 | MainWindow.cpp:25-30 | four bytes, high byte first, that recombine to the value |
| Codec.DecodeUInt32 | MainWindow.cpp:32-35 | the big-endian value of the first four bytes |
| Codec.DecodeEncode16 | MainWindow.cpp:11-23 | decoding an encoded 16-bit value gives it back |
| Codec.EncodeDecode16 | MainWindow.cpp:11-23 | encoding a decoded pair of bytes gives them back |
| Codec.DecodeEncode32 | MainWindow.cpp:25-35 | decoding an encoded 32-bit value gives it back |
| Codec.EncodeDecode32 | MainWindow.cpp:25-35 | encoding four decoded bytes gives them back |
| Codec.EncodeInjective | MainWindow.cpp:11-30 | distinct values never share an encoding |
| Protocol.Opcode | MainWindow.h:50-58 | every opcode lies in 0x40..0x47 |
| Protocol.CommandOf | MainWindow.h:50-58 | a byte names an opcode exactly when it lies in 0x40..0x47, and then names the one with that value |
| Protocol.OpcodeRoundTrip | MainWindow.h:50-58 | every opcode reads back as its own enumerator |
| Protocol.OpcodeInjective | MainWindow.h:50-58 | two enumerators share a value only when they are the same |
| Protocol.OpcodeValues | MainWindow.h:50-59 | the values are 0x40..0x47 in declaration order; the terminator 0x20 is none of them |
| Protocol.ResponseCodes | MainWindow.h:62-64 | OK, ERROR and OUT_OF_SYNC are the distinct bytes `'a'`, `'b'`, `'c'` |
| Protocol.FlashIsWholeRows | MainWindow.h:46-47 | 128 KB of flash is exactly 1024 rows of 128 bytes |
| Transport.SerialPort.Write | MainWindow.cpp:58 | the command is appended to the port's write log |
| Transport.SerialPort.ReadAll | MainWindow.cpp:62 | returns and empties what is buffered |
| Transport.SerialPort.WaitForReadyRead | MainWindow.cpp:63 | consumes one scripted reading: a chunk is buffered and reported, a timeout or an empty script reports nothing |
| Transport.CollectConserves | MainWindow.cpp:62-64 | the read loop loses and invents no byte: the reply plus what is still unread is everything that was there |
| Transport.CollectStops | MainWindow.cpp:63-66 | the loop stops at a reply ending in `'a'`, or at a timeout, or when the script runs out |
| Transport.LateAcknowledgement | MainWindow.cpp:63-66 | only the last byte is looked at: an ERROR byte followed by `'a'` within the timeout counts as success |
| Transport.DriveStep | MainWindow.cpp:179-255 | when a run has got through its frames so far, the next frame is sent and its reply alone decides whether the run goes on |
| Transport.DriveFailsFast | MainWindow.cpp:179-255 | the frames sent are a prefix of the plan; every reply but the last was acknowledged; an early stop was at an unacknowledged reply |
| Transport.DriveStops | MainWindow.cpp:179-255 | once a run has failed, nothing planned after it is sent |
| Transport.DriveAlwaysAcknowledged | MainWindow.cpp:179-255 | a device that answers every command with `'a'` receives the whole plan |
| Transport.FirstRefusalStops | MainWindow.cpp:179 | a device that stays silent, or answers ERROR and then stays silent, stops the download at its first frame |
| QtHost.MainWindow.constructor | MainWindow.cpp:37-49 | a new window has no port, an empty debug view and no program or configuration loaded |
| QtHost.MainWindow.SendCommand | MainWindow.cpp:56-71 | without a port: false, nothing changes. With a port: one write of the command; the reply is what `Respond` collects, and it is appended to the debug view; true iff the reply ends with `'a'` |
| QtHost.MainWindow.ToggleConnection | MainWindow.cpp:73-94 | a disconnected window connects; a connected one disconnects |
| QtHost.MainWindow.EnableLvp | MainWindow.cpp:142-151 | with a port, exactly the frame `[0x40, 0x20]` is written and its reply logged; without one nothing changes |
| QtHost.MainWindow.StopLvp | MainWindow.cpp:153-162 | with a port, exactly `[0x41, 0x20]` is written and its reply logged |
| QtHost.MainWindow.Erase | MainWindow.cpp:270-279 | with a port, exactly `[0x45, 0x20]` is written and its reply logged |
| QtHost.MainWindow.Identify | MainWindow.cpp:281-290 | with a port, exactly `[0x46, 0x20]` is written and its reply logged |
| QtHost.MainWindow.Download | MainWindow.cpp:164-260 | without a port nothing changes. A configuration that is not 12 bytes clears the debug view and writes nothing. Otherwise the port receives exactly the prefix of `DownloadFrames(image, conf)` that `Drive` lets through, and the debug view holds exactly the replies |
| QtHost.MainWindow.Transmit | MainWindow.cpp:179-255 | each `sendCommand` of the download either keeps the run on course, with one more frame done, or stops it at that frame |
| QtHost.MainWindow.DownloadRows | MainWindow.cpp:181-258 | the row loop sends the frames of rows 0, 128, ... in order, up to the first frame that is not acknowledged |
| QtHost.MainWindow.DownloadRow | MainWindow.cpp:185-258 | one row: its latches, then erase and write if anything was latched; a failure reaches the whole plan |
| QtHost.MainWindow.LatchRuns | MainWindow.cpp:187-233 | the address loop and the flush after it send exactly the latch frames of the row's segments, stopping at a failure |
| QtHost.MainWindow.CloseRow | MainWindow.cpp:235-256 | erase-row then write-row for a row that had something latched, nothing for a blank row |
| QtHost.RowScanStart | MainWindow.cpp:186-187 | a row's scan starts at the row with nothing open, whatever start address the previous row left |
| QtHost.RowScanSkip | MainWindow.cpp:192-193 | an erased byte with no open run sends nothing and changes nothing |
| QtHost.RowScanExtend | MainWindow.cpp:188-191 | a programmed byte extends the open run, opening it at that address if it was empty |
| QtHost.RowScanClose | MainWindow.cpp:192-211 | an erased byte closes the open run, and the run's latch frame is the next frame sent |
| QtHost.RowScanEnd | MainWindow.cpp:215-233 | at the window's end, the only frame left for the row's latches is the open run's |
| Segmenter.WindowEnd | MainWindow.cpp:187 | row `s` reads up to `min(s + 128, len)`, so a short last row is cut at the image's end |
| Segmenter.ScanLength | MainWindow.cpp:187-233 | the segments' lengths add up to the number of non-`0xFF` bytes of the window |
| Segmenter.ScanRuns | MainWindow.cpp:187-233 | the scan emits maximal runs of the window, in increasing order, separated by erased bytes |
| Segmenter.ScanCovers | MainWindow.cpp:187-233 | every non-`0xFF` byte of the window lies in some segment |
| Segmenter.RowSegmentsAreRuns | MainWindow.cpp:185-233 | a row's segments are exactly its maximal runs: non-empty, free of `0xFF`, inside the window, increasing, and covering every programmed byte |
| Segmenter.ScanStaleStart | MainWindow.cpp:181-190 | the `segmentStart` a previous row leaves behind plays no part, because the accumulator is empty when a row starts |
| Segmenter.ScanReadsOnlyWindow | MainWindow.cpp:187 | images that agree on the window give the same segments: nothing outside the window is read |
| Segmenter.LiveZero | MainWindow.cpp:188 | a window has no programmed byte exactly when it is all `0xFF` |
| Segmenter.LatchRoundTrip | MainWindow.cpp:195-207 | a latch frame is `0x42`, the big-endian 32-bit start, the big-endian 16-bit length, the data and `0x20`; the device reads back the same segment, and the frame is 8 bytes longer than the data |
| Segmenter.AddressFrameRoundTrip | MainWindow.cpp:236-254 | an erase-row or write-row frame carries its opcode and row address intact |
| Segmenter.SimpleFrames | MainWindow.cpp:142-162 | the start, stop, chip-erase and query frames are `[0x40,0x20]`, `[0x41,0x20]`, `[0x45,0x20]`, `[0x46,0x20]` |
| Segmenter.RowBlank | MainWindow.cpp:186-235 | a row has no segment exactly when its window is all `0xFF` |
| Segmenter.RowCommands | MainWindow.cpp:185-256 | a blank row produces no command; any other row produces one latch per segment, then exactly one erase-row and one write-row for `s` |
| Segmenter.CountLatches | MainWindow.cpp:195-208 | a row's latch frames are all LATCH_DATA frames, one per segment |
| Segmenter.AllSegmentsInRows | MainWindow.cpp:185-233 | across the download every segment lies inside one row and inside the image, so its 16-bit length field is exact |
| Segmenter.AllSegmentsIncreasing | MainWindow.cpp:185-233 | across the download the segments come in increasing address order and never overlap |
| Segmenter.ProgramLatches | MainWindow.cpp:185-258 | the download sends one LATCH_DATA frame per segment of the image |
| Rows.StoreWord | pic18prog.py:14-17 | the location gets the word; the length becomes `max(len, location + 1)`; new cells are 0; other cells keep their values |
| Rows.MemoryRow.StoreWordAt | pic18prog.py:14-17 | the row's `data` becomes `StoreWord(old data, location, word)` |
| Rows.MemoryRow.constructor | pic18prog.py:9-12 | a new row is empty, at its address, with its word size |
| Rows.Sorted | pic18prog.py:66 | `sorted()` of the keys is strictly increasing and holds exactly the keys |
| Rows.LittleEndian | pic18prog.py:78-79 | a two-byte word is the byte at `a` plus 256 times the byte at `a + 1` |
| Rows.RowBytes | pic18prog.py:65 | the row size in bytes is zero exactly when the row size or the word size is |
| Rows.AlignedAddress | pic18prog.py:67-85 | an aligned address is its row's start plus its word index times the word size, and the index is below the row size |
| Rows.IndexMonotone | pic18prog.py:85 | within a row, a higher aligned address gets a higher word index |
| Rows.PlaceAllShape | pic18prog.py:66-85 | the loop's row map has exactly the visited rows; every aligned byte's word is at its index; unvisited words are 0; every row ends with a visited word |
| Rows.PlaceAllFails | pic18prog.py:66-84 | the loop fails exactly when the row size in bytes is zero and some address is visited, or an aligned address's word cannot be read |
| Rows.RowsOrdered | pic18prog.py:62-86 | rows come in strictly increasing address order; each address is a multiple of `row_size * word_size`; no row is longer than the row size |
| Rows.RowsCover | pic18prog.py:66-73 | every byte address of the map has a row, which starts at or below it and less than a row's bytes below it |
| Rows.RowsOccupied | pic18prog.py:69-86 | every row returned is the row of some byte address of the map; that address may be unaligned, so a row can hold no word (`Rows.OddByteOnly`) |
| Rows.OddByteOnly | pic18prog.py:69-74 | a map whose only byte is at address 1 gives, for `to_rows(64, 2)`, one row at address 0 with no words: a row is created for every address, a word only for an aligned one |
| Rows.RowsWords | pic18prog.py:74-85 | each aligned byte address of the map has its little-endian word at index `(a - row_start) / word_size` of its row |
| Rows.RowsGap | pic18prog.py:15-85 | a word whose address is absent from the map is zero padding |
| Rows.RowsLast | pic18prog.py:74-85 | the last word of every row comes from the map: rows have no trailing padding |
| Rows.RowsWordBound | pic18prog.py:76-82 | every word fits its word size |
| Rows.RowsFail | pic18prog.py:62-86 | `to_rows` fails exactly when the row size in bytes is zero and the map is non-empty, or an aligned address's word is missing a byte or has a word size other than 1, 2 or 4 |
| HexFile.StripLeft | pic18prog.py:29 | what `strip` removes on the left is stripped characters only, up to the first character that is not one |
| HexFile.StripRight | pic18prog.py:29 | what `strip` removes on the right is stripped characters only, back to the last character that is not one |
| HexFile.Strip | pic18prog.py:29 | the result is an infix of the line; everything cut off before and after it is space, tab, CR or LF; and it starts and ends with a character that is not one of those, or is empty |
| HexFile.StripEmpty | pic18prog.py:29-31 | a line strips to nothing exactly when it is made only of space, tab, CR and LF |
| HexFile.HexDigit | pic18prog.py:34 | a character is a hex digit exactly when it is `0-9`, `a-f` or `A-F`, and its value is below 16 |
| HexFile.FromHexToHex | pic18prog.py:34 | `fromhex` reads back the bytes written as hex digits |
| HexFile.WithChecksum | pic18prog.py:39-40 | appending the two's complement of the sum makes the bytes sum to 0 modulo 256 |
| HexFile.HexLine | pic18prog.py:32-34 | a `':'` followed by the hex digits of some bytes is read as those bytes |
| HexFile.ParseRecordBytes | pic18prog.py:35-51 | the bytes of every encodable record parse back to that record |
| HexFile.ParseEncode | pic18prog.py:28-51 | every well-formed data, end-of-file or extended-address record line is read back as that record |
| HexFile.Corruption | pic18prog.py:34-40 | changing any one byte of a valid record makes it fail; past the length byte, the failure is the checksum |
| HexFile.BlankLine | pic18prog.py:29-31 | a whitespace-only line changes nothing and is not an end of file |
| HexFile.UnmarkedLine | pic18prog.py:32-33 | a line that does not start with `':'` raises "Unexpected line" and changes nothing |
| HexFile.StoreContents | pic18prog.py:43-44 | a data record's bytes land at its address onwards, replacing earlier bytes; every other byte stays |
| HexFile.DataRecord | pic18prog.py:36-44 | a data record stores `b[4+i]` at `load + offset + i`, keeps every other byte and the offset, and is not an end of file |
| HexFile.ExtendedThenData | pic18prog.py:36-49 | after an extended linear address record, a data record lands at `upper * 0x10000 + load`, whatever the offset was before |
| HexFile.FeedFails | pic18prog.py:57-58 | the line loop fails exactly when some line fails to parse |
| HexFile.FeedEof | pic18prog.py:57-59 | without an error, the flag left is the last line's, so an end-of-file record anywhere but last does not count |
| HexFile.FromFileSucceeds | pic18prog.py:53-60 | `from_file` succeeds exactly when the file is non-empty, every line parses, and the last line is an end-of-file record |
| HexFile.TrailingBlankFails | pic18prog.py:57-60 | a blank line after the end-of-file record makes the file fail |
| HexFile.RecordAfterEofFails | pic18prog.py:57-60 | any record after the end-of-file record makes the file fail |
| HexFile.IntelHex.constructor | pic18prog.py:24-26 | a new reader has an empty memory and offset 0 |
| HexFile.IntelHex.DecodeRecord | pic18prog.py:28-51 | on error the reader is untouched and the error is raised; otherwise the state is `Decode`'s and the result says whether it was an end-of-file record |
| HexFile.IntelHex.StoreBytes | pic18prog.py:43-44 | the store loop leaves memory equal to `Store(old memory, addr, data)` |
| HexFile.IntelHex.FromFile | pic18prog.py:53-60 | the reader ends in `Feed`'s state, and the error is the first decoding error, else a missing end of file |
| HexFile.IntelHex.ToRows | pic18prog.py:62-86 | the method returns `RowsOf(memory, ...)`, the function the Rows lemmas are about |
| Icsp.Available | pic18prog.py:96 | `read(n)` returns n bytes, or fewer only when no more arrive |
| Icsp.Link.Write | pic18prog.py:95 | the buffer is appended to the write log |
| Icsp.Link.Read | pic18prog.py:96 | consumes and returns up to n of the arriving bytes |
| Icsp.SendReply | pic18prog.py:93-100 | one write of the buffer; up to `resp_len` reply bytes consumed; success exactly when they end with `'a'`, returning them without it |
| Icsp.SendAllWrites | pic18prog.py:93-130 | a command sequence writes a prefix of its frames, all of them on success; on failure every earlier frame was acknowledged, the last frame written is the one whose reply lacked `'a'`, the error is a communication error, and nothing after it is written |
| Icsp.SendAllAcked | pic18prog.py:93-100 | a device that acknowledges each frame receives them all, one `'a'` used up per frame |
| Icsp.SendAllRefused | pic18prog.py:97-99 | a first reply other than `'a'` stops the sequence after its first frame |
| Icsp.SendAllSilent | pic18prog.py:96-99 | a silent device stops the sequence after its first frame |
| Icsp.LeBytes | pic18prog.py:125-126 | each word becomes its low byte and then its high byte |
| Icsp.RowCommand | pic18prog.py:122-127 | the command exists exactly when the address fits 32 bits, the byte count fits 16 bits and every word fits 16 bits |
| Icsp.RowCommandLayout | pic18prog.py:122-127 | `'B'`, the big-endian address, the big-endian byte count `2 * len(words)`, the words low byte first, then `' '`: 8 bytes of framing |
| Icsp.RowCommandIsLatchFrame | pic18prog.py:122-127 | the Python row command is the Qt host's LATCH_DATA frame for the row's bytes |
| Icsp.LvpFramesAreSimpleFrames | pic18prog.py:102-106 | `b'@ '` and `b'A '` are the Qt host's START_PROG and END_PROG frames |
| Icsp.ProgramRowAcked | pic18prog.py:121-130 | with three acknowledgements, `program_row` writes the row command, then `'H'` and the address, then `'P'` |
| Icsp.ProgramRowRefused | pic18prog.py:123-126 | a row that `struct.pack` refuses raises before anything is written |
| Icsp.ProgramOneWordReadBack | pic18prog.py:148-157 | with a device that acknowledges and answers `K` with two bytes, the four frames are written, and the call succeeds exactly when the big-endian word read back is the word written |
| Icsp.ProgramOneWordTooWide | pic18prog.py:149-150 | a word wider than 16 bits raises after the address is loaded and before `'N'` is sent |
| Icsp.ProgramRowsAppend | pic18prog.py:204-215 | the rows are programmed in list order: the first rows, then the rest unless the first raised |
| Icsp.UnrecognizedRowStops | pic18prog.py:214-215 | a row outside the three areas raises, and nothing is written for it or for any row after it |
| Icsp.FlashRowFits | pic18prog.py:203 | every row of `to_rows(64, 2)` has at most 64 words of 16 bits |
| Icsp.FlashRowPacks | pic18prog.py:203-207 | a flash row from `to_rows(64, 2)` never makes `struct.pack` fail, and its command is the Qt LATCH_DATA frame of its bytes |
| Icsp.FlashRowsAcked | pic18prog.py:204-207 | with an acknowledging device, flash rows are programmed in order, three frames each, and nothing else is written |
| Icsp.OpeningAcked | pic18prog.py:198-199 | with three acknowledgements, the download writes `b'@ '`, then `'H'` with address 0, then `'I'` |
| Icsp.FileRefused | pic18prog.py:201-202 | a refused HEX file ends the download with the reader's error and nothing more is written |
| Icsp.DownloadBadFile | pic18prog.py:198-202 | a refused HEX file still leaves the device in programming mode and erased, and `b'A '` is never sent |
| Icsp.RowPlan | pic18prog.py:204-207 | there are three frames per row |
| Icsp.Pic18K40Icsp.constructor | pic18prog.py:90-91 | the device object keeps its serial port |
| Icsp.Pic18K40Icsp.SerialSend | pic18prog.py:93-100 | the link changes, and the call returns or raises, exactly as `Send` says |
| Icsp.Pic18K40Icsp.LvpBegin | pic18prog.py:102-103 | as `LvpBeginOp`: one `b'@ '` frame |
| Icsp.Pic18K40Icsp.LvpEnd | pic18prog.py:105-106 | as `LvpEndOp`: one `b'A '` frame |
| Icsp.Pic18K40Icsp.LoadPc | pic18prog.py:108-110 | as `LoadPcOp`: `'H'` and the big-endian address, or a struct error before any write |
| Icsp.Pic18K40Icsp.EraseDevice | pic18prog.py:117-119 | as `EraseDeviceOp`: load address 0, then `'I'` |
| Icsp.Pic18K40Icsp.ProgramRow | pic18prog.py:121-130 | the packing loop and the three sends equal `ProgramRowOp` |
| Icsp.Pic18K40Icsp.ProgramOneWord | pic18prog.py:148-157 | as `ProgramOneWordOp`: load the address, `'N'` and the word, `'P'`, then `'K'` and the read-back check |
| Icsp.Pic18K40Icsp.ProgramOneWordList | pic18prog.py:159-161 | word i of the row goes to `address + 2i`, in order, stopping at the first that raises |
| Icsp.Pic18K40Icsp.ProgramRows | pic18prog.py:204-215 | the dispatch loop, without `--verify`, equals `ProgramRowsOp`: by row up to 0x20000, word by word at 0x200000 and 0x300000, and anything else raises |
| Icsp.Pic18K40Icsp.Download | pic18prog.py:194-216 | the download branch without `--verify` equals `DownloadOp`: begin, erase, read the file, group it into rows, program them, end |

## Left out

- **Qt GUI plumbing:** the window and the widgets, `querySerialPorts`, the
  status bar message after each row, the debug hex editor as a widget (it is
  a byte sequence here), `on_readButton_clicked` and
  `on_clearLogButton_clicked`. None of it has behaviour beyond display.
- **`on_serialConnect_clicked`'s port opening:** the name, the 115200 baud
  rate and `open` are not modelled. Connecting takes a port that is already
  open (`ToggleConnection`).
- **`on_actionOpen_Program_triggered`:** it depends on the `intelhex` class,
  which is not part of this model. The program image and the configuration
  block are inputs, the `programData` and `confData` fields.
- **Timing:** there is no real timing (`waitForReadyRead(1000)`,
  `ser.timeout = 1`).
  - On the Qt side, the port is a finite script of readings, each a chunk
    of bytes or a timeout, and an exhausted script times out for ever. A
    device that keeps trickling bytes forever is therefore not modelled.
  - On the Python side, the port is one stream of reply bytes, and
    `read(n)` returns up to n of them. A reply that arrives in pieces
    after the timeout is not distinguished.
- **Python program plumbing:** `argparse`, the construction of
  `serial.Serial`, file opening (`from_file` takes the file's lines), and
  every `print`.
- **Other Python commands:** `main`'s `--test` and `--info` branches and
  `print_current` are not modelled. The commented-out word-by-word code in
  `program_row` is left out too.
- Icsp.Pic18K40Icsp.Download: models a download run without `--verify`.
  With that flag, `verify_row` runs after each flash row. It sends `'H'`
  and the row address, then one `'K'` per word. It can end the download
  with an error: a reply that does not end with `'a'`, a reply that is not
  two bytes long for `struct.unpack`, or an address of 2^32 or more for
  `struct.pack`. A mismatching word is only printed. That path is not
  modelled, and neither is the same failure in `print_current`.
- **Python's exceptions:** every exception is an error value. The
  `raise "..."` of a bare string is a `TypeError` in Python 3, but it stops
  the program just the same, so it is modelled as an error too.
- Rows.RowsOf: `int(byteaddr / rowsz_bytes)` uses float division, and the
  model uses exact integer division. The two agree for the addresses in use,
  below 2^53.
- HexFile.FromHex: skips the ASCII whitespace that `bytearray.fromhex` skips
  between digit pairs in Python 3.7 and later. Older versions skip only
  spaces.
- Rows.RowsOf: returns rows as values (address and word list) rather than
  `MemoryRow` objects. `MemoryRow.store_word_at` is modelled on its own, by
  `Rows.MemoryRow.StoreWordAt` against `Rows.StoreWord`, and the fold uses
  `StoreWord` on the value.

## Notes on the code as written

- The download plan never sends `b'A '` after an error. `main` also enters
  programming mode and erases the device before it reads the HEX file, so a
  refused file leaves the device erased and in programming mode
  (`Icsp.DownloadBadFile`).
- The Qt download clears the debug view before it checks the configuration
  length. The check comes before any write, so a bad configuration writes
  nothing, but the view has still been cleared (`QtHost.MainWindow.Download`).
- `sendCommand` looks only at the reply's last byte. An ERROR byte followed
  within the timeout by `'a'` counts as success
  (`Transport.LateAcknowledgement`), and ERROR, OUT_OF_SYNC and silence are
  not told apart.
- `to_rows` creates a row for every byte address but stores words only at
  aligned ones. A flash row that holds only odd addresses therefore has no
  words, and `main` still programs it: a `'B'` frame with byte count 0,
  then `'H'` and the address, then `'P'` (`Rows.OddByteOnly`).
- `from_file` keeps only the last line's end-of-file flag. A file whose last
  line is blank, or that has any record after its end-of-file record, is
  refused (`HexFile.TrailingBlankFails`, `HexFile.RecordAfterEofFails`).
