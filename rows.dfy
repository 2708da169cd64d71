/**
 * Rows of words for the Python host (pic18prog.py): MemoryRow, and the
 * grouping that IntelHex.to_rows performs on the reader's sparse byte map.
 * A row covers row_size * word_size consecutive byte addresses starting at a
 * multiple of that size; every word-aligned byte present in the map gives
 * one little-endian word, stored at its index within the row, with the
 * list padded by zeros up to it.
 */
module Rows {
  import opened Bytes
  import opened Wrappers

  /** The exceptions to_rows raises. */
  datatype RowError =
    | ZeroRowSize         // int(byteaddr / rowsz_bytes) with a zero row size
    | IrregularWordSize   // a word size other than 1, 2 and 4
    | MissingByte         // a word's following byte is absent from the map

  /** A finished row: its first byte address and its word list. */
  datatype Row = Row(address: nat, words: seq<nat>)

  function Zeros(n: nat): (z: seq<nat>)
    ensures |z| == n && forall k | 0 <= k < n :: z[k] == 0
  {
    seq(n, _ => 0)
  }

  /**
   * store_word_at on a word list: the list grows with zeros to reach the
   * location if it must, the location gets the word, nothing else changes.
   */
  function StoreWord(words: seq<nat>, location: nat, w: nat): (r: seq<nat>)
    ensures |r| == if location < |words| then |words| else location + 1
    ensures r[location] == w
    ensures forall k | 0 <= k < |r| && k != location :: r[k] == if k < |words| then words[k] else 0
  {
    (if |words| <= location then words + Zeros(location - |words| + 1) else words)[location := w]
  }

  class MemoryRow {
    var data: seq<nat>
    const address: nat
    const wordSize: nat

    constructor(addr: nat, wordSize: nat)
      ensures data == [] && address == addr && this.wordSize == wordSize
    {
      data := [];
      address := addr;
      this.wordSize := wordSize;
    }

    /** Extend the list with zeros when it is too short, then assign the location. */
    method StoreWordAt(location: nat, w: nat)
      modifies this`data
      ensures data == StoreWord(old(data), location, w)
    {
      if |data| <= location {
        data := data + Zeros(location - |data| + 1);
      }
      data := data[location := w];
    }
  }

  // ---------------------------------------------------------------------
  // sorted()
  // ---------------------------------------------------------------------

  /** The least element of a non-empty set of naturals, found by taking elements out one at a time. */
  lemma LeastWitness(s: set<nat>) returns (m: nat)
    requires s != {}
    ensures m in s && forall x | x in s :: m <= x
    decreases |s|
  {
    var x :| x in s;
    var t := s - {x};
    if t == {} {
      m := x;
      forall y | y in s ensures x <= y {
        assert y !in t;
      }
    } else {
      var m' := LeastWitness(t);
      m := if x < m' then x else m';
      forall y | y in s ensures m <= y {
        if y != x {
          assert y in t;
        }
      }
    }
  }

  lemma LeastExists(s: set<nat>)
    requires s != {}
    ensures exists m :: m in s && forall x | x in s :: m <= x
  {
    var m := LeastWitness(s);
  }
  function Least(s: set<nat>): (m: nat)
    requires s != {}
    ensures m in s && forall x | x in s :: m <= x
  {
    LeastExists(s);
    var m :| m in s && forall x | x in s :: m <= x;
    m
  }

  /** sorted() of a set of keys: strictly increasing, and holding exactly the keys. */
  function Sorted(s: set<nat>): (r: seq<nat>)
    ensures |r| == |s|
    ensures forall i, j | 0 <= i < j < |r| :: r[i] < r[j]
    ensures forall i | 0 <= i < |r| :: r[i] in s
    ensures forall x | x in s :: x in r
    decreases |s|
  {
    if s == {} then []
    else
      var m := Least(s);
      var rest := Sorted(s - {m});
      assert forall j | 0 <= j < |rest| :: m < rest[j] by {
        forall j | 0 <= j < |rest| ensures m < rest[j] {
          assert rest[j] in s - {m};
        }
      }
      [m] + rest
  }

  // ---------------------------------------------------------------------
  // to_rows
  // ---------------------------------------------------------------------

  /** The word whose lowest byte is at a: memory[a] + memory[a+1] * 0x100 + ..., as to_rows computes it. */
  function WordAt(memory: map<nat, byte>, a: nat, wordSize: nat): Result<nat, RowError>
    requires a in memory
  {
    if wordSize == 1 then Ok(memory[a])
    else if wordSize == 2 then
      if a + 1 in memory then Ok(memory[a] as int + memory[a + 1] as int * 0x100) else Err(MissingByte)
    else if wordSize == 4 then
      if a + 1 in memory && a + 2 in memory && a + 3 in memory then
        Ok(memory[a] as int + memory[a + 1] as int * 0x100 + memory[a + 2] as int * 0x1_0000 + memory[a + 3] as int * 0x100_0000)
      else Err(MissingByte)
    else Err(IrregularWordSize)
  }

  /** A 16-bit word is little-endian: its low byte is at a, its high byte right after. */
  lemma LittleEndian(memory: map<nat, byte>, a: nat)
    requires a in memory && a + 1 in memory
    ensures WordAt(memory, a, 2).Ok?
    ensures var w := WordAt(memory, a, 2).value;
      w < 0x1_0000 && w % 0x100 == memory[a] && w / 0x100 == memory[a + 1]
  {
  }

  /** Floor division of naturals: int(x / y) for the addresses in use. */
  function Div(a: nat, d: nat): nat
    requires d > 0
  {
    a / d
  }

  /** The remainder x % y of naturals. */
  function Mod(a: nat, d: nat): (r: nat)
    requires d > 0
    ensures r < d
  {
    a % d
  }

  /** The quotient and the remainder recompose the dividend. */
  lemma DivMod(a: nat, d: nat)
    requires d > 0
    ensures a == Div(a, d) * d + Mod(a, d)
  {
  }

  /** rowsz_bytes = row_size * word_size: zero exactly when one of the two is. */
  function RowBytes(rowSize: nat, wordSize: nat): (r: nat)
    ensures r == 0 <==> rowSize == 0 || wordSize == 0
  {
    rowSize * wordSize
  }

  /** One pass of the loop over the sorted byte addresses. */
  function PlaceByte(rows: map<nat, seq<nat>>, memory: map<nat, byte>, a: nat, rowSize: nat, wordSize: nat)
    : Result<map<nat, seq<nat>>, RowError>
    requires a in memory
  {
    var rowBytes := RowBytes(rowSize, wordSize);
    if rowBytes == 0 then Err(ZeroRowSize)
    else
      assert wordSize > 0;
      var rn := Div(a, rowBytes);
      var words := if rn in rows then rows[rn] else [];
      if Mod(a, wordSize) != 0 then Ok(rows[rn := words])
      else match WordAt(memory, a, wordSize)
        case Err(e) => Err(e)
        case Ok(w) => Ok(rows[rn := StoreWord(words, WordIndex(a, rowBytes, wordSize), w)])
  }

  /** The loop's row map after visiting the given addresses, in order. */
  function PlaceAll(memory: map<nat, byte>, keys: seq<nat>, rowSize: nat, wordSize: nat)
    : Result<map<nat, seq<nat>>, RowError>
    requires forall k | k in keys :: k in memory
  {
    if keys == [] then Ok(map[])
    else match PlaceAll(memory, keys[..|keys| - 1], rowSize, wordSize)
      case Err(e) => Err(e)
      case Ok(rows) => PlaceByte(rows, memory, keys[|keys| - 1], rowSize, wordSize)
  }

  /** row_start = rn * rowsz_bytes. */
  function RowStart(n: nat, rowBytes: nat): nat
  {
    n * rowBytes
  }

  /** The rows in increasing row-number order, each at its first byte address. */
  function RowList(rows: map<nat, seq<nat>>, rowBytes: nat): seq<Row>
  {
    var ns := Sorted(rows.Keys);
    seq(|ns|, i requires 0 <= i < |ns| => Row(RowStart(ns[i], rowBytes), rows[ns[i]]))
  }

  /** What to_rows returns for the map. */
  function RowsOf(memory: map<nat, byte>, rowSize: nat, wordSize: nat): Result<seq<Row>, RowError>
  {
    match PlaceAll(memory, Sorted(memory.Keys), rowSize, wordSize)
    case Err(e) => Err(e)
    case Ok(rows) => Ok(RowList(rows, RowBytes(rowSize, wordSize)))
  }

  /** One more address visited: the loop's next pass. */
  lemma PlaceAllNext(memory: map<nat, byte>, keys: seq<nat>, i: nat, rowSize: nat, wordSize: nat, rows: map<nat, seq<nat>>)
    requires forall k | k in keys :: k in memory
    requires i < |keys| && PlaceAll(memory, keys[..i], rowSize, wordSize) == Ok(rows)
    ensures PlaceAll(memory, keys[..i + 1], rowSize, wordSize) == PlaceByte(rows, memory, keys[i], rowSize, wordSize)
  {
    assert keys[..i + 1][..i] == keys[..i];
  }

  lemma {:induction false} PlaceAllStops(memory: map<nat, byte>, keys: seq<nat>, i: nat, rowSize: nat, wordSize: nat)
    requires forall k | k in keys :: k in memory
    requires i <= |keys| && PlaceAll(memory, keys[..i], rowSize, wordSize).Err?
    ensures PlaceAll(memory, keys, rowSize, wordSize) == PlaceAll(memory, keys[..i], rowSize, wordSize)
    decreases |keys| - i
  {
    if i == |keys| {
      assert keys[..i] == keys;
    } else {
      assert keys[..i + 1][..i] == keys[..i];
      PlaceAllStops(memory, keys, i + 1, rowSize, wordSize);
    }
  }

  // ---------------------------------------------------------------------
  // Arithmetic of row numbers and word indices
  // ---------------------------------------------------------------------

  /** rowsz_bytes = row_size * word_size, with both sizes positive. */
  ghost predicate Geometry(rowSize: nat, wordSize: nat, rowBytes: nat)
  {
    rowSize > 0 && wordSize > 0 && rowBytes == RowBytes(rowSize, wordSize) && rowBytes > 0
  }

  lemma GeometryPositive(rowSize: nat, wordSize: nat)
    requires rowSize > 0 && wordSize > 0
    ensures Geometry(rowSize, wordSize, RowBytes(rowSize, wordSize))
  {
  }

  lemma MulLess(a: nat, b: nat, d: nat)
    requires a < b
    ensures a * d + d <= b * d
  {
    var e := b - a - 1;
    assert b * d == a * d + d + e * d;
  }

  /** Division is fixed by a quotient and a remainder below the divisor. */
  lemma DivUnique(v: nat, d: nat, q: nat, r: nat)
    requires d > 0 && r < d && v == q * d + r
    ensures Div(v, d) == q && Mod(v, d) == r
  {
    var q', r' := Div(v, d), Mod(v, d);
    if q < q' {
      MulLess(q, q', d);
      assert false;
    }
    if q' < q {
      MulLess(q', q, d);
      assert false;
    }
  }

  /** The index of the word at byte address a within its row: int((a - row_start) / word_size). */
  function WordIndex(a: nat, rowBytes: nat, wordSize: nat): nat
    requires rowBytes > 0 && wordSize > 0
  {
    var rowStart := RowStart(Div(a, rowBytes), rowBytes);
    assert rowStart <= a by {
      DivMod(a, rowBytes);
    }
    Div(a - rowStart, wordSize)
  }

  /** The byte address of word j of row n. */
  function WordAddress(n: nat, j: nat, rowBytes: nat, wordSize: nat): nat
  {
    n * rowBytes + j * wordSize
  }

  /** The byte address of word j of a row. */
  function WordByte(row: Row, j: nat, wordSize: nat): nat
  {
    row.address + j * wordSize
  }

  lemma WordAddressStart(n: nat, j: nat, rowBytes: nat, wordSize: nat, words: seq<nat>)
    ensures WordAddress(n, j, rowBytes, wordSize) == WordByte(Row(RowStart(n, rowBytes), words), j, wordSize)
  {
  }

  /** An aligned byte address is the address of its word index in its row, and that index is below the row size. */
  lemma AlignedAddress(a: nat, rowSize: nat, wordSize: nat, rowBytes: nat)
    requires Geometry(rowSize, wordSize, rowBytes) && Mod(a, wordSize) == 0
    ensures WordIndex(a, rowBytes, wordSize) < rowSize
    ensures a == WordAddress(Div(a, rowBytes), WordIndex(a, rowBytes, wordSize), rowBytes, wordSize)
  {
    var n := Div(a, rowBytes);
    var r := Mod(a, rowBytes);
    var i := Div(r, wordSize);
    assert a - n * rowBytes == r;
    assert n * rowBytes == (n * rowSize) * wordSize;
    var r2 := Mod(r, wordSize);
    DivUnique(a, wordSize, n * rowSize + i, r2);
    assert r == i * wordSize;
    if i >= rowSize {
      if i > rowSize {
        MulLess(rowSize, i, wordSize);
      }
      assert false;
    }
  }

  /** Word j of row n, for j below the row size, lies in row n at index j and is aligned. */
  lemma AddressOfWord(n: nat, j: nat, rowSize: nat, wordSize: nat, rowBytes: nat)
    requires Geometry(rowSize, wordSize, rowBytes) && j < rowSize
    ensures var a := WordAddress(n, j, rowBytes, wordSize);
      && Div(a, rowBytes) == n
      && Mod(a, wordSize) == 0
      && WordIndex(a, rowBytes, wordSize) == j
  {
    var a := WordAddress(n, j, rowBytes, wordSize);
    MulLess(j, rowSize, wordSize);
    DivUnique(a, rowBytes, n, j * wordSize);
    assert n * rowBytes == (n * rowSize) * wordSize;
    DivUnique(a, wordSize, n * rowSize + j, 0);
    DivUnique(j * wordSize, wordSize, j, 0);
  }

  /** Within one row, a higher aligned address has a higher word index. */
  lemma IndexMonotone(a: nat, b: nat, rowSize: nat, wordSize: nat, rowBytes: nat)
    requires Geometry(rowSize, wordSize, rowBytes) && Mod(a, wordSize) == 0 && Mod(b, wordSize) == 0
    requires a < b && Div(a, rowBytes) == Div(b, rowBytes)
    ensures WordIndex(a, rowBytes, wordSize) < WordIndex(b, rowBytes, wordSize)
  {
    AlignedAddress(a, rowSize, wordSize, rowBytes);
    AlignedAddress(b, rowSize, wordSize, rowBytes);
    var i, j := WordIndex(a, rowBytes, wordSize), WordIndex(b, rowBytes, wordSize);
    if j <= i {
      if j < i {
        MulLess(j, i, wordSize);
      }
      assert false;
    }
  }

  // ---------------------------------------------------------------------
  // What the loop builds
  // ---------------------------------------------------------------------

  ghost predicate Increasing(keys: seq<nat>)
  {
    forall i, j | 0 <= i < j < |keys| :: keys[i] < keys[j]
  }

  /** Exactly the row numbers of the visited addresses have a row. */
  ghost predicate RowsPresent(keys: seq<nat>, rowBytes: nat, rows: map<nat, seq<nat>>)
    requires rowBytes > 0
  {
    forall n :: n in rows <==> exists k :: k in keys && Div(k, rowBytes) == n
  }

  /** Every visited aligned address has its word at its index in its row. */
  ghost predicate WordsPlaced(memory: map<nat, byte>, keys: seq<nat>, rowBytes: nat, wordSize: nat, rows: map<nat, seq<nat>>)
    requires rowBytes > 0 && wordSize > 0
    requires forall k | k in keys :: k in memory
  {
    forall k | k in keys && Mod(k, wordSize) == 0 ::
      && Div(k, rowBytes) in rows
      && WordIndex(k, rowBytes, wordSize) < |rows[Div(k, rowBytes)]|
      && WordAt(memory, k, wordSize).Ok?
      && rows[Div(k, rowBytes)][WordIndex(k, rowBytes, wordSize)] == WordAt(memory, k, wordSize).value
  }

  /** A word whose address was not visited is a zero of the padding. */
  ghost predicate GapsZero(keys: seq<nat>, rowBytes: nat, wordSize: nat, rows: map<nat, seq<nat>>)
  {
    forall n, j | n in rows && 0 <= j < |rows[n]| :: WordAddress(n, j, rowBytes, wordSize) !in keys ==> rows[n][j] == 0
  }

  /** A row is no longer than the row size and ends with a visited word. */
  ghost predicate LastPlaced(keys: seq<nat>, rowSize: nat, rowBytes: nat, wordSize: nat, rows: map<nat, seq<nat>>)
  {
    forall n | n in rows ::
      && |rows[n]| <= rowSize
      && (rows[n] != [] ==> WordAddress(n, |rows[n]| - 1, rowBytes, wordSize) in keys)
  }

  ghost predicate Shape(memory: map<nat, byte>, keys: seq<nat>, rowSize: nat, wordSize: nat, rowBytes: nat, rows: map<nat, seq<nat>>)
    requires Geometry(rowSize, wordSize, rowBytes)
    requires forall k | k in keys :: k in memory
  {
    && RowsPresent(keys, rowBytes, rows)
    && WordsPlaced(memory, keys, rowBytes, wordSize, rows)
    && GapsZero(keys, rowBytes, wordSize, rows)
    && LastPlaced(keys, rowSize, rowBytes, wordSize, rows)
  }

  /** A new, highest address starts its word where the row's list ends, or later. */
  lemma NextIndex(keys: seq<nat>, a: nat, rowSize: nat, wordSize: nat, rowBytes: nat, rows: map<nat, seq<nat>>)
    requires Geometry(rowSize, wordSize, rowBytes) && Mod(a, wordSize) == 0
    requires forall k | k in keys :: k < a
    requires LastPlaced(keys, rowSize, rowBytes, wordSize, rows)
    requires Div(a, rowBytes) in rows
    ensures |rows[Div(a, rowBytes)]| <= WordIndex(a, rowBytes, wordSize)
  {
    var n := Div(a, rowBytes);
    var words := rows[n];
    if words != [] {
      var k := WordAddress(n, |words| - 1, rowBytes, wordSize);
      AddressOfWord(n, |words| - 1, rowSize, wordSize, rowBytes);
      IndexMonotone(k, a, rowSize, wordSize, rowBytes);
    }
  }

  /** What one visit does to the row map, once the row size is known to be positive. */
  lemma PlaceByteIs(rows: map<nat, seq<nat>>, memory: map<nat, byte>, a: nat, rowSize: nat, wordSize: nat, rowBytes: nat)
    requires Geometry(rowSize, wordSize, rowBytes) && a in memory
    ensures var n := Div(a, rowBytes);
      var words := if n in rows then rows[n] else [];
      PlaceByte(rows, memory, a, rowSize, wordSize) ==
        if Mod(a, wordSize) != 0 then Ok(rows[n := words])
        else match WordAt(memory, a, wordSize)
          case Err(e) => Err(e)
          case Ok(w) => Ok(rows[n := StoreWord(words, WordIndex(a, rowBytes, wordSize), w)])
  {
  }

  /** One visit of a new, highest address keeps the shape. */
  lemma PlaceStep(memory: map<nat, byte>, keys: seq<nat>, a: nat, rowSize: nat, wordSize: nat, rowBytes: nat, rows: map<nat, seq<nat>>)
    requires Geometry(rowSize, wordSize, rowBytes) && a in memory
    requires forall k | k in keys :: k in memory && k < a
    requires Shape(memory, keys, rowSize, wordSize, rowBytes, rows)
    requires PlaceByte(rows, memory, a, rowSize, wordSize).Ok?
    ensures Shape(memory, keys + [a], rowSize, wordSize, rowBytes, PlaceByte(rows, memory, a, rowSize, wordSize).value)
  {
    PlaceByteIs(rows, memory, a, rowSize, wordSize, rowBytes);
    var n := Div(a, rowBytes);
    var words := if n in rows then rows[n] else [];
    if Mod(a, wordSize) != 0 {
      PlaceUnaligned(memory, keys, a, rowSize, wordSize, rowBytes, rows);
    } else {
      AlignedAddress(a, rowSize, wordSize, rowBytes);
      if n in rows {
        NextIndex(keys, a, rowSize, wordSize, rowBytes, rows);
      }
      PlaceAligned(memory, keys, a, rowSize, wordSize, rowBytes, rows, words, WordIndex(a, rowBytes, wordSize), WordAt(memory, a, wordSize).value);
    }
  }

  lemma PlaceUnaligned(memory: map<nat, byte>, keys: seq<nat>, a: nat, rowSize: nat, wordSize: nat, rowBytes: nat, rows: map<nat, seq<nat>>)
    requires Geometry(rowSize, wordSize, rowBytes) && a in memory && Mod(a, wordSize) != 0
    requires forall k | k in keys :: k in memory
    requires Shape(memory, keys, rowSize, wordSize, rowBytes, rows)
    ensures var n := Div(a, rowBytes);
      Shape(memory, keys + [a], rowSize, wordSize, rowBytes, rows[n := if n in rows then rows[n] else []])
  {
    var n := Div(a, rowBytes);
    var rows' := rows[n := if n in rows then rows[n] else []];
    PresentStep(keys, a, rowBytes, rows, rows');
    UnalignedPlaced(memory, keys, a, wordSize, rowBytes, rows);
    UnalignedGaps(keys, a, rowSize, wordSize, rowBytes, rows);
  }

  lemma UnalignedPlaced(memory: map<nat, byte>, keys: seq<nat>, a: nat, wordSize: nat, rowBytes: nat, rows: map<nat, seq<nat>>)
    requires rowBytes > 0 && wordSize > 0 && a in memory && Mod(a, wordSize) != 0
    requires forall k | k in keys :: k in memory
    requires WordsPlaced(memory, keys, rowBytes, wordSize, rows)
    ensures var n := Div(a, rowBytes);
      WordsPlaced(memory, keys + [a], rowBytes, wordSize, rows[n := if n in rows then rows[n] else []])
  {
    assert forall k :: k in keys + [a] <==> k in keys || k == a;
  }

  lemma UnalignedGaps(keys: seq<nat>, a: nat, rowSize: nat, wordSize: nat, rowBytes: nat, rows: map<nat, seq<nat>>)
    requires rowBytes > 0
    requires GapsZero(keys, rowBytes, wordSize, rows) && LastPlaced(keys, rowSize, rowBytes, wordSize, rows)
    ensures var n := Div(a, rowBytes);
      var rows' := rows[n := if n in rows then rows[n] else []];
      GapsZero(keys + [a], rowBytes, wordSize, rows') && LastPlaced(keys + [a], rowSize, rowBytes, wordSize, rows')
  {
    assert forall k :: k in keys + [a] <==> k in keys || k == a;
  }

  /** Adding the row of a new address to the row map keeps exactly the visited rows present. */
  lemma PresentStep(keys: seq<nat>, a: nat, rowBytes: nat, rows: map<nat, seq<nat>>, rows': map<nat, seq<nat>>)
    requires rowBytes > 0 && RowsPresent(keys, rowBytes, rows)
    requires rows'.Keys == rows.Keys + {Div(a, rowBytes)}
    ensures RowsPresent(keys + [a], rowBytes, rows')
  {
    var keys' := keys + [a];
    assert forall k :: k in keys' <==> k in keys || k == a;
    forall m ensures m in rows' <==> exists k :: k in keys' && Div(k, rowBytes) == m {
      if m in rows {
        var k :| k in keys && Div(k, rowBytes) == m;
        assert k in keys';
      }
      if m == Div(a, rowBytes) {
        assert a in keys';
      }
    }
  }

  lemma PlaceAligned(memory: map<nat, byte>, keys: seq<nat>, a: nat, rowSize: nat, wordSize: nat, rowBytes: nat,
                     rows: map<nat, seq<nat>>, words: seq<nat>, i: nat, w: nat)
    requires Geometry(rowSize, wordSize, rowBytes) && a in memory && Mod(a, wordSize) == 0
    requires forall k | k in keys :: k in memory && k < a
    requires Shape(memory, keys, rowSize, wordSize, rowBytes, rows)
    requires words == if Div(a, rowBytes) in rows then rows[Div(a, rowBytes)] else []
    requires i == WordIndex(a, rowBytes, wordSize) && |words| <= i < rowSize
    requires a == WordAddress(Div(a, rowBytes), i, rowBytes, wordSize)
    requires WordAt(memory, a, wordSize) == Ok(w)
    ensures Shape(memory, keys + [a], rowSize, wordSize, rowBytes, rows[Div(a, rowBytes) := StoreWord(words, i, w)])
  {
    var keys' := keys + [a];
    assert forall k :: k in keys' <==> k in keys || k == a;
    var n := Div(a, rowBytes);
    var rows' := rows[n := StoreWord(words, i, w)];
    PresentStep(keys, a, rowBytes, rows, rows');
    PlacedStep(memory, keys, a, rowSize, wordSize, rowBytes, rows, words, i, w);
    GapsStep(keys, a, rowSize, wordSize, rowBytes, rows, words, i, w);
    LastStep(keys, a, rowSize, wordSize, rowBytes, rows, words, i, w);
  }

  lemma PlacedStep(memory: map<nat, byte>, keys: seq<nat>, a: nat, rowSize: nat, wordSize: nat, rowBytes: nat,
                   rows: map<nat, seq<nat>>, words: seq<nat>, i: nat, w: nat)
    requires Geometry(rowSize, wordSize, rowBytes) && a in memory && Mod(a, wordSize) == 0
    requires forall k | k in keys :: k in memory
    requires WordsPlaced(memory, keys, rowBytes, wordSize, rows)
    requires words == if Div(a, rowBytes) in rows then rows[Div(a, rowBytes)] else []
    requires i == WordIndex(a, rowBytes, wordSize) && |words| <= i
    requires WordAt(memory, a, wordSize) == Ok(w)
    ensures WordsPlaced(memory, keys + [a], rowBytes, wordSize, rows[Div(a, rowBytes) := StoreWord(words, i, w)])
  {
    var keys' := keys + [a];
    assert forall k :: k in keys' <==> k in keys || k == a;
    var n := Div(a, rowBytes);
    var rows' := rows[n := StoreWord(words, i, w)];
    forall k | k in keys' && Mod(k, wordSize) == 0
      ensures Div(k, rowBytes) in rows'
      ensures WordIndex(k, rowBytes, wordSize) < |rows'[Div(k, rowBytes)]|
      ensures WordAt(memory, k, wordSize).Ok?
      ensures rows'[Div(k, rowBytes)][WordIndex(k, rowBytes, wordSize)] == WordAt(memory, k, wordSize).value
    {
      if k != a {
        assert k in keys;
        if Div(k, rowBytes) == n {
          assert WordIndex(k, rowBytes, wordSize) < |words|;
        }
      }
    }
  }

  lemma GapsStep(keys: seq<nat>, a: nat, rowSize: nat, wordSize: nat, rowBytes: nat,
                 rows: map<nat, seq<nat>>, words: seq<nat>, i: nat, w: nat)
    requires rowBytes > 0
    requires GapsZero(keys, rowBytes, wordSize, rows)
    requires words == if Div(a, rowBytes) in rows then rows[Div(a, rowBytes)] else []
    requires |words| <= i && a == WordAddress(Div(a, rowBytes), i, rowBytes, wordSize)
    ensures GapsZero(keys + [a], rowBytes, wordSize, rows[Div(a, rowBytes) := StoreWord(words, i, w)])
  {
    var keys' := keys + [a];
    assert forall k :: k in keys' <==> k in keys || k == a;
    var n := Div(a, rowBytes);
    var rows' := rows[n := StoreWord(words, i, w)];
    forall m, j | m in rows' && 0 <= j < |rows'[m]| && WordAddress(m, j, rowBytes, wordSize) !in keys'
      ensures rows'[m][j] == 0
    {
      if m == n && j < |words| {
        assert words[j] == rows[n][j];
      }
    }
  }

  lemma LastStep(keys: seq<nat>, a: nat, rowSize: nat, wordSize: nat, rowBytes: nat,
                 rows: map<nat, seq<nat>>, words: seq<nat>, i: nat, w: nat)
    requires rowBytes > 0
    requires LastPlaced(keys, rowSize, rowBytes, wordSize, rows)
    requires words == if Div(a, rowBytes) in rows then rows[Div(a, rowBytes)] else []
    requires |words| <= i < rowSize && a == WordAddress(Div(a, rowBytes), i, rowBytes, wordSize)
    ensures LastPlaced(keys + [a], rowSize, rowBytes, wordSize, rows[Div(a, rowBytes) := StoreWord(words, i, w)])
  {
    var keys' := keys + [a];
    assert forall k :: k in keys' <==> k in keys || k == a;
  }

  /** The loop's row map, over strictly increasing addresses, has the shape. */
  lemma {:induction false} PlaceAllShape(memory: map<nat, byte>, keys: seq<nat>, rowSize: nat, wordSize: nat, rowBytes: nat)
    requires Geometry(rowSize, wordSize, rowBytes)
    requires forall k | k in keys :: k in memory
    requires Increasing(keys) && PlaceAll(memory, keys, rowSize, wordSize).Ok?
    ensures Shape(memory, keys, rowSize, wordSize, rowBytes, PlaceAll(memory, keys, rowSize, wordSize).value)
    decreases |keys|
  {
    if keys != [] {
      var init := keys[..|keys| - 1];
      var a := keys[|keys| - 1];
      assert keys == init + [a];
      assert forall k | k in init :: k in memory && k < a by {
        forall k | k in init ensures k < a {
          var i :| 0 <= i < |init| && init[i] == k;
          assert keys[i] == k;
        }
      }
      PlaceAllShape(memory, init, rowSize, wordSize, rowBytes);
      PlaceStep(memory, init, a, rowSize, wordSize, rowBytes, PlaceAll(memory, init, rowSize, wordSize).value);
    }
  }

  /** The loop fails exactly when the row size is zero and there is a byte, or an aligned byte's word cannot be read. */
  lemma {:induction false} PlaceAllFails(memory: map<nat, byte>, keys: seq<nat>, rowSize: nat, wordSize: nat)
    requires forall k | k in keys :: k in memory
    ensures PlaceAll(memory, keys, rowSize, wordSize).Err? <==>
      if rowSize == 0 || wordSize == 0 then keys != []
      else exists k | k in keys && Mod(k, wordSize) == 0 :: WordAt(memory, k, wordSize).Err?
    decreases |keys|
  {
    if keys != [] {
      var init := keys[..|keys| - 1];
      var a := keys[|keys| - 1];
      assert keys == init + [a];
      assert forall k :: k in keys <==> k in init || k == a;
      PlaceAllFails(memory, init, rowSize, wordSize);
      if rowSize > 0 && wordSize > 0 && PlaceAll(memory, init, rowSize, wordSize).Ok? {
        GeometryPositive(rowSize, wordSize);
        PlaceByteCases(PlaceAll(memory, init, rowSize, wordSize), memory, a, rowSize, wordSize);
      }
    }
  }

  /** A visit fails exactly when the address is aligned and its word cannot be read. */
  lemma PlaceByteCases(prev: Result<map<nat, seq<nat>>, RowError>, memory: map<nat, byte>, a: nat, rowSize: nat, wordSize: nat)
    requires rowSize > 0 && wordSize > 0 && a in memory && prev.Ok?
    ensures PlaceByte(prev.value, memory, a, rowSize, wordSize).Err? <==>
      Mod(a, wordSize) == 0 && WordAt(memory, a, wordSize).Err?
  {
    GeometryPositive(rowSize, wordSize);
  }

  // ---------------------------------------------------------------------
  // What to_rows returns
  // ---------------------------------------------------------------------

  /** The loop visits sorted(memory.keys()): strictly increasing, and exactly the map's addresses. */
  lemma SortedKeys(memory: map<nat, byte>)
    ensures Increasing(Sorted(memory.Keys))
    ensures forall k :: k in Sorted(memory.Keys) <==> k in memory
  {
    var keys := Sorted(memory.Keys);
    forall k | k in keys ensures k in memory {
      var i :| 0 <= i < |keys| && keys[i] == k;
    }
  }

  /** The row map to_rows builds, when it succeeds, has the shape. */
  lemma RowMapShape(memory: map<nat, byte>, rowSize: nat, wordSize: nat, rowBytes: nat)
    requires Geometry(rowSize, wordSize, rowBytes)
    requires PlaceAll(memory, Sorted(memory.Keys), rowSize, wordSize).Ok?
    ensures forall k :: k in Sorted(memory.Keys) <==> k in memory
    ensures Shape(memory, Sorted(memory.Keys), rowSize, wordSize, rowBytes, PlaceAll(memory, Sorted(memory.Keys), rowSize, wordSize).value)
  {
    SortedKeys(memory);
    PlaceAllShape(memory, Sorted(memory.Keys), rowSize, wordSize, rowBytes);
  }

  /** Distinct row numbers start at distinct addresses, in the same order. */
  lemma RowStartLess(m: nat, n: nat, rowBytes: nat)
    requires m < n && rowBytes > 0
    ensures RowStart(m, rowBytes) < RowStart(n, rowBytes)
  {
    MulLess(m, n, rowBytes);
  }

  /** The successful result of to_rows, named, with the shape of its row map. */
  lemma RowsOfIs(memory: map<nat, byte>, rowSize: nat, wordSize: nat, rowBytes: nat, rs: seq<Row>) returns (rows: map<nat, seq<nat>>)
    requires Geometry(rowSize, wordSize, rowBytes) && RowsOf(memory, rowSize, wordSize) == Ok(rs)
    ensures PlaceAll(memory, Sorted(memory.Keys), rowSize, wordSize) == Ok(rows)
    ensures rs == RowList(rows, rowBytes)
  {
    rows := PlaceAll(memory, Sorted(memory.Keys), rowSize, wordSize).value;
  }

  /** The rows of the list are the map's rows, by increasing row number. */
  lemma ListOrdered(rows: map<nat, seq<nat>>, rowBytes: nat)
    requires rowBytes > 0
    ensures var rs := RowList(rows, rowBytes);
      && (forall i, j | 0 <= i < j < |rs| :: rs[i].address < rs[j].address)
      && (forall i | 0 <= i < |rs| :: Mod(rs[i].address, rowBytes) == 0)
  {
    var ns := Sorted(rows.Keys);
    var rs := RowList(rows, rowBytes);
    forall i, j | 0 <= i < j < |rs| ensures rs[i].address < rs[j].address {
      RowStartLess(ns[i], ns[j], rowBytes);
    }
    forall i | 0 <= i < |rs| ensures Mod(rs[i].address, rowBytes) == 0 {
      DivUnique(rs[i].address, rowBytes, ns[i], 0);
    }
  }

  /** Each row of the list is one row of the map, at its start address. */
  lemma ListEntry(rows: map<nat, seq<nat>>, rowBytes: nat, i: nat) returns (n: nat)
    requires i < |RowList(rows, rowBytes)|
    ensures n in rows
    ensures RowList(rows, rowBytes)[i] == Row(RowStart(n, rowBytes), rows[n])
  {
    n := Sorted(rows.Keys)[i];
  }

  /** Each row of the map appears in the list. */
  lemma ListHas(rows: map<nat, seq<nat>>, rowBytes: nat, n: nat) returns (i: nat)
    requires n in rows
    ensures i < |RowList(rows, rowBytes)|
    ensures RowList(rows, rowBytes)[i] == Row(RowStart(n, rowBytes), rows[n])
  {
    var ns := Sorted(rows.Keys);
    i :| 0 <= i < |ns| && ns[i] == n;
  }

  /** A start address names one row of the map. */
  lemma ListStart(rows: map<nat, seq<nat>>, rowBytes: nat, i: nat, n: nat)
    requires rowBytes > 0 && i < |RowList(rows, rowBytes)|
    requires RowStart(n, rowBytes) == RowList(rows, rowBytes)[i].address
    ensures n in rows && RowList(rows, rowBytes)[i].words == rows[n]
  {
    var m := ListEntry(rows, rowBytes, i);
    if n < m {
      RowStartLess(n, m, rowBytes);
    } else if m < n {
      RowStartLess(m, n, rowBytes);
    }
  }

  /** What the shape says about one row of the map. */
  lemma ShapeRow(memory: map<nat, byte>, keys: seq<nat>, rowSize: nat, wordSize: nat, rowBytes: nat,
                 rows: map<nat, seq<nat>>, n: nat) returns (k: nat)
    requires Geometry(rowSize, wordSize, rowBytes) && forall k | k in keys :: k in memory
    requires Shape(memory, keys, rowSize, wordSize, rowBytes, rows) && n in rows
    ensures k in keys && Div(k, rowBytes) == n
    ensures |rows[n]| <= rowSize
    ensures rows[n] != [] ==> WordAddress(n, |rows[n]| - 1, rowBytes, wordSize) in keys
    ensures forall j | 0 <= j < |rows[n]| :: WordAddress(n, j, rowBytes, wordSize) !in keys ==> rows[n][j] == 0
  {
    assert RowsPresent(keys, rowBytes, rows);
    k :| k in keys && Div(k, rowBytes) == n;
    assert LastPlaced(keys, rowSize, rowBytes, wordSize, rows);
    assert GapsZero(keys, rowBytes, wordSize, rows);
  }

  /** The last word of a row of the map lies at an address the loop visited. */
  lemma ShapeLast(memory: map<nat, byte>, keys: seq<nat>, rowSize: nat, wordSize: nat, rowBytes: nat,
                  rows: map<nat, seq<nat>>, n: nat)
    requires Geometry(rowSize, wordSize, rowBytes) && forall k | k in keys :: k in memory
    requires Shape(memory, keys, rowSize, wordSize, rowBytes, rows) && n in rows && rows[n] != []
    ensures WordAddress(n, |rows[n]| - 1, rowBytes, wordSize) in memory
  {
    assert LastPlaced(keys, rowSize, rowBytes, wordSize, rows);
  }

  /** What the shape says about one address the loop visited. */
  lemma ShapeKey(memory: map<nat, byte>, keys: seq<nat>, rowSize: nat, wordSize: nat, rowBytes: nat,
                 rows: map<nat, seq<nat>>, k: nat)
    requires Geometry(rowSize, wordSize, rowBytes) && forall k | k in keys :: k in memory
    requires Shape(memory, keys, rowSize, wordSize, rowBytes, rows) && k in keys
    ensures Div(k, rowBytes) in rows
    ensures Mod(k, wordSize) == 0 ==>
      && WordIndex(k, rowBytes, wordSize) < |rows[Div(k, rowBytes)]|
      && WordAt(memory, k, wordSize).Ok?
      && rows[Div(k, rowBytes)][WordIndex(k, rowBytes, wordSize)] == WordAt(memory, k, wordSize).value
  {
    assert RowsPresent(keys, rowBytes, rows);
    assert WordsPlaced(memory, keys, rowBytes, wordSize, rows);
  }

  /** The row of an address of the map is in the list. */
  lemma ListCovers(memory: map<nat, byte>, rowSize: nat, wordSize: nat, rowBytes: nat,
                   rows: map<nat, seq<nat>>, a: nat) returns (i: nat)
    requires Geometry(rowSize, wordSize, rowBytes) && PlaceAll(memory, Sorted(memory.Keys), rowSize, wordSize) == Ok(rows)
    requires a in memory
    ensures i < |RowList(rows, rowBytes)| && RowList(rows, rowBytes)[i].address == RowStart(Div(a, rowBytes), rowBytes)
  {
    RowMapShape(memory, rowSize, wordSize, rowBytes);
    var keys := Sorted(memory.Keys);
    ShapeKey(memory, keys, rowSize, wordSize, rowBytes, rows, a);
    i := ListHas(rows, rowBytes, Div(a, rowBytes));
  }

  /** Every listed row is the row of some address of the map. */
  lemma ListOccupied(memory: map<nat, byte>, rowSize: nat, wordSize: nat, rowBytes: nat,
                     rows: map<nat, seq<nat>>, i: nat) returns (a: nat)
    requires Geometry(rowSize, wordSize, rowBytes) && PlaceAll(memory, Sorted(memory.Keys), rowSize, wordSize) == Ok(rows)
    requires i < |RowList(rows, rowBytes)|
    ensures a in memory && RowStart(Div(a, rowBytes), rowBytes) == RowList(rows, rowBytes)[i].address
  {
    RowMapShape(memory, rowSize, wordSize, rowBytes);
    var keys := Sorted(memory.Keys);
    var n := ListEntry(rows, rowBytes, i);
    a := ShapeRow(memory, keys, rowSize, wordSize, rowBytes, rows, n);
  }

  /** The row number of every address in the map has a row in the list. */
  lemma RowsCover(memory: map<nat, byte>, rowSize: nat, wordSize: nat, rowBytes: nat, rs: seq<Row>, a: nat)
    returns (i: nat)
    requires Geometry(rowSize, wordSize, rowBytes) && RowsOf(memory, rowSize, wordSize) == Ok(rs) && a in memory
    ensures i < |rs| && rs[i].address == RowStart(Div(a, rowBytes), rowBytes)
    ensures rs[i].address <= a < rs[i].address + rowBytes
  {
    var rows := RowsOfIs(memory, rowSize, wordSize, rowBytes, rs);
    i := ListCovers(memory, rowSize, wordSize, rowBytes, rows, a);
    RowStartHolds(a, rowBytes);
  }

  /** The row of an address starts at or below it, less than a row's worth of bytes below. */
  lemma RowStartHolds(a: nat, rowBytes: nat)
    requires rowBytes > 0
    ensures RowStart(Div(a, rowBytes), rowBytes) <= a < RowStart(Div(a, rowBytes), rowBytes) + rowBytes
  {
    DivMod(a, rowBytes);
  }

  /** Every row in the list is the row of some address in the map. */
  lemma RowsOccupied(memory: map<nat, byte>, rowSize: nat, wordSize: nat, rowBytes: nat, rs: seq<Row>, i: nat)
    returns (a: nat)
    requires Geometry(rowSize, wordSize, rowBytes) && RowsOf(memory, rowSize, wordSize) == Ok(rs) && i < |rs|
    ensures a in memory && RowStart(Div(a, rowBytes), rowBytes) == rs[i].address
  {
    var rows := RowsOfIs(memory, rowSize, wordSize, rowBytes, rs);
    a := ListOccupied(memory, rowSize, wordSize, rowBytes, rows, i);
  }


  /**
   * A row can hold no word: a map whose only byte sits at an odd address
   * gives a row at address 0 whose word list is empty, because words are
   * stored only at aligned addresses.
   */
  lemma OddByteOnly()
    ensures RowsOf(map[1 := 5], 64, 2) == Ok([Row(0, [])])
  {
    var memory: map<nat, byte> := map[1 := 5];
    var keys := Sorted(memory.Keys);
    assert memory.Keys == {1};
    assert keys == [1];
    assert keys[..0] == [];
    assert Div(1, RowBytes(64, 2)) == 0 && Mod(1, 2) == 1;
    var rows: map<nat, seq<nat>> := map[0 := []];
    assert PlaceAll(memory, keys, 64, 2) == Ok(rows);
    assert rows.Keys == {0};
    assert Sorted(rows.Keys) == [0];
    assert RowStart(0, RowBytes(64, 2)) == 0;
    assert RowList(rows, RowBytes(64, 2)) == [Row(0, [])];
  }

  /** A word of a listed row at an address absent from the map is zero. */
  lemma ListGap(memory: map<nat, byte>, rowSize: nat, wordSize: nat, rowBytes: nat,
                rows: map<nat, seq<nat>>, i: nat, j: nat)
    requires Geometry(rowSize, wordSize, rowBytes) && PlaceAll(memory, Sorted(memory.Keys), rowSize, wordSize) == Ok(rows)
    requires i < |RowList(rows, rowBytes)| && j < |RowList(rows, rowBytes)[i].words|
    requires WordByte(RowList(rows, rowBytes)[i], j, wordSize) !in memory
    ensures RowList(rows, rowBytes)[i].words[j] == 0
  {
    RowMapShape(memory, rowSize, wordSize, rowBytes);
    var keys := Sorted(memory.Keys);
    var n := ListEntry(rows, rowBytes, i);
    var k := ShapeRow(memory, keys, rowSize, wordSize, rowBytes, rows, n);
    WordAddressStart(n, j, rowBytes, wordSize, rows[n]);
  }

  /** The last word of a listed row is at an address in the map. */
  lemma ListLast(memory: map<nat, byte>, rowSize: nat, wordSize: nat, rowBytes: nat,
                 rows: map<nat, seq<nat>>, rs: seq<Row>, i: nat)
    requires Geometry(rowSize, wordSize, rowBytes) && PlaceAll(memory, Sorted(memory.Keys), rowSize, wordSize) == Ok(rows)
    requires rs == RowList(rows, rowBytes) && i < |rs| && rs[i].words != []
    ensures WordByte(rs[i], |rs[i].words| - 1, wordSize) in memory
  {
    var n := ListEntry(rows, rowBytes, i);
    MapLast(memory, rowSize, wordSize, rowBytes, rows, n);
    WordAddressStart(n, |rows[n]| - 1, rowBytes, wordSize, rows[n]);
  }

  /** The last word of a row of the map is at an address in the map. */
  lemma MapLast(memory: map<nat, byte>, rowSize: nat, wordSize: nat, rowBytes: nat,
                rows: map<nat, seq<nat>>, n: nat)
    requires Geometry(rowSize, wordSize, rowBytes) && PlaceAll(memory, Sorted(memory.Keys), rowSize, wordSize) == Ok(rows)
    requires n in rows && rows[n] != []
    ensures WordAddress(n, |rows[n]| - 1, rowBytes, wordSize) in memory
  {
    RowMapShape(memory, rowSize, wordSize, rowBytes);
    ShapeLast(memory, Sorted(memory.Keys), rowSize, wordSize, rowBytes, rows, n);
  }

  /** A listed row holds at most a row's worth of words. */
  lemma ListShort(memory: map<nat, byte>, rowSize: nat, wordSize: nat, rowBytes: nat,
                  rows: map<nat, seq<nat>>, i: nat)
    requires Geometry(rowSize, wordSize, rowBytes) && PlaceAll(memory, Sorted(memory.Keys), rowSize, wordSize) == Ok(rows)
    requires i < |RowList(rows, rowBytes)|
    ensures |RowList(rows, rowBytes)[i].words| <= rowSize
  {
    RowMapShape(memory, rowSize, wordSize, rowBytes);
    var n := ListEntry(rows, rowBytes, i);
    var k := ShapeRow(memory, Sorted(memory.Keys), rowSize, wordSize, rowBytes, rows, n);
  }

  /** An aligned address of the map has its word in the listed row that starts at its row start. */
  lemma ListWord(memory: map<nat, byte>, rowSize: nat, wordSize: nat, rowBytes: nat,
                 rows: map<nat, seq<nat>>, i: nat, a: nat)
    requires Geometry(rowSize, wordSize, rowBytes) && PlaceAll(memory, Sorted(memory.Keys), rowSize, wordSize) == Ok(rows)
    requires i < |RowList(rows, rowBytes)| && a in memory && Mod(a, wordSize) == 0
    requires RowStart(Div(a, rowBytes), rowBytes) == RowList(rows, rowBytes)[i].address
    ensures WordAt(memory, a, wordSize).Ok?
    ensures WordIndex(a, rowBytes, wordSize) < |RowList(rows, rowBytes)[i].words|
    ensures RowList(rows, rowBytes)[i].words[WordIndex(a, rowBytes, wordSize)] == WordAt(memory, a, wordSize).value
  {
    RowMapShape(memory, rowSize, wordSize, rowBytes);
    ListStart(rows, rowBytes, i, Div(a, rowBytes));
    ShapeKey(memory, Sorted(memory.Keys), rowSize, wordSize, rowBytes, rows, a);
  }

  /**
   * to_rows returns its rows in strictly increasing address order, each at a
   * multiple of the row size in bytes and no longer than the row size.
   */
  lemma RowsOrdered(memory: map<nat, byte>, rowSize: nat, wordSize: nat, rowBytes: nat, rs: seq<Row>)
    requires Geometry(rowSize, wordSize, rowBytes) && RowsOf(memory, rowSize, wordSize) == Ok(rs)
    ensures forall i, j | 0 <= i < j < |rs| :: rs[i].address < rs[j].address
    ensures forall i | 0 <= i < |rs| :: Mod(rs[i].address, rowBytes) == 0 && |rs[i].words| <= rowSize
  {
    var rows := RowsOfIs(memory, rowSize, wordSize, rowBytes, rs);
    ListOrdered(rows, rowBytes);
    forall i | 0 <= i < |rs| ensures |rs[i].words| <= rowSize {
      ListShort(memory, rowSize, wordSize, rowBytes, rows, i);
    }
  }

  /**
   * Every word-aligned address in the map has its little-endian word at its
   * index within its row.
   */
  lemma RowsWords(memory: map<nat, byte>, rowSize: nat, wordSize: nat, rowBytes: nat, rs: seq<Row>, i: nat, a: nat)
    requires Geometry(rowSize, wordSize, rowBytes) && RowsOf(memory, rowSize, wordSize) == Ok(rs)
    requires i < |rs| && a in memory && Mod(a, wordSize) == 0
    requires RowStart(Div(a, rowBytes), rowBytes) == rs[i].address
    ensures WordAt(memory, a, wordSize).Ok?
    ensures WordIndex(a, rowBytes, wordSize) < |rs[i].words|
    ensures rs[i].words[WordIndex(a, rowBytes, wordSize)] == WordAt(memory, a, wordSize).value
  {
    var rows := RowsOfIs(memory, rowSize, wordSize, rowBytes, rs);
    ListWord(memory, rowSize, wordSize, rowBytes, rows, i, a);
  }

  /** A word of a row whose address is absent from the map is padding and is zero. */
  lemma RowsGap(memory: map<nat, byte>, rowSize: nat, wordSize: nat, rowBytes: nat, rs: seq<Row>, i: nat, j: nat)
    requires Geometry(rowSize, wordSize, rowBytes) && RowsOf(memory, rowSize, wordSize) == Ok(rs)
    requires i < |rs| && j < |rs[i].words| && WordByte(rs[i], j, wordSize) !in memory
    ensures rs[i].words[j] == 0
  {
    var rows := RowsOfIs(memory, rowSize, wordSize, rowBytes, rs);
    ListGap(memory, rowSize, wordSize, rowBytes, rows, i, j);
  }

  /** The last word of a row always comes from the map: rows carry no trailing padding. */
  lemma RowsLast(memory: map<nat, byte>, rowSize: nat, wordSize: nat, rowBytes: nat, rs: seq<Row>, i: nat)
    requires Geometry(rowSize, wordSize, rowBytes) && RowsOf(memory, rowSize, wordSize) == Ok(rs)
    requires i < |rs| && rs[i].words != []
    ensures WordByte(rs[i], |rs[i].words| - 1, wordSize) in memory
  {
    var rows := RowsOfIs(memory, rowSize, wordSize, rowBytes, rs);
    ListLast(memory, rowSize, wordSize, rowBytes, rows, rs, i);
  }


  /** The values a word of the given size can take: one more than its largest. */
  function WordLimit(wordSize: nat): nat
  {
    if wordSize == 1 then 0x100 else if wordSize == 2 then 0x1_0000 else 0x1_0000_0000
  }

  lemma WordAtBound(memory: map<nat, byte>, a: nat, wordSize: nat)
    requires a in memory && WordAt(memory, a, wordSize).Ok?
    ensures WordAt(memory, a, wordSize).value < WordLimit(wordSize)
  {
  }

  /** Every word of a row of the map fits the word size. */
  lemma ShapeWordBound(memory: map<nat, byte>, keys: seq<nat>, rowSize: nat, wordSize: nat, rowBytes: nat,
                       rows: map<nat, seq<nat>>, n: nat, j: nat)
    requires Geometry(rowSize, wordSize, rowBytes) && forall k | k in keys :: k in memory
    requires Shape(memory, keys, rowSize, wordSize, rowBytes, rows) && n in rows && j < |rows[n]|
    ensures rows[n][j] < WordLimit(wordSize)
  {
    var k := ShapeRow(memory, keys, rowSize, wordSize, rowBytes, rows, n);
    var a := WordAddress(n, j, rowBytes, wordSize);
    if a in keys {
      AddressOfWord(n, j, rowSize, wordSize, rowBytes);
      ShapeKey(memory, keys, rowSize, wordSize, rowBytes, rows, a);
      WordAtBound(memory, a, wordSize);
    }
  }

  lemma ListWordBound(memory: map<nat, byte>, rowSize: nat, wordSize: nat, rowBytes: nat,
                      rows: map<nat, seq<nat>>, i: nat, j: nat)
    requires Geometry(rowSize, wordSize, rowBytes) && PlaceAll(memory, Sorted(memory.Keys), rowSize, wordSize) == Ok(rows)
    requires i < |RowList(rows, rowBytes)| && j < |RowList(rows, rowBytes)[i].words|
    ensures RowList(rows, rowBytes)[i].words[j] < WordLimit(wordSize)
  {
    RowMapShape(memory, rowSize, wordSize, rowBytes);
    var n := ListEntry(rows, rowBytes, i);
    ShapeWordBound(memory, Sorted(memory.Keys), rowSize, wordSize, rowBytes, rows, n, j);
  }

  /** Every word to_rows returns fits its word size: 16 bits for the two-byte words of the flash. */
  lemma RowsWordBound(memory: map<nat, byte>, rowSize: nat, wordSize: nat, rowBytes: nat, rs: seq<Row>, i: nat, j: nat)
    requires Geometry(rowSize, wordSize, rowBytes) && RowsOf(memory, rowSize, wordSize) == Ok(rs)
    requires i < |rs| && j < |rs[i].words|
    ensures rs[i].words[j] < WordLimit(wordSize)
  {
    var rows := RowsOfIs(memory, rowSize, wordSize, rowBytes, rs);
    ListWordBound(memory, rowSize, wordSize, rowBytes, rows, i, j);
  }

  /**
   * to_rows fails exactly when the row size in bytes is zero and the map is
   * not empty, or some word-aligned address lacks a byte its word needs or
   * the word size is not 1, 2 or 4.
   */
  lemma RowsFail(memory: map<nat, byte>, rowSize: nat, wordSize: nat)
    ensures RowsOf(memory, rowSize, wordSize).Err? <==>
      if rowSize == 0 || wordSize == 0 then memory != map[]
      else exists a | a in memory && Mod(a, wordSize) == 0 :: WordAt(memory, a, wordSize).Err?
  {
    SortedKeys(memory);
    PlaceAllFails(memory, Sorted(memory.Keys), rowSize, wordSize);
    if memory != map[] {
      var a :| a in memory;
      assert a in Sorted(memory.Keys);
    }
  }
}
