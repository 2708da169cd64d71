/**
 * Big-endian integer codecs of the Qt host (MainWindow.cpp). Each encoder
 * writes its value high byte first into an unsigned char buffer; each decoder
 * reads a buffer back. The C integer conversions they rely on are written out.
 */
module Codec {
  import opened Bytes

  /** Conversion of an int to int16_t: two's complement wrap-around. */
  function ToInt16(x: int): (r: int)
    ensures -0x8000 <= r < 0x8000
    ensures (x - r) % 0x1_0000 == 0
  {
    (x + 0x8000) % 0x1_0000 - 0x8000
  }

  /** o[0] = i >> 8; o[1] = i; each store truncated to unsigned char. */
  function EncodeUInt16(i: uint16): (o: seq<byte>)
    ensures |o| == 2
    ensures o[0] as int * 0x100 + o[1] == i
  {
    [(i / 0x100) % 0x100, i % 0x100]
  }

  /**
   * The accumulator is an int16_t: `ret = i[0]; ret <<= 8; ret += i[1];`
   * each compound assignment converts back to int16_t, and the return
   * converts to uint16_t. The wrap-arounds cancel out.
   */
  function DecodeUInt16(i: seq<byte>): (r: uint16)
    requires |i| >= 2
    ensures r == i[0] as int * 0x100 + i[1]
  {
    var ret: int := i[0];
    var ret := ToInt16(ret * 0x100);
    var ret := ToInt16(ret + i[1]);
    ret % 0x1_0000
  }

  /** o[k] = i >> (24 - 8k), each truncated to unsigned char. */
  function EncodeUInt32(i: uint32): (o: seq<byte>)
    ensures |o| == 4
    ensures ((o[0] as int * 0x100 + o[1]) * 0x100 + o[2]) * 0x100 + o[3] == i
  {
    Radix32(i);
    [(i / 0x100_0000) % 0x100, (i / 0x1_0000) % 0x100, (i / 0x100) % 0x100, i % 0x100]
  }

  /** The four byte fields of a uint32, high to low, put back together give the value. */
  lemma Radix32(i: uint32)
    ensures ((((i / 0x100_0000) % 0x100) * 0x100 + (i / 0x1_0000) % 0x100) * 0x100 + (i / 0x100) % 0x100) * 0x100 + i % 0x100 == i
  {
  }

  /** The sum of the shifted bytes, computed in uint32_t arithmetic. */
  function DecodeUInt32(i: seq<byte>): (r: uint32)
    requires |i| >= 4
    ensures r == ((i[0] as int * 0x100 + i[1]) * 0x100 + i[2]) * 0x100 + i[3]
  {
    ToUInt32(ToUInt32(i[0] as int * 0x100_0000) + ToUInt32(i[1] as int * 0x1_0000) + ToUInt32(i[2] as int * 0x100) + i[3])
  }

  lemma DecodeEncode16(x: uint16)
    ensures DecodeUInt16(EncodeUInt16(x)) == x
  {
  }

  lemma EncodeDecode16(b: seq<byte>)
    requires |b| == 2
    ensures EncodeUInt16(DecodeUInt16(b)) == b
  {
  }

  lemma DecodeEncode32(x: uint32)
    ensures DecodeUInt32(EncodeUInt32(x)) == x
  {
  }

  lemma EncodeDecode32(b: seq<byte>)
    requires |b| == 4
    ensures EncodeUInt32(DecodeUInt32(b)) == b
  {
    var hi := b[0] as int * 0x100 + b[1];
    var mid := hi * 0x100 + b[2];
    var v := DecodeUInt32(b);
    assert v / 0x100_0000 == b[0] && v % 0x100_0000 == b[1] as int * 0x1_0000 + b[2] as int * 0x100 + b[3];
    assert v / 0x1_0000 == hi && v % 0x1_0000 == b[2] as int * 0x100 + b[3];
    assert v / 0x100 == mid && v % 0x100 == b[3];
    assert hi / 0x100 == b[0] && hi % 0x100 == b[1];
    assert mid / 0x100 == hi && mid % 0x100 == b[2];
  }

  /** The encoders are injective: distinct values never share an encoding. */
  lemma EncodeInjective(x: uint32, y: uint32, u: uint16, v: uint16)
    ensures EncodeUInt32(x) == EncodeUInt32(y) ==> x == y
    ensures EncodeUInt16(u) == EncodeUInt16(v) ==> u == v
  {
    DecodeEncode32(x);
    DecodeEncode32(y);
    DecodeEncode16(u);
    DecodeEncode16(v);
  }
}
