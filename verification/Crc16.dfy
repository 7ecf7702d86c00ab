/** The CRC of crc16.c: a table-driven form of a bit-serial polynomial division. */
module Crc16 {
  import opened Bytes
  import opened Folds

  /** x^16 + x^15 + x^2 + 1 in reflected (low bit first) order. */
  const POLY: bv16 := 0xA001

  // ---- The reference: bit-serial division

  /** One step of the division register: shift right, and subtract the polynomial when a one falls out. */
  function BitStep(c: bv16): bv16 {
    (c >> 1) ^ (-(c & 1) & POLY)
  }

  /** The register after one message bit has entered at its low end. */
  function Feed(c: bv16, bit: bool): bv16 {
    BitStep(if bit then c ^ 1 else c)
  }

  /** Divides a message of bits, first bit first. */
  function CrcBits(c: bv16, bits: seq<bool>): bv16 {
    Fold(Feed, c, bits)
  }

  /** The n low bits of w, lowest first. */
  function LowBits(w: bv16, n: nat): (r: seq<bool>)
    ensures |r| == n
    decreases n
  {
    if n == 0 then [] else [w & 1 == 1] + LowBits(w >> 1, n - 1)
  }

  /** A byte as a bit vector. */
  function Bv(b: byte): bv16 {
    (b as bv8) as bv16
  }

  function HighByte(c: bv16): byte {
    ((c >> 8) as bv8) as byte
  }

  function LowByte(c: bv16): byte {
    ((c & 0xff) as bv8) as byte
  }

  /** A register as a number. */
  function Number(c: bv16): u16 {
    HighByte(c) as nat * 0x100 + LowByte(c) as nat
  }

  function ByteBits(b: byte): (r: seq<bool>)
    ensures |r| == 8
  {
    LowBits(Bv(b), 8)
  }

  /** A byte string as bits: bytes in order, each low bit first. */
  function Bits(data: seq<byte>): seq<bool> {
    Flatten(ByteBits, data)
  }

  // ---- The same division a byte at a time

  /** n steps with no message bit. */
  function Steps(c: bv16, n: nat): bv16
    decreases n
  {
    if n == 0 then c else Steps(BitStep(c), n - 1)
  }

  function ByteStep(c: bv16, b: byte): bv16 {
    Steps(c ^ Bv(b), 8)
  }

  /** The CRC of a byte string. */
  function Crc(c: bv16, data: seq<byte>): bv16 {
    Fold(ByteStep, c, data)
  }

  // ---- The table of crc16.c

  function Row0(j: bv8): bv16 {
    match j
    case 0 => 0x0000 case 1 => 0xc0c1 case 2 => 0xc181 case 3 => 0x0140
    case 4 => 0xc301 case 5 => 0x03c0 case 6 => 0x0280 case 7 => 0xc241
    case 8 => 0xc601 case 9 => 0x06c0 case 10 => 0x0780 case 11 => 0xc741
    case 12 => 0x0500 case 13 => 0xc5c1 case 14 => 0xc481 case _ => 0x0440
  }

  function Row1(j: bv8): bv16 {
    match j
    case 0 => 0xcc01 case 1 => 0x0cc0 case 2 => 0x0d80 case 3 => 0xcd41
    case 4 => 0x0f00 case 5 => 0xcfc1 case 6 => 0xce81 case 7 => 0x0e40
    case 8 => 0x0a00 case 9 => 0xcac1 case 10 => 0xcb81 case 11 => 0x0b40
    case 12 => 0xc901 case 13 => 0x09c0 case 14 => 0x0880 case _ => 0xc841
  }

  function Row2(j: bv8): bv16 {
    match j
    case 0 => 0xd801 case 1 => 0x18c0 case 2 => 0x1980 case 3 => 0xd941
    case 4 => 0x1b00 case 5 => 0xdbc1 case 6 => 0xda81 case 7 => 0x1a40
    case 8 => 0x1e00 case 9 => 0xdec1 case 10 => 0xdf81 case 11 => 0x1f40
    case 12 => 0xdd01 case 13 => 0x1dc0 case 14 => 0x1c80 case _ => 0xdc41
  }

  function Row3(j: bv8): bv16 {
    match j
    case 0 => 0x1400 case 1 => 0xd4c1 case 2 => 0xd581 case 3 => 0x1540
    case 4 => 0xd701 case 5 => 0x17c0 case 6 => 0x1680 case 7 => 0xd641
    case 8 => 0xd201 case 9 => 0x12c0 case 10 => 0x1380 case 11 => 0xd341
    case 12 => 0x1100 case 13 => 0xd1c1 case 14 => 0xd081 case _ => 0x1040
  }

  function Row4(j: bv8): bv16 {
    match j
    case 0 => 0xf001 case 1 => 0x30c0 case 2 => 0x3180 case 3 => 0xf141
    case 4 => 0x3300 case 5 => 0xf3c1 case 6 => 0xf281 case 7 => 0x3240
    case 8 => 0x3600 case 9 => 0xf6c1 case 10 => 0xf781 case 11 => 0x3740
    case 12 => 0xf501 case 13 => 0x35c0 case 14 => 0x3480 case _ => 0xf441
  }

  function Row5(j: bv8): bv16 {
    match j
    case 0 => 0x3c00 case 1 => 0xfcc1 case 2 => 0xfd81 case 3 => 0x3d40
    case 4 => 0xff01 case 5 => 0x3fc0 case 6 => 0x3e80 case 7 => 0xfe41
    case 8 => 0xfa01 case 9 => 0x3ac0 case 10 => 0x3b80 case 11 => 0xfb41
    case 12 => 0x3900 case 13 => 0xf9c1 case 14 => 0xf881 case _ => 0x3840
  }

  function Row6(j: bv8): bv16 {
    match j
    case 0 => 0x2800 case 1 => 0xe8c1 case 2 => 0xe981 case 3 => 0x2940
    case 4 => 0xeb01 case 5 => 0x2bc0 case 6 => 0x2a80 case 7 => 0xea41
    case 8 => 0xee01 case 9 => 0x2ec0 case 10 => 0x2f80 case 11 => 0xef41
    case 12 => 0x2d00 case 13 => 0xedc1 case 14 => 0xec81 case _ => 0x2c40
  }

  function Row7(j: bv8): bv16 {
    match j
    case 0 => 0xe401 case 1 => 0x24c0 case 2 => 0x2580 case 3 => 0xe541
    case 4 => 0x2700 case 5 => 0xe7c1 case 6 => 0xe681 case 7 => 0x2640
    case 8 => 0x2200 case 9 => 0xe2c1 case 10 => 0xe381 case 11 => 0x2340
    case 12 => 0xe101 case 13 => 0x21c0 case 14 => 0x2080 case _ => 0xe041
  }

  function Row8(j: bv8): bv16 {
    match j
    case 0 => 0xa001 case 1 => 0x60c0 case 2 => 0x6180 case 3 => 0xa141
    case 4 => 0x6300 case 5 => 0xa3c1 case 6 => 0xa281 case 7 => 0x6240
    case 8 => 0x6600 case 9 => 0xa6c1 case 10 => 0xa781 case 11 => 0x6740
    case 12 => 0xa501 case 13 => 0x65c0 case 14 => 0x6480 case _ => 0xa441
  }

  function Row9(j: bv8): bv16 {
    match j
    case 0 => 0x6c00 case 1 => 0xacc1 case 2 => 0xad81 case 3 => 0x6d40
    case 4 => 0xaf01 case 5 => 0x6fc0 case 6 => 0x6e80 case 7 => 0xae41
    case 8 => 0xaa01 case 9 => 0x6ac0 case 10 => 0x6b80 case 11 => 0xab41
    case 12 => 0x6900 case 13 => 0xa9c1 case 14 => 0xa881 case _ => 0x6840
  }

  function RowA(j: bv8): bv16 {
    match j
    case 0 => 0x7800 case 1 => 0xb8c1 case 2 => 0xb981 case 3 => 0x7940
    case 4 => 0xbb01 case 5 => 0x7bc0 case 6 => 0x7a80 case 7 => 0xba41
    case 8 => 0xbe01 case 9 => 0x7ec0 case 10 => 0x7f80 case 11 => 0xbf41
    case 12 => 0x7d00 case 13 => 0xbdc1 case 14 => 0xbc81 case _ => 0x7c40
  }

  function RowB(j: bv8): bv16 {
    match j
    case 0 => 0xb401 case 1 => 0x74c0 case 2 => 0x7580 case 3 => 0xb541
    case 4 => 0x7700 case 5 => 0xb7c1 case 6 => 0xb681 case 7 => 0x7640
    case 8 => 0x7200 case 9 => 0xb2c1 case 10 => 0xb381 case 11 => 0x7340
    case 12 => 0xb101 case 13 => 0x71c0 case 14 => 0x7080 case _ => 0xb041
  }

  function RowC(j: bv8): bv16 {
    match j
    case 0 => 0x5000 case 1 => 0x90c1 case 2 => 0x9181 case 3 => 0x5140
    case 4 => 0x9301 case 5 => 0x53c0 case 6 => 0x5280 case 7 => 0x9241
    case 8 => 0x9601 case 9 => 0x56c0 case 10 => 0x5780 case 11 => 0x9741
    case 12 => 0x5500 case 13 => 0x95c1 case 14 => 0x9481 case _ => 0x5440
  }

  function RowD(j: bv8): bv16 {
    match j
    case 0 => 0x9c01 case 1 => 0x5cc0 case 2 => 0x5d80 case 3 => 0x9d41
    case 4 => 0x5f00 case 5 => 0x9fc1 case 6 => 0x9e81 case 7 => 0x5e40
    case 8 => 0x5a00 case 9 => 0x9ac1 case 10 => 0x9b81 case 11 => 0x5b40
    case 12 => 0x9901 case 13 => 0x59c0 case 14 => 0x5880 case _ => 0x9841
  }

  function RowE(j: bv8): bv16 {
    match j
    case 0 => 0x8801 case 1 => 0x48c0 case 2 => 0x4980 case 3 => 0x8941
    case 4 => 0x4b00 case 5 => 0x8bc1 case 6 => 0x8a81 case 7 => 0x4a40
    case 8 => 0x4e00 case 9 => 0x8ec1 case 10 => 0x8f81 case 11 => 0x4f40
    case 12 => 0x8d01 case 13 => 0x4dc0 case 14 => 0x4c80 case _ => 0x8c41
  }

  function RowF(j: bv8): bv16 {
    match j
    case 0 => 0x4400 case 1 => 0x84c1 case 2 => 0x8581 case 3 => 0x4540
    case 4 => 0x8701 case 5 => 0x47c0 case 6 => 0x4680 case 7 => 0x8641
    case 8 => 0x8201 case 9 => 0x42c0 case 10 => 0x4380 case 11 => 0x8341
    case 12 => 0x4100 case 13 => 0x81c1 case 14 => 0x8081 case _ => 0x4040
  }

  /** The entry at index i: row i / 16, column i % 16. */
  function Table(i: bv8): bv16 {
    var j := i & 15;
    match i >> 4
    case 0 => Row0(j)
    case 1 => Row1(j)
    case 2 => Row2(j)
    case 3 => Row3(j)
    case 4 => Row4(j)
    case 5 => Row5(j)
    case 6 => Row6(j)
    case 7 => Row7(j)
    case 8 => Row8(j)
    case 9 => Row9(j)
    case 10 => RowA(j)
    case 11 => RowB(j)
    case 12 => RowC(j)
    case 13 => RowD(j)
    case 14 => RowE(j)
    case _ => RowF(j)
  }

  /** Parity of the low byte of a word. */
  function Parity8(i: bv16): bv16 {
    var a := i ^ (i >> 4);
    var b := a ^ (a >> 2);
    (b ^ (b >> 1)) & 1
  }

  /** A closed form of eight steps, for registers that hold a single byte. */
  function ClosedForm(i: bv16): bv16 {
    (i << 6) ^ (i << 7) ^ (-Parity8(i) & 0xC001)
  }

  lemma ClosedFormCorrect(i: bv16)
    requires i < 256
    ensures ClosedForm(i) == Steps(i, 8)
  {
  }

  lemma Rows0(j: bv8)
    requires j < 16
    ensures Row0(j) == ClosedForm(0 + (j as bv16)) && Row1(j) == ClosedForm(16 + (j as bv16))
    ensures Row2(j) == ClosedForm(32 + (j as bv16)) && Row3(j) == ClosedForm(48 + (j as bv16))
  {
  }

  lemma Rows1(j: bv8)
    requires j < 16
    ensures Row4(j) == ClosedForm(64 + (j as bv16)) && Row5(j) == ClosedForm(80 + (j as bv16))
    ensures Row6(j) == ClosedForm(96 + (j as bv16)) && Row7(j) == ClosedForm(112 + (j as bv16))
  {
  }

  lemma Rows2(j: bv8)
    requires j < 16
    ensures Row8(j) == ClosedForm(128 + (j as bv16)) && Row9(j) == ClosedForm(144 + (j as bv16))
    ensures RowA(j) == ClosedForm(160 + (j as bv16)) && RowB(j) == ClosedForm(176 + (j as bv16))
  {
  }

  lemma Rows3(j: bv8)
    requires j < 16
    ensures RowC(j) == ClosedForm(192 + (j as bv16)) && RowD(j) == ClosedForm(208 + (j as bv16))
    ensures RowE(j) == ClosedForm(224 + (j as bv16)) && RowF(j) == ClosedForm(240 + (j as bv16))
  {
  }

  /** Every one of the 256 table entries is eight division steps of its index. */
  lemma TableCorrect(i: bv8)
    ensures Table(i) == Steps(i as bv16, 8)
  {
    var j := i & 15;
    Rows0(j); Rows1(j); Rows2(j); Rows3(j);
    ClosedFormCorrect(i as bv16);
  }

  // ---- The loop

  method LookUp(i: bv8) returns (entry: bv16)
    ensures entry == Steps(i as bv16, 8)
  {
    TableCorrect(i);
    entry := Table(i);
  }

  /** One table look-up advances the register by one byte. */
  method Update(crc: bv16, b: byte) returns (r: bv16)
    ensures r == ByteStep(crc, b)
  {
    var entry := LookUp(((crc ^ Bv(b)) & 0xff) as bv8);
    r := entry ^ (crc >> 8);
  }

  /** The loop over data[start..start + size]. */
  method Crc16Ansi(crc0: bv16, data: array<byte>, start: nat, size: nat) returns (crc: bv16)
    requires start + size <= data.Length
    ensures crc == Crc(crc0, data[start..start + size])
  {
    crc := crc0;
    var d, n := start, size;
    while n > 0
      invariant d + n == start + size
      invariant Crc(crc0, data[start..start + size]) == Crc(crc, data[d..start + size])
    {
      assert data[d..start + size][1..] == data[d + 1..start + size];
      crc := Update(crc, data[d]);
      d, n := d + 1, n - 1;
    }
  }
}
