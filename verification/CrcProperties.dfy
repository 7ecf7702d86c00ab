/** What the CRC of crc16.c detects, for messages of any length. */
module CrcProperties {
  import opened Bytes
  import opened Folds
  import opened Crc16

  // ---- Byte form and bit form agree

  /** w has no bits above its n low ones. */
  predicate Fits(w: bv16, n: nat)
    decreases n
  {
    if n == 0 then w == 0 else Fits(w >> 1, n - 1)
  }

  lemma FeedWord(c: bv16, w: bv16)
    ensures BitStep(c ^ w) == Feed(c, w & 1 == 1) ^ (w >> 1)
  {
  }

  /** Feeding the bits of a word one by one is adding the whole word, then stepping. */
  lemma {:induction false} FeedBits(c: bv16, w: bv16, n: nat)
    requires Fits(w, n)
    ensures Fold(Feed, c, LowBits(w, n)) == Steps(c ^ w, n)
    decreases n
  {
    if n > 0 {
      FeedWord(c, w);
      FeedBits(Feed(c, w & 1 == 1), w >> 1, n - 1);
    }
  }

  lemma SmallFits(w: bv16)
    requires w < 256
    ensures Fits(w, 8)
  {
  }

  lemma FeedByte(c: bv16, b: byte)
    ensures Fold(Feed, c, ByteBits(b)) == ByteStep(c, b)
  {
    SmallFits(Bv(b));
    FeedBits(c, Bv(b), 8);
  }

  /** crc16_ansi is bit-serial division by the reflected polynomial, for every register and message. */
  lemma CrcIsBitSerial(c: bv16, data: seq<byte>)
    ensures Crc(c, data) == CrcBits(c, Bits(data))
  {
    forall a, x ensures Fold(Feed, a, ByteBits(x)) == ByteStep(a, x) {
      FeedByte(a, x);
    }
    FoldRefines(Feed, ByteStep, ByteBits, c, data);
  }

  /** The CRC of a message can be computed in pieces. */
  lemma CrcComposes(c: bv16, x: seq<byte>, y: seq<byte>)
    ensures Crc(c, x + y) == Crc(Crc(c, x), y)
  {
    FoldAppend(ByteStep, c, x, y);
  }

  // ---- Linearity

  function Xor(c: bv16, d: bv16): bv16 {
    c ^ d
  }

  lemma FeedLinear(c: bv16, d: bv16, x: bool, y: bool)
    ensures Feed(c ^ d, x != y) == Feed(c, x) ^ Feed(d, y)
  {
  }

  /** The CRC is linear over exclusive or, in register and message together. */
  lemma CrcLinear(c: bv16, d: bv16, x: seq<bool>, y: seq<bool>)
    requires |x| == |y|
    ensures CrcBits(c ^ d, XorBits(x, y)) == CrcBits(c, x) ^ CrcBits(d, y)
  {
    forall a, b, p, q ensures Feed(Xor(a, b), p != q) == Xor(Feed(a, p), Feed(b, q)) {
      FeedLinear(a, b, p, q);
    }
    FoldLinear(Feed, Xor, c, d, x, y);
  }

  // ---- Burst detection

  lemma FitsMore(w: bv16, n: nat)
    requires Fits(w, n)
    ensures Fits(w, n + 1)
    decreases n
  {
    if n > 0 {
      FitsMore(w >> 1, n - 1);
    }
  }

  lemma Fits15(w: bv16)
    requires Fits(w, 15)
    ensures w < 0x8000
  {
    assert Fits(w >> 1 >> 1 >> 1 >> 1 >> 1, 10);
    assert Fits(w >> 10, 5);
    assert w >> 15 == 0;
  }

  lemma FitsUpTo(w: bv16, n: nat, m: nat)
    requires n <= m && Fits(w, n)
    ensures Fits(w, m)
    decreases m - n
  {
    if n < m {
      FitsMore(w, n);
      FitsUpTo(w, n + 1, m);
    }
  }

  lemma FitsBound(w: bv16, n: nat)
    requires n <= 15 && Fits(w, n)
    ensures w < 0x8000
  {
    FitsUpTo(w, n, 15);
    Fits15(w);
  }

  /** A step whose result has a clear top bit subtracted nothing. */
  lemma StepBack(d: bv16, e: bool)
    requires Feed(d, e) < 0x8000
    ensures Feed(d, e) == d >> 1 && (d == 0 ==> !e)
  {
  }

  /** The registers differ only in their n low bits. */
  predicate Near(n: nat, a: bv16, b: bv16) {
    Fits(a ^ b, n)
  }

  lemma DifferenceStep(n: nat, d: bv16, e: bool)
    requires n < 16 && Fits(Feed(d, e), n)
    ensures Fits(d, n + 1) && (d == 0 ==> !e)
  {
    FitsBound(Feed(d, e), n);
    StepBack(d, e);
  }

  lemma NearStep(n: nat, a: bv16, b: bv16, p: bool, q: bool)
    requires n < 16 && Near(n, Feed(a, p), Feed(b, q))
    ensures Near(n + 1, a, b) && (a == b ==> p == q)
  {
    FeedLinear(a, b, p, q);
    DifferenceStep(n, a ^ b, p != q);
  }

  lemma FeedInjective(a: bv16, b: bv16, p: bool)
    requires Feed(a, p) == Feed(b, p)
    ensures a == b
  {
  }

  /** The two messages differ, and only among the 16 bits from position i. */
  ghost predicate Burst(x: seq<bool>, y: seq<bool>, i: nat) {
    && |x| == |y| && x != y
    && forall j :: 0 <= j < |x| && !(i <= j < i + 16) ==> x[j] == y[j]
  }

  /** At most 16 bits that differ, from any register, followed by equal bits: the results differ. */
  lemma WindowDetected(c: bv16, u: seq<bool>, v: seq<bool>, rest: seq<bool>)
    requires |u| == |v| <= 16 && u != v
    ensures CrcBits(CrcBits(c, u), rest) != CrcBits(CrcBits(c, v), rest)
  {
    if CrcBits(CrcBits(c, u), rest) == CrcBits(CrcBits(c, v), rest) {
      forall a, b, p | Feed(a, p) == Feed(b, p) ensures a == b {
        FeedInjective(a, b, p);
      }
      FoldInjective(Feed, CrcBits(c, u), CrcBits(c, v), rest);
      forall a ensures Near(0, a, a) {
        assert a ^ a == 0;
      }
      forall n: nat, a, b, p, q | n < 16 && Near(n, Feed(a, p), Feed(b, q))
        ensures Near(n + 1, a, b) && (a == b ==> p == q)
      {
        NearStep(n, a, b, p, q);
      }
      FoldMeet(Feed, Near, 16, c, c, u, v);
    }
  }

  /** Messages of any length that differ in a burst of at most 16 bits have different CRCs. */
  lemma BurstDetected(c: bv16, x: seq<bool>, y: seq<bool>, i: nat)
    requires Burst(x, y, i)
    ensures CrcBits(c, x) != CrcBits(c, y)
  {
    var j :| 0 <= j < |x| && x[j] != y[j];
    var k := if i + 16 <= |x| then i + 16 else |x|;
    assert x[..i] == y[..i] && x[k..] == y[k..];
    assert x[i..k][j - i] != y[i..k][j - i];
    FoldSplit(Feed, c, x, i, k);
    FoldSplit(Feed, c, y, i, k);
    WindowDetected(CrcBits(c, x[..i]), x[i..k], y[i..k], x[k..]);
  }

  lemma NextBv(v: bv8)
    requires v < 255
    ensures (v + 1) as byte == v as byte + 1
  {
  }

  /** Every byte is the number of a bit vector. */
  lemma {:induction false} BvOnto(b: byte) returns (v: bv8)
    ensures v as byte == b
  {
    v := 0;
    if b > 0 {
      var w := BvOnto(b - 1);
      assert (255 as bv8) as byte == 255;
      NextBv(w);
      v := w + 1;
    }
  }

  lemma BvOfNumber(v: bv8)
    ensures (v as byte) as bv8 == v
  {
  }

  lemma BvNumber(b: byte)
    ensures (b as bv8) as byte == b
  {
    var v := BvOnto(b);
    BvOfNumber(v);
  }

  lemma LowBitsInjective(v: bv8, w: bv8)
    requires LowBits(v as bv16, 8) == LowBits(w as bv16, 8)
    ensures v == w
  {
    var u, t := LowBits(v as bv16, 8), LowBits(w as bv16, 8);
    assert u[0] == t[0] && u[1] == t[1] && u[2] == t[2] && u[3] == t[3];
    assert u[4] == t[4] && u[5] == t[5] && u[6] == t[6] && u[7] == t[7];
  }

  lemma ByteBitsInjective(a: byte, b: byte)
    requires ByteBits(a) == ByteBits(b)
    ensures a == b
  {
    LowBitsInjective(a as bv8, b as bv8);
    BvNumber(a);
    BvNumber(b);
  }

  lemma {:induction false} BitsLength(x: seq<byte>)
    ensures |Bits(x)| == 8 * |x|
  {
    if x != [] {
      BitsLength(x[1..]);
    }
  }

  lemma {:induction false} BitsInjective(x: seq<byte>, y: seq<byte>)
    requires |x| == |y| && Bits(x) == Bits(y)
    ensures x == y
    decreases |x|
  {
    if x != [] {
      var u, v := Bits(x), Bits(y);
      assert u[..8] == ByteBits(x[0]) && v[..8] == ByteBits(y[0]);
      assert u[8..] == Bits(x[1..]) && v[8..] == Bits(y[1..]);
      ByteBitsInjective(x[0], y[0]);
      BitsInjective(x[1..], y[1..]);
      assert x == [x[0]] + x[1..] && y == [y[0]] + y[1..];
    }
  }

  /** The same for byte strings; bits are counted low bit first within each byte. */
  lemma ByteBurstDetected(c: bv16, x: seq<byte>, y: seq<byte>, i: nat)
    requires |x| == |y| && x != y
    requires Bits(x) != Bits(y) ==> Burst(Bits(x), Bits(y), i)
    ensures Crc(c, x) != Crc(c, y)
  {
    if Bits(x) == Bits(y) {
      BitsInjective(x, y);
    }
    CrcIsBitSerial(c, x);
    CrcIsBitSerial(c, y);
    BurstDetected(c, Bits(x), Bits(y), i);
  }

  /** Up to two adjacent bytes replaced anywhere in a message. */
  lemma TwoBytesDetected(c: bv16, u: seq<byte>, p: seq<byte>, q: seq<byte>, v: seq<byte>)
    requires |p| == |q| <= 2 && p != q
    ensures Crc(c, u + p + v) != Crc(c, u + q + v)
  {
    var r := Crc(c, u);
    FoldAppend(ByteStep, c, u + p, v);
    FoldAppend(ByteStep, c, u + q, v);
    FoldAppend(ByteStep, c, u, p);
    FoldAppend(ByteStep, c, u, q);
    CrcIsBitSerial(r, p);
    CrcIsBitSerial(r, q);
    CrcIsBitSerial(Crc(r, p), v);
    CrcIsBitSerial(Crc(r, q), v);
    BitsLength(p);
    BitsLength(q);
    if Bits(p) == Bits(q) {
      BitsInjective(p, q);
    }
    WindowDetected(r, Bits(p), Bits(q), Bits(v));
  }

  // ---- Parity

  function Shr(w: bv16): bv16 {
    w >> 1
  }

  predicate Low(w: bv16) {
    w & 1 == 1
  }

  /** Parity of the register: true when odd. */
  function WordParity(w: bv16): bool {
    LowParity(Shr, Low, w, 16)
  }

  lemma {:induction false} LowParityIsParity(w: bv16, n: nat)
    ensures LowParity(Shr, Low, w, n) == Parity(LowBits(w, n))
    decreases n
  {
    if n > 0 {
      LowParityIsParity(w >> 1, n - 1);
      assert LowBits(w, n)[1..] == LowBits(w >> 1, n - 1);
    }
  }

  function Shifted(w: bv16, m: nat): bv16
    decreases m
  {
    if m == 0 then w else Shifted(w >> 1, m - 1)
  }

  lemma {:induction false} LowBitsSplit(w: bv16, m: nat, n: nat)
    ensures LowBits(w, m + n) == LowBits(w, m) + LowBits(Shifted(w, m), n)
    decreases m
  {
    if m > 0 {
      LowBitsSplit(w >> 1, m - 1, n);
    }
  }

  lemma LowBitsOfByte(w: bv16)
    ensures LowBits(w & 0xff, 8) == LowBits(w, 8)
    ensures Shifted(w, 8) == w >> 8
  {
  }

  lemma BitsOfTwo(h: byte, l: byte)
    ensures Bits([h, l]) == ByteBits(h) + ByteBits(l)
  {
    assert [h, l][1..] == [l] && [l][1..] == [];
    assert Bits([l]) == ByteBits(l) + Bits([l][1..]);
  }

  lemma ZeroParity(n: nat)
    ensures !LowParity(Shr, Low, 0, n)
    decreases n
  {
    if n > 0 {
      assert Shr(0) == 0;
      ZeroParity(n - 1);
    }
  }

  lemma BvOfByte(b: byte, v: bv8)
    requires b == v as byte
    ensures Bv(b) == v as bv16
  {
    BvOfNumber(v);
  }

  lemma HighByteBits(c: bv16)
    ensures Bv(HighByte(c)) == c >> 8
  {
    BvOfByte(HighByte(c), (c >> 8) as bv8);
  }

  lemma LowByteBits(c: bv16)
    ensures Bv(LowByte(c)) == c & 0xff
  {
    BvOfByte(LowByte(c), (c & 0xff) as bv8);
  }

  lemma Be16OfBytes(h: byte, l: byte)
    ensures Be16(h as nat * 0x100 + l as nat) == [h, l]
  {
    AppendLowByte(h as nat, l);
  }

  lemma NumberBytes(c: bv16)
    ensures Be16(Number(c)) == [HighByte(c), LowByte(c)]
  {
    Be16OfBytes(HighByte(c), LowByte(c));
  }

  /** A register is determined by its number. */
  lemma NumberInjective(a: bv16, b: bv16)
    requires Number(a) == Number(b)
    ensures a == b
  {
    NumberBytes(a);
    NumberBytes(b);
    assert HighByte(a) == Be16(Number(a))[0] == HighByte(b);
    assert LowByte(a) == Be16(Number(a))[1] == LowByte(b);
    HighByteBits(a);
    HighByteBits(b);
    LowByteBits(a);
    LowByteBits(b);
    assert a == ((a >> 8) << 8) ^ (a & 0xff) && b == ((b >> 8) << 8) ^ (b & 0xff);
  }

  /** The two bytes of a stored CRC have the parity of the register. */
  lemma StoredParity(w: bv16)
    ensures Parity(Bits(Be16(Number(w)))) == WordParity(w)
  {
    NumberBytes(w);
    HighByteBits(w);
    LowByteBits(w);
    LowParityIsParity(w, 16);
    LowBitsSplit(w, 8, 8);
    LowBitsOfByte(w);
    ParityAppend(LowBits(w, 8), LowBits(w >> 8, 8));
    BitsOfTwo(HighByte(w), LowByte(w));
    ParityAppend(ByteBits(HighByte(w)), ByteBits(LowByte(w)));
  }

  lemma ShrXor(v: bv16, w: bv16)
    ensures Shr(Xor(v, w)) == Xor(Shr(v), Shr(w))
  {
    assert (v ^ w) >> 1 == (v >> 1) ^ (w >> 1);
  }

  lemma LowXor(v: bv16, w: bv16)
    ensures Low(Xor(v, w)) == (Low(v) != Low(w))
  {
    assert ((v ^ w) & 1 == 1) == ((v & 1 == 1) != (w & 1 == 1));
  }

  lemma Fits15Shifted(w: bv16)
    ensures Fits(w >> 1, 15)
  {
    assert Fits(w >> 11, 5);
    assert Fits(w >> 6, 10);
  }

  lemma Masked(b: bv16)
    requires b == 0 || b == 1
    ensures -b & POLY == if b == 1 then POLY else 0
  {
  }

  lemma LowIsBit(c: bv16)
    ensures c & 1 == 0 || c & 1 == 1
  {
  }

  lemma XorNone(w: bv16)
    ensures w ^ 0 == w
  {
  }

  lemma StepByShift(c: bv16)
    ensures BitStep(c) == if Low(c) then Xor(Shr(c), POLY) else Shr(c)
  {
    LowIsBit(c);
    Masked(c & 1);
    XorNone(c >> 1);
  }

  lemma PolyParity()
    ensures WordParity(POLY)
  {
    assert LowParity(Shr, Low, 0xA, 4) == false;
  }

  lemma FitsFacts(c: bv16)
    ensures forall a :: Fits(a, 0) ==> !Low(a)
    ensures forall a, k: nat :: Fits(a, k + 1) ==> Fits(Shr(a), k)
    ensures Fits(Shr(c), 15)
  {
    Fits15Shifted(c);
  }

  /** The polynomial has three terms below x^16, so a step keeps the parity of what it consumes. */
  lemma StepParity(c: bv16)
    ensures WordParity(BitStep(c)) == WordParity(c)
  {
    StepByShift(c);
    PolyParity();
    FitsFacts(c);
    forall a, b ensures Shr(Xor(a, b)) == Xor(Shr(a), Shr(b)) {
      ShrXor(a, b);
    }
    forall a, b ensures Low(Xor(a, b)) == (Low(a) != Low(b)) {
      LowXor(a, b);
    }
    DivisionStepParity(Shr, Low, Xor, Fits, c, POLY, 15);
  }

  lemma FeedParity(c: bv16, bit: bool)
    ensures WordParity(Feed(c, bit)) == (WordParity(c) != bit)
  {
    StepParity(if bit then c ^ 1 else c);
    assert Shr(c ^ 1) == Shr(c);
  }

  /** The parity of a CRC is the parity of what went into it. */
  lemma CrcParity(c: bv16, data: seq<byte>)
    ensures WordParity(Crc(c, data)) == (WordParity(c) != Parity(Bits(data)))
  {
    CrcIsBitSerial(c, data);
    forall a, p ensures WordParity(Feed(a, p)) == (WordParity(a) != p) {
      FeedParity(a, p);
    }
    FoldParity(Feed, WordParity, c, Bits(data));
  }
}
