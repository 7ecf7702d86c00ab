/** The byte access functions of tf_bytes.c. Words are stored in big-endian order. */
module Bytes {

  newtype byte = x: int | 0 <= x < 256

  type u16 = x: nat | x < 0x1_0000
  type u32 = x: nat | x < 0x1_0000_0000
  type u64 = x: nat | x < 0x1_0000_0000_0000_0000

  /** The low byte of a number. */
  function Byte(n: nat): byte {
    (n % 256) as byte
  }

  // ---- Words as byte strings

  function Be16(v: u16): (r: seq<byte>)
    ensures |r| == 2
  {
    [Byte(v / 0x100), Byte(v)]
  }

  function Be32(v: u32): (r: seq<byte>)
    ensures |r| == 4
  {
    [Byte(v / 0x100_0000), Byte(v / 0x1_0000), Byte(v / 0x100), Byte(v)]
  }

  function Be64(v: u64): (r: seq<byte>)
    ensures |r| == 8
  {
    [Byte(v / 0x100_0000_0000_0000), Byte(v / 0x1_0000_0000_0000), Byte(v / 0x100_0000_0000), Byte(v / 0x1_0000_0000),
     Byte(v / 0x100_0000), Byte(v / 0x1_0000), Byte(v / 0x100), Byte(v)]
  }

  // ---- get_*

  function Get16(b: seq<byte>, i: nat): (v: u16)
    requires i + 2 <= |b|
  {
    b[i] as nat * 0x100 + b[i + 1] as nat
  }

  function Get24(b: seq<byte>, i: nat): (v: u32)
    requires i + 3 <= |b|
  {
    b[i] as nat * 0x1_0000 + b[i + 1] as nat * 0x100 + b[i + 2] as nat
  }

  function Get32(b: seq<byte>, i: nat): (v: u32)
    requires i + 4 <= |b|
  {
    b[i] as nat * 0x100_0000 + b[i + 1] as nat * 0x1_0000 + b[i + 2] as nat * 0x100 + b[i + 3] as nat
  }

  /** The eight bytes shifted in one after the other. */
  function Get64(b: seq<byte>, i: nat): (v: u64)
    requires i + 8 <= |b|
  {
    var r := b[i] as nat;
    var r := r * 0x100 + b[i + 1] as nat;
    var r := r * 0x100 + b[i + 2] as nat;
    var r := r * 0x100 + b[i + 3] as nat;
    var r := r * 0x100 + b[i + 4] as nat;
    var r := r * 0x100 + b[i + 5] as nat;
    var r := r * 0x100 + b[i + 6] as nat;
    r * 0x100 + b[i + 7] as nat
  }

  /** Reads a word that has not been byte swapped yet. */
  function Get16Raw(b: seq<byte>, i: nat): (v: u16)
    requires i + 2 <= |b|
  {
    b[i + 1] as nat * 0x100 + b[i] as nat
  }

  /** The number that bytes stand for, the first the most significant. */
  function Value(s: seq<byte>): nat {
    if s == [] then 0 else Value(s[..|s| - 1]) * 0x100 + s[|s| - 1] as nat
  }

  lemma ValueMore(b: seq<byte>, i: nat, n: nat)
    requires 0 < n && i + n <= |b|
    ensures Value(b[i..i + n]) == Value(b[i..i + n - 1]) * 0x100 + b[i + n - 1] as nat
  {
    assert b[i..i + n][..n - 1] == b[i..i + n - 1];
  }

  /** The words are the values of their bytes, read forwards and, in raw form, backwards. */
  lemma Get16Value(b: seq<byte>, i: nat)
    requires i + 2 <= |b|
    ensures Get16(b, i) == Value(b[i..i + 2]) && Get16Raw(b, i) == Value([b[i + 1], b[i]])
  {
    ValueMore(b, i, 1);
    ValueMore(b, i, 2);
    ValueMore([b[i + 1], b[i]], 0, 1);
  }

  lemma Get24Value(b: seq<byte>, i: nat)
    requires i + 3 <= |b|
    ensures Get24(b, i) == Value(b[i..i + 3])
  {
    Get16Value(b, i);
    ValueMore(b, i, 3);
  }

  lemma Get32Value(b: seq<byte>, i: nat)
    requires i + 4 <= |b|
    ensures Get32(b, i) == Value(b[i..i + 4])
  {
    Get24Value(b, i);
    ValueMore(b, i, 4);
  }

  lemma Get64Value(b: seq<byte>, i: nat)
    requires i + 8 <= |b|
    ensures Get64(b, i) == Value(b[i..i + 8])
  {
    Get32Value(b, i);
    ValueMore(b, i, 5);
    ValueMore(b, i, 6);
    ValueMore(b, i, 7);
    ValueMore(b, i, 8);
  }

  lemma Get16Be16(v: u16)
    ensures Get16(Be16(v), 0) == v
  {
  }

  /** Shifting by one more byte. */
  lemma ShiftByBytes(v: nat)
    ensures v / 0x1_0000 == v / 0x100 / 0x100
    ensures v / 0x100_0000 == v / 0x1_0000 / 0x100
    ensures v / 0x1_0000_0000 == v / 0x100_0000 / 0x100
    ensures v / 0x100_0000_0000 == v / 0x1_0000_0000 / 0x100
    ensures v / 0x1_0000_0000_0000 == v / 0x100_0000_0000 / 0x100
    ensures v / 0x100_0000_0000_0000 == v / 0x1_0000_0000_0000 / 0x100
  {
  }

  lemma Get32Be32(v: u32)
    ensures Get32(Be32(v), 0) == v
  {
    ShiftByBytes(v);
  }

  /** A number is the number without its low byte, followed by its low byte. */
  lemma LowByteLast(v: nat)
    ensures (v / 0x100) * 0x100 + Byte(v) as nat == v
  {
  }

  lemma Get64Be64(v: u64)
    ensures Get64(Be64(v), 0) == v
  {
    ShiftByBytes(v);
    LowByteLast(v / 0x1_0000_0000_0000);
    LowByteLast(v / 0x100_0000_0000);
    LowByteLast(v / 0x1_0000_0000);
    LowByteLast(v / 0x100_0000);
    LowByteLast(v / 0x1_0000);
    LowByteLast(v / 0x100);
    LowByteLast(v);
    assert v / 0x100_0000_0000_0000 == Byte(v / 0x100_0000_0000_0000) as nat;
  }

  lemma Be16Get16(b: seq<byte>, i: nat)
    requires i + 2 <= |b|
    ensures Be16(Get16(b, i)) == b[i..i + 2]
  {
  }

  lemma AppendLowByte(v: nat, b: byte)
    ensures Byte(v * 0x100 + b as nat) == b && (v * 0x100 + b as nat) / 0x100 == v
  {
  }

  lemma Be32Get32(b: seq<byte>, i: nat)
    requires i + 4 <= |b|
    ensures Be32(Get32(b, i)) == b[i..i + 4]
  {
    var v0 := b[i] as nat;
    var v1 := v0 * 0x100 + b[i + 1] as nat;
    var v2 := v1 * 0x100 + b[i + 2] as nat;
    AppendLowByte(0, b[i]);
    AppendLowByte(v0, b[i + 1]);
    AppendLowByte(v1, b[i + 2]);
    AppendLowByte(v2, b[i + 3]);
    ShiftByBytes(Get32(b, i));
  }

  lemma Be64Get64(b: seq<byte>)
    requires |b| == 8
    ensures Be64(Get64(b, 0)) == b
  {
    var v0 := b[0] as nat;
    var v1 := v0 * 0x100 + b[1] as nat;
    var v2 := v1 * 0x100 + b[2] as nat;
    var v3 := v2 * 0x100 + b[3] as nat;
    var v4 := v3 * 0x100 + b[4] as nat;
    var v5 := v4 * 0x100 + b[5] as nat;
    var v6 := v5 * 0x100 + b[6] as nat;
    AppendLowByte(0, b[0]);
    AppendLowByte(v0, b[1]);
    AppendLowByte(v1, b[2]);
    AppendLowByte(v2, b[3]);
    AppendLowByte(v3, b[4]);
    AppendLowByte(v4, b[5]);
    AppendLowByte(v5, b[6]);
    AppendLowByte(v6, b[7]);
    ShiftByBytes(Get64(b, 0));
  }

  // ---- put_*, in place

  /** s with v written over it at position i. */
  function Splice(s: seq<byte>, i: nat, v: seq<byte>): (r: seq<byte>)
    requires i + |v| <= |s|
    ensures |r| == |s|
  {
    s[..i] + v + s[i + |v|..]
  }

  method Put16(b: array<byte>, i: nat, v: u16)
    requires i + 2 <= b.Length
    modifies b
    ensures b[..] == Splice(old(b[..]), i, Be16(v))
  {
    b[i] := Byte(v / 0x100);
    b[i + 1] := Byte(v);
  }

  method Put32(b: array<byte>, i: nat, v: u32)
    requires i + 4 <= b.Length
    modifies b
    ensures b[..] == Splice(old(b[..]), i, Be32(v))
  {
    b[i] := Byte(v / 0x100_0000);
    b[i + 1] := Byte(v / 0x1_0000);
    b[i + 2] := Byte(v / 0x100);
    b[i + 3] := Byte(v);
  }

  method Put64(b: array<byte>, i: nat, v: u64)
    requires i + 8 <= b.Length
    modifies b
    ensures b[..] == Splice(old(b[..]), i, Be64(v))
  {
    b[i] := Byte(v / 0x100_0000_0000_0000);
    b[i + 1] := Byte(v / 0x1_0000_0000_0000);
    b[i + 2] := Byte(v / 0x100_0000_0000);
    b[i + 3] := Byte(v / 0x1_0000_0000);
    b[i + 4] := Byte(v / 0x100_0000);
    b[i + 5] := Byte(v / 0x1_0000);
    b[i + 6] := Byte(v / 0x100);
    b[i + 7] := Byte(v);
  }

  // ---- byte_swap

  /** Bytes 0 and 1 exchanged, bytes 2 and 3, and so on. */
  function Swap(s: seq<byte>): (r: seq<byte>)
    requires |s| % 2 == 0
    ensures |r| == |s|
  {
    seq(|s|, i requires 0 <= i < |s| => if i % 2 == 0 then s[i + 1] else s[i - 1])
  }

  lemma SwapTwice(s: seq<byte>)
    requires |s| % 2 == 0
    ensures Swap(Swap(s)) == s
  {
  }

  lemma SwapAppend(s: seq<byte>, t: seq<byte>)
    requires |s| % 2 == 0 && |t| % 2 == 0
    ensures Swap(s + t) == Swap(s) + Swap(t)
  {
  }

  lemma SwapParts(s: seq<byte>, t: seq<byte>, u: seq<byte>)
    requires |s| % 2 == 0 && |t| % 2 == 0 && |u| % 2 == 0
    ensures Swap(s + t + u) == Swap(s) + Swap(t) + Swap(u)
  {
    SwapAppend(s + t, u);
    SwapAppend(s, t);
  }

  /** Replacing an aligned pair before or after the exchange. */
  lemma SwapSplice(s: seq<byte>, i: nat, p: byte, q: byte)
    requires |s| % 2 == 0 && i % 2 == 0 && i + 2 <= |s|
    ensures Swap(Splice(s, i, [p, q])) == Splice(Swap(s), i, [q, p])
  {
    SwapParts(s[..i], [p, q], s[i + 2..]);
    SwapParts(s[..i], s[i..i + 2], s[i + 2..]);
    assert s == s[..i] + s[i..i + 2] + s[i + 2..];
    assert Swap([p, q]) == [q, p];
  }

  lemma SplicePrefix(s: seq<byte>, t: seq<byte>, i: nat, v: seq<byte>)
    requires i + |v| <= |s|
    ensures Splice(s + t, i, v) == Splice(s, i, v) + t
  {
  }

  lemma Get16RawSwap(s: seq<byte>)
    requires |s| % 2 == 0 && |s| >= 2
    ensures Get16Raw(Swap(s), 0) == Get16(s, 0)
  {
  }

  method ByteSwap(b: array<byte>, count: nat)
    requires count % 2 == 0 && count <= b.Length
    modifies b
    ensures b[..] == Splice(old(b[..]), 0, Swap(old(b[..count])))
  {
    var i := 0;
    while i < count
      invariant i % 2 == 0 && i <= count
      invariant forall k :: 0 <= k < i ==> b[k] == Swap(old(b[..count]))[k]
      invariant forall k :: i <= k < b.Length ==> b[k] == old(b[k])
    {
      b[i], b[i + 1] := b[i + 1], b[i];
      i := i + 2;
    }
  }
}
