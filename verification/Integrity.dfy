/** What damage to a frame on the bus tf_get_response can and cannot miss. */
module Integrity {
  import opened Bytes
  import opened Folds
  import opened Crc16
  import opened CrcProperties
  import opened Frames

  lemma ChecksumTwoBytes(u: seq<byte>, p: seq<byte>, q: seq<byte>, v: seq<byte>)
    requires |p| == |q| <= 2 && p != q
    ensures Checksum(u + p + v) != Checksum(u + q + v)
  {
    TwoBytesDetected(0, u, p, q, v);
    if Checksum(u + p + v) == Checksum(u + q + v) {
      NumberInjective(Crc(0, u + p + v), Crc(0, u + q + v));
    }
  }

  // ---- One damaged word

  /** The frame as it stands in memory before it is swapped: image and pad byte. */
  function Memory(f: Frame): (r: seq<byte>)
    requires Sendable(f)
    ensures |r| == Length(f) + Length(f) % 2
  {
    Image(f) + Pad(Length(f))
  }

  /** s is the memory of f except perhaps for the word at i. */
  ghost predicate WordDamaged(f: Frame, s: seq<byte>, i: nat)
    requires Sendable(f)
  {
    && 2 <= i && i % 2 == 0 && i + 2 <= |s| == |Memory(f)|
    && s[..i] == Memory(f)[..i] && s[i + 2..] == Memory(f)[i + 2..]
  }

  lemma ChecksumField(f: Frame)
    requires Sendable(f)
    ensures Get16(Memory(f), 2) == Checksum(Body(f))
    ensures Memory(f)[4..Length(f)] == Body(f)
  {
    ImageParts(f);
    assert Memory(f)[2..4] == Image(f)[2..4];
    assert Memory(f)[4..Length(f)] == Image(f)[4..];
    assert Memory(f)[2] == Memory(f)[2..4][0] && Memory(f)[3] == Memory(f)[2..4][1];
    Get16Be16(Checksum(Body(f)));
  }

  /** Damage in the CRC field itself. */
  lemma DamagedChecksum(f: Frame, s: seq<byte>)
    requires Sendable(f) && WordDamaged(f, s, 2) && s != Memory(f)
    ensures Get16(s, 2) != Checksum(s[4..Length(f)])
  {
    ChecksumField(f);
    var m, n := Memory(f), Length(f);
    assert s[4..n] == s[4..][..n - 4] == m[4..][..n - 4] == m[4..n];
    Be16Get16(s, 2);
    Be16Get16(m, 2);
    assert s == s[..2] + s[2..4] + s[4..] && m == m[..2] + m[2..4] + m[4..];
  }

  /** Around a damaged word at i, everything up to n agrees. */
  lemma DamagedParts(m: seq<byte>, s: seq<byte>, n: nat, i: nat, k: nat)
    requires |s| == |m| && 4 <= i <= k <= n <= |m| && k <= i + 2 && (k < i + 2 ==> k == n)
    requires s[..i] == m[..i] && (i + 2 <= |m| ==> s[i + 2..] == m[i + 2..])
    ensures s[4..n] == m[4..i] + s[i..k] + m[k..n] && m[4..n] == m[4..i] + m[i..k] + m[k..n]
    ensures s[i..k] == m[i..k] ==> s[..n] == m[..n]
    ensures Get16(s, 2) == Get16(m, 2)
  {
    assert s[4..i] == s[..i][4..] == m[..i][4..] == m[4..i];
    if k < n {
      assert s[k..n] == s[i + 2..][..n - k] == m[i + 2..][..n - k] == m[k..n];
    }
    assert s[4..n] == s[4..i] + s[i..k] + s[k..n];
    assert s[..n] == s[..i] + s[i..k] + s[k..n] && m[..n] == m[..i] + m[i..k] + m[k..n];
    assert s[..i][2] == m[..i][2] && s[..i][3] == m[..i][3];
  }

  /** Damage in the bytes the CRC covers. */
  lemma DamagedBody(f: Frame, s: seq<byte>, i: nat)
    requires Sendable(f) && WordDamaged(f, s, i) && i >= 4 && s[..Length(f)] != Image(f)
    ensures Get16(s, 2) != Checksum(s[4..Length(f)])
  {
    ChecksumField(f);
    var m, n := Memory(f), Length(f);
    var k := if i + 2 <= n then i + 2 else n;
    assert m[..n] == Image(f);
    DamagedParts(m, s, n, i, k);
    ChecksumTwoBytes(m[4..i], s[i..k], m[i..k], m[k..n]);
  }

  /** A transfer whose memory has one damaged word is taken for f exactly when the damage missed the image. */
  lemma DecodeDamaged(f: Frame, r: seq<byte>, i: nat)
    requires Sendable(f) && Complete(r) && Declared(r) == Length(f)
    requires WordDamaged(f, Restored(r), i)
    ensures Decode(r, false) == Received(f) || Decode(r, false).BadCrc?
    ensures Decode(r, false) == Received(f) <==> Restored(r)[..Length(f)] == Image(f)
  {
    var s, n := Restored(r), Length(f);
    if s[..n] == Image(f) {
      DecodeImage(f, r, false);
    } else if i == 2 {
      assert Memory(f)[..n] == Image(f);
      DamagedChecksum(f, s);
    } else {
      DamagedBody(f, s, i);
    }
  }

  // ---- On the bus

  /** The exchange of one wire word shows in memory as that word exchanged. */
  lemma RestoredDamage(f: Frame, tail: seq<byte>, i: nat, p: seq<byte>)
    requires Sendable(f) && |p| == 2 && 2 <= i && i % 2 == 0 && i + 2 <= |Wire(f)|
    ensures var r := Splice(Wire(f) + tail, i, p);
      && Complete(r) && Declared(r) == Length(f)
      && Restored(r) == Splice(Memory(f), i, [p[1], p[0]])
  {
    var w := Wire(f);
    SplicePrefix(w, tail, i, p);
    var r := Splice(w, i, p) + tail;
    WireHead(f, tail);
    assert r[0] == (w + tail)[0] && r[1] == (w + tail)[1];
    assert Filled(r, |w|) == Splice(w, i, p);
    assert p == [p[0], p[1]];
    SwapSplice(w, i, p[0], p[1]);
    SwapTwice(Memory(f));
  }

  /** Replacing the word at i by p touches no byte of the frame. */
  predicate Harmless(f: Frame, tail: seq<byte>, i: nat, p: seq<byte>)
    requires Sendable(f) && |p| == 2 && i + 2 <= |Wire(f) + tail|
  {
    || i >= |Wire(f)|
    || p == (Wire(f) + tail)[i..i + 2]
    || (i + 1 == Length(f) && p[1] == (Wire(f) + tail)[i + 1])
  }

  /** End to end: put any two bytes in the place of one aligned word of a transmitted frame, other
      than its length word. Either nothing but the pad byte or the bytes after the frame changed,
      and the same frame is received, or the reception reports a CRC error. */
  lemma DamagedWordRejected(f: Frame, tail: seq<byte>, i: nat, p: seq<byte>)
    requires Sendable(f) && |p| == 2
    requires 2 <= i && i % 2 == 0 && i + 2 <= |Wire(f) + tail|
    ensures var r := Splice(Wire(f) + tail, i, p);
      && Framed(r)
      && (Harmless(f, tail, i, p) ==> Decode(r, false) == Received(f))
      && (!Harmless(f, tail, i, p) ==> Decode(r, false).BadCrc?)
  {
    if i >= |Wire(f)| {
      assert Splice(Wire(f) + tail, i, p) == Wire(f) + Splice(tail, i - |Wire(f)|, p);
      RoundTrip(f, Splice(tail, i - |Wire(f)|, p), false);
    } else {
      RestoredDamage(f, tail, i, p);
      DecodeDamaged(f, Splice(Wire(f) + tail, i, p), i);
      HarmlessInMemory(f, tail, i, p);
    }
  }

  lemma HarmlessInMemory(f: Frame, tail: seq<byte>, i: nat, p: seq<byte>)
    requires Sendable(f) && |p| == 2
    requires 2 <= i && i % 2 == 0 && i + 2 <= |Wire(f)|
    ensures Harmless(f, tail, i, p) <==> Splice(Memory(f), i, [p[1], p[0]])[..Length(f)] == Image(f)
  {
    var w, m := Wire(f), Memory(f);
    assert w[i] == m[i + 1] && w[i + 1] == m[i];
    assert (w + tail)[i] == w[i] && (w + tail)[i + 1] == w[i + 1];
    assert (w + tail)[i..i + 2] == [w[i], w[i + 1]] && p == [p[0], p[1]];
    assert m[..Length(f)] == Image(f);
    SplicedPrefix(m, Length(f), i, p[1], p[0]);
  }

  lemma SplicedPrefix(m: seq<byte>, n: nat, i: nat, x: byte, y: byte)
    requires |m| == n + n % 2 && i % 2 == 0 && i + 2 <= |m|
    ensures Splice(m, i, [x, y])[..n] == m[..n] <==> x == m[i] && (i + 1 == n || y == m[i + 1])
  {
    var s := Splice(m, i, [x, y])[..n];
    assert s[i] == x && (i + 1 == n || s[i + 1] == y);
    assert m[..n][i] == m[i] && (i + 1 == n || m[..n][i + 1] == m[i + 1]);
    if x == m[i] && (i + 1 == n || y == m[i + 1]) {
      forall k | 0 <= k < n ensures s[k] == m[..n][k] {
      }
    }
  }

  /** A transfer cut short is never taken for another frame. It is reported as short, except when
      a frame of odd length loses exactly one byte: on the bus its last data byte follows the pad. */
  lemma Truncated(f: Frame, n: nat)
    requires Sendable(f) && n < |Wire(f)|
    ensures Framed(Wire(f)[..n])
    ensures n < Length(f) ==> Decode(Wire(f)[..n], false) == ShortRead
    ensures n == Length(f) ==> Decode(Wire(f)[..n], false) == Received(f) || Decode(Wire(f)[..n], false).BadCrc?
    ensures n == Length(f) ==> (Decode(Wire(f)[..n], false) == Received(f) <==> Image(f)[n - 1] == 0)
  {
    WireHead(f, []);
    assert Wire(f) + [] == Wire(f);
    if n == Length(f) {
      LastByteLost(f);
    }
  }

  lemma LastByteLost(f: Frame)
    requires Sendable(f) && Length(f) % 2 == 1
    ensures var r := Wire(f)[..Length(f)];
      && Complete(r) && Declared(r) == Length(f)
      && (Decode(r, false) == Received(f) || Decode(r, false).BadCrc?)
      && (Decode(r, false) == Received(f) <==> Image(f)[Length(f) - 1] == 0)
  {
    var n, w, m := Length(f), Wire(f), Memory(f);
    var r, p := w[..n], [w[n - 1], 0];
    WireHead(f, []);
    assert w + [] == w;
    RestoredDamage(f, [], n - 1, p);
    LastFilled(w, n);
    assert w[n - 1] == m[n] == 0;
    DecodeDamaged(f, r, n - 1);
    assert m[..n] == Image(f);
    SplicedPrefix(m, n, n - 1, 0, 0);
  }

  lemma LastFilled(w: seq<byte>, n: nat)
    requires |w| == n + 1 && n > 0
    ensures Filled(w[..n], n + 1) == Filled(Splice(w, n - 1, [w[n - 1], 0]), n + 1)
  {
  }

  // ---- Parity and bursts in memory order

  lemma ChecksumParity(data: seq<byte>)
    ensures Parity(Bits(Be16(Checksum(data)))) == Parity(Bits(data))
  {
    StoredParity(Crc(0, data));
    CrcParity(0, data);
    ZeroParity(16);
  }

  lemma BitsAppend(x: seq<byte>, y: seq<byte>)
    ensures Bits(x + y) == Bits(x) + Bits(y)
    decreases |x|
  {
    if x == [] {
      assert x + y == y;
    } else {
      assert (x + y)[1..] == x[1..] + y;
      BitsAppend(x[1..], y);
    }
  }

  /** Whatever is received without a CRC error has even parity over its CRC field and covered bytes. */
  lemma ReceivedParity(r: seq<byte>)
    requires Framed(r) && Decode(r, false).Received?
    ensures !Parity(Bits(Restored(r)[2..Declared(r)]))
  {
    var s, n := Restored(r), Declared(r);
    assert s[2..n] == s[2..4] + s[4..n];
    Be16Get16(s, 2);
    ChecksumParity(s[4..n]);
    BitsAppend(s[2..4], s[4..n]);
    ParityAppend(Bits(s[2..4]), Bits(s[4..n]));
  }

  /** Any odd number of flipped bits in the CRC field and the bytes it covers is reported. */
  lemma OddFlipsRejected(f: Frame, r: seq<byte>)
    requires Sendable(f) && Complete(r) && Declared(r) == Length(f)
    requires Flips(Bits(Image(f)[2..]), Bits(Restored(r)[2..Length(f)])) % 2 == 1
    ensures Decode(r, false).BadCrc?
  {
    var w, n := Wire(f), Length(f);
    RestoredWire(f, []);
    assert w + [] == w;
    RoundTrip(f, [], false);
    ReceivedParity(w);
    assert Restored(w)[2..n] == Image(f)[2..];
    BitsLength(Image(f)[2..]);
    BitsLength(Restored(r)[2..n]);
    FlipsParity(Bits(Image(f)[2..]), Bits(Restored(r)[2..n]));
    if Decode(r, false).Received? {
      ReceivedParity(r);
    }
  }

  /** A burst of at most 16 bits in the covered bytes, in memory order and at any bit position, is reported. */
  lemma BurstRejected(f: Frame, r: seq<byte>, i: nat)
    requires Sendable(f) && Complete(r) && Declared(r) == Length(f)
    requires Get16(Restored(r), 2) == Checksum(Body(f))
    requires Burst(Bits(Body(f)), Bits(Restored(r)[4..Length(f)]), i)
    ensures Decode(r, false).BadCrc?
  {
    var s := Restored(r)[4..Length(f)];
    ByteBurstDetected(0, Body(f), s, i);
    if Checksum(Body(f)) == Checksum(s) {
      NumberInjective(Crc(0, Body(f)), Crc(0, s));
    }
  }
}
