/** The packet buffer of tf_io.c: requests are appended to it in place, sealed, sent and received. */
module Packets {
  import opened Bytes
  import opened Crc16
  import opened Frames

  /** A C string: its characters, without the terminating zero. */
  type CString = s: seq<byte> | 0 !in s

  const SLASH: byte := 0x2F
  const BACKSLASH: byte := 0x5C

  /** strrchr for a slash: the position of the last one. */
  function LastSlash(s: seq<byte>): (k: nat)
    requires SLASH in s
    ensures k < |s| && s[k] == SLASH && SLASH !in s[k + 1..]
  {
    if s[|s| - 1] == SLASH then |s| - 1
    else
      assert s == s[..|s| - 1] + [s[|s| - 1]];
      var k := LastSlash(s[..|s| - 1]);
      assert s[k + 1..] == s[..|s| - 1][k + 1..] + [s[|s| - 1]];
      k
  }

  lemma LastSlashIs(s: seq<byte>, k: nat)
    requires k < |s| && s[k] == SLASH && SLASH !in s[k + 1..]
    ensures LastSlash(s) == k
  {
    var m := LastSlash(s);
    forall j | m < j < |s| ensures s[j] != SLASH {
      assert s[m + 1..][j - m - 1] == s[j];
    }
    forall j | k < j < |s| ensures s[j] != SLASH {
      assert s[k + 1..][j - k - 1] == s[j];
    }
  }

  function Backslash(c: byte): byte {
    if c == SLASH then BACKSLASH else c
  }

  /** A name with the backslashes the device wants instead of slashes. */
  predicate Translates(path: seq<byte>, name: seq<byte>) {
    && |name| == |path| && 0x2F !in name
    && (forall i :: 0 <= i < |path| ==> (name[i] == 0x5C <==> path[i] == 0x2F || path[i] == 0x5C))
    && (forall i :: 0 <= i < |path| && path[i] != 0x2F ==> name[i] == path[i])
  }

  lemma BackslashedTranslates(s: CString)
    ensures Translates(s, Backslashed(s))
  {
  }

  /** The string as the device wants it. */
  function Backslashed(s: CString): (r: CString)
    ensures |r| == |s|
    ensures forall i :: 0 <= i < |s| ==> r[i] == Backslash(s[i])
  {
    var r := seq(|s|, i requires 0 <= i < |s| => Backslash(s[i]));
    assert forall i :: 0 <= i < |s| ==> r[i] == Backslash(s[i]);
    r
  }

  /** The length of a name field without its length prefix: characters, terminator and, if the
      field would otherwise end on an odd position, one more zero. */
  function NameSize(at: nat, s: CString): nat {
    |s| + 1 + (|s| + 1 + at) % 2
  }

  /** The bytes tf_req_putfilename appends to a packet that holds at bytes. */
  function NameField(at: nat, s: CString, addlength: bool): (r: seq<byte>)
    requires NameSize(at, s) < 0x1_0000
    ensures |r| == NameSize(at, s) + if addlength then 2 else 0
  {
    (if addlength then Be16(NameSize(at, s)) else []) + Backslashed(s) + [0] + Pad(|s| + 1 + at)
  }

  /** Writing v after the first n bytes of a packet adds v to its data. */
  lemma Appended(s: seq<byte>, n: nat, v: seq<byte>)
    requires HEAD_SIZE <= n && n + |v| <= |s|
    ensures Get32(Splice(s, n, v), 4) == Get32(s, 4)
    ensures Splice(s, n, v)[HEAD_SIZE..n + |v|] == s[HEAD_SIZE..n] + v
  {
  }

  /** Storing length and CRC in a packet of n bytes makes the image of its frame. */
  lemma SealedImage(s0: seq<byte>, n: nat, f: Frame)
    requires HEAD_SIZE <= n <= MAXIMUM_PACKET_SIZE && n <= |s0|
    requires f == Frame(Get32(s0, 4), s0[HEAD_SIZE..n])
    ensures var s1 := Splice(s0, 0, Be16(n));
      && s1[4..n] == Body(f)
      && Splice(s1, 2, Be16(Checksum(Body(f)))) == Image(f) + s0[n..]
  {
    Be32Get32(s0, 4);
    assert s0[4..n] == s0[4..8] + s0[8..n];
    assert s0 == s0[..4] + s0[4..n] + s0[n..];
  }

  lemma NameFieldParts(d: seq<byte>, at: nat, str: CString, addlength: bool)
    requires NameSize(at, str) < 0x1_0000
    ensures d + NameField(at, str, addlength)
         == d + (if addlength then Be16(NameSize(at, str)) else []) + (Backslashed(str) + [0]) + Pad((|str| + 1 + at) % 2)
    ensures (at + NameSize(at, str)) % 2 == 0
  {
  }

  class Packet {
    const buf: array<byte>
    /** The length in host order; it is stored in the first two bytes when the packet is sealed. */
    var length: nat

    ghost predicate Valid()
      reads this
    {
      buf.Length == STRUCT_SIZE && HEAD_SIZE <= length <= MAXIMUM_PACKET_SIZE
    }

    /** The frame being built. */
    ghost function Content(): (f: Frame)
      requires Valid()
      reads this, buf
      ensures Length(f) == length
    {
      Frame(Get32(buf[..], 4), buf[HEAD_SIZE..length])
    }

    /** The buffer starts with the frame as it goes on the bus. */
    ghost predicate Sealed(f: Frame)
      reads this, buf
    {
      buf.Length == STRUCT_SIZE && Sendable(f) && buf[..|Wire(f)|] == Wire(f)
    }

    constructor ()
      ensures Valid() && fresh(buf)
    {
      buf := new byte[STRUCT_SIZE];
      length := HEAD_SIZE;
    }

    method Init(cmd: u32)
      requires buf.Length == STRUCT_SIZE
      modifies this, buf
      ensures Valid() && Content() == Frame(cmd, [])
    {
      length := HEAD_SIZE;
      Bytes.Put32(buf, 4, cmd);
      Get32Be32(cmd);
      assert buf[..][4..8] == Be32(cmd);
      assert buf[..][4] == Be32(cmd)[0] && buf[..][5] == Be32(cmd)[1] && buf[..][6] == Be32(cmd)[2] && buf[..][7] == Be32(cmd)[3];
    }

    method Put8(value: byte)
      requires Valid() && length + 1 <= MAXIMUM_PACKET_SIZE
      modifies this, buf
      ensures Valid() && Content() == old(Content()).(data := old(Content()).data + [value])
    {
      ghost var s := buf[..];
      buf[length] := value;
      assert buf[..] == Splice(s, length, [value]);
      Appended(s, length, [value]);
      length := length + 1;
    }

    method Put16(value: u16)
      requires Valid() && length + 2 <= MAXIMUM_PACKET_SIZE
      modifies this, buf
      ensures Valid() && Content() == old(Content()).(data := old(Content()).data + Be16(value))
    {
      ghost var s := buf[..];
      Bytes.Put16(buf, length, value);
      Appended(s, length, Be16(value));
      length := length + 2;
    }

    method Put32(value: u32)
      requires Valid() && length + 4 <= MAXIMUM_PACKET_SIZE
      modifies this, buf
      ensures Valid() && Content() == old(Content()).(data := old(Content()).data + Be32(value))
    {
      ghost var s := buf[..];
      Bytes.Put32(buf, length, value);
      Appended(s, length, Be32(value));
      length := length + 4;
    }

    method Put64(value: u64)
      requires Valid() && length + 8 <= MAXIMUM_PACKET_SIZE
      modifies this, buf
      ensures Valid() && Content() == old(Content()).(data := old(Content()).data + Be64(value))
    {
      ghost var s := buf[..];
      Bytes.Put64(buf, length, value);
      Appended(s, length, Be64(value));
      length := length + 8;
    }

    method PutData(data: seq<byte>)
      requires Valid() && length + |data| <= MAXIMUM_PACKET_SIZE
      modifies this, buf
      ensures Valid() && Content() == old(Content()).(data := old(Content()).data + data)
    {
      ghost var s := buf[..];
      forall i | 0 <= i < |data| {
        buf[length + i] := data[i];
      }
      assert buf[..] == Splice(s, length, data);
      Appended(s, length, data);
      length := length + |data|;
    }

    /** Appends the characters of a string and its terminator. */
    method PutString(str: CString)
      requires Valid() && length + |str| + 1 <= MAXIMUM_PACKET_SIZE
      modifies this, buf
      ensures Valid() && Content() == old(Content()).(data := old(Content()).data + (Backslashed(str) + [0]))
    {
      var len: nat := |str| + 1;
      ghost var text := Backslashed(str) + [0];
      var i := 0;
      while len > 0
        invariant Valid() && i + len == |text|
        invariant length == old(length) + i
        invariant Content() == old(Content()).(data := old(Content()).data + text[..i])
      {
        var c := if i < |str| then str[i] else 0;
        Put8(Backslash(c));
        assert text[..i + 1] == text[..i] + [Backslash(c)];
        i, len := i + 1, len - 1;
      }
      assert text[..i] == text;
    }

    method PutPrefix(addlength: bool, n: u16)
      requires Valid() && length + (if addlength then 2 else 0) <= MAXIMUM_PACKET_SIZE
      modifies this, buf
      ensures Valid() && length == old(length) + if addlength then 2 else 0
      ensures Content() == old(Content()).(data := old(Content()).data + if addlength then Be16(n) else [])
    {
      if addlength {
        Put16(n);
      }
    }

    method PutPadding(pad: nat)
      requires Valid() && pad < 2 && length + pad <= MAXIMUM_PACKET_SIZE
      modifies this, buf
      ensures Valid() && length == old(length) + pad
      ensures Content() == old(Content()).(data := old(Content()).data + Pad(pad))
    {
      if pad == 1 {
        Put8(0);
      }
    }

    /** Appends a string and its padding. */
    method PutText(str: CString, pad: nat)
      requires Valid() && pad < 2 && length + |str| + 1 + pad <= MAXIMUM_PACKET_SIZE
      modifies this, buf
      ensures Valid() && length == old(length) + |str| + 1 + pad
      ensures Content() == old(Content()).(data := old(Content()).data + (Backslashed(str) + [0]) + Pad(pad))
    {
      PutString(str);
      PutPadding(pad);
    }

    /** Appends a file name with forward slashes turned into backslashes. */
    method PutFilename(str: CString, addlength: bool)
      requires Valid() && length + (if addlength then 2 else 0) + NameSize(length, str) <= MAXIMUM_PACKET_SIZE
      modifies this, buf
      ensures Valid() && Translates(str, Backslashed(str))
      ensures Content() == old(Content()).(data := old(Content()).data + NameField(old(length), str, addlength))
      ensures length % 2 == 0
    {
      var len := |str| + 1;
      var pad := (len + length) % 2;
      BackslashedTranslates(str);
      ghost var d, at := Content().data, length;
      NameFieldParts(d, at, str, addlength);
      assert pad == (|str| + 1 + at) % 2 && len + pad == NameSize(at, str);
      ghost var prefix := if addlength then Be16(NameSize(at, str)) else [];
      PutPrefix(addlength, len + pad);
      assert Content().data == d + prefix;
      PutText(str, pad);
      assert Content().data == d + prefix + (Backslashed(str) + [0]) + Pad(pad);
    }

    /** Stores length and CRC. */
    method Stamp()
      requires Valid()
      modifies buf
      ensures buf[..length] == Image(old(Content()))
    {
      SealedImage(buf[..], length, Content());
      Bytes.Put16(buf, 0, length);
      assert buf[4..length] == buf[..][4..length];
      var crc := Crc16Ansi(0, buf, 4, length - 4);
      Bytes.Put16(buf, 2, Number(crc));
    }

    /** Seals the packet: stores length and CRC, pads to an even size and swaps the bytes. */
    method Done()
      requires Valid()
      modifies buf
      ensures Sealed(old(Content()))
    {
      var pad := length % 2;
      Stamp();
      if pad == 1 {
        buf[length] := 0;
      }
      assert buf[..length + pad] == buf[..length] + Pad(length);
      ByteSwap(buf, length + pad);
    }
  }
}
