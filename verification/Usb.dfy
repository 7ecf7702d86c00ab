/** The bulk transfer loops of usb_io.c. The kernel's ioctl is a nondeterministic short transfer. */
module Usb {
  import opened Bytes

  const MAX_READ: nat := 16384
  const MAX_WRITE: nat := 16384

  /** What became of one bulk transfer: the bytes that were written out of how many, or the bytes
      that were read of what the device was sending. */
  datatype Transfer = Out(written: seq<byte>, length: nat) | In(read: seq<byte>, offered: seq<byte>)

  /** Both directions of the bus as the kernel shows them. */
  class Pipe {
    /** What the device has taken so far, in order. */
    var accepted: seq<byte>
    /** What is left of the transfer the device is sending. */
    var incoming: seq<byte>
    /** The sizes handed to the kernel. */
    ghost var slices: seq<nat>
    /** What the kernel returned, call by call. */
    ghost var results: seq<int>
    /** The bulk transfers so far. */
    ghost var transfers: seq<Transfer>

    constructor ()
      ensures accepted == [] && incoming == [] && slices == [] && results == [] && transfers == []
    {
      accepted, incoming, slices, results, transfers := [], [], [], [], [];
    }

    /** A bulk write: the device takes some prefix of the data, or the call fails. */
    method IoctlWrite(data: seq<byte>) returns (ret: int)
      modifies this
      ensures -1 <= ret <= |data|
      ensures accepted == old(accepted) + if ret < 0 then [] else data[..ret]
      ensures slices == old(slices) + [|data|] && incoming == old(incoming)
      ensures results == old(results) + [ret] && transfers == old(transfers)
    {
      ret :| -1 <= ret <= |data|;
      slices, results := slices + [|data|], results + [ret];
      if ret >= 0 {
        accepted := accepted + data[..ret];
      }
    }

    /** A bulk read: as many bytes as were requested and the transfer still holds, or the call fails. */
    method IoctlRead(requested: nat) returns (ret: int, data: seq<byte>)
      modifies this
      ensures ret == -1 || ret == if requested <= |old(incoming)| then requested else |old(incoming)|
      ensures if ret == -1 then data == [] && incoming == old(incoming) else data == old(incoming)[..ret] && incoming == old(incoming)[ret..]
      ensures accepted == old(accepted) && slices == old(slices)
      ensures results == old(results) + [ret] && transfers == old(transfers)
    {
      var fail: bool := *;
      if fail {
        ret, data := -1, [];
      } else {
        ret := if requested <= |incoming| then requested else |incoming|;
        data := incoming[..ret];
        incoming := incoming[ret..];
      }
      results := results + [ret];
    }
  }

  /** The kernel was called, and its last answer was at most the given one. */
  ghost predicate EndedWith(before: seq<int>, after: seq<int>, most: int) {
    |before| < |after| && after[|after| - 1] <= most
  }

  /** Slices that were added to earlier ones are no longer than a bound. */
  ghost predicate Sliced(before: seq<nat>, after: seq<nat>, most: nat) {
    before <= after && forall k :: |before| <= k < |after| ==> after[k] <= most
  }

  lemma SlicedMore(before: seq<nat>, after: seq<nat>, most: nat, n: nat)
    requires Sliced(before, after, most) && n <= most
    ensures Sliced(before, after + [n], most)
  {
    assert before <= after + [n];
  }

  lemma SlicedOn(a: seq<nat>, b: seq<nat>, c: seq<nat>, most: nat, least: nat)
    requires Sliced(a, b, most) && Sliced(b, c, least) && least <= most
    ensures Sliced(a, c, most)
  {
    assert a <= c;
    forall k | |a| <= k < |c| ensures c[k] <= most {
      if k < |b| {
        assert c[k] == b[k];
      }
    }
  }

  function Shorter(a: nat, b: nat): nat {
    if a < b then a else b
  }

  lemma Joined(s: seq<byte>, a: nat, b: nat, c: nat)
    requires a <= b <= c <= |s|
    ensures s[a..b] + s[b..c] == s[a..c]
  {
  }

  /** One turn of the writing loop, behind the bytes[start..from] that have been sent. */
  method WriteSlice(dev: Pipe, bytes: array<byte>, start: nat, from: nat, left: nat,
                    ghost sent: seq<byte>, ghost slices: seq<nat>, ghost most: nat)
    returns (ret: int, taken: nat)
    requires start <= from && from + left <= bytes.Length
    requires dev.accepted == sent + bytes[start..from]
    requires Sliced(slices, dev.slices, most) && Shorter(MAX_WRITE, left) <= most
    modifies dev
    ensures taken == (if ret < 0 then 0 else ret) <= left
    ensures dev.accepted == sent + bytes[start..from + taken]
    ensures dev.incoming == old(dev.incoming) && dev.transfers == old(dev.transfers)
    ensures Sliced(slices, dev.slices, most)
    ensures dev.results == old(dev.results) + [ret]
  {
    var len := left;
    if len > MAX_WRITE {
      len := MAX_WRITE;
    }
    SlicedMore(slices, dev.slices, most, len);
    ret := dev.IoctlWrite(bytes[from..from + len]);
    taken := if ret < 0 then 0 else ret;
    assert bytes[from..from + len][..taken] == bytes[..][from..from + taken];
    Joined(bytes[..], start, from, from + taken);
  }

  /** Writes bytes[start..start + length] in slices until all is sent or the kernel takes nothing more. */
  method BulkWrite(dev: Pipe, bytes: array<byte>, start: nat, length: nat) returns (sent: nat)
    requires start + length <= bytes.Length
    modifies dev
    ensures sent <= length
    ensures dev.accepted == old(dev.accepted) + bytes[start..start + sent]
    ensures dev.incoming == old(dev.incoming)
    ensures Sliced(old(dev.slices), dev.slices, Shorter(MAX_WRITE, length))
    ensures |old(dev.results)| < |dev.results|
    ensures sent < length ==> EndedWith(old(dev.results), dev.results, 0)
    ensures dev.transfers == old(dev.transfers) + [Out(bytes[start..start + sent], length)]
  {
    sent := 0;
    var going := true;
    while going
      invariant sent <= length
      invariant dev.accepted == old(dev.accepted) + bytes[start..start + sent]
      invariant dev.incoming == old(dev.incoming) && dev.transfers == old(dev.transfers)
      invariant Sliced(old(dev.slices), dev.slices, Shorter(MAX_WRITE, length))
      invariant |old(dev.results)| <= |dev.results|
      invariant !going ==> |old(dev.results)| < |dev.results|
      invariant !going && sent < length ==> EndedWith(old(dev.results), dev.results, 0)
      decreases going, length - sent
    {
      var ret, taken := WriteSlice(dev, bytes, start, start + sent, length - sent,
                                   old(dev.accepted), old(dev.slices), Shorter(MAX_WRITE, length));
      sent := sent + taken;
      going := ret > 0 && sent < length;
    }
    dev.transfers := dev.transfers + [Out(bytes[start..start + sent], length)];
  }

  /** The buffer holds the first n bytes of a transfer and zeros. */
  ghost predicate Arrived(bytes: array<byte>, whole: seq<byte>, n: nat)
    reads bytes
  {
    && n <= |whole| && n <= bytes.Length && bytes[..n] == whole[..n]
    && forall k :: n <= k < bytes.Length ==> bytes[k] == 0
  }

  /** One turn of the reading loop: what arrives is stored behind what is there. */
  method ReadSlice(dev: Pipe, bytes: array<byte>, at: nat, requested: nat, ghost whole: seq<byte>) returns (ret: int, taken: nat)
    requires Arrived(bytes, whole, at) && dev.incoming == whole[at..] && at + requested <= bytes.Length
    modifies dev, bytes
    ensures ret == -1 || ret == Shorter(requested, |whole| - at)
    ensures taken == if ret < 0 then 0 else ret
    ensures Arrived(bytes, whole, at + taken) && dev.incoming == whole[at + taken..]
    ensures dev.accepted == old(dev.accepted) && dev.slices == old(dev.slices) && dev.transfers == old(dev.transfers)
    ensures dev.results == old(dev.results) + [ret]
  {
    var data;
    ret, data := dev.IoctlRead(requested);
    taken := |data|;
    forall k | 0 <= k < |data| {
      bytes[at + k] := data[k];
    }
    Joined(whole, 0, at, at + taken);
    assert bytes[..at + taken] == bytes[..at] + bytes[at..at + taken];
  }

  /** Clears a buffer. */
  method Clear(bytes: array<byte>)
    modifies bytes
    ensures forall k :: 0 <= k < bytes.Length ==> bytes[k] == 0
  {
    forall k | 0 <= k < bytes.Length {
      bytes[k] := 0;
    }
  }

  /** Clears the buffer and reads one transfer into it. A transfer is cut short only by a failing
      call, and then after a whole number of full slices. */
  method BulkRead(dev: Pipe, bytes: array<byte>) returns (retrieved: nat)
    requires |dev.incoming| <= bytes.Length
    modifies dev, bytes
    ensures Arrived(bytes, old(dev.incoming), retrieved)
    ensures retrieved < |old(dev.incoming)| ==> retrieved % MAX_READ == 0
    ensures dev.accepted == old(dev.accepted) && dev.slices == old(dev.slices)
    ensures |old(dev.results)| < |dev.results|
    ensures retrieved < |old(dev.incoming)| ==> EndedWith(old(dev.results), dev.results, -1)
    ensures dev.transfers == old(dev.transfers) + [In(old(dev.incoming)[..retrieved], old(dev.incoming))]
  {
    ghost var whole := dev.incoming;
    Clear(bytes);
    retrieved := 0;
    var going := true;
    while going
      invariant Arrived(bytes, whole, retrieved) && dev.incoming == whole[retrieved..]
      invariant going || retrieved < |whole| ==> retrieved % MAX_READ == 0
      invariant dev.accepted == old(dev.accepted) && dev.slices == old(dev.slices) && dev.transfers == old(dev.transfers)
      invariant |old(dev.results)| <= |dev.results|
      invariant !going ==> |old(dev.results)| < |dev.results|
      invariant !going && retrieved < |whole| ==> EndedWith(old(dev.results), dev.results, -1)
      decreases going, bytes.Length - retrieved
    {
      var requested := bytes.Length - retrieved;
      if requested > MAX_READ {
        requested := MAX_READ;
      }
      var ret, taken := ReadSlice(dev, bytes, retrieved, requested, whole);
      retrieved := retrieved + taken;
      going := ret > 0 && retrieved < bytes.Length && ret == requested;
    }
    dev.transfers := dev.transfers + [In(whole[..retrieved], whole)];
  }
}
