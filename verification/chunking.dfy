/** _divide_msg and _send_chunk of shared/protocol.py: an outgoing payload
    goes out as packets of at most max_packet_size bytes. */
module Chunking {
  import opened Bytes
  import opened Sockets

  /** The comprehension `[msg[i:i+n] for i in range(0, len(msg), n)]`: the
      payload cut every n bytes, the last piece holding what is left. */
  function Slices(msg: seq<byte>, n: nat): (r: seq<seq<byte>>)
    requires n > 0
    ensures Flatten(r) == msg
    ensures forall i | 0 <= i < |r| :: 0 < |r[i]| <= n
    ensures forall i | 0 <= i < |r| - 1 :: |r[i]| == n
    decreases |msg|
  {
    if msg == [] then []
    else if |msg| <= n then
      assert Flatten([msg]) == msg + Flatten([]);
      [msg]
    else
      var tail := Slices(msg[n..], n);
      assert ([msg[..n]] + tail)[1..] == tail;
      assert msg[..n] + msg[n..] == msg;
      [msg[..n]] + tail
  }

  /** _divide_msg(msg, len(msg)): a payload shorter than max_packet_size goes
      out whole, a longer one in slices. */
  function DivideMsg(msg: seq<byte>, maxPacketSize: nat): (r: seq<seq<byte>>)
    requires maxPacketSize > 0
    ensures Flatten(r) == msg
    ensures forall i | 0 <= i < |r| :: |r[i]| <= maxPacketSize
  {
    if |msg| < maxPacketSize then
      assert Flatten([msg]) == msg + Flatten([]);
      [msg]
    else Slices(msg, maxPacketSize)
  }

  lemma MulLe(x: nat, y: nat, n: nat)
    requires x <= y
    ensures x * n <= y * n
  {
    var k := y - x;
    assert y * n == x * n + k * n;
  }

  lemma DivRange(a: nat, n: nat, q: nat)
    requires n > 0 && q * n <= a < (q + 1) * n
    ensures a / n == q
  {
    var d, r := a / n, a % n;
    assert a == d * n + r && 0 <= r < n;
    if d > q {
      MulLe(q + 1, d, n);
    } else if d < q {
      MulLe(d + 1, q, n);
    }
  }

  lemma DivShift(a: nat, n: nat)
    requires n > 0
    ensures (a + n) / n == a / n + 1
  {
    var d := a / n;
    assert a == d * n + a % n;
    assert (d + 1) * n == d * n + n;
    assert (d + 2) * n == d * n + n + n;
    DivRange(a + n, n, d + 1);
  }

  /** Cutting m > 0 bytes every n bytes gives ceil(m / n) slices. */
  lemma {:induction false} SlicesCount(msg: seq<byte>, n: nat)
    requires n > 0 && |msg| > 0
    ensures |Slices(msg, n)| == (|msg| + n - 1) / n
  {
    if |msg| <= n {
      assert n <= |msg| + n - 1 < 2 * n;
      DivRange(|msg| + n - 1, n, 1);
    } else {
      SlicesCount(msg[n..], n);
      DivShift(|msg| - 1, n);
      assert |msg[n..]| + n - 1 + n == |msg| + n - 1;
    }
  }

  /** A payload of max_packet_size bytes or more goes out as
      ceil(size / max_packet_size) packets, all full but the last; a shorter
      one goes out as exactly one packet, itself. */
  lemma DivideMsgCount(msg: seq<byte>, maxPacketSize: nat)
    requires maxPacketSize > 0
    ensures |msg| < maxPacketSize ==> DivideMsg(msg, maxPacketSize) == [msg]
    ensures |msg| >= maxPacketSize ==>
      |DivideMsg(msg, maxPacketSize)| == (|msg| + maxPacketSize - 1) / maxPacketSize &&
      forall i | 0 <= i < |DivideMsg(msg, maxPacketSize)| - 1 :: |DivideMsg(msg, maxPacketSize)[i]| == maxPacketSize
  {
    if |msg| >= maxPacketSize {
      SlicesCount(msg, maxPacketSize);
    }
  }

  /** _send_chunk: one send_msg per piece of _divide_msg, in order, so the
      peer receives exactly the payload. */
  method SendChunk(skt: Socket, chunk: seq<byte>, maxPacketSize: nat)
    requires maxPacketSize > 0
    modifies skt`sent
    ensures skt.sent == old(skt.sent) + DivideMsg(chunk, maxPacketSize)
    ensures Flatten(skt.sent) == Flatten(old(skt.sent)) + chunk
  {
    var dividedChunk := DivideMsg(chunk, maxPacketSize);
    for i := 0 to |dividedChunk|
      invariant skt.sent == old(skt.sent) + dividedChunk[..i]
    {
      skt.SendMsg(dividedChunk[i]);
      assert dividedChunk[..i + 1] == dividedChunk[..i] + [dividedChunk[i]];
    }
    assert dividedChunk[..|dividedChunk|] == dividedChunk;
    FlattenAppend(old(skt.sent), dividedChunk);
  }
}
