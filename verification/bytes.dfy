/** Bytes and the fixed-width big-endian integers of `int.to_bytes` /
    `int.from_bytes(..., byteorder='big')`. */
module Bytes {
  import opened Results

  type byte = x: int | 0 <= x < 256

  /** 256^w: the number of values that fit in w bytes. */
  function Pow256(w: nat): (r: nat)
    ensures r >= 1
    ensures w > 0 ==> r >= 256
  {
    if w == 0 then 1 else 256 * Pow256(w - 1)
  }

  lemma QuotientBound(n: nat, p: nat)
    requires n < 256 * p
    ensures n / 256 < p
  {
  }

  /** The w-byte big-endian representation of n (most significant byte first). */
  function BigEndian(n: nat, w: nat): (r: seq<byte>)
    requires n < Pow256(w)
    ensures |r| == w
  {
    if w == 0 then []
    else
      QuotientBound(n, Pow256(w - 1));
      BigEndian(n / 256, w - 1) + [n % 256]
  }

  /** `int.from_bytes(s, byteorder='big')`: never fails, and fits in |s| bytes. */
  function FromBytes(s: seq<byte>): (r: nat)
    ensures r < Pow256(|s|)
  {
    if s == [] then 0
    else
      var k := |s| - 1;
      var hi := FromBytes(s[..k]);
      assert hi * 256 <= (Pow256(k) - 1) * 256;
      hi * 256 + s[k]
  }

  /** `n.to_bytes(w, byteorder='big')`: OverflowError for a negative n and for
      n >= 256^w, otherwise w bytes that read back as n. */
  function ToBytes(n: int, w: nat): (r: Result<seq<byte>>)
    ensures r.Ok? <==> 0 <= n < Pow256(w)
    ensures r.Ok? ==> |r.value| == w && FromBytes(r.value) == n
    ensures r.Err? ==> r.error == Overflow
  {
    if n < 0 || n >= Pow256(w) then Err(Overflow)
    else
      FromBigEndian(n, w);
      Ok(BigEndian(n, w))
  }

  /** Reading back what BigEndian wrote returns the number. */
  lemma {:induction false} FromBigEndian(n: nat, w: nat)
    requires n < Pow256(w)
    ensures FromBytes(BigEndian(n, w)) == n
  {
    if w > 0 {
      var s := BigEndian(n, w);
      QuotientBound(n, Pow256(w - 1));
      assert s[..w - 1] == BigEndian(n / 256, w - 1);
      FromBigEndian(n / 256, w - 1);
    }
  }

  /** Writing back what FromBytes read returns the same bytes: every w-byte
      sequence is the representation of exactly one number. */
  lemma {:induction false} BigEndianFromBytes(s: seq<byte>)
    ensures BigEndian(FromBytes(s), |s|) == s
  {
    if s != [] {
      var k := |s| - 1;
      var hi := FromBytes(s[..k]);
      assert (hi * 256 + s[k]) / 256 == hi;
      assert (hi * 256 + s[k]) % 256 == s[k];
      BigEndianFromBytes(s[..k]);
      assert s == s[..k] + [s[k]];
    }
  }

  /** A big-endian number is zero exactly when every one of its bytes is. */
  lemma {:induction false} FromBytesZero(s: seq<byte>)
    ensures FromBytes(s) == 0 <==> forall i | 0 <= i < |s| :: s[i] == 0
  {
    if s != [] {
      var k := |s| - 1;
      FromBytesZero(s[..k]);
      assert forall i | 0 <= i < k :: s[..k][i] == s[i];
    }
  }

  /** The bytes of consecutive send_msg calls as one stream. */
  function Flatten(packets: seq<seq<byte>>): (r: seq<byte>)
    ensures packets == [] ==> r == []
  {
    if packets == [] then [] else packets[0] + Flatten(packets[1..])
  }

  lemma {:induction false} FlattenAppend(a: seq<seq<byte>>, b: seq<seq<byte>>)
    ensures Flatten(a + b) == Flatten(a) + Flatten(b)
  {
    if a != [] {
      assert (a + b)[1..] == a[1..] + b;
      FlattenAppend(a[1..], b);
    } else {
      assert a + b == b;
    }
  }
}
