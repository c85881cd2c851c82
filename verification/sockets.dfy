/** The byte-stream socket the codec reads from and writes to.  The real
    socket wrapper (shared/socket.py) is not part of this model; here a
    connection is the finite sequence of bytes the peer sends, read through a
    cursor, plus the log of what this side has sent. */
module Sockets {
  import opened Results
  import opened Bytes

  class Socket {
    const input: seq<byte>   // every byte the peer sends, in order
    var pos: nat             // how many of them have been received
    var sent: seq<seq<byte>> // the payload of each send_msg call, in order
    var closes: nat          // how many times close() was called

    ghost predicate Valid()
      reads this
    {
      pos <= |input|
    }

    /** The bytes not yet received. */
    function Remaining(): seq<byte>
      reads this
      requires Valid()
    {
      input[pos..]
    }

    constructor (input: seq<byte>)
      ensures Valid() && this.input == input && pos == 0
      ensures sent == [] && closes == 0
    {
      this.input := input;
      pos := 0;
      sent := [];
      closes := 0;
    }

    /** recv_msg(n): exactly the next n bytes, or a failure when the peer
        closes before they arrive. */
    method RecvMsg(n: nat) returns (r: Result<seq<byte>>)
      requires Valid()
      modifies this`pos
      ensures Valid()
      ensures n <= |old(Remaining())| ==>
        r == Ok(old(Remaining())[..n]) && Remaining() == old(Remaining())[n..]
      ensures n > |old(Remaining())| ==> r == Err(StreamClosed) && pos == old(pos)
    {
      if pos + n <= |input| {
        assert input[pos..][..n] == input[pos..pos + n];
        assert input[pos..][n..] == input[pos + n..];
        r := Ok(input[pos..pos + n]);
        pos := pos + n;
      } else {
        r := Err(StreamClosed);
      }
    }

    /** send_msg(data): the whole payload goes out as one packet. */
    method SendMsg(data: seq<byte>)
      modifies this`sent
      ensures sent == old(sent) + [data]
    {
      sent := sent + [data];
    }

    method Close()
      modifies this`closes
      ensures closes == old(closes) + 1
    {
      closes := closes + 1;
    }
  }
}
