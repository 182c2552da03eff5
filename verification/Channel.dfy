/** One direction of a transport, as a queue of bytes. */
module Channel {
  import opened Base

  class Channel {
    var bytes: Bytes
    // Every send so far, one element each.
    ghost var sends: seq<Bytes>

    constructor ()
      ensures bytes == [] && sends == []
    {
      bytes, sends := [], [];
    }

    // A send of nothing is refused.
    method Send(b: Bytes) returns (status: int)
      modifies this
      ensures status == if b == [] then HM_FAIL else HM_SUCCESS
      ensures bytes == old(bytes) + b && sends == if b == [] then old(sends) else old(sends) + [b]
    {
      if b == [] {
        assert bytes + [] == bytes;
        return HM_FAIL;
      }
      bytes, sends := bytes + b, sends + [b];
      return HM_SUCCESS;
    }

    // A read of nothing is refused; otherwise the whole amount is there, or the read fails.
    method Recv(n: nat) returns (b: Option<Bytes>)
      modifies this`bytes
      ensures if 0 < n <= |old(bytes)| then b == Some(old(bytes)[..n]) && bytes == old(bytes)[n..]
              else b == None && bytes == old(bytes)
    {
      if n == 0 || n > |bytes| {
        return None;
      }
      b := Some(bytes[..n]);
      bytes := bytes[n..];
    }
  }
}
