/** The byte pipe under everything, as its users may see it: it delivers the inbound bytes in
    order but in pieces of its own choosing, and may fail. */
module ByteChannels {
  import opened Bytes

  class ByteChannel {
    /** Bytes on their way to us, not yet received. */
    var inbound: seq<byte>
    /** Bytes we have handed to the transport. */
    var outbound: seq<byte>
    /** A reliable channel never fails a `SendAll`, and a `Recv` only once nothing more will come. */
    const reliable: bool

    constructor (inbound: seq<byte>, reliable: bool)
      ensures this.inbound == inbound && outbound == [] && this.reliable == reliable
    {
      this.inbound, outbound, this.reliable := inbound, [], reliable;
    }

    /** Up to `max` bytes; `n` is positive for bytes read, zero for closed, negative for an error. */
    method Recv(max: nat) returns (n: int, data: seq<byte>)
      modifies this`inbound
      ensures n > 0 ==> n == |data| <= max && data + inbound == old(inbound)
      ensures n <= 0 ==> data == [] && inbound == old(inbound)
      ensures reliable && max > 0 && n <= 0 ==> inbound == []
    {
      if max == 0 || inbound == [] {
        return 0, [];
      }
      if !reliable {
        if * {
          return -1, [];
        }
      }
      var k: nat :| 1 <= k <= max && k <= |inbound|;
      n, data := k, inbound[..k];
      inbound := inbound[k..];
    }

    /** Sends all of `data`, or fails after some part of it. */
    method SendAll(data: seq<byte>) returns (ok: bool)
      modifies this`outbound
      ensures ok ==> outbound == old(outbound) + data
      ensures !ok ==> old(outbound) <= outbound <= old(outbound) + data
      ensures reliable ==> ok
    {
      if reliable {
        outbound := outbound + data;
        return true;
      }
      var k: nat :| k <= |data|;
      outbound := outbound + data[..k];
      return false;
    }
  }
}
