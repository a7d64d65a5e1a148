/** The iPad's record reader, which buffers whatever arrives and cuts records out of the buffer,
    and its agreement with the host's blocking reader. */
module SecureTransports {
  import opened Bytes
  import opened Records
  import opened ByteChannels
  import opened SecureByteChannels

  const RECEIVE_MAX: nat := 262144

  /** The network connection as the app sees it: pieces of its own choosing, a completion flag. */
  class Connection {
    var inbound: seq<byte>
    var outbound: seq<byte>
    /** A reliable connection reports no error. */
    const reliable: bool

    constructor (inbound: seq<byte>, reliable: bool)
      ensures this.inbound == inbound && outbound == [] && this.reliable == reliable
    {
      this.inbound, outbound, this.reliable := inbound, [], reliable;
    }

    /** At least one byte, unless the stream is complete or an error is reported; the last bytes
        may come together with either. */
    method Receive(max: nat) returns (data: seq<byte>, isComplete: bool, error: bool)
      requires max > 0
      modifies this`inbound
      ensures data + inbound == old(inbound) && |data| <= max
      ensures data == [] ==> isComplete || error
      ensures isComplete ==> inbound == []
      ensures reliable ==> !error
    {
      error := false;
      if !reliable {
        error := *;
      }
      var most := if max < |inbound| then max else |inbound|;
      var k: nat :| k <= most && (k == 0 ==> inbound == [] || error);
      data, inbound := inbound[..k], inbound[k..];
      isComplete := inbound == [] && data == [];
      if inbound == [] && data != [] {
        isComplete := *;
      }
    }

    method Send(data: seq<byte>)
      modifies this`outbound
      ensures outbound == old(outbound) + data
    {
      outbound := outbound + data;
    }
  }

  class SecureTransport {
    const connection: Connection
    var buffer: seq<byte>

    constructor (connection: Connection)
      ensures this.connection == connection && buffer == []
    {
      this.connection, buffer := connection, [];
    }

    /** Everything not yet cut into records, arrived or not. */
    function Stream(): seq<byte>
      reads this, connection
    {
      buffer + connection.inbound
    }

    /** Header and payload go out in one write. */
    method SendFramed(payload: seq<byte>)
      requires |payload| < U32_SIZE
      modifies connection`outbound
      ensures connection.outbound == old(connection.outbound) + RecordBytes(payload)
    {
      var n := |payload|;
      var hdr := [n % 256, n / 256 % 256, n / 0x1_0000 % 256, n / 0x100_0000 % 256];
      FourBytesOf(n);
      connection.Send(hdr + payload);
    }

    method ExtractFrame() returns (next: NextRecord)
      modifies this`buffer
      ensures next == ReadRecord(old(buffer))
      ensures next.Record? ==> next.used <= |old(buffer)| && buffer == old(buffer)[next.used..]
      ensures !next.Record? ==> buffer == old(buffer)
    {
      if |buffer| < 4 {
        return NeedBytes;
      }
      var b0: int, b1: int, b2: int, b3: int := buffer[0], buffer[1], buffer[2], buffer[3];
      var len := b0 + 0x100 * b1 + 0x1_0000 * b2 + 0x100_0000 * b3;
      FourBytes(buffer, b0, b1, b2, b3);
      if len == 0 || len > MAX_RECORD {
        return BadLength;
      }
      if |buffer| < 4 + len {
        return NeedBytes;
      }
      next := Record(buffer[4..4 + len], 4 + len);
      buffer := buffer[4 + len..];
    }

    /** Cuts the next record out of the stream, receiving as long as it is incomplete. */
    method ReadFrame() returns (frame: Option<seq<byte>>)
      modifies this`buffer, connection`inbound
      ensures frame.Some? ==> var next := ReadRecord(old(Stream()));
                              next.Record? && next.payload == frame.value && next.used <= |old(Stream())|
                                  && Stream() == old(Stream())[next.used..]
      ensures frame.None? && connection.reliable ==> !ReadRecord(old(Stream())).Record?
    {
      hide ReadRecord;
      while true
        invariant Stream() == old(Stream())
        decreases |connection.inbound|
      {
        ghost var arrived := buffer;
        var next := ExtractFrame();
        if !next.NeedBytes? {
          RecordIsFinal(arrived, connection.inbound);
          DropFront(arrived, connection.inbound, if next.Record? then next.used else 0);
          return if next.Record? then Some(next.payload) else None;
        }
        var data, isComplete, error := connection.Receive(RECEIVE_MAX);
        Regroup(buffer, data, connection.inbound);
        buffer := buffer + data;
        if isComplete || error {
          arrived := buffer;
          next := ExtractFrame();
          if !next.NeedBytes? {
            RecordIsFinal(arrived, connection.inbound);
          }
          if next.Record? {
            DropFront(arrived, connection.inbound, next.used);
            return Some(next.payload);
          }
          assert isComplete ==> arrived + connection.inbound == arrived;
          return None;
        }
      }
    }
  }

  /** Every record the host's blocking reader delivers from `io` before it stops. */
  method HostReadsAll(host: SecureByteChannel, io: ByteChannel) returns (records: seq<seq<byte>>)
    modifies io`inbound
    ensures records <= AllRecords(old(io.inbound))
    ensures io.reliable ==> records == AllRecords(old(io.inbound))
  {
    records := [];
    assert [] + AllRecords(io.inbound) == AllRecords(io.inbound);
    while true
      invariant records + AllRecords(io.inbound) == AllRecords(old(io.inbound))
      decreases |io.inbound|
    {
      ghost var left := io.inbound;
      var ok, record := host.ReadFramed(io);
      RecordsUnfold(left);
      if !ok {
        return;
      }
      Regroup(records, [record], AllRecords(io.inbound));
      records := records + [record];
    }
  }

  /** Every record the iPad's buffering reader delivers before it stops: the same function of the
      same byte stream, however either transport cuts it up. */
  method PadReadsAll(pad: SecureTransport) returns (records: seq<seq<byte>>)
    modifies pad`buffer, pad.connection`inbound
    ensures records <= AllRecords(old(pad.Stream()))
    ensures pad.connection.reliable ==> records == AllRecords(old(pad.Stream()))
  {
    records := [];
    assert [] + AllRecords(pad.Stream()) == AllRecords(pad.Stream());
    while true
      invariant records + AllRecords(pad.Stream()) == AllRecords(old(pad.Stream()))
      decreases |pad.Stream()|
    {
      ghost var left := pad.Stream();
      var record := pad.ReadFrame();
      RecordsUnfold(left);
      if record.None? {
        return;
      }
      WrittenRead(left);
      Regroup(records, [record.value], AllRecords(pad.Stream()));
      records := records + [record.value];
    }
  }
}
