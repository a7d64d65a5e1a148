/** What reading does at a record that the peer did not seal, or not there. */
module ForgedRecords {
  import opened Bytes
  import opened Records
  import opened ByteChannels
  import opened Crypto
  import opened SecureByteChannels

  /** A record that does not open ends what can be read, whatever follows it. */
  lemma ForgedRecordEndsReading(p: Primitives, st: Stream, n: nat, record: seq<byte>, rest: seq<byte>)
    requires Sendable(record) && !p.Opens(st, n, record)
    ensures PlainFrom(p, st, n, RecordBytes(record) + rest) == []
    ensures HaltOf(p, st, n, RecordBytes(record) + rest) == Halt(RecordBytes(record) + rest, n)
  {
    ReadWritten(record, rest);
  }

  /** Reads until no more plaintext comes. That is exactly what was left and the plaintexts of the
      genuine records; the end is -1 and a broken channel if a forged record follows them, 0 if not. */
  method ReadAll(ch: SecureByteChannel, max: nat) returns (plain: seq<byte>, end: int)
    requires ch.Valid() && ch.raw != null && ch.raw.reliable && !ch.broken && ch.channel.pullInited && max > 0
    requires ch.channel.prims.Ideal()
    modifies ch`rxPlain, ch`rxPos, ch`broken, ch`returned, ch.channel`pulled, ch.raw
    ensures end <= 0
    ensures ReadsGenuine(ch.channel.prims, ch.channel.rx, old(ch.channel.pulled), old(ch.raw.inbound),
                         old(ch.rxPlain[ch.rxPos..]), plain, end, ch.broken)
  {
    hide ReadRecord, PlainFrom, HaltOf, Resumed, NextHalt, Flatten, ReadsGenuine;
    ghost var all, h := ch.Pending(), ch.Halting();
    plain, end := [], 1;
    while end > 0
      invariant ch.Valid() && (end > 0 ==> !ch.broken && plain + ch.Pending() == all && ch.Halting() == h)
      invariant end <= 0 ==>
                  plain == all && end == (if ReadRecord(h.rest).Record? then -1 else 0) && ch.broken == (end != 0)
      decreases if end > 0 then 1 + |all| - |plain| else 0
    {
      var data;
      end, data := ch.Recv(max);
      Regroup(plain, data, ch.Pending());
      plain := plain + data;
    }
    ReadsAsHalted(ch.channel.prims, ch.channel.rx, old(ch.channel.pulled), old(ch.raw.inbound),
                  old(ch.rxPlain[ch.rxPos..]), plain, end, ch.broken);
  }

  /** A forged record before the peer's first: nothing is returned and the channel breaks. */
  method StopsAtForgedRecord() returns (first: int, second: int)
    ensures first == -1 && second == -1
  {
    hide ReadRecord, PlainFrom, HaltOf, Resumed, NextHalt, RecordBytes, Flatten, Example, ReadsGenuine;
    var p, st := Example([[7]], []), Stream(SERVER_SENDS, []);
    var junk := [0];
    ShortIsForged(st, junk);
    FlattenNone(p.tape(st));
    var s := RecordBytes(junk) + RecordBytes(p.seal(st, 0, [7]));
    ForgedRecordEndsReading(p, st, 0, junk, RecordBytes(p.seal(st, 0, [7])));
    ReadWritten(junk, RecordBytes(p.seal(st, 0, [7])));
    var io := new ByteChannel(s, true);
    var ch := new SecureByteChannel(p);
    ch.raw := io;
    ch.channel.rx, ch.channel.pullInited := st, true;
    assert ch.Halting() == Halt(s, 0) && ch.Pending() == [];
    var n, _ := ch.Recv(1);
    first := n;
    var m, _ := ch.Recv(1);
    second := m;
  }

  lemma ShortIsForged(st: Stream, junk: seq<byte>)
    requires junk == [0]
    ensures !Example([[7]], []).Opens(st, 0, junk)
  {
  }
}
