/** Length-prefixed records: the framing under the encrypted channel, shared by both devices. */
module Records {
  import opened Bytes

  const MAX_RECORD: nat := 17 * 1024 * 1024

  datatype NextRecord = NeedBytes | BadLength | Record(payload: seq<byte>, used: nat)

  function ReadRecord(s: seq<byte>): NextRecord {
    if |s| < 4 then NeedBytes
    else
      var len := Field(s, 0, 4);
      if len == 0 || len > MAX_RECORD then BadLength
      else if |s| < 4 + len then NeedBytes
      else Record(s[4..4 + len], 4 + len)
  }

  function RecordBytes(payload: seq<byte>): (s: seq<byte>)
    ensures |s| == 4 + |payload|
  {
    LE(4, |payload| % U32_SIZE) + payload
  }

  predicate Sendable(payload: seq<byte>) {
    0 < |payload| <= MAX_RECORD
  }

  /** A record in numbers: four little-endian length bytes, and at most 17825792 bytes of payload. */
  lemma RecordInBytes(payload: seq<byte>)
    ensures Sendable(payload) <==> 0 < |payload| <= 17825792
    ensures var n := |payload| % U32_SIZE;
            RecordBytes(payload) == [n % 256, n / 256 % 256, n / 0x1_0000 % 256, n / 0x100_0000 % 256] + payload
  {
    FourBytesOf(|payload| % U32_SIZE);
  }

  /** Every verdict on the front of a stream in terms of its bytes. */
  lemma RecordVerdicts(s: seq<byte>)
    ensures |s| < 4 ==> ReadRecord(s) == NeedBytes
    ensures |s| >= 4 ==>
              var n := s[0] as int + 0x100 * s[1] as int + 0x1_0000 * s[2] as int + 0x100_0000 * s[3] as int;
              ReadRecord(s) == if n == 0 || n > 17825792 then BadLength
                               else if |s| < 4 + n then NeedBytes
                               else Record(s[4..4 + n], 4 + n)
  {
    if |s| >= 4 {
      FourBytes(s, s[0], s[1], s[2], s[3]);
    }
  }

  lemma RecordLayout(len: seq<byte>, payload: seq<byte>, rest: seq<byte>)
    requires |len| == 4
    ensures (len + payload + rest)[0..4] == len && (len + payload + rest)[4..4 + |payload|] == payload
  {
  }

  /** Writing then reading, exactly: a record comes back (whatever follows it) if and only if
      it is not empty and not over the cap. */
  lemma ReadWritten(payload: seq<byte>, rest: seq<byte>)
    ensures Sendable(payload) <==>
            ReadRecord(RecordBytes(payload) + rest) == Record(payload, |RecordBytes(payload)|)
  {
    Pow256Values();
    if Sendable(payload) {
      ReadBack(4, |payload|);
      RecordLayout(LE(4, |payload|), payload, rest);
    }
  }

  lemma WrittenRead(s: seq<byte>)
    requires ReadRecord(s).Record?
    ensures var Record(payload, used) := ReadRecord(s);
            Sendable(payload) && 4 < used <= |s| && RecordBytes(payload) == s[..used]
  {
    hide LE, FromLE, Pow256;
    Pow256Values();
    WriteBack(s[0..4]);
    var used := ReadRecord(s).used;
    assert s[..used] == s[0..4] + s[4..used];
  }

  /** A verdict other than `NeedBytes` is final: later bytes cannot change it. */
  lemma RecordIsFinal(s: seq<byte>, more: seq<byte>)
    requires !ReadRecord(s).NeedBytes?
    ensures ReadRecord(s + more) == ReadRecord(s)
  {
    assert (s + more)[0..4] == s[0..4];
    if ReadRecord(s).Record? {
      var used := ReadRecord(s).used;
      assert (s + more)[4..used] == s[4..used];
    }
  }

  /** The records at the front of `s`, up to the first that is incomplete or ill-sized. */
  function AllRecords(s: seq<byte>): seq<seq<byte>>
    decreases |s|
  {
    match ReadRecord(s)
    case Record(payload, used) => WrittenRead(s); [payload] + AllRecords(s[used..])
    case _ => []
  }

  lemma RecordsUnfold(s: seq<byte>)
    ensures ReadRecord(s).Record? ==> var Record(payload, used) := ReadRecord(s);
              used <= |s| && AllRecords(s) == [payload] + AllRecords(s[used..])
    ensures !ReadRecord(s).Record? ==> AllRecords(s) == []
  {
    if ReadRecord(s).Record? {
      WrittenRead(s);
    }
  }

  function WriteAll(payloads: seq<seq<byte>>): seq<byte> {
    if payloads == [] then [] else RecordBytes(payloads[0]) + WriteAll(payloads[1..])
  }

  lemma RecordsOfOne(payload: seq<byte>, rest: seq<byte>)
    requires Sendable(payload)
    ensures AllRecords(RecordBytes(payload) + rest) == [payload] + AllRecords(rest)
  {
    ReadWritten(payload, rest);
    var front := RecordBytes(payload);
    assert (front + rest)[|front|..] == rest;
  }

  lemma {:induction false} RecordsOfWritten(payloads: seq<seq<byte>>, rest: seq<byte>)
    requires forall p :: p in payloads ==> Sendable(p)
    ensures AllRecords(WriteAll(payloads) + rest) == payloads + AllRecords(rest)
  {
    hide ReadRecord, RecordBytes;
    if payloads == [] {
      assert WriteAll(payloads) + rest == rest;
    } else {
      Regroup(RecordBytes(payloads[0]), WriteAll(payloads[1..]), rest);
      RecordsOfOne(payloads[0], WriteAll(payloads[1..]) + rest);
      RecordsOfWritten(payloads[1..], rest);
      Regroup([payloads[0]], payloads[1..], AllRecords(rest));
      assert payloads == [payloads[0]] + payloads[1..];
    }
  }
}
