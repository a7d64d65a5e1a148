/** The host's encrypted byte channel: the handshake, then length-prefixed AEAD records with
    leftover plaintext kept between calls and a failure latch. */
module SecureByteChannels {
  import opened Bytes
  import opened Records
  import opened ByteChannels
  import opened Crypto
  import opened IdentityStore
  import Pairing

  datatype HandshakeResult = Ok | PeerRejected | BadSignature | Protocol | IoError

  /** The plaintext that records in `s` yield from the `n`-th of stream `st` on, up to the first
      record that is missing, ill-sized or does not open. */
  function PlainFrom(p: Primitives, st: Stream, n: nat, s: seq<byte>): seq<byte>
    decreases |s|
  {
    match ReadRecord(s)
    case Record(record, used) =>
      WrittenRead(s);
      if |record| >= ABYTES && p.Opens(st, n, record) then p.tape(st)[n] + PlainFrom(p, st, n + 1, s[used..]) else []
    case _ => []
  }

  /** What a failed read leaves on a reliable transport: the bytes behind the header of an
      ill-sized record, or nothing. */
  function BehindFailure(s: seq<byte>): seq<byte> {
    if ReadRecord(s).BadLength? then s[4..] else []
  }

  /** Where the reader stands: the raw bytes not yet read and the number of the next record. */
  datatype Halt = Halt(rest: seq<byte>, pulled: nat)

  /** Where reading stops: at the first record of `s` that is missing, ill-sized or does not open. */
  function HaltOf(p: Primitives, st: Stream, n: nat, s: seq<byte>): (h: Halt)
    ensures |h.rest| <= |s|
    decreases |s|
  {
    match ReadRecord(s)
    case Record(record, used) =>
      WrittenRead(s);
      if |record| >= ABYTES && p.Opens(st, n, record) then HaltOf(p, st, n + 1, s[used..]) else Halt(s, n)
    case _ => Halt(s, n)
  }

  /** Where reading stops next once it stopped at `h` without a broken record. */
  function NextHalt(p: Primitives, st: Stream, h: Halt): Halt {
    HaltOf(p, st, h.pulled, BehindFailure(h.rest))
  }

  /** What can be read on once reading stopped at `h` without a broken record. */
  function Resumed(p: Primitives, st: Stream, h: Halt): seq<byte> {
    PlainFrom(p, st, h.pulled, BehindFailure(h.rest))
  }

  /** The bytes behind the record at the front of `s`. */
  function Behind(s: seq<byte>): seq<byte> {
    match ReadRecord(s)
    case Record(_, used) => WrittenRead(s); s[used..]
    case _ => []
  }

  /** What the handshake of session `s` concludes from the inbound bytes alone, when the local
      side and its store do not fail. */
  function Outcome(p: Primitives, s: Pairing.Party, pinned: Option<Key>, inbound: seq<byte>): HandshakeResult {
    match ReadRecord(inbound)
    case Record(hello, _) =>
      if |hello| != Pairing.HELLO_LEN then Protocol
      else OutcomeAfterHello(p, s.WithPeerHello(hello), pinned, Behind(inbound))
    case _ => IoError
  }

  function OutcomeAfterHello(p: Primitives, s: Pairing.Party, pinned: Option<Key>,
                             inbound: seq<byte>): HandshakeResult {
    match ReadRecord(inbound)
    case Record(confirm, _) =>
      (match s.Judge(p, confirm, pinned)
       case Ok => OutcomeAfterConfirm(p, s, Behind(inbound))
       case IdentityMismatch => PeerRejected
       case BadSignature => BadSignature
       case Protocol => Protocol)
    case _ => IoError
  }

  function OutcomeAfterConfirm(p: Primitives, s: Pairing.Party, inbound: seq<byte>): HandshakeResult {
    if s.SessionKeys(p).None? then Protocol
    else
      match ReadRecord(inbound)
      case Record(header, _) => if |header| != STREAM_HEADER_LEN then Protocol else Ok
      case _ => IoError
  }

  // ---- the same, over the list of records received ----

  /** The first record is a hello and the second has the size of a signature. */
  predicate Introduced(r: seq<seq<byte>>) {
    |r| >= 2 && |r[0]| == 64 && |r[1]| == 64
  }

  predicate PinAllows(pinned: Option<Key>, r: seq<seq<byte>>)
    requires Introduced(r)
  {
    pinned.None? || pinned.value == r[0][32..]
  }

  /** The peer is the pinned one, if there is one, and signed this session's transcript. */
  predicate Convinced(p: Primitives, s: Pairing.Party, pinned: Option<Key>, r: seq<seq<byte>>) {
    Introduced(r) && PinAllows(pinned, r) && p.verify(r[1], s.WithPeerHello(r[0]).Transcript(), r[0][32..])
  }

  /** The result of a handshake of session `s` that received the records `r`, exactly. */
  predicate Decided(p: Primitives, s: Pairing.Party, pinned: Option<Key>, r: seq<seq<byte>>, v: HandshakeResult) {
    && (v == PeerRejected <==> Introduced(r) && !PinAllows(pinned, r))
    && (v == BadSignature <==> Introduced(r) && PinAllows(pinned, r) && !Convinced(p, s, pinned, r))
    && (v == Ok <==> && Convinced(p, s, pinned, r) && s.WithPeerHello(r[0]).SessionKeys(p).Some?
                     && |r| >= 3 && |r[2]| == 24)
    && (v == IoError <==> || r == [] || (|r| == 1 && |r[0]| == 64)
                          || (|r| == 2 && Convinced(p, s, pinned, r) && s.WithPeerHello(r[0]).SessionKeys(p).Some?))
    && (v == Protocol <==> || (|r| >= 1 && |r[0]| != 64) || (|r| >= 2 && |r[0]| == 64 && |r[1]| != 64)
                           || (Convinced(p, s, pinned, r)
                               && (s.WithPeerHello(r[0]).SessionKeys(p).None? || (|r| >= 3 && |r[2]| != 24))))
  }

  lemma RecordsBehind(s: seq<byte>)
    ensures ReadRecord(s).Record? ==> AllRecords(s) == [ReadRecord(s).payload] + AllRecords(Behind(s))
    ensures !ReadRecord(s).Record? ==> AllRecords(s) == []
  {
    hide ReadRecord, AllRecords;
    RecordsUnfold(s);
  }

  /** The outcome of a handshake depends on the inbound bytes through their records alone. */
  lemma OutcomeTable(p: Primitives, s: Pairing.Party, pinned: Option<Key>, inbound: seq<byte>)
    ensures Decided(p, s, pinned, AllRecords(inbound), Outcome(p, s, pinned, inbound))
  {
    hide ReadRecord, Behind, AllRecords;
    RecordsBehind(inbound);
    RecordsBehind(Behind(inbound));
    RecordsBehind(Behind(Behind(inbound)));
    var r := AllRecords(inbound);
    if |r| >= 1 && |r[0]| == 64 {
      var s' := s.WithPeerHello(r[0]);
      assert s'.peerIdent == r[0][32..] && s'.havePeerHello;
    }
  }

  // ---- genuine and forged records ----

  /** Of the records the first `k` are what the peer sealed from the `n`-th plaintext on, and the
      next, if there is one, is not. */
  ghost predicate Genuine(p: Primitives, st: Stream, n: nat, records: seq<seq<byte>>, k: nat) {
    && k <= |records| && n + k <= |p.tape(st)|
    && (forall i :: 0 <= i < k ==> records[i] == p.seal(st, n + i, p.tape(st)[n + i]))
    && (k < |records| && n + k < |p.tape(st)| ==> records[k] != p.seal(st, n + k, p.tape(st)[n + k]))
  }

  lemma {:induction false} SomeAreGenuine(p: Primitives, st: Stream, n: nat, records: seq<seq<byte>>) returns (k: nat)
    requires n <= |p.tape(st)|
    ensures Genuine(p, st, n, records, k)
    decreases |records|
  {
    if records == [] || n == |p.tape(st)| || records[0] != p.seal(st, n, p.tape(st)[n]) {
      k := 0;
    } else {
      var j := SomeAreGenuine(p, st, n + 1, records[1..]);
      k := j + 1;
    }
  }

  /** Exactly the plaintexts of the genuine records can be read; reading stops at the first forged
      one, or behind the last. */
  lemma {:induction false} ReadingStopsAt(p: Primitives, st: Stream, n: nat, s: seq<byte>, k: nat)
    requires p.Ideal() && Genuine(p, st, n, AllRecords(s), k)
    ensures PlainFrom(p, st, n, s) == Flatten(p.tape(st)[n..n + k])
    ensures var h, r := HaltOf(p, st, n, s), AllRecords(s);
            && h.pulled == n + k
            && (ReadRecord(h.rest).Record? <==> k < |r|)
            && (k < |r| ==> ReadRecord(h.rest).payload == r[k])
    decreases k
  {
    hide ReadRecord;
    RecordsBehind(s);
    if k == 0 {
      assert p.tape(st)[n..n + k] == [];
    } else {
      var plain := p.tape(st)[n..n + k];
      assert AllRecords(s)[0] == p.seal(st, n, p.tape(st)[n]);
      assert AllRecords(Behind(s)) == AllRecords(s)[1..];
      ReadingStopsAt(p, st, n + 1, Behind(s), k - 1);
      assert plain[0] == p.tape(st)[n] && plain[1..] == p.tape(st)[n + 1..n + k];
    }
  }

  function Signed(p: Primitives, s: Pairing.Party): seq<byte> {
    p.sign(s.me.sk, s.Transcript())
  }

  /** All that a side sends in a handshake in which it has read its peer's hello. */
  function Flight(p: Primitives, s: Pairing.Party, header: seq<byte>): seq<byte> {
    RecordBytes(s.Hello()) + (RecordBytes(Signed(p, s)) + RecordBytes(header))
  }

  lemma FlightInParts(p: Primitives, s: Pairing.Party, header: seq<byte>, before: seq<byte>)
    ensures before + RecordBytes(s.Hello()) + RecordBytes(Signed(p, s)) + RecordBytes(header)
            == before + Flight(p, s, header)
  {
    Regroup(before + RecordBytes(s.Hello()), RecordBytes(Signed(p, s)), RecordBytes(header));
    Regroup(before, RecordBytes(s.Hello()), RecordBytes(Signed(p, s)) + RecordBytes(header));
  }

  /** `s` is `start` after the hello at the front of `inbound` and an accepted confirmation. */
  predicate HelloRead(inbound: seq<byte>, start: Pairing.Party, s: Pairing.Party) {
    match ReadRecord(inbound)
    case Record(hello, _) => |hello| == Pairing.HELLO_LEN && s == start.WithPeerHello(hello).(confirmed := true)
    case _ => false
  }

  /** The streams have the session's keys; the outgoing header is new, the incoming one is the
      record at the front of `inbound`. */
  predicate StreamsOpen(p: Primitives, s: Pairing.Party, inbound: seq<byte>, tx: Stream, rx: Stream) {
    var keys := if s.role == Pairing.Server then p.serverKeys(s.ephPk, s.ephSk, s.peerEph)
                else p.clientKeys(s.ephPk, s.ephSk, s.peerEph);
    match (keys, ReadRecord(inbound))
    case (Some(k), Record(header, _)) =>
      |header| == STREAM_HEADER_LEN && tx == Stream(k.tx, p.newHeader(k.tx)) && rx == Stream(k.rx, header)
    case _ => false
  }

  /** What a reader that stands before `inbound` with `left` over can read and how it ends: exactly
      what is left and the plaintexts of the genuine records; then -1 and a broken channel if a
      forged record follows, 0 and an unbroken one if none does. */
  ghost predicate ReadsGenuine(p: Primitives, st: Stream, from: nat, inbound: seq<byte>, left: seq<byte>,
                               readable: seq<byte>, n: int, broken: bool) {
    forall k: nat :: Genuine(p, st, from, AllRecords(inbound), k) ==>
      && readable == left + Flatten(p.tape(st)[from..from + k])
      && (n <= 0 ==> if k < |AllRecords(inbound)| then n == -1 && broken else n == 0 && !broken)
  }

  lemma ReadsAsHalted(p: Primitives, st: Stream, from: nat, inbound: seq<byte>, left: seq<byte>,
                      readable: seq<byte>, n: int, broken: bool)
    requires p.Ideal() && readable == left + PlainFrom(p, st, from, inbound)
    requires n <= 0 ==> n == if ReadRecord(HaltOf(p, st, from, inbound).rest).Record? then -1 else 0
    requires n <= 0 ==> broken == (n != 0)
    ensures ReadsGenuine(p, st, from, inbound, left, readable, n, broken)
  {
    hide PlainFrom, HaltOf, ReadRecord, AllRecords, Genuine;
    forall k: nat | Genuine(p, st, from, AllRecords(inbound), k)
      ensures && from + k <= |p.tape(st)| && k <= |AllRecords(inbound)|
              && readable == left + Flatten(p.tape(st)[from..from + k])
              && (n <= 0 ==> if k < |AllRecords(inbound)| then n == -1 && broken else n == 0 && !broken)
    {
      GenuineBounds(p, st, from, AllRecords(inbound), k);
      ReadingStopsAt(p, st, from, inbound, k);
    }
  }

  lemma GenuineBounds(p: Primitives, st: Stream, n: nat, records: seq<seq<byte>>, k: nat)
    requires Genuine(p, st, n, records, k)
    ensures n + k <= |p.tape(st)| && k <= |records|
  {
  }

  class SecureByteChannel {
    var raw: ByteChannel?
    var channel: Pairing.SecureChannel
    var rxPlain: seq<byte>
    var rxPos: nat
    var broken: bool
    /** Every byte `Recv` has handed out. */
    ghost var returned: seq<byte>

    /** What has been returned and what is left of the last record are the first `pulled`
        plaintexts of the peer, in order. */
    ghost predicate Valid()
      reads this, channel
    {
      && rxPos <= |rxPlain|
      && channel.pulled <= |channel.prims.tape(channel.rx)|
      && (!channel.pullInited ==> channel.pulled == 0)
      && returned + rxPlain[rxPos..] == Flatten(channel.prims.tape(channel.rx)[..channel.pulled])
    }

    /** Everything a reader can still get. */
    ghost function Pending(): seq<byte>
      requires Valid()
      reads this, channel, if raw == null then {} else {raw}
    {
      if raw == null || broken || !channel.pullInited then []
      else rxPlain[rxPos..] + PlainFrom(channel.prims, channel.rx, channel.pulled, raw.inbound)
    }

    /** Where reading will stop. */
    ghost function Halting(): Halt
      requires raw != null
      reads this, channel, raw
    {
      if channel.pullInited then HaltOf(channel.prims, channel.rx, channel.pulled, raw.inbound)
      else Halt(raw.inbound, channel.pulled)
    }

    constructor (prims: Primitives)
      ensures Valid() && raw == null && !broken && returned == rxPlain == [] && fresh(channel) && channel.prims == prims
      ensures channel.Initial() && !channel.pushInited
    {
      raw := null;
      channel := new Pairing.SecureChannel.Invalid(prims);
      rxPlain, rxPos, broken, returned := [], 0, false, [];
    }

    // ---- records over the raw channel ----

    method RecvExact(io: ByteChannel, n: nat) returns (ok: bool, p: seq<byte>)
      modifies io`inbound
      ensures ok ==> |p| == n && p + io.inbound == old(io.inbound)
      ensures |io.inbound| <= |old(io.inbound)|
      ensures !ok && io.reliable ==> |old(io.inbound)| < n && io.inbound == []
    {
      p := [];
      while |p| < n
        invariant |p| <= n && p + io.inbound == old(io.inbound)
        decreases n - |p|
      {
        var r, piece := io.Recv(n - |p|);
        if r <= 0 {
          return false, p;
        }
        Regroup(p, piece, io.inbound);
        p := p + piece;
      }
      ok := true;
    }

    method ReadFramed(io: ByteChannel) returns (ok: bool, out: seq<byte>)
      modifies io`inbound
      ensures ok ==> var next := ReadRecord(old(io.inbound));
                     next.Record? && next.payload == out && io.inbound == old(io.inbound)[next.used..]
      ensures if ok then |io.inbound| < |old(io.inbound)| else |io.inbound| <= |old(io.inbound)|
      ensures !ok && io.reliable ==>
                !ReadRecord(old(io.inbound)).Record? && io.inbound == BehindFailure(old(io.inbound))
    {
      ghost var s := io.inbound;
      var hdr: seq<byte>;
      ok, hdr := RecvExact(io, 4);
      if !ok {
        return false, [];
      }
      assert s[0..4] == hdr && s[4..] == io.inbound;
      FromLEBound(hdr);
      var len := FromLE(hdr);
      if len == 0 || len > MAX_RECORD {
        return false, [];
      }
      ok, out := RecvExact(io, len);
      if ok {
        assert s[4..4 + len] == out && s[4 + len..] == io.inbound;
      }
    }

    method WriteFramed(io: ByteChannel, payload: seq<byte>) returns (ok: bool)
      modifies io`outbound
      ensures ok ==> io.outbound == old(io.outbound) + RecordBytes(payload)
      ensures old(io.outbound) <= io.outbound <= old(io.outbound) + RecordBytes(payload)
      ensures io.reliable ==> ok
    {
      ghost var before := io.outbound;
      var hdr := LE(4, |payload| % U32_SIZE);
      Regroup(before, hdr, payload);
      ok := io.SendAll(hdr);
      if !ok {
        return false;
      }
      ok := io.SendAll(payload);
    }

    // ---- the handshake ----

    /** Pairs over `io`. `s` and `confirm` are the final session state and the peer's confirmation.
        The pin store changes only on first use, only to the identity this run verified, and never
        loses or alters the stored identity. A success leaves both streams at their start. */
    method Establish(io: ByteChannel, me: Identity, role: Pairing.Role, ephPk: Key, ephSk: Key,
                     store: FileIdentityStore)
      returns (r: HandshakeResult, ghost s: Pairing.Party, ghost confirm: seq<byte>)
      requires Valid() && channel.Initial() && returned == [] && rxPlain == [] && me.Sized() && |ephPk| == PK_LEN
      modifies this, io, store
      ensures Valid() && raw == io && broken == old(broken) && returned == [] && rxPlain == []
      ensures channel.prims == old(channel).prims && channel.pushed == 0 && channel.pulled == 0
      ensures channel == old(channel) || fresh(channel)
      ensures SelfIn(store.file) == SelfIn(old(store.file))
      ensures PinStep(channel.prims, PeerIn(old(store.file)), PeerIn(store.file), s, confirm)
      ensures s.me == me && s.role == role && s.ephPk == ephPk && s.ephSk == ephSk && s.Sized()
      ensures r == Ok ==> s.Judge(channel.prims, confirm, PeerIn(old(store.file))) == Pairing.Verdict.Ok
      ensures r == Ok ==> PeerIn(store.file) == Some(s.peerIdent)
      ensures r == Ok ==> channel.pushInited && channel.pullInited
      ensures r == Ok ==> HelloRead(old(io.inbound), Pairing.Start(me, role, ephPk, ephSk), s)
      ensures r == Ok ==> StreamsOpen(channel.prims, s, Behind(Behind(old(io.inbound))), channel.tx, channel.rx)
      ensures r == Ok ==> io.inbound == Behind(Behind(Behind(old(io.inbound))))
      ensures r == Ok ==> io.outbound == old(io.outbound) + Flight(channel.prims, s, channel.tx.header)
      ensures r == PeerRejected ==> PeerIn(old(store.file)).Some? && store.file == old(store.file)
      ensures io.reliable ==>
                var start := Pairing.Start(me, role, ephPk, ephSk);
                || r == Outcome(channel.prims, start, PeerIn(old(store.file)), old(io.inbound))
                || (r == IoError && PeerIn(store.file).None? && !store.reliable)
      ensures io.reliable ==>
                var start := Pairing.Start(me, role, ephPk, ephSk);
                || Decided(channel.prims, start, PeerIn(old(store.file)), AllRecords(old(io.inbound)), r)
                || (r == IoError && PeerIn(store.file).None? && !store.reliable)
      ensures r == PeerRejected ==> PeerIn(old(store.file)) !in {None, Some(s.peerIdent)}
      ensures r == BadSignature ==>
                && PeerIn(old(store.file)) in {None, Some(s.peerIdent)}
                && !channel.prims.verify(confirm, s.Transcript(), s.peerIdent)
    {
      hide PlainFrom, ReadRecord, RecordBytes, Behind, Outcome, OutcomeAfterHello, OutcomeAfterConfirm, StreamsOpen,
           Signed, Flight, Decided, AllRecords;
      raw := io;
      confirm := [];
      OutcomeTable(channel.prims, Pairing.Start(me, role, ephPk, ephSk), PeerIn(store.file), io.inbound);
      var pairing := new Pairing.Pairing(me, role, ephPk, ephSk);
      r := ExchangeHello(io, pairing);
      s := pairing.State();
      if r != Ok {
        return r, s, confirm;
      }
      r, confirm := ExchangeConfirm(io, pairing, store);
      s := pairing.State();
      if r != Ok {
        return r, s, confirm;
      }
      r := OpenStreams(io, pairing);
      FlightInParts(channel.prims, s, channel.tx.header, old(io.outbound));
    }

    /** Round 1: both sides send their ephemeral and identity keys. */
    method ExchangeHello(io: ByteChannel, pairing: Pairing.Pairing) returns (r: HandshakeResult)
      requires pairing.State().Sized()
      modifies io, pairing
      ensures pairing.State().Sized() && r in {Ok, Protocol, IoError}
      ensures pairing.State() == old(pairing.State()).(peerEph := pairing.peerEph, peerIdent := pairing.peerIdent,
                                                       havePeerHello := pairing.havePeerHello)
      ensures r == Ok ==> var next := ReadRecord(old(io.inbound));
                          && next.Record? && |next.payload| == Pairing.HELLO_LEN
                          && pairing.State() == old(pairing.State()).WithPeerHello(next.payload)
                          && io.inbound == Behind(old(io.inbound))
                          && io.outbound == old(io.outbound) + RecordBytes(old(pairing.State()).Hello())
      ensures io.reliable ==> forall p, pinned ::
                Outcome(p, old(pairing.State()), pinned, old(io.inbound))
                == if r == Ok then OutcomeAfterHello(p, pairing.State(), pinned, io.inbound) else r
    {
      var ok := WriteFramed(io, pairing.State().Hello());
      if !ok {
        return IoError;
      }
      var peerHello: seq<byte>;
      ok, peerHello := ReadFramed(io);
      if !ok {
        return IoError;
      }
      WrittenRead(old(io.inbound));
      ok := pairing.ConsumePeerHello(peerHello);
      r := if ok then Ok else Protocol;
    }

    /** Round 2: both sides sign the transcript; the peer is checked against the pin, and pinned
        if there is none. `Ok` here means only that the pin holds the verified peer. */
    method ExchangeConfirm(io: ByteChannel, pairing: Pairing.Pairing, store: FileIdentityStore)
      returns (r: HandshakeResult, confirm: seq<byte>)
      requires pairing.State().Sized()
      modifies io, pairing`confirmed, store
      ensures SelfIn(store.file) == SelfIn(old(store.file))
      ensures PinStep(channel.prims, PeerIn(old(store.file)), PeerIn(store.file), pairing.State(), confirm)
      ensures r == Ok ==> pairing.State().Judge(channel.prims, confirm, PeerIn(old(store.file))) == Pairing.Verdict.Ok
      ensures r == Ok ==> PeerIn(store.file) == Some(pairing.peerIdent) && pairing.confirmed
      ensures r == Ok ==> var next := ReadRecord(old(io.inbound));
                          && next.Record? && next.payload == confirm && io.inbound == Behind(old(io.inbound))
                          && io.outbound == old(io.outbound) + RecordBytes(Signed(channel.prims, pairing.State()))
      ensures r == PeerRejected ==> PeerIn(old(store.file)).Some? && store.file == old(store.file)
      ensures io.reliable ==>
                || OutcomeAfterHello(channel.prims, old(pairing.State()), PeerIn(old(store.file)), old(io.inbound))
                   == (if r == Ok then OutcomeAfterConfirm(channel.prims, pairing.State(), io.inbound) else r)
                || (r == IoError && PeerIn(store.file).None? && !store.reliable)
      ensures r == PeerRejected ==> PeerIn(old(store.file)) !in {None, Some(pairing.peerIdent)}
      ensures r == BadSignature ==>
                && PeerIn(old(store.file)) in {None, Some(pairing.peerIdent)}
                && !channel.prims.verify(confirm, pairing.State().Transcript(), pairing.peerIdent)
    {
      confirm := pairing.Confirm(channel.prims);
      var ok := WriteFramed(io, confirm);
      if !ok {
        return IoError, [];
      }
      ok, confirm := ReadFramed(io);
      if !ok {
        return IoError, [];
      }
      WrittenRead(old(io.inbound));
      var pinned := store.LoadPeer();
      var verdict := pairing.ConsumePeerConfirm(channel.prims, confirm, pinned);
      match verdict {
        case Ok =>
        case IdentityMismatch => return PeerRejected, confirm;
        case BadSignature => return BadSignature, confirm;
        case Protocol => return Protocol, confirm;
      }
      r := Ok;
      if pinned.None? {
        ok := store.SavePeer(pairing.peerIdent);
        r := if ok then Ok else IoError;
      }
    }

    /** Round 3: makes the channel from the session keys and exchanges the stream headers. */
    method OpenStreams(io: ByteChannel, pairing: Pairing.Pairing) returns (r: HandshakeResult)
      requires Valid() && returned == [] && rxPlain == [] && raw == io
      modifies this`channel, io
      ensures Valid() && channel.prims == old(channel).prims && fresh(channel)
      ensures channel.pushed == 0 && channel.pulled == 0
      ensures r == Ok ==> channel.pushInited && channel.pullInited && io.inbound == Behind(old(io.inbound))
      ensures r == Ok ==> StreamsOpen(channel.prims, pairing.State(), old(io.inbound), channel.tx, channel.rx)
      ensures r == Ok ==> io.outbound == old(io.outbound) + RecordBytes(channel.tx.header)
      ensures io.reliable ==> r == OutcomeAfterConfirm(channel.prims, pairing.State(), old(io.inbound))
      ensures r in {Ok, Protocol, IoError}
    {
      hide PlainFrom, RecordBytes, BehindFailure;
      channel := pairing.MakeChannel(channel.prims);
      assert channel.prims.tape(channel.rx)[..0] == [];
      if !channel.pushInited {
        return Protocol;
      }
      var ok := WriteFramed(io, channel.tx.header);
      if !ok {
        return IoError;
      }
      var peerHeader: seq<byte>;
      ok, peerHeader := ReadFramed(io);
      if !ok {
        return IoError;
      }
      WrittenRead(old(io.inbound));
      ok := channel.InitRx(peerHeader);
      assert channel.prims.tape(channel.rx)[..0] == [];
      r := if ok then Ok else Protocol;
    }

    // ---- the established channel ----

    /** One AEAD record per call; nothing is ever sent on a channel that is not established or
        has broken. */
    method SendAll(data: seq<byte>) returns (ok: bool)
      requires Valid()
      modifies raw, channel`pushed
      ensures Valid() && returned == old(returned)
      ensures raw != null ==> raw.inbound == old(raw.inbound)
      ensures raw != null && raw.reliable && channel.pushInited && !broken ==> ok
      ensures raw == null || !channel.pushInited || broken ==> !ok && channel.pushed == old(channel.pushed)
      ensures raw != null ==>
                var record := channel.prims.seal(channel.tx, old(channel.pushed), data);
                old(raw.outbound) <= raw.outbound <= old(raw.outbound) + RecordBytes(record)
      ensures raw != null && (!channel.pushInited || broken) ==> raw.outbound == old(raw.outbound)
      ensures ok ==> && raw != null && channel.pushed == old(channel.pushed) + 1
                     && raw.outbound == old(raw.outbound)
                                        + RecordBytes(channel.prims.seal(channel.tx, old(channel.pushed), data))
    {
      if raw == null || !channel.pushInited || broken {
        return false;
      }
      var record := channel.Encrypt(data);
      ok := WriteFramed(raw, record);
    }

    /** One turn of the refill loop: reads a record and opens it into `rxPlain`. A record that
        does not open latches `broken`. */
    method Refill() returns (ok: bool)
      requires Valid() && raw != null && !broken && rxPos == |rxPlain|
      modifies this`rxPlain, this`rxPos, this`broken, channel`pulled, raw`inbound
      ensures Valid()
      ensures if ok then !broken && |raw.inbound| < |old(raw.inbound)| else |raw.inbound| <= |old(raw.inbound)|
      ensures !ok ==> rxPos == |rxPlain|
      ensures ok ==> Pending() == old(Pending()) && Halting() == old(Halting())
      ensures raw.reliable && !ok ==> old(Pending()) == [] && (broken <==> ReadRecord(old(Halting()).rest).Record?)
      ensures raw.reliable && !ok && !broken ==>
                raw.inbound == BehindFailure(old(Halting()).rest) && channel.pulled == old(Halting()).pulled
      ensures ok || broken ==>
                var next := ReadRecord(old(raw.inbound));
                next.Record? && (ok <==> && channel.pullInited && |next.payload| >= ABYTES
                                         && channel.prims.Opens(channel.rx, old(channel.pulled), next.payload))
    {
      var got, record := ReadFramed(raw);
      if !got {
        return false;
      }
      var plain := channel.Decrypt(record);
      if plain.None? {
        broken := true;
        return false;
      }
      TapeNext(channel.prims.tape(channel.rx), channel.pulled - 1);
      rxPlain, rxPos := plain.value, 0;
      ok := true;
    }

    /** The refill loop: goes on until some plaintext is left over, or a turn fails. */
    method RefillUntilLeft() returns (ok: bool)
      requires Valid() && raw != null && !broken
      modifies this`rxPlain, this`rxPos, this`broken, channel`pulled, raw`inbound
      ensures Valid() && |raw.inbound| <= |old(raw.inbound)|
      ensures if ok then !broken && rxPos < |rxPlain| else rxPos == |rxPlain|
      ensures ok ==> Pending() == old(Pending()) && Halting() == old(Halting())
      ensures !ok && raw.reliable ==> old(Pending()) == [] && (broken <==> ReadRecord(old(Halting()).rest).Record?)
      ensures !ok && raw.reliable && !broken ==>
                raw.inbound == BehindFailure(old(Halting()).rest) && channel.pulled == old(Halting()).pulled
    {
      hide ReadRecord, PlainFrom, Flatten, HaltOf, BehindFailure;
      ok := true;
      while ok && rxPos >= |rxPlain|
        invariant Valid() && |raw.inbound| <= |old(raw.inbound)|
        invariant ok ==> !broken && Pending() == old(Pending()) && Halting() == old(Halting())
        invariant !ok ==> rxPos == |rxPlain|
        invariant !ok && raw.reliable ==>
                    old(Pending()) == [] && (broken <==> ReadRecord(old(Halting()).rest).Record?)
        invariant !ok && raw.reliable && !broken ==>
                    raw.inbound == BehindFailure(old(Halting()).rest) && channel.pulled == old(Halting()).pulled
        decreases ok, |raw.inbound|
      {
        ok := Refill();
      }
    }

    /** Hands out up to `max` bytes of plaintext. For arbitrary inbound bytes and any buffer size:
        what has been returned stays a prefix of what the peer sealed; a broken channel stays
        broken and returns nothing; a read takes exactly the front of what can be read, and over a
        reliable transport it fails only if that is nothing. */
    method Recv(max: nat) returns (n: int, data: seq<byte>)
      requires Valid()
      modifies this`rxPlain, this`rxPos, this`broken, this`returned, channel`pulled, raw
      ensures Valid()
      ensures n > 0 ==> n == |data| <= max
      ensures n <= 0 ==> n >= -1 && data == []
      ensures returned == old(returned) + data
      ensures returned <= Flatten(channel.prims.tape(channel.rx))
      ensures raw == null ==> n == -1
      ensures old(broken) ==> broken && n == -1
      ensures n == -1 <==> raw == null || broken
      ensures n > 0 ==> !broken
      ensures raw != null ==> raw.outbound == old(raw.outbound) && |raw.inbound| <= |old(raw.inbound)|
      ensures n > 0 ==> data + Pending() == old(Pending())
      ensures raw != null && n > 0 ==> Halting() == old(Halting())
      ensures raw != null && raw.reliable && max > 0 && n <= 0 ==> old(Pending()) == []
      ensures raw != null && raw.reliable && max > 0 && n <= 0 && !old(broken) ==>
                && (n == 0 <==> !ReadRecord(old(Halting()).rest).Record?)
                && broken == (n != 0)
      ensures raw != null && raw.reliable && max > 0 && n == 0 ==>
                Pending() == if channel.pullInited then Resumed(channel.prims, channel.rx, old(Halting())) else []
      ensures raw != null && raw.reliable && max > 0 && n == 0 && channel.pullInited ==>
                Halting() == NextHalt(channel.prims, channel.rx, old(Halting()))
      ensures raw != null && raw.reliable && !old(broken) && channel.pullInited && channel.prims.Ideal() && max > 0 ==>
                ReadsGenuine(channel.prims, channel.rx, old(channel.pulled), old(raw.inbound), old(rxPlain[rxPos..]),
                             old(Pending()), n, broken)
    {
      hide ReadRecord, PlainFrom, Flatten, HaltOf, BehindFailure, AllRecords, ReadsGenuine;
      n, data := -1, [];
      if raw != null && !broken {
        var ok := RefillUntilLeft();
        if !ok {
          n := if broken then -1 else 0;
        } else {
          n := if max < |rxPlain| - rxPos then max else |rxPlain| - rxPos;
          data := rxPlain[rxPos..rxPos + n];
          Deliver(n);
        }
      }
      PrefixOfTape(channel.prims.tape(channel.rx), channel.pulled, returned, rxPlain[rxPos..]);
      if raw != null && raw.reliable && !old(broken) && channel.pullInited && channel.prims.Ideal() && max > 0 {
        ReadsAsHalted(channel.prims, channel.rx, old(channel.pulled), old(raw.inbound), old(rxPlain[rxPos..]),
                      old(Pending()), n, broken);
      }
    }

    /** Moves the cursor past `n` bytes that are being returned. */
    method Deliver(n: nat)
      requires Valid() && !broken && rxPos + n <= |rxPlain|
      modifies this`rxPos, this`returned
      ensures Valid() && returned == old(returned) + rxPlain[old(rxPos)..old(rxPos) + n]
      ensures raw != null ==> rxPlain[old(rxPos)..old(rxPos) + n] + Pending() == old(Pending())
    {
      ghost var data := rxPlain[rxPos..rxPos + n];
      assert rxPlain[rxPos..] == data + rxPlain[rxPos + n..];
      Regroup(returned, data, rxPlain[rxPos + n..]);
      if raw != null && channel.pullInited {
        Regroup(data, rxPlain[rxPos + n..], PlainFrom(channel.prims, channel.rx, channel.pulled, raw.inbound));
      }
      rxPos, returned := rxPos + n, returned + data;
    }
  }

  /** How one pairing run may change the pin: not at all, or from none to the identity whose
      signature on this run's transcript verified. */
  ghost predicate PinStep(p: Primitives, before: Option<Key>, after: Option<Key>, s: Pairing.Party,
                          confirm: seq<byte>) {
    after == before
    || (before.None? && after == Some(s.peerIdent) && p.verify(confirm, s.Transcript(), s.peerIdent))
  }

  lemma TapeNext(tape: seq<seq<byte>>, n: nat)
    requires n < |tape|
    ensures Flatten(tape[..n + 1]) == Flatten(tape[..n]) + tape[n]
  {
    assert tape[..n + 1] == tape[..n] + [tape[n]];
    FlattenConcat(tape[..n], [tape[n]]);
    FlattenOne(tape[n]);
  }

  lemma PrefixOfTape(tape: seq<seq<byte>>, n: nat, returned: seq<byte>, left: seq<byte>)
    requires n <= |tape| && returned + left == Flatten(tape[..n])
    ensures returned <= Flatten(tape)
  {
    assert tape == tape[..n] + tape[n..];
    FlattenConcat(tape[..n], tape[n..]);
    assert returned == (returned + left)[..|returned|];
  }
}
