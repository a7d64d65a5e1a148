/** A whole connection: pairing on both sides, then messages from one side to the other. */
module PairedStreams {
  import opened Bytes
  import opened Wire
  import opened Records
  import opened ByteChannels
  import opened Crypto
  import opened IdentityStore
  import opened Pairing
  import opened SecureByteChannels
  import opened Handshake
  import opened EndToEnd

  /** Two honest sides about to pair: opposite roles, proper keys, and keys that can be agreed on. */
  ghost predicate Ready(p: Primitives, a: Party, b: Party) {
    && p.Ideal() && SignsFor(p, a.me) && SignsFor(p, b.me)
    && a.Sized() && b.Sized() && a.role != b.role && |a.Hello()| == |b.Hello()| == HELLO_LEN
    && a == Start(a.me, a.role, a.ephPk, a.ephSk) && b == Start(b.me, b.role, b.ephPk, b.ephSk)
    && p.isKxPair(a.ephPk, a.ephSk) && p.isKxPair(b.ephPk, b.ephSk)
    && a.WithPeerHello(b.Hello()).SessionKeys(p).Some? && b.WithPeerHello(a.Hello()).SessionKeys(p).Some?
  }

  /** The session keys `a` derives once it has read `b`'s hello. */
  function KeysWith(p: Primitives, a: Party, b: Party): Keys
    requires |b.Hello()| == HELLO_LEN && a.WithPeerHello(b.Hello()).SessionKeys(p).Some?
  {
    a.WithPeerHello(b.Hello()).SessionKeys(p).value
  }

  /** The stream on which `a` sends to `b`. */
  function StreamTo(p: Primitives, a: Party, b: Party): Stream
    requires |b.Hello()| == HELLO_LEN && a.WithPeerHello(b.Hello()).SessionKeys(p).Some?
  {
    Stream(KeysWith(p, a, b).tx, p.newHeader(KeysWith(p, a, b).tx))
  }

  /** What `b` sends in the handshake with `a`. */
  function Answer(p: Primitives, a: Party, b: Party): seq<byte>
    requires |a.Hello()| == HELLO_LEN && b.WithPeerHello(a.Hello()).SessionKeys(p).Some?
  {
    Flight(p, b.WithPeerHello(a.Hello()), StreamTo(p, b, a).header)
  }

  /** `a` pairs with `b`, to whom it is known or new, over a transport that brings `b`'s answer and
      then `more`. It succeeds unless the pin cannot be saved; then `a` stands at the start of both
      streams, has sent exactly its own flight, and has `more` still to read. */
  method PairWith(p: Primitives, a: Party, ghost b: Party, io: ByteChannel, store: FileIdentityStore,
                  ghost more: seq<byte>)
    returns (ok: bool, ch: SecureByteChannel)
    requires Ready(p, a, b) && PeerIn(store.file) in {None, Some(b.me.pk)}
    requires io.reliable && io.inbound == Answer(p, a, b) + more
    modifies io, store
    ensures fresh(ch) && fresh(ch.channel) && ch.Valid() && ch.raw == io && !ch.broken
            && ch.returned == ch.rxPlain == []
    ensures ch.channel.prims == p && ch.channel.pushed == ch.channel.pulled == 0
    ensures ok ==> ch.channel.pushInited && ch.channel.pullInited && PeerIn(store.file) == Some(b.me.pk)
    ensures ok ==> ch.channel.tx == StreamTo(p, a, b)
    ensures ok ==> ch.channel.rx == Stream(KeysWith(p, a, b).rx, StreamTo(p, b, a).header)
    ensures ok ==> io.inbound == more && io.outbound == old(io.outbound) + Answer(p, b, a)
    ensures PeerIn(old(store.file)).Some? || store.reliable ==> ok
    ensures SelfIn(store.file) == SelfIn(old(store.file))
  {
    hide ReadRecord, RecordBytes, Behind, Flight, Outcome;
    ghost var header := StreamTo(p, b, a).header;
    HonestPairingSucceeds(p, a, b, PeerIn(store.file), header, more);
    FlightReadBack(p, b.WithPeerHello(a.Hello()), header, more);
    HelloReadBack(b, a);
    ch := new SecureByteChannel(p);
    var result, s, _ := ch.Establish(io, a.me, a.role, a.ephPk, a.ephSk, store);
    ok := result == HandshakeResult.Ok;
    if ok {
      ConfirmedSendsTheSame(p, s, a.WithPeerHello(b.Hello()), ch.channel.tx.header);
    }
  }

  lemma ConfirmedSendsTheSame(p: Primitives, s: Party, a: Party, header: seq<byte>)
    requires s == a.(confirmed := true)
    ensures Flight(p, s, header) == Flight(p, a, header) && s.SessionKeys(p) == a.SessionKeys(p)
  {
    assert s.Transcript() == a.Transcript() && s.Hello() == a.Hello();
  }

  /** One side of a connection: `a` pairs with `b`, sends its messages and receives `b`'s, over a
      transport that brings what `b` sends. It sends exactly its own flight and its messages. */
  method PairAndExchange(p: Primitives, a: Party, ghost b: Party, io: ByteChannel, store: FileIdentityStore,
                         toB: seq<Message>, ghost toA: seq<Message>)
    returns (ok: bool, log: seq<Message>)
    requires Ready(p, a, b) && PeerIn(store.file) in {None, Some(b.me.pk)}
    requires AllEncodable(toB) && AllEncodable(toA) && p.tape(StreamTo(p, b, a)) == Encodings(toA)
    requires io.reliable && io.inbound == AllSent(p, b, a, toA)
    modifies io, store
    ensures ok ==> log == UntilDisconnect(toA) && PeerIn(store.file) == Some(b.me.pk)
    ensures ok ==> io.outbound == old(io.outbound) + AllSent(p, a, b, toB)
    ensures PeerIn(old(store.file)).Some? || store.reliable ==> ok
    ensures SelfIn(store.file) == SelfIn(old(store.file))
  {
    hide Answer, Sealed, Encodings;
    ReadyBothWays(p, a, b);
    var ch;
    ok, ch := PairWith(p, a, b, io, store, Sealed(p, StreamTo(p, b, a), 0, Encodings(toA)));
    log := [];
    if ok {
      ghost var before := old(io.outbound);
      var sent := SendMessages(ch, toB);
      assert toB[..sent] == toB;
      Regroup(before, Answer(p, b, a), Sealed(p, StreamTo(p, a, b), 0, Encodings(toB)));
      log := ReceiveMessages(ch, toA);
    }
  }

  /** All that `a` sends to `b`: its flight, then its messages, one sealed record each. */
  function AllSent(p: Primitives, a: Party, b: Party, ms: seq<Message>): seq<byte>
    requires |a.Hello()| == |b.Hello()| == HELLO_LEN
    requires a.WithPeerHello(b.Hello()).SessionKeys(p).Some?
  {
    Answer(p, b, a) + Sealed(p, StreamTo(p, a, b), 0, Encodings(ms))
  }

  lemma ReadyBothWays(p: Primitives, a: Party, b: Party)
    requires Ready(p, a, b)
    ensures Ready(p, b, a)
    ensures KeysWith(p, b, a).rx == KeysWith(p, a, b).tx && KeysWith(p, b, a).tx == KeysWith(p, a, b).rx
  {
    KeysCross(p, a, b);
  }

  /** The whole connection, both ways. Each side pairs, sends its messages and receives the other's.
      `a` is given what `b` sends, and everything `a` wrote is carried to `b`. Both pair, unless a
      first pin cannot be saved; then each receives exactly the other's messages up to the first
      DISCONNECT, and what `b` wrote is exactly what `a` was given to read. */
  method PairAndStream(p: Primitives, a: Party, b: Party, storeA: FileIdentityStore, storeB: FileIdentityStore,
                       toB: seq<Message>, toA: seq<Message>)
    returns (paired: bool, logA: seq<Message>, logB: seq<Message>, ghost givenA: seq<byte>, ghost fromB: seq<byte>)
    requires Ready(p, a, b) && storeA != storeB
    requires PeerIn(storeA.file) in {None, Some(b.me.pk)} && PeerIn(storeB.file) in {None, Some(a.me.pk)}
    requires AllEncodable(toB) && p.tape(StreamTo(p, a, b)) == Encodings(toB)
    requires AllEncodable(toA) && p.tape(StreamTo(p, b, a)) == Encodings(toA)
    modifies storeA, storeB
    ensures (PeerIn(old(storeA.file)).Some? || storeA.reliable) && (PeerIn(old(storeB.file)).Some? || storeB.reliable)
            ==> paired
    ensures paired ==> logB == UntilDisconnect(toB) && logA == UntilDisconnect(toA) && fromB == givenA
    ensures paired ==> PeerIn(storeA.file) == Some(b.me.pk) && PeerIn(storeB.file) == Some(a.me.pk)
    ensures SelfIn(storeA.file) == SelfIn(old(storeA.file)) && SelfIn(storeB.file) == SelfIn(old(storeB.file))
  {
    hide AllSent, Encodings;
    ReadyBothWays(p, a, b);
    paired, logB, givenA, fromB := false, [], AllSent(p, b, a, toA), [];
    var okA;
    var ioA := new ByteChannel(AllSent(p, b, a, toA), true);
    okA, logA := PairAndExchange(p, a, b, ioA, storeA, toB, toA);
    if okA {
      assert [] + AllSent(p, a, b, toB) == AllSent(p, a, b, toB) && [] + AllSent(p, b, a, toA) == AllSent(p, b, a, toA);
      var ioB := new ByteChannel(ioA.outbound, true);
      paired, logB := PairAndExchange(p, b, a, ioB, storeB, toA, toB);
      fromB := ioB.outbound;
    }
  }

  /** Such a connection is possible for any messages to be sent either way. */
  lemma ConnectionIsPossible(toB: seq<Message>, toA: seq<Message>) returns (p: Primitives, a: Party, b: Party)
    ensures Ready(p, a, b) && a.me.pk != b.me.pk
    ensures p.tape(StreamTo(p, a, b)) == Encodings(toB) && p.tape(StreamTo(p, b, a)) == Encodings(toA)
  {
    p := Example(Encodings(toB), Encodings(toA));
    ExampleIsIdeal(Encodings(toB), Encodings(toA));
    a := Start(Identity(Zeros(PK_LEN), Zeros(SK_LEN)), Server, Zeros(PK_LEN), Zeros(PK_LEN));
    b := Start(Identity(seq(PK_LEN, _ => 1), Zeros(SK_LEN)), Client, Zeros(PK_LEN), Zeros(PK_LEN));
    assert a.me.pk[0] != b.me.pk[0];
  }
}
