/** Properties of whole handshakes: honest parties finish and derive crossed keys, accepted
    parties agree, and the pin changes at most once over any number of connections. */
module Handshake {
  import opened Bytes
  import opened Records
  import opened ByteChannels
  import opened Crypto
  import opened IdentityStore
  import opened Pairing
  import opened SecureByteChannels

  // ---- two honest parties, nothing disturbed ----

  ghost predicate SignsFor(p: Primitives, id: Identity) {
    forall m :: p.verify(p.sign(id.sk, m), m, id.pk)
  }

  lemma TranscriptsMeet(s: Party, t: Party)
    requires s.Sized() && t.Sized() && s.role != t.role
    ensures |s.Hello()| == |t.Hello()| == HELLO_LEN
    ensures s.WithPeerHello(t.Hello()).Transcript() == t.WithPeerHello(s.Hello()).Transcript()
  {
    HelloReadBack(s, t);
    HelloReadBack(t, s);
  }

  lemma NextIs(payload: seq<byte>, rest: seq<byte>, s: seq<byte>)
    requires Sendable(payload) && s == RecordBytes(payload) + rest
    ensures ReadRecord(s) == NextRecord.Record(payload, |RecordBytes(payload)|) && s[|RecordBytes(payload)|..] == rest
  {
    ReadWritten(payload, rest);
  }

  /** The three records of a flight are read back in order, and what follows is left. */
  lemma FlightReadBack(p: Primitives, t: Party, header: seq<byte>, rest: seq<byte>)
    requires p.Ideal() && t.Sized() && |header| == STREAM_HEADER_LEN
    ensures var s1 := Flight(p, t, header) + rest; var s2, s3 := Behind(s1), Behind(Behind(s1));
            && ReadRecord(s1) == NextRecord.Record(t.Hello(), |RecordBytes(t.Hello())|)
            && ReadRecord(s2) == NextRecord.Record(Signed(p, t), |RecordBytes(Signed(p, t))|)
            && ReadRecord(s3) == NextRecord.Record(header, |RecordBytes(header)|)
            && Behind(s3) == rest
  {
    hide ReadRecord, RecordBytes;
    var sig := Signed(p, t);
    var tail1 := RecordBytes(sig) + RecordBytes(header) + rest;
    var tail2 := RecordBytes(header) + rest;
    Regroup(RecordBytes(t.Hello()), RecordBytes(sig) + RecordBytes(header), rest);
    Regroup(RecordBytes(sig), RecordBytes(header), rest);
    NextIs(t.Hello(), tail1, Flight(p, t, header) + rest);
    NextIs(sig, tail2, tail1);
    NextIs(header, rest, tail2);
  }

  /** Two sides that have read each other's hello have crossed keys. */
  lemma KeysCross(p: Primitives, s: Party, t: Party)
    requires p.Ideal() && s.Sized() && t.Sized() && s.role != t.role
    requires p.isKxPair(s.ephPk, s.ephSk) && p.isKxPair(t.ephPk, t.ephSk)
    requires |s.Hello()| == |t.Hello()| == HELLO_LEN && s.WithPeerHello(t.Hello()).SessionKeys(p).Some?
    ensures var ks, kt := s.WithPeerHello(t.Hello()).SessionKeys(p), t.WithPeerHello(s.Hello()).SessionKeys(p);
            kt.Some? && ks.value.rx == kt.value.tx && ks.value.tx == kt.value.rx
  {
    HelloReadBack(s, t);
    HelloReadBack(t, s);
    var ks, kt := s.WithPeerHello(t.Hello()).SessionKeys(p), t.WithPeerHello(s.Hello()).SessionKeys(p);
    assert if s.role == Server then Crossed(ks, kt) else Crossed(kt, ks);
  }

  /** If the peer is honest, in the other role, pinned or unknown, and its bytes arrive, then the
      handshake succeeds and the two sides hold crossed keys, whatever follows on the wire. */
  lemma HonestPairingSucceeds(p: Primitives, s: Party, t: Party, pinned: Option<Key>,
                              header: seq<byte>, rest: seq<byte>)
    requires p.Ideal() && SignsFor(p, t.me) && s.Sized() && t.Sized() && s.role != t.role
    requires |s.Hello()| == |t.Hello()| == HELLO_LEN && |header| == STREAM_HEADER_LEN
    requires pinned in {None, Some(t.me.pk)}
    requires p.isKxPair(s.ephPk, s.ephSk) && p.isKxPair(t.ephPk, t.ephSk)
    requires s.WithPeerHello(t.Hello()).SessionKeys(p).Some?
    ensures var t' := t.WithPeerHello(s.Hello());
            Outcome(p, s, pinned, Flight(p, t', header) + rest) == HandshakeResult.Ok
    ensures var ks, kt := s.WithPeerHello(t.Hello()).SessionKeys(p), t.WithPeerHello(s.Hello()).SessionKeys(p);
            kt.Some? && ks.value.rx == kt.value.tx && ks.value.tx == kt.value.rx
  {
    hide ReadRecord, RecordBytes, Behind, Flight;
    TranscriptsMeet(s, t);
    HelloReadBack(s, t);
    HelloReadBack(t, s);
    KeysCross(p, s, t);
    FlightReadBack(p, t.WithPeerHello(s.Hello()), header, rest);
  }

  // ---- any network ----

  /** What the network and the users of the honest devices can do. The network delivers any
      bytes to any session; it is not even bound to deliver a hello before a confirmation. */
  datatype Event =
    | Begin(id: nat, me: Identity, role: Role, ephPk: Key, ephSk: Key)
    | DeliverHello(id: nat, bytes: seq<byte>)
    | DeliverConfirm(id: nat, bytes: seq<byte>, pinned: Option<Key>)

  datatype Signature = Signature(signer: Key, transcript: seq<byte>)

  /** Every honest session so far and everything honest devices have signed. */
  datatype World = World(sessions: map<nat, Party>, signed: set<Signature>)

  function Step(p: Primitives, w: World, e: Event): World {
    match e
    case Begin(id, me, role, ephPk, ephSk) =>
      if id in w.sessions then w else w.(sessions := w.sessions[id := Start(me, role, ephPk, ephSk)])
    case DeliverHello(id, bytes) =>
      if id !in w.sessions || w.sessions[id].havePeerHello || |bytes| != HELLO_LEN then w
      else
        var s := w.sessions[id].WithPeerHello(bytes);
        World(w.sessions[id := s], w.signed + {Signature(s.me.pk, s.Transcript())})
    case DeliverConfirm(id, bytes, pinned) =>
      if id !in w.sessions || w.sessions[id].Judge(p, bytes, pinned) != Verdict.Ok then w
      else w.(sessions := w.sessions[id := w.sessions[id].(confirmed := true)])
  }

  /** The moves open to the environment in `w`: sessions of honest identities have proper keys,
      and a confirmation that verifies under an honest key was signed by that key. */
  ghost predicate Possible(p: Primitives, honest: set<Key>, w: World, e: Event) {
    match e
    case Begin(_, me, _, ephPk, ephSk) => me.pk in honest && me.Sized() && |ephPk| == PK_LEN && p.isKxPair(ephPk, ephSk)
    case DeliverHello(_, _) => true
    case DeliverConfirm(id, bytes, _) =>
      id in w.sessions ==>
        var s := w.sessions[id];
        s.peerIdent in honest && p.verify(bytes, s.Transcript(), s.peerIdent) ==>
            Signature(s.peerIdent, s.Transcript()) in w.signed
  }

  const NOTHING := World(map[], {})

  function After(p: Primitives, events: seq<Event>): World {
    if events == [] then NOTHING else Step(p, After(p, events[..|events| - 1]), events[|events| - 1])
  }

  ghost predicate PossibleRun(p: Primitives, honest: set<Key>, events: seq<Event>) {
    forall i :: 0 <= i < |events| ==> Possible(p, honest, After(p, events[..i]), events[i])
  }

  ghost predicate SignedBy(w: World, id: nat, sig: Signature) {
    && id in w.sessions
    && w.sessions[id].havePeerHello
    && Signature(w.sessions[id].me.pk, w.sessions[id].Transcript()) == sig
  }

  /** The session has proper keys and an honest identity, and what it accepted from an honest peer
      that peer did sign. */
  ghost predicate SoundSession(p: Primitives, honest: set<Key>, w: World, s: Party) {
    && s.Sized() && s.me.pk in honest && p.isKxPair(s.ephPk, s.ephSk)
    && (s.confirmed ==> s.havePeerHello)
    && (s.confirmed && s.peerIdent in honest ==> Signature(s.peerIdent, s.Transcript()) in w.signed)
  }

  /** Invariant of every run. */
  ghost predicate Sound(p: Primitives, honest: set<Key>, w: World) {
    && (forall id :: id in w.sessions ==> SoundSession(p, honest, w, w.sessions[id]))
    && (forall sig :: sig in w.signed ==> exists id :: SignedBy(w, id, sig))
  }

  lemma StepKeepsSound(p: Primitives, honest: set<Key>, w: World, e: Event)
    requires Sound(p, honest, w) && Possible(p, honest, w, e)
    ensures Sound(p, honest, Step(p, w, e))
  {
    var w' := Step(p, w, e);
    forall sig | sig in w'.signed
      ensures exists id :: SignedBy(w', id, sig)
    {
      SignersStay(p, w, e, sig);
    }
    SessionsStaySound(p, honest, w, e);
  }

  lemma SignersStay(p: Primitives, w: World, e: Event, sig: Signature)
    requires sig in Step(p, w, e).signed && (sig in w.signed ==> exists id :: SignedBy(w, id, sig))
    ensures exists id :: SignedBy(Step(p, w, e), id, sig)
  {
    if sig in w.signed {
      var id :| SignedBy(w, id, sig);
      assert SignedBy(Step(p, w, e), id, sig);
    } else {
      assert SignedBy(Step(p, w, e), e.id, sig);
    }
  }

  lemma SessionsStaySound(p: Primitives, honest: set<Key>, w: World, e: Event)
    requires Sound(p, honest, w) && Possible(p, honest, w, e)
    ensures var w' := Step(p, w, e); forall id :: id in w'.sessions ==> SoundSession(p, honest, w', w'.sessions[id])
  {
    assert forall id :: id in w.sessions ==> SoundSession(p, honest, w, w.sessions[id]);
  }

  lemma {:induction false} RunsAreSound(p: Primitives, honest: set<Key>, events: seq<Event>)
    requires PossibleRun(p, honest, events)
    ensures Sound(p, honest, After(p, events))
  {
    if events != [] {
      var before := events[..|events| - 1];
      assert forall i :: 0 <= i < |before| ==> before[..i] == events[..i];
      RunsAreSound(p, honest, before);
      StepKeepsSound(p, honest, After(p, before), events[|events| - 1]);
    }
  }

  /** `t` is the other end of `s`: opposite roles, each other's identities and ephemerals, and
      crossed session keys. */
  ghost predicate Partners(p: Primitives, s: Party, t: Party) {
    && t.havePeerHello && t.role != s.role
    && t.me.pk == s.peerIdent && t.peerIdent == s.me.pk
    && t.ephPk == s.peerEph && t.peerEph == s.ephPk
    && t.Transcript() == s.Transcript()
    && (match (s.SessionKeys(p), t.SessionKeys(p))
        case (Some(a), Some(b)) => a.rx == b.tx && a.tx == b.rx
        case (None, None) => true
        case _ => false)
  }

  lemma SameTranscriptMeansPartners(p: Primitives, s: Party, t: Party)
    requires p.Ideal() && s.Sized() && t.Sized() && t.havePeerHello
    requires p.isKxPair(s.ephPk, s.ephSk) && p.isKxPair(t.ephPk, t.ephSk)
    requires t.me.pk == s.peerIdent != s.me.pk && t.Transcript() == s.Transcript()
    ensures Partners(p, s, t)
  {
    match (s.role, t.role)
    case (Server, Client) =>
      TranscriptIsInjective(s.me.pk, s.peerIdent, s.ephPk, s.peerEph, t.peerIdent, t.me.pk, t.peerEph, t.ephPk);
      assert Crossed(p.serverKeys(s.ephPk, s.ephSk, t.ephPk), p.clientKeys(t.ephPk, t.ephSk, s.ephPk));
    case (Client, Server) =>
      TranscriptIsInjective(s.peerIdent, s.me.pk, s.peerEph, s.ephPk, t.me.pk, t.peerIdent, t.ephPk, t.peerEph);
      assert Crossed(p.serverKeys(t.ephPk, t.ephSk, s.ephPk), p.clientKeys(s.ephPk, s.ephSk, t.ephPk));
    case (Server, Server) =>
      TranscriptIsInjective(s.me.pk, s.peerIdent, s.ephPk, s.peerEph, t.me.pk, t.peerIdent, t.ephPk, t.peerEph);
    case (Client, Client) =>
      TranscriptIsInjective(s.peerIdent, s.me.pk, s.peerEph, s.ephPk, t.peerIdent, t.me.pk, t.peerEph, t.ephPk);
  }

  /** Agreement: in every run against every network, a session that accepted an honest peer
      other than itself has a partner session that signed the very same transcript. */
  lemma Agreement(p: Primitives, honest: set<Key>, events: seq<Event>, id: nat)
    requires p.Ideal() && PossibleRun(p, honest, events)
    requires var w := After(p, events);
             id in w.sessions && w.sessions[id].confirmed && w.sessions[id].peerIdent in honest
    requires After(p, events).sessions[id].peerIdent != After(p, events).sessions[id].me.pk
    ensures var w := After(p, events);
            exists other :: other in w.sessions && Partners(p, w.sessions[id], w.sessions[other])
  {
    var w := After(p, events);
    RunsAreSound(p, honest, events);
    var s := w.sessions[id];
    var other :| SignedBy(w, other, Signature(s.peerIdent, s.Transcript()));
    SameTranscriptMeansPartners(p, s, w.sessions[other]);
  }

  /** No two sessions are begun with the same ephemeral key. */
  ghost predicate EphemeralsUsedOnce(events: seq<Event>) {
    forall i, j :: 0 <= i < j < |events| && events[i].Begin? && events[j].Begin? ==> events[i].ephPk != events[j].ephPk
  }

  ghost predicate BegunAt(events: seq<Event>, i: nat, id: nat, ephPk: Key) {
    i < |events| && events[i].Begin? && events[i].id == id && events[i].ephPk == ephPk
  }

  lemma {:induction false} SessionsWereBegun(p: Primitives, events: seq<Event>, id: nat) returns (i: nat)
    requires id in After(p, events).sessions
    ensures BegunAt(events, i, id, After(p, events).sessions[id].ephPk)
  {
    var before := events[..|events| - 1];
    if id in After(p, before).sessions {
      i := SessionsWereBegun(p, before, id);
    } else {
      i := |events| - 1;
    }
  }

  lemma EphemeralNamesSession(p: Primitives, events: seq<Event>, a: nat, b: nat)
    requires EphemeralsUsedOnce(events)
    requires var w := After(p, events); a in w.sessions && b in w.sessions && w.sessions[a].ephPk == w.sessions[b].ephPk
    ensures a == b
  {
    hide After;
    var i := SessionsWereBegun(p, events, a);
    var j := SessionsWereBegun(p, events, b);
  }

  /** Injective agreement: with ephemerals used once, an accepted honest peer has exactly one
      partner session, and no two sessions share a partner. */
  lemma InjectiveAgreement(p: Primitives, honest: set<Key>, events: seq<Event>, id: nat) returns (partner: nat)
    requires p.Ideal() && PossibleRun(p, honest, events) && EphemeralsUsedOnce(events)
    requires var w := After(p, events);
             id in w.sessions && w.sessions[id].confirmed && w.sessions[id].peerIdent in honest
    requires After(p, events).sessions[id].peerIdent != After(p, events).sessions[id].me.pk
    ensures var w := After(p, events).sessions;
            && partner in w && Partners(p, w[id], w[partner])
            && (forall other :: other in w && Partners(p, w[id], w[other]) ==> other == partner)
            && (forall rival :: rival in w && Partners(p, w[rival], w[partner]) ==> rival == id)
  {
    hide After, PossibleRun, EphemeralsUsedOnce;
    var w := After(p, events).sessions;
    Agreement(p, honest, events, id);
    partner :| partner in w && Partners(p, w[id], w[partner]);
    forall other | other in w && Partners(p, w[id], w[other])
      ensures other == partner
    {
      EphemeralNamesSession(p, events, other, partner);
    }
    forall rival | rival in w && Partners(p, w[rival], w[partner])
      ensures rival == id
    {
      EphemeralNamesSession(p, events, rival, id);
    }
  }

  /** Session `id` of the given identity and ephemeral has read the hello `h` and accepted its
      sender. */
  ghost predicate Accepted(w: World, id: nat, me: Identity, role: Role, ephPk: Key, ephSk: Key, h: seq<byte>)
    requires |h| == HELLO_LEN
  {
    && id in w.sessions
    && w.sessions[id] == Start(me, role, ephPk, ephSk).WithPeerHello(h).(confirmed := true)
  }

  ghost predicate HasPartner(p: Primitives, w: World, id: nat) {
    id in w.sessions && exists other :: other in w.sessions && Partners(p, w.sessions[id], w.sessions[other])
  }

  /** The condition on identities is needed: a session that is told its own identity, with whatever
      ephemeral, accepts its own signature, pinned or not, and no session is its partner. */
  lemma OwnIdentityHasNoPartner(p: Primitives, honest: set<Key>, me: Identity, role: Role, ephPk: Key, ephSk: Key,
                                h: seq<byte>, pinned: Option<Key>)
    returns (events: seq<Event>)
    requires p.Ideal() && SignsFor(p, me) && me.Sized() && |ephPk| == PK_LEN && p.isKxPair(ephPk, ephSk)
    requires me.pk in honest && |h| == HELLO_LEN && h[PK_LEN..] == me.pk && pinned in {None, Some(me.pk)}
    ensures PossibleRun(p, honest, events)
    ensures Accepted(After(p, events), 0, me, role, ephPk, ephSk, h) && !HasPartner(p, After(p, events), 0)
  {
    var s := Start(me, role, ephPk, ephSk);
    var s' := s.WithPeerHello(h);
    var begin, hello := Begin(0, me, role, ephPk, ephSk), DeliverHello(0, h);
    var confirm := DeliverConfirm(0, p.sign(me.sk, s'.Transcript()), pinned);
    events := [begin, hello, confirm];
    var w1, w2 := World(map[0 := s], {}), World(map[0 := s'], {Signature(me.pk, s'.Transcript())});
    assert events[..0] == [] && events[..1] == [begin] && events[..2] == [begin, hello] && events[..3] == events;
    assert [begin][..0] == [] && [begin, hello][..1] == [begin];
    assert After(p, events[..1]) == w1;
    assert After(p, events[..2]) == w2;
    assert After(p, events) == w2.(sessions := map[0 := s'.(confirmed := true)]);
  }

  /** Exactly when agreement holds: every possible run in which a session that read the hello `h`
      accepts an honest peer gives it a partner, if and only if `h` is not of its own identity. */
  lemma AgreementIff(p: Primitives, honest: set<Key>, me: Identity, role: Role, ephPk: Key, ephSk: Key, h: seq<byte>)
    requires p.Ideal() && SignsFor(p, me) && me.Sized() && |ephPk| == PK_LEN && p.isKxPair(ephPk, ephSk)
    requires me.pk in honest && |h| == HELLO_LEN && h[PK_LEN..] in honest
    ensures (forall events, id ::
               PossibleRun(p, honest, events) && Accepted(After(p, events), id, me, role, ephPk, ephSk, h)
               ==> HasPartner(p, After(p, events), id))
            <==> h[PK_LEN..] != me.pk
  {
    hide After, PossibleRun;
    if h[PK_LEN..] == me.pk {
      var events := OwnIdentityHasNoPartner(p, honest, me, role, ephPk, ephSk, h, None);
    } else {
      forall events, id | PossibleRun(p, honest, events) && Accepted(After(p, events), id, me, role, ephPk, ephSk, h)
        ensures HasPartner(p, After(p, events), id)
      {
        Agreement(p, honest, events, id);
      }
    }
  }

  // ---- the pin over many connections ----

  /** The pin after each of a series of pairing runs, each against whatever peer. */
  ghost predicate PinHistory(p: Primitives, pins: seq<Option<Key>>, runs: seq<(Party, seq<byte>)>) {
    && |pins| == |runs| + 1
    && forall i :: 0 <= i < |runs| ==> PinStep(p, pins[i], pins[i + 1], runs[i].0, runs[i].1)
  }

  /** Once there is a pin it never changes. */
  lemma {:induction false} PinNeverChanges(p: Primitives, pins: seq<Option<Key>>, runs: seq<(Party, seq<byte>)>,
                                           i: nat, j: nat)
    requires PinHistory(p, pins, runs) && i <= j < |pins| && pins[i].Some?
    ensures pins[j] == pins[i]
  {
    if i < j {
      PinNeverChanges(p, pins, runs, i, j - 1);
      assert PinStep(p, pins[j - 1], pins[j], runs[j - 1].0, runs[j - 1].1);
    }
  }

  /** Run `k` put the final pin there: it verified a signature of that very identity on its own
      transcript. Before it there was no pin, from it on always this one. */
  ghost predicate PinnedBy(p: Primitives, pins: seq<Option<Key>>, runs: seq<(Party, seq<byte>)>, k: nat) {
    && |pins| == |runs| + 1 && k < |runs| && pins[|runs|] == Some(runs[k].0.peerIdent)
    && p.verify(runs[k].1, runs[k].0.Transcript(), runs[k].0.peerIdent)
    && forall i :: 0 <= i < |pins| ==> pins[i] == if i <= k then None else pins[|runs|]
  }

  /** Where a pin appeared, exactly one run put it there. */
  lemma {:induction false} PinWasVerified(p: Primitives, pins: seq<Option<Key>>, runs: seq<(Party, seq<byte>)>)
    returns (k: nat)
    requires PinHistory(p, pins, runs) && pins[0].None? && pins[|runs|].Some?
    ensures PinnedBy(p, pins, runs, k)
  {
    var last := |runs| - 1;
    if pins[last].None? {
      k := last;
      forall i | 0 <= i <= last
        ensures pins[i].None?
      {
        if pins[i].Some? {
          PinNeverChanges(p, pins, runs, i, last);
        }
      }
    } else {
      k := PinWasVerified(p, pins[..|runs|], runs[..last]);
      PinNeverChanges(p, pins, runs, last, |runs|);
    }
  }

  /** One connection after another with the same store, each against whatever peer. `runs` are the
      final session and the confirmation of each connection, `pins` the pin before the first and
      after each. The stored identity stays; a pin that was there stays; a pin that appeared was
      verified by exactly one of these connections; whoever is let in is the pinned peer. */
  method ServeConnections(p: Primitives, me: Identity, role: Role, ephs: seq<(Key, Key)>, ios: seq<ByteChannel>,
                          store: FileIdentityStore)
    returns (results: seq<HandshakeResult>, ghost pins: seq<Option<Key>>, ghost runs: seq<(Party, seq<byte>)>)
    requires me.Sized() && |ephs| == |ios| && forall e :: e in ephs ==> |e.0| == PK_LEN
    modifies store, ios
    ensures |results| == |runs| == |ios| && PinHistory(p, pins, runs)
    ensures pins[0] == PeerIn(old(store.file)) && pins[|ios|] == PeerIn(store.file)
    ensures SelfIn(store.file) == SelfIn(old(store.file))
    ensures forall i :: 0 <= i < |ios| ==>
              runs[i].0.me == me && runs[i].0.role == role && (runs[i].0.ephPk, runs[i].0.ephSk) == ephs[i]
    ensures forall i :: 0 <= i < |ios| && results[i] == HandshakeResult.Ok ==>
              pins[i + 1] == PeerIn(store.file) == Some(runs[i].0.peerIdent)
    ensures PeerIn(old(store.file)).Some? ==> forall i :: 0 <= i <= |ios| ==> pins[i] == PeerIn(old(store.file))
    ensures PeerIn(old(store.file)).None? && PeerIn(store.file).Some? ==> exists k :: PinnedBy(p, pins, runs, k)
  {
    hide Outcome, Decided, AllRecords, StreamsOpen, HelloRead, Flight, Behind, PinnedBy, SelfIn, PeerIn;
    results, runs, pins := [], [], [PeerIn(store.file)];
    for i := 0 to |ios|
      invariant |results| == |runs| == i && PinHistory(p, pins, runs)
      invariant pins[0] == PeerIn(old(store.file)) && pins[i] == PeerIn(store.file)
      invariant SelfIn(store.file) == SelfIn(old(store.file))
      invariant forall k :: 0 <= k < i ==>
                  runs[k].0.me == me && runs[k].0.role == role && (runs[k].0.ephPk, runs[k].0.ephSk) == ephs[k]
      invariant forall k :: 0 <= k < i && results[k] == HandshakeResult.Ok ==> pins[k + 1] == Some(runs[k].0.peerIdent)
    {
      var channel := new SecureByteChannel(p);
      var result, s, confirm := channel.Establish(ios[i], me, role, ephs[i].0, ephs[i].1, store);
      results, runs, pins := results + [result], runs + [(s, confirm)], pins + [PeerIn(store.file)];
    }
    forall i | 0 <= i < |ios| && results[i] == HandshakeResult.Ok
      ensures pins[i + 1] == pins[|ios|]
    {
      PinNeverChanges(p, pins, runs, i + 1, |ios|);
    }
    if pins[0].Some? {
      forall i | 0 <= i <= |ios|
        ensures pins[i] == pins[0]
      {
        PinNeverChanges(p, pins, runs, 0, i);
      }
    } else if pins[|ios|].Some? {
      var k := PinWasVerified(p, pins, runs);
    }
  }
}
