/** The two-round signed-ephemeral handshake, byte for byte, and the channel it yields. */
module Pairing {
  import opened Bytes
  import opened Crypto
  import opened IdentityStore

  const HELLO_LEN: nat := PK_LEN + PK_LEN

  /** "TetherDisplay-v2-pairing" */
  const LABEL: seq<byte> := [
    0x54, 0x65, 0x74, 0x68, 0x65, 0x72, 0x44, 0x69, 0x73, 0x70, 0x6C, 0x61,
    0x79, 0x2D, 0x76, 0x32, 0x2D, 0x70, 0x61, 0x69, 0x72, 0x69, 0x6E, 0x67]

  datatype Role = Server | Client

  datatype Verdict = Ok | IdentityMismatch | BadSignature | Protocol

  /** What one side knows of a pairing run. */
  datatype Party = Party(me: Identity, role: Role, ephPk: Key, ephSk: Key,
                             peerEph: Key, peerIdent: Key, havePeerHello: bool, confirmed: bool)
  {
    predicate Sized() {
      me.Sized() && |ephPk| == PK_LEN && |peerEph| == PK_LEN && |peerIdent| == PK_LEN
    }

    function Hello(): seq<byte> {
      ephPk + me.pk
    }

    function WithPeerHello(bytes: seq<byte>): (s: Party)
      requires |bytes| == HELLO_LEN
    {
      this.(peerEph := bytes[..PK_LEN], peerIdent := bytes[PK_LEN..], havePeerHello := true)
    }

    /** Server identity, client identity, server ephemeral, client ephemeral. */
    function Transcript(): seq<byte> {
      if role == Server then LABEL + me.pk + peerIdent + ephPk + peerEph
      else LABEL + peerIdent + me.pk + peerEph + ephPk
    }

    function Judge(p: Primitives, bytes: seq<byte>, pinned: Option<Key>): Verdict {
      if !havePeerHello || |bytes| != SIG_LEN then Protocol
      else if pinned.Some? && pinned.value != peerIdent then IdentityMismatch
      else if !p.verify(bytes, Transcript(), peerIdent) then BadSignature
      else Ok
    }

    function SessionKeys(p: Primitives): Option<Keys> {
      if role == Server then p.serverKeys(ephPk, ephSk, peerEph) else p.clientKeys(ephPk, ephSk, peerEph)
    }
  }

  function Start(me: Identity, role: Role, ephPk: Key, ephSk: Key): Party {
    Party(me, role, ephPk, ephSk, Zeros(PK_LEN), Zeros(PK_LEN), false, false)
  }

  lemma HelloReadBack(s: Party, t: Party)
    requires s.Sized()
    ensures |s.Hello()| == HELLO_LEN
    ensures var t' := t.WithPeerHello(s.Hello()); t'.peerEph == s.ephPk && t'.peerIdent == s.me.pk
  {
  }

  lemma TranscriptLayout(a: Key, b: Key, c: Key, d: Key)
    requires |a| == |b| == |c| == |d| == PK_LEN
    ensures var t := LABEL + a + b + c + d;
            t[24..56] == a && t[56..88] == b && t[88..120] == c && t[120..152] == d
  {
  }

  /** A transcript determines all four of its keys. */
  lemma TranscriptIsInjective(a: Key, b: Key, c: Key, d: Key, a': Key, b': Key, c': Key, d': Key)
    requires |a| == |b| == |c| == |d| == PK_LEN
    requires |a'| == |b'| == |c'| == |d'| == PK_LEN
    requires LABEL + a + b + c + d == LABEL + a' + b' + c' + d'
    ensures a == a' && b == b' && c == c' && d == d'
  {
    TranscriptLayout(a, b, c, d);
    TranscriptLayout(a', b', c', d');
  }

  /** What is signed, in text and positions: the label, the server's identity, the client's, the
      server's ephemeral, the client's. */
  lemma TranscriptInParts(s: Party)
    requires s.Sized()
    ensures var t, text := s.Transcript(), "TetherDisplay-v2-pairing";
            && |t| == 152 && |text| == 24
            && (forall i :: 0 <= i < 24 ==> t[i] as char == text[i])
            && t[24..56] == (if s.role == Server then s.me.pk else s.peerIdent)
            && t[56..88] == (if s.role == Server then s.peerIdent else s.me.pk)
            && t[88..120] == (if s.role == Server then s.ephPk else s.peerEph)
            && t[120..152] == (if s.role == Server then s.peerEph else s.ephPk)
  {
    if s.role == Server {
      TranscriptLayout(s.me.pk, s.peerIdent, s.ephPk, s.peerEph);
    } else {
      TranscriptLayout(s.peerIdent, s.me.pk, s.peerEph, s.ephPk);
    }
  }

  /** A hello in positions: the ephemeral, then the identity. */
  lemma HelloInParts(s: Party, h: seq<byte>)
    requires s.Sized() && |h| == 64
    ensures |s.Hello()| == 64 && s.Hello()[..32] == s.ephPk && s.Hello()[32..] == s.me.pk
    ensures s.WithPeerHello(h).peerEph == h[..32] && s.WithPeerHello(h).peerIdent == h[32..]
  {
  }

  class Pairing {
    const me: Identity
    const role: Role
    const ephPk: Key
    const ephSk: Key
    var peerEph: Key
    var peerIdent: Key
    var havePeerHello: bool
    var confirmed: bool

    function State(): Party
      reads this
    {
      Party(me, role, ephPk, ephSk, peerEph, peerIdent, havePeerHello, confirmed)
    }

    constructor (me: Identity, role: Role, ephPk: Key, ephSk: Key)
      ensures State() == Start(me, role, ephPk, ephSk)
    {
      this.me, this.role, this.ephPk, this.ephSk := me, role, ephPk, ephSk;
      peerEph, peerIdent, havePeerHello, confirmed := Zeros(PK_LEN), Zeros(PK_LEN), false, false;
    }

    method ConsumePeerHello(bytes: seq<byte>) returns (ok: bool)
      modifies this
      ensures ok == (|bytes| == HELLO_LEN)
      ensures State() == if ok then old(State()).WithPeerHello(bytes) else old(State())
    {
      if |bytes| != HELLO_LEN {
        return false;
      }
      peerEph := bytes[..PK_LEN];
      peerIdent := bytes[PK_LEN..];
      havePeerHello := true;
      return true;
    }

    method Confirm(p: Primitives) returns (sig: seq<byte>)
      ensures sig == p.sign(me.sk, State().Transcript())
    {
      sig := p.sign(me.sk, State().Transcript());
    }

    method ConsumePeerConfirm(p: Primitives, bytes: seq<byte>, pinned: Option<Key>) returns (v: Verdict)
      modifies this`confirmed
      ensures v == old(State()).Judge(p, bytes, pinned)
      ensures v == Protocol <==> !havePeerHello || |bytes| != 64
      ensures v == IdentityMismatch <==> havePeerHello && |bytes| == 64 && pinned !in {None, Some(peerIdent)}
      ensures v == BadSignature <==> && havePeerHello && |bytes| == 64 && pinned in {None, Some(peerIdent)}
                                     && !p.verify(bytes, old(State()).Transcript(), peerIdent)
      ensures confirmed == (old(confirmed) || v == Ok)
    {
      if !havePeerHello || |bytes| != SIG_LEN {
        return Protocol;
      }
      if pinned.Some? && pinned.value != peerIdent {
        return IdentityMismatch;
      }
      if !p.verify(bytes, State().Transcript(), peerIdent) {
        return BadSignature;
      }
      confirmed := true;
      return Ok;
    }

    method MakeChannel(p: Primitives) returns (c: SecureChannel)
      ensures fresh(c) && c.prims == p && c.Initial()
      ensures match State().SessionKeys(p)
              case None => !c.pushInited
              case Some(k) => c.pushInited && c.tx == Stream(k.tx, p.newHeader(k.tx)) && c.rx.key == k.rx
    {
      var keys := State().SessionKeys(p);
      if keys.None? {
        c := new SecureChannel.Invalid(p);
      } else {
        c := new SecureChannel(p, keys.value);
      }
    }
  }

  /** The encrypted streams: one out, one in, each with a record counter. */
  class SecureChannel {
    const prims: Primitives
    var tx: Stream
    var rx: Stream
    var pushInited: bool
    var pullInited: bool
    var pushed: nat
    var pulled: nat

    ghost predicate Initial()
      reads this
    {
      !pullInited && pushed == 0 && pulled == 0
    }

    constructor Invalid(prims: Primitives)
      ensures this.prims == prims && Initial() && !pushInited
    {
      this.prims, tx, rx := prims, Stream([], []), Stream([], []);
      pushInited, pullInited, pushed, pulled := false, false, 0, 0;
    }

    constructor (prims: Primitives, keys: Keys)
      ensures this.prims == prims && Initial() && pushInited
      ensures tx == Stream(keys.tx, prims.newHeader(keys.tx)) && rx.key == keys.rx
    {
      this.prims := prims;
      tx, rx := Stream(keys.tx, prims.newHeader(keys.tx)), Stream(keys.rx, []);
      pushInited, pullInited, pushed, pulled := true, false, 0, 0;
    }

    method InitRx(header: seq<byte>) returns (ok: bool)
      modifies this`rx, this`pullInited
      ensures ok == (|header| == STREAM_HEADER_LEN)
      ensures if ok then pullInited && rx == old(rx).(header := header)
              else pullInited == old(pullInited) && rx == old(rx)
    {
      if |header| != STREAM_HEADER_LEN {
        return false;
      }
      rx, pullInited := rx.(header := header), true;
      return true;
    }

    method Encrypt(plain: seq<byte>) returns (record: seq<byte>)
      modifies this`pushed
      ensures record == prims.seal(tx, old(pushed), plain) && pushed == old(pushed) + 1
    {
      record, pushed := prims.seal(tx, pushed, plain), pushed + 1;
    }

    method Decrypt(record: seq<byte>) returns (plain: Option<seq<byte>>)
      modifies this`pulled
      ensures if pullInited && |record| >= ABYTES && prims.Opens(rx, old(pulled), record)
              then plain == Some(prims.tape(rx)[old(pulled)]) && pulled == old(pulled) + 1
              else plain == None && pulled == old(pulled)
    {
      if !pullInited || |record| < ABYTES || !prims.Opens(rx, pulled, record) {
        return None;
      }
      plain, pulled := Some(prims.tape(rx)[pulled]), pulled + 1;
    }
  }
}
