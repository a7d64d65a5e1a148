/** The file that keeps this device's identity and the pinned peer, in one fixed-size record. */
module IdentityStore {
  import opened Bytes
  import opened Crypto

  const RECORD_LEN: nat := 1 + PK_LEN + SK_LEN + 1 + 32

  datatype Identity = Identity(pk: Key, sk: Key) {
    predicate Sized() {
      |pk| == PK_LEN && |sk| == SK_LEN
    }
  }

  datatype Record = Record(hasSelf: bool, self: Identity, hasPeer: bool, peer: Key) {
    predicate Sized() {
      self.Sized() && |peer| == 32
    }
  }

  function Zeros(n: nat): (s: seq<byte>)
    ensures |s| == n
  {
    seq(n, _ => 0)
  }

  const BLANK := Record(false, Identity(Zeros(PK_LEN), Zeros(SK_LEN)), false, Zeros(32))

  function Flag(b: bool): byte {
    if b then 1 else 0
  }

  function Print(r: Record): seq<byte> {
    [Flag(r.hasSelf)] + r.self.pk + r.self.sk + [Flag(r.hasPeer)] + r.peer
  }

  /** The record in a file; a missing or wrong-sized file holds none. */
  function Parse(file: Option<seq<byte>>): (r: Option<Record>)
    ensures r.Some? ==> r.value.Sized()
  {
    if file.None? || |file.value| != RECORD_LEN then None
    else
      var b := file.value;
      Some(Record(b[0] != 0, Identity(b[1..33], b[33..97]), b[97] != 0, b[98..130]))
  }

  lemma ParsePrint(r: Record)
    requires r.Sized()
    ensures Parse(Some(Print(r))) == Some(r)
  {
    var b := Print(r);
    assert b[1..33] == r.self.pk;
    assert b[33..97] == r.self.sk;
    assert b[98..130] == r.peer;
  }

  function SelfIn(file: Option<seq<byte>>): Option<Identity> {
    match Parse(file) case Some(r) => if r.hasSelf then Some(r.self) else None case None => None
  }

  function PeerIn(file: Option<seq<byte>>): Option<Key> {
    match Parse(file) case Some(r) => if r.hasPeer then Some(r.peer) else None case None => None
  }

  /** The file in positions: 130 bytes, a flag before each part; a missing file or one of another
      size holds nothing. */
  lemma FileLayout(file: Option<seq<byte>>)
    ensures file.None? || |file.value| != 130 ==> SelfIn(file) == None && PeerIn(file) == None
    ensures file.Some? && |file.value| == 130 ==>
              var b := file.value;
              && SelfIn(file) == (if b[0] != 0 then Some(Identity(b[1..33], b[33..97])) else None)
              && PeerIn(file) == (if b[97] != 0 then Some(b[98..130]) else None)
  {
  }

  /** What is written, in positions; the flags are 0 or 1. */
  lemma WrittenLayout(r: Record)
    requires r.Sized()
    ensures var b := Print(r);
            && |b| == 130 && b[0] == (if r.hasSelf then 1 else 0) && b[97] == (if r.hasPeer then 1 else 0)
            && b[1..33] == r.self.pk && b[33..97] == r.self.sk && b[98..130] == r.peer
  {
    ParsePrint(r);
  }

  class FileIdentityStore {
    var file: Option<seq<byte>>
    /** A reliable store never fails a write. */
    const reliable: bool

    constructor (file: Option<seq<byte>>, reliable: bool)
      ensures this.file == file && this.reliable == reliable
    {
      this.file, this.reliable := file, reliable;
    }

    method ReadRecord() returns (r: Option<Record>)
      ensures r == Parse(file)
    {
      if file.None? || |file.value| != RECORD_LEN {
        return None;
      }
      var b, o := file.value, 0;
      var hasSelf := b[o] != 0;
      o := o + 1;
      var pk := b[o..o + PK_LEN];
      o := o + PK_LEN;
      var sk := b[o..o + SK_LEN];
      o := o + SK_LEN;
      var hasPeer := b[o] != 0;
      o := o + 1;
      r := Some(Record(hasSelf, Identity(pk, sk), hasPeer, b[o..o + 32]));
    }

    /** Rewrites the file as a whole, or fails and leaves it alone. */
    method WriteRecord(r: Record) returns (ok: bool)
      modifies this
      ensures file == if ok then Some(Print(r)) else old(file)
      ensures reliable ==> ok
    {
      var b := [Flag(r.hasSelf)];
      b := b + r.self.pk;
      b := b + r.self.sk;
      b := b + [Flag(r.hasPeer)];
      b := b + r.peer;
      if !reliable {
        if * {
          return false;
        }
      }
      file := Some(b);
      return true;
    }

    method LoadSelf() returns (id: Option<Identity>)
      ensures id == SelfIn(file)
    {
      var r := ReadRecord();
      if r.Some? && r.value.hasSelf {
        return Some(r.value.self);
      }
      return None;
    }

    method LoadPeer() returns (peer: Option<Key>)
      ensures peer == PeerIn(file)
    {
      var r := ReadRecord();
      if r.Some? && r.value.hasPeer {
        return Some(r.value.peer);
      }
      return None;
    }

    /** Saving an identity never touches the pinned peer, whatever the file held before. */
    method SaveSelf(id: Identity) returns (ok: bool)
      requires id.Sized()
      modifies this
      ensures PeerIn(file) == PeerIn(old(file))
      ensures SelfIn(file) == if ok then Some(id) else SelfIn(old(file))
      ensures reliable ==> ok
    {
      var old' := ReadRecord();
      var r := if old'.Some? then old'.value else BLANK;
      r := r.(hasSelf := true, self := id);
      ParsePrint(r);
      ok := WriteRecord(r);
    }

    /** Pinning a peer never touches the stored identity, whatever the file held before. */
    method SavePeer(peer: Key) returns (ok: bool)
      requires |peer| == PK_LEN
      modifies this
      ensures SelfIn(file) == SelfIn(old(file))
      ensures PeerIn(file) == if ok then Some(peer) else PeerIn(old(file))
      ensures reliable ==> ok
    {
      var old' := ReadRecord();
      var r := if old'.Some? then old'.value else BLANK;
      r := r.(hasPeer := true, peer := peer);
      ParsePrint(r);
      ok := WriteRecord(r);
    }
  }

  /** The stored identity, or `generated` saved on first run. */
  method LoadOrCreateIdentity(store: FileIdentityStore, generated: Identity) returns (id: Identity)
    requires generated.Sized()
    modifies store
    ensures PeerIn(store.file) == PeerIn(old(store.file))
    ensures SelfIn(old(store.file)).Some? ==> Some(id) == SelfIn(old(store.file)) == SelfIn(store.file)
    ensures SelfIn(old(store.file)).None? ==> id == generated && SelfIn(store.file) in {None, Some(generated)}
    ensures store.reliable ==> SelfIn(store.file) == Some(id)
  {
    var have := store.LoadSelf();
    if have.Some? {
      return have.value;
    }
    var _ := store.SaveSelf(generated);
    return generated;
  }
}
