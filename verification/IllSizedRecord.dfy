/** What reading does behind a record of a bad length, which `Recv` reports as the end without
    latching a failure. */
module IllSizedRecords {
  import opened Bytes
  import opened Records
  import opened ByteChannels
  import opened Crypto
  import opened SecureByteChannels

  /** Exactly when reading goes on after it stopped at `h` with nothing broken. */
  lemma ReadsOnIff(p: Primitives, st: Stream, h: Halt)
    ensures Resumed(p, st, h) != [] <==>
            ReadRecord(h.rest).BadLength? && PlainFrom(p, st, h.pulled, h.rest[4..]) != []
  {
    assert PlainFrom(p, st, h.pulled, []) == [];
  }

  /** Two reads in a row over a reliable transport: if the first returns 0, the second returns
      plaintext if and only if reading stopped at an ill-sized record and the bytes behind its
      header hold some. */
  method ReadTwice(ch: SecureByteChannel, max: nat) returns (first: int, second: int, data: seq<byte>)
    requires ch.Valid() && ch.raw != null && ch.raw.reliable && !ch.broken && ch.channel.pullInited && max > 0
    modifies ch`rxPlain, ch`rxPos, ch`broken, ch`returned, ch.channel`pulled, ch.raw
    ensures first == 0 <==> old(ch.Pending()) == [] && !ReadRecord(old(ch.Halting()).rest).Record?
    ensures first == 0 ==>
              var h := old(ch.Halting());
              second > 0 <==> && ReadRecord(h.rest).BadLength?
                              && PlainFrom(ch.channel.prims, ch.channel.rx, h.pulled, h.rest[4..]) != []
    ensures first == 0 && second > 0 ==>
              |data| == second <= max && data <= Resumed(ch.channel.prims, ch.channel.rx, old(ch.Halting()))
  {
    ghost var h := ch.Halting();
    ReadsOnIff(ch.channel.prims, ch.channel.rx, h);
    hide ReadRecord, PlainFrom, HaltOf, Resumed;
    var n, _ := ch.Recv(max);
    first := n;
    second, data := ch.Recv(max);
  }

  /** Some read after the one that stopped at `h` finds plaintext: it is behind one ill-sized header,
      or behind more of them with nothing to read in between. */
  predicate Recovers(p: Primitives, st: Stream, h: Halt)
    decreases |h.rest|
  {
    ReadRecord(h.rest).BadLength? && (Resumed(p, st, h) != [] || Recovers(p, st, NextHalt(p, st, h)))
  }

  lemma RecoversNext(p: Primitives, st: Stream, h: Halt)
    ensures Recovers(p, st, h) <==> Resumed(p, st, h) != [] || Recovers(p, st, NextHalt(p, st, h))
    ensures Recovers(p, st, h) ==> h.rest != [] && !ReadRecord(h.rest).Record?
    ensures NextHalt(p, st, h).rest == [] || |NextHalt(p, st, h).rest| < |h.rest|
  {
    ReadsOnIff(p, st, h);
  }

  /** Reads until something else than 0 is returned, often enough to pass every header there is.
      Plaintext comes if and only if some could be read or reading recovers. */
  method ReadOn(ch: SecureByteChannel, max: nat, tries: nat) returns (n: int, data: seq<byte>)
    requires ch.Valid() && ch.raw != null && ch.raw.reliable && !ch.broken && ch.channel.pullInited && max > 0
    requires tries >= |ch.raw.inbound|
    modifies ch`rxPlain, ch`rxPos, ch`broken, ch`returned, ch.channel`pulled, ch.raw
    ensures n > 0 <==> old(ch.Pending()) != [] || Recovers(ch.channel.prims, ch.channel.rx, old(ch.Halting()))
    ensures n < 0 <==> ch.broken
  {
    hide ReadRecord, PlainFrom, HaltOf, Resumed, Recovers, NextHalt, Flatten;
    ghost var p, st, h := ch.channel.prims, ch.channel.rx, ch.Halting();
    assert |h.rest| <= |ch.raw.inbound|;
    RecoversNext(p, st, h);
    ghost var readable := ch.Pending() != [] || Recovers(p, st, h);
    var left := tries;
    n, data := ch.Recv(max);
    while n == 0 && left > 0
      invariant ch.Valid() && (n < 0 <==> ch.broken) && (n > 0 ==> readable) && (n < 0 ==> !readable)
      invariant n == 0 ==>
                  && (readable <==> Recovers(p, st, h)) && |h.rest| <= left
                  && ch.Pending() == Resumed(p, st, h) && ch.Halting() == NextHalt(p, st, h)
      decreases left
    {
      RecoversNext(p, st, h);
      h, left := ch.Halting(), left - 1;
      RecoversNext(p, st, h);
      n, data := ch.Recv(max);
    }
    RecoversNext(p, st, h);
  }

  /** It happens: an ill-sized record, then the peer's first. The first read reports the end, the
      second returns the plaintext. */
  method ReadsBehindBadLength() returns (first: int, second: int, data: seq<byte>)
    ensures first == 0 && second == 1 && data == [7]
  {
    hide ReadRecord, PlainFrom, HaltOf, Resumed, RecordBytes, Example, Flatten;
    var p, st := Example([[7]], []), Stream(SERVER_SENDS, []);
    FlattenNone(p.tape(st));
    var record := RecordBytes(p.seal(st, 0, [7]));
    BadLengthThenRecord(p, st, [0, 0, 0, 0] + record);
    var io := new ByteChannel([0, 0, 0, 0] + record, true);
    var ch := new SecureByteChannel(p);
    ch.raw := io;
    ch.channel.rx, ch.channel.pullInited := st, true;
    assert ch.Halting() == Halt(io.inbound, 0);
    assert ch.Pending() == [];
    first, second, data := ReadTwice(ch, 1);
  }

  lemma BadLengthThenRecord(p: Primitives, st: Stream, s: seq<byte>)
    requires p == Example([[7]], []) && st.key == SERVER_SENDS && s == [0, 0, 0, 0] + RecordBytes(p.seal(st, 0, [7]))
    ensures ReadRecord(s).BadLength? && HaltOf(p, st, 0, s) == Halt(s, 0)
    ensures PlainFrom(p, st, 0, s) == [] && Resumed(p, st, Halt(s, 0)) == PlainFrom(p, st, 0, s[4..]) == [7]
  {
    var record := p.seal(st, 0, [7]);
    BadLengthFirst(s, RecordBytes(record));
    ReadWritten(record, []);
    assert RecordBytes(record) + [] == RecordBytes(record);
    assert RecordBytes(record)[|RecordBytes(record)|..] == [];
    assert PlainFrom(p, st, 1, []) == [];
  }

  lemma BadLengthFirst(s: seq<byte>, rest: seq<byte>)
    requires s == [0, 0, 0, 0] + rest
    ensures ReadRecord(s).BadLength? && s[4..] == rest
  {
    Pow256Values();
    ReadBack(4, 0);
    assert LE(1, 0) == [0] && LE(2, 0) == [0, 0] && LE(3, 0) == [0, 0, 0];
    assert s[0..4] == [0, 0, 0, 0] == LE(4, 0);
  }
}
