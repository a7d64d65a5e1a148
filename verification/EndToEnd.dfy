/** The whole byte-stream stack composed: messages in at one end of an encrypted connection,
    the same messages out at the other. */
module EndToEnd {
  import opened Bytes
  import opened Wire
  import WireCodec
  import opened FrameParsing
  import opened Records
  import opened ByteChannels
  import opened Crypto
  import opened SecureByteChannels

  const RECV_BUFFER: nat := 64 * 1024

  // ---- what goes over the transport, as functions ----

  function Encodings(ms: seq<Message>): seq<seq<byte>> {
    seq(|ms|, i requires 0 <= i < |ms| => Encode(ms[i]))
  }

  /** The raw bytes of `plains`, one record each, sealed as records `n`, `n + 1`, ... of `st`. */
  function Sealed(p: Primitives, st: Stream, n: nat, plains: seq<seq<byte>>): seq<byte>
    decreases |plains|
  {
    if plains == [] then []
    else RecordBytes(p.seal(st, n, plains[0])) + Sealed(p, st, n + 1, plains[1..])
  }

  lemma {:induction false} SealedSnoc(p: Primitives, st: Stream, n: nat, plains: seq<seq<byte>>, x: seq<byte>)
    ensures Sealed(p, st, n, plains + [x]) == Sealed(p, st, n, plains) + RecordBytes(p.seal(st, n + |plains|, x))
    decreases |plains|
  {
    hide RecordBytes;
    if plains == [] {
      assert [] + [x] == [x] && [x][1..] == [];
      assert Sealed(p, st, n, [x]) == RecordBytes(p.seal(st, n, x)) + [];
    } else {
      SealedSnoc(p, st, n + 1, plains[1..], x);
      assert (plains + [x])[1..] == plains[1..] + [x];
      Regroup(RecordBytes(p.seal(st, n, plains[0])), Sealed(p, st, n + 1, plains[1..]),
          RecordBytes(p.seal(st, n + |plains|, x)));
    }
  }

  lemma {:induction false} EncodingsFlatten(ms: seq<Message>)
    ensures Flatten(Encodings(ms)) == EncodeAll(ms)
  {
    if ms != [] {
      EncodingsFlatten(ms[1..]);
      assert Encodings(ms)[1..] == Encodings(ms[1..]);
      assert FramesFor(ms) == [FrameOf(ms[0])] + FramesFor(ms[1..]);
    }
  }

  /** Cross-layer size fact: one sealed message always fits one record. */
  lemma SealedMessageIsSendable(p: Primitives, st: Stream, n: nat, m: Message)
    requires p.Ideal() && Encodable(m)
    ensures Sendable(p.seal(st, n, Encode(m)))
    ensures |p.seal(st, n, Encode(m))| == |Encode(m)| + 17 <= 16777216 + 7 + 17 <= 17825792
  {
    PayloadFits(m);
  }

  lemma PlainFromOne(p: Primitives, st: Stream, n: nat, rest: seq<byte>)
    requires p.Ideal() && n < |p.tape(st)| && Sendable(p.seal(st, n, p.tape(st)[n]))
    ensures PlainFrom(p, st, n, RecordBytes(p.seal(st, n, p.tape(st)[n])) + rest)
         == p.tape(st)[n] + PlainFrom(p, st, n + 1, rest)
  {
    var record := p.seal(st, n, p.tape(st)[n]);
    ReadWritten(record, rest);
    assert (RecordBytes(record) + rest)[|RecordBytes(record)|..] == rest;
  }

  /** The records of the peer, undisturbed, open to everything it sealed. */
  lemma {:induction false} SealedOpens(p: Primitives, st: Stream, n: nat, rest: seq<byte>)
    requires p.Ideal() && n <= |p.tape(st)|
    requires forall i :: n <= i < |p.tape(st)| ==> Sendable(p.seal(st, i, p.tape(st)[i]))
    ensures PlainFrom(p, st, n, Sealed(p, st, n, p.tape(st)[n..]) + rest)
         == Flatten(p.tape(st)[n..]) + PlainFrom(p, st, |p.tape(st)|, rest)
    decreases |p.tape(st)| - n
  {
    hide PlainFrom, RecordBytes;
    var tape := p.tape(st);
    if n == |tape| {
      assert tape[n..] == [] && [] + rest == rest;
      assert Flatten(tape[n..]) + PlainFrom(p, st, n, rest) == PlainFrom(p, st, n, rest);
    } else {
      var record := RecordBytes(p.seal(st, n, tape[n]));
      var more := Sealed(p, st, n + 1, tape[n + 1..]);
      assert tape[n..][1..] == tape[n + 1..];
      Regroup(record, more, rest);
      PlainFromOne(p, st, n, more + rest);
      SealedOpens(p, st, n + 1, rest);
      Regroup(tape[n], Flatten(tape[n + 1..]), PlainFrom(p, st, |tape|, rest));
    }
  }

  /** Whatever bytes are cut off the end of a stream of encoded messages, the messages that
      can be read from the rest are the first of those that were sent. */
  lemma CutStreamYieldsPrefix(ms: seq<Message>, cut: seq<byte>)
    requires AllEncodable(ms) && cut <= EncodeAll(ms)
    ensures Messages(Frames(cut)) <= ms
  {
    var whole := EncodeAll(ms);
    var lost := whole[|cut|..];
    assert whole == cut + lost && whole + [] == whole;
    StreamRoundTrip(ms, []);
    assert Frames([]) == [] && Messages([]) == [];
    FramesPartition(cut);
    FramesFit(cut);
    Regroup(Printed(Frames(cut)), Remainder(cut), lost);
    FramesOfPrinted(Frames(cut), Remainder(cut) + lost);
    MessagesConcat(Frames(cut), Frames(Remainder(cut) + lost));
    assert ms + [] == ms;
    assert ms == Messages(Frames(cut)) + Messages(Frames(Remainder(cut) + lost));
  }

  /** The stack as one function: encode, seal, frame; then unframe, open, parse, decode. It is
      the identity on every list of encodable messages. */
  lemma Transparent(p: Primitives, st: Stream, ms: seq<Message>)
    requires p.Ideal() && AllEncodable(ms) && p.tape(st) == Encodings(ms)
    ensures PlainFrom(p, st, 0, Sealed(p, st, 0, Encodings(ms))) == EncodeAll(ms)
    ensures Messages(Frames(PlainFrom(p, st, 0, Sealed(p, st, 0, Encodings(ms))))) == ms
  {
    var tape := p.tape(st);
    forall i | 0 <= i < |tape|
      ensures Sendable(p.seal(st, i, tape[i]))
    {
      SealedMessageIsSendable(p, st, i, ms[i]);
    }
    SealedOpens(p, st, 0, []);
    var raw := Sealed(p, st, 0, tape);
    assert tape[0..] == tape && raw + [] == raw;
    assert PlainFrom(p, st, |tape|, []) == [] && Flatten(tape) + [] == Flatten(tape);
    EncodingsFlatten(ms);
    StreamRoundTrip(ms, []);
    assert EncodeAll(ms) + [] == EncodeAll(ms) && Messages(Frames([])) == [] && ms + [] == ms;
  }

  // ---- the two loops ----

  /** Sends the messages, one record each, and stops at the first that fails. What was written is
      the records of those sent and at most a part of the next one's. */
  method SendMessages(ch: SecureByteChannel, ms: seq<Message>) returns (sent: nat)
    requires ch.Valid() && AllEncodable(ms)
    modifies ch.raw, ch.channel`pushed
    ensures ch.Valid() && ch.returned == old(ch.returned) && sent <= |ms|
    ensures ch.raw != null ==> ch.raw.inbound == old(ch.raw.inbound)
    ensures ch.raw != null ==>
              var p, st, n := ch.channel.prims, ch.channel.tx, old(ch.channel.pushed);
              var begun := if sent < |ms| then sent + 1 else sent;
              && old(ch.raw.outbound) + Sealed(p, st, n, Encodings(ms[..sent])) <= ch.raw.outbound
              && ch.raw.outbound <= old(ch.raw.outbound) + Sealed(p, st, n, Encodings(ms[..begun]))
    ensures ch.raw != null && ch.raw.reliable && ch.channel.pushInited && !ch.broken ==> sent == |ms|
    ensures ch.raw == null || !ch.channel.pushInited || ch.broken ==> sent == 0
  {
    hide RecordBytes, Sealed, Encodings, Encode, Encodable, Flatten;
    ghost var p, st, n := ch.channel.prims, ch.channel.tx, ch.channel.pushed;
    ghost var before := if ch.raw == null then [] else ch.raw.outbound;
    sent := 0;
    SealedNone(p, st, n, before);
    assert ms[..0] == [];
    while sent < |ms|
      invariant sent <= |ms| && ch.Valid() && ch.returned == old(ch.returned) && ch.channel.pushed == n + sent
      invariant ch.raw != null ==> ch.raw.inbound == old(ch.raw.inbound)
      invariant ch.raw != null ==> ch.raw.outbound == before + Sealed(p, st, n, Encodings(ms[..sent]))
      invariant ch.raw == null || !ch.channel.pushInited || ch.broken ==> sent == 0
    {
      var bytes := WireCodec.EncodeMessage(ms[sent]);
      SealedNext(p, st, n, before, ms, sent);
      var ok := ch.SendAll(bytes);
      if !ok {
        return sent;
      }
      sent := sent + 1;
    }
  }

  lemma SealedNone(p: Primitives, st: Stream, n: nat, before: seq<byte>)
    ensures before + Sealed(p, st, n, Encodings([])) == before
  {
  }

  lemma SealedNext(p: Primitives, st: Stream, n: nat, before: seq<byte>, ms: seq<Message>, k: nat)
    requires k < |ms|
    ensures before + Sealed(p, st, n, Encodings(ms[..k])) + RecordBytes(p.seal(st, n + k, Encode(ms[k])))
         == before + Sealed(p, st, n, Encodings(ms[..k + 1]))
  {
    hide RecordBytes, Sealed, Encode;
    assert Encodings(ms[..k]) + [Encode(ms[k])] == Encodings(ms[..k + 1]);
    SealedSnoc(p, st, n, Encodings(ms[..k]), Encode(ms[k]));
    Regroup(before, Sealed(p, st, n, Encodings(ms[..k])), RecordBytes(p.seal(st, n + k, Encode(ms[k]))));
  }

  /** Takes every complete frame out of the parser up to a DISCONNECT; `done` tells of that or of a
      terminal error. */
  method Drain(parser: FrameParser, log: seq<Message>, ghost fed: seq<byte>, ghost taken: seq<RawFrame>)
    returns (log': seq<Message>, done: bool, ghost taken': seq<RawFrame>)
    requires parser.State().Valid() && Fits(taken)
    requires fed == Printed(taken) + parser.State().Unread() && log == Messages(taken) && NoDisconnect(log)
    modifies parser
    ensures parser.State().Valid() && Fits(taken')
    ensures fed == Printed(taken') + parser.State().Unread() && log' == Messages(taken')
    ensures EndsAtDisconnect(log') && (Ended(log') || !ParseFrame(parser.State().Unread()).Got?)
    ensures done == (Ended(log') || ParseFrame(parser.State().Unread()).Bad?)
  {
    hide ParseFrame, FrameBytes, Decode, Printed, Messages;
    log', taken' := log, taken;
    while true
      invariant parser.State().Valid() && Fits(taken')
      invariant fed == Printed(taken') + parser.State().Unread() && log' == Messages(taken') && NoDisconnect(log')
      decreases |parser.State().Unread()|
    {
      NextAdvances(parser.State());
      ghost var unread := parser.State().Unread();
      var next := parser.Next();
      if !next.Got? {
        return log', next.Bad?, taken';
      }
      PrintParsed(unread);
      YieldOne(taken', unread);
      MessagesSnoc(taken', next.frame);
      taken' := taken' + [next.frame];
      var msg := WireCodec.DecodeMessage(next.frame);
      if msg.Ok? {
        log' := log' + [msg.msg];
        if msg.msg.Disconnect? {
          return log', true, taken';
        }
      }
    }
  }

  /** One turn of the receiver's loop: a read, and every frame it completed. */
  method ReceiveOnce(ch: SecureByteChannel, parser: FrameParser, log: seq<Message>, ghost taken: seq<RawFrame>)
    returns (open: bool, log': seq<Message>, ghost taken': seq<RawFrame>)
    requires ch.Valid() && ch.raw != null && parser.State().Valid() && Fits(taken)
    requires ch.returned == Printed(taken) + parser.State().Unread() && log == Messages(taken)
    requires !ParseFrame(parser.State().Unread()).Got? && NoDisconnect(log)
    modifies ch, ch.channel`pulled, ch.raw, parser
    ensures ch.Valid() && ch.raw == old(ch.raw) && ch.channel == old(ch.channel)
    ensures ch.raw.outbound == old(ch.raw.outbound)
    ensures parser.State().Valid() && Fits(taken')
    ensures ch.returned == Printed(taken') + parser.State().Unread() && log' == Messages(taken')
    ensures EndsAtDisconnect(log') && (Ended(log') || !ParseFrame(parser.State().Unread()).Got?)
    ensures open ==> !Ended(log')
    ensures ch.returned <= Flatten(ch.channel.prims.tape(ch.channel.rx))
    ensures open ==> |ch.returned| > |old(ch.returned)|
                     && ch.returned + ch.Pending() == old(ch.returned) + old(ch.Pending())
    ensures !open && ch.raw.reliable && old(ch.Pending()) != [] ==>
              Ended(log') || ParseFrame(parser.State().Unread()).Bad?
    ensures !open && ch.raw.reliable && old(ch.Pending()) == [] ==> ch.returned == old(ch.returned)
  {
    log', taken' := log, taken;
    var n, data := ch.Recv(RECV_BUFFER);
    assert old(ch.returned) + [] == old(ch.returned);
    if n <= 0 {
      return false, log', taken';
    }
    FeedKeepsUnread(parser.State(), data);
    Regroup(Printed(taken), parser.State().Unread(), data);
    Regroup(old(ch.returned), data, ch.Pending());
    parser.Feed(data);
    var bad: bool;
    log', bad, taken' := Drain(parser, log, ch.returned, taken);
    open := !bad;
  }

  /** The receiver's loop over any transport: the bytes may be cut, delayed, altered, dropped,
      repeated or invented. If the peer sealed `ms`, one record each, then the messages handed up
      are a prefix of `ms`, at most up to the first DISCONNECT; and if the transport brought the
      peer's records unharmed, they are all of `ms` up to there. */
  method ReceiveMessages(ch: SecureByteChannel, ghost ms: seq<Message>) returns (log: seq<Message>)
    requires ch.Valid() && ch.raw != null && ch.returned == [] && !ch.broken && ch.channel.pullInited
             && ch.channel.pulled == 0
    requires ch.channel.prims.Ideal() && AllEncodable(ms) && ch.channel.prims.tape(ch.channel.rx) == Encodings(ms)
    modifies ch, ch.channel`pulled, ch.raw
    ensures ch.raw == old(ch.raw) && ch.raw.outbound == old(ch.raw.outbound)
    ensures log <= UntilDisconnect(ms)
    ensures Unharmed(old(ch.raw.reliable), old(ch.channel.prims), old(ch.channel.rx), old(ch.raw.inbound), ms) ==>
              log == UntilDisconnect(ms)
  {
    hide ParseFrame, EncodeAll, UntilDisconnect, Sealed, ReadRecord, PlainFrom, HaltOf, Resumed, Flatten,
         Encodings, Printed, Messages;
    NoBytesNeedMore();
    NothingTaken();
    FlattenNone(ch.channel.prims.tape(ch.channel.rx));
    ghost var sent := EncodeAll(ms);
    ghost var honest := Unharmed(ch.raw.reliable, ch.channel.prims, ch.channel.rx, ch.raw.inbound, ms);
    EncodingsFlatten(ms);
    if honest {
      Transparent(ch.channel.prims, ch.channel.rx, ms);
      assert ch.rxPlain[ch.rxPos..] == [];
    }
    var parser := new FrameParser();
    ghost var taken: seq<RawFrame> := [];
    log := [];
    var open := true;
    while open
      invariant ch.Valid() && ch.raw == old(ch.raw) && ch.channel == old(ch.channel)
      invariant ch.raw.outbound == old(ch.raw.outbound)
      invariant fresh(parser) && parser.State().Valid() && Fits(taken)
      invariant ch.returned == Printed(taken) + parser.State().Unread() && log == Messages(taken)
      invariant EndsAtDisconnect(log) && (Ended(log) || !ParseFrame(parser.State().Unread()).Got?)
      invariant (open ==> !Ended(log)) && ch.returned <= sent
      invariant honest && open ==> ch.returned + ch.Pending() == sent
      invariant honest && !open ==>
                  ch.returned == sent || Ended(log) || ParseFrame(parser.State().Unread()).Bad?
      decreases open, |sent| - |ch.returned|
    {
      open, log, taken := ReceiveOnce(ch, parser, log, taken);
    }
    LogOfReceived(ms, ch.returned, taken, parser.State().Unread());
  }

  lemma NothingTaken()
    ensures Printed([]) == [] && Messages([]) == []
  {
  }

  /** The transport fails nothing and brings exactly the peer's records of `ms`. */
  predicate Unharmed(reliable: bool, p: Primitives, st: Stream, inbound: seq<byte>, ms: seq<Message>) {
    reliable && inbound == Sealed(p, st, 0, Encodings(ms))
  }

  /** What was taken from a cut of the encoded messages is a prefix of them, at most up to the first
      DISCONNECT; the rest never looks corrupt; and it is all of them up to there if a DISCONNECT
      was met or nothing was cut. */
  lemma LogOfReceived(ms: seq<Message>, received: seq<byte>, taken: seq<RawFrame>, unread: seq<byte>)
    requires AllEncodable(ms) && received <= EncodeAll(ms) && Fits(taken)
    requires received == Printed(taken) + unread && EndsAtDisconnect(Messages(taken))
    ensures Messages(taken) <= UntilDisconnect(ms)
    ensures Ended(Messages(taken)) ==> Messages(taken) == UntilDisconnect(ms)
    ensures !ParseFrame(unread).Got? ==> !ParseFrame(unread).Bad?
    ensures !ParseFrame(unread).Got? && received == EncodeAll(ms) ==> Messages(taken) == UntilDisconnect(ms)
  {
    FramesOfPrinted(taken, unread);
    MessagesConcat(taken, Frames(unread));
    CutStreamYieldsPrefix(ms, received);
    NeverBad(ms, received);
    if !ParseFrame(unread).Got? && received == EncodeAll(ms) {
      StreamRoundTrip(ms, []);
      assert EncodeAll(ms) + [] == EncodeAll(ms) && Messages(Frames([])) == [] && ms + [] == ms;
      assert Messages(taken) == ms;
    }
    ReadUntilDisconnect(Messages(taken), ms);
  }

  /** No cut of a stream of encoded messages looks corrupt to the parser. */
  lemma NeverBad(ms: seq<Message>, cut: seq<byte>)
    requires AllEncodable(ms) && cut <= EncodeAll(ms)
    ensures !ParseFrame(Remainder(cut)).Bad?
  {
    var lost := EncodeAll(ms)[|cut|..];
    assert EncodeAll(ms) == cut + lost && EncodeAll(ms) + [] == EncodeAll(ms);
    if ParseFrame(Remainder(cut)).Bad? {
      FramesPartition(cut);
      FramesFit(cut);
      Regroup(Printed(Frames(cut)), Remainder(cut), lost);
      FramesOfPrinted(Frames(cut), Remainder(cut) + lost);
      VerdictIsFinal(Remainder(cut), lost);
      assert Remainder(Remainder(cut) + lost) == Remainder(cut) + lost;
      MessagesOfEncoded(ms);
      FramesOfPrinted(FramesFor(ms), []);
    }
  }
}
