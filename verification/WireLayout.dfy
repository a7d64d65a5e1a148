/** The wire protocol in numbers: every byte of every message, and every verdict of the parser and
    the decoder in terms of the bytes they are given. */
module WireLayout {
  import opened Bytes
  import opened Wire

  lemma Framed(m: Message, length: nat)
    requires |Payload(m)| + 3 == length < U32_SIZE
    ensures Encode(m) == LE(4, length) + [if m.VideoFrame? then 1 else 0, KindOf(m), 0] + Payload(m)
  {
    hide Payload, LE, KindOf;
  }

  lemma SmallLength(n: u8)
    ensures LE(4, n) == [n, 0, 0, 0]
  {
    FourBytesOf(n);
  }

  /** The fourteen bytes shared by HELLO, WELCOME and FORMAT_CHANGE, behind the header. */
  lemma CapsLayout(m: Message)
    requires m.Hello? || m.Welcome? || m.FormatChange?
    ensures var c := if m.Hello? then m.caps else if m.Welcome? then m.format else m.newFormat;
            var kind := if m.Hello? then 0x01 else if m.Welcome? then 0x02 else 0x11;
            Encode(m) == [17, 0, 0, 0] + [0, kind, 0]
                         + (LE(2, c.version) + [c.codec] + LE(2, c.width) + LE(2, c.height)
                            + LE(4, c.bitrate) + LE(2, c.fps) + [c.flags])
  {
    SmallLength(17);
    Framed(m, 17);
  }

  /** PING, PONG and KEYFRAME_REQUEST. */
  lemma SmallLayout(m: Message)
    ensures m.Ping? ==> Encode(m) == [11, 0, 0, 0] + [0, 0x20, 0] + LE(8, m.token)
    ensures m.Pong? ==> Encode(m) == [11, 0, 0, 0] + [0, 0x21, 0] + LE(8, m.token)
    ensures m.KeyframeRequest? ==> Encode(m) == [8, 0, 0, 0] + [0, 0x10, 0] + ([m.why] + LE(4, m.lastGoodSeq))
  {
    SmallLength(11);
    SmallLength(8);
    if m.Ping? || m.Pong? {
      Framed(m, 11);
    } else if m.KeyframeRequest? {
      Framed(m, 8);
    }
  }

  /** ERROR and DISCONNECT: the reason is cut to 65535 bytes. */
  lemma ReasonLayout(m: Message)
    requires m.ErrorMsg? || m.Disconnect?
    ensures var n := if |m.reason| <= 65535 then |m.reason| else 65535;
            Encode(m) == LE(4, 7 + n) + [0, if m.ErrorMsg? then 0x03 else 0x2F, 0]
                         + (LE(2, m.code) + LE(2, n) + m.reason[..n])
  {
    var n := if |m.reason| <= 65535 then |m.reason| else 65535;
    Framed(m, 7 + n);
  }

  lemma VideoLayout(m: Message)
    requires m.VideoFrame? && |m.bitstream| <= 16777201
    ensures Encode(m) == LE(4, 18 + |m.bitstream|) + [1, 0x01, 0]
                         + ([m.codec, m.frameType, m.vflags] + LE(8, m.pts) + LE(4, m.seqno) + m.bitstream)
  {
    Framed(m, 18 + |m.bitstream|);
  }

  /** Exactly which messages survive encoding, parsing and decoding, in numbers: version 1, a reason
      of at most 65535 bytes, a bitstream that leaves the payload at most 16777216 bytes. */
  lemma SurvivesIff(m: Message, rest: seq<byte>)
    ensures var p := ParseFrame(Encode(m) + rest);
            p.Got? && Decode(p.frame) == Ok(m) <==>
              (match m
               case Hello(c) => c.version == 1
               case Welcome(c) => c.version == 1
               case FormatChange(c) => c.version == 1
               case ErrorMsg(_, reason) => |reason| <= 65535
               case Disconnect(_, reason) => |reason| <= 65535
               case VideoFrame(_, _, _, _, _, bits) => 15 + |bits| <= 16777216
               case _ => true)
  {
    SurvivesIffEncodable(m, rest);
    hide ParseFrame, Decode, Encode;
  }

  // ---- the parser ----

  /** The length field of a header. */
  function LengthIn(s: seq<byte>): nat
    requires |s| >= 4
  {
    s[0] as int + 0x100 * s[1] as int + 0x1_0000 * s[2] as int + 0x100_0000 * s[3] as int
  }

  /** Every verdict of the parser. A length below 3 or above 16 MiB + 3 is refused before the rest of
      the frame has come, an unknown channel only after. */
  lemma ParserVerdicts(s: seq<byte>)
    ensures ParseFrame(s) == Bad(BadField) <==> |s| >= 4 && LengthIn(s) < 3
    ensures ParseFrame(s) == Bad(OversizedMessage) <==> |s| >= 4 && LengthIn(s) > 16777219
    ensures ParseFrame(s) == Bad(UnknownChannel) <==>
              |s| >= 4 && 3 <= LengthIn(s) <= 16777219 && |s| >= 4 + LengthIn(s) && s[4] > 1
    ensures ParseFrame(s).Got? <==>
              |s| >= 4 && 3 <= LengthIn(s) <= 16777219 && |s| >= 4 + LengthIn(s) && s[4] <= 1
    ensures ParseFrame(s).Got? ==>
              ParseFrame(s) == Got(RawFrame(if s[4] == 0 then Control else Video, s[5], s[6], s[7..4 + LengthIn(s)]),
                                   4 + LengthIn(s))
    ensures ParseFrame(s).Bad? ==> ParseFrame(s).error in {BadField, OversizedMessage, UnknownChannel}
  {
    if |s| >= 4 {
      FourBytes(s, s[0], s[1], s[2], s[3]);
    }
  }

  // ---- the decoder ----

  /** The number in the two bytes at `at`. */
  function Short(p: seq<byte>, at: nat): nat
    requires at + 2 <= |p|
  {
    p[at] as int + 0x100 * p[at + 1] as int
  }

  predicate Known(f: RawFrame) {
    if f.channel.Video? then f.kind == 0x01
    else f.kind in {0x01, 0x02, 0x03, 0x10, 0x11, 0x20, 0x21, 0x2F}
  }

  predicate HasVersion(f: RawFrame) {
    f.channel.Control? && f.kind in {0x01, 0x02, 0x11}
  }

  predicate HasReason(f: RawFrame) {
    f.channel.Control? && f.kind in {0x03, 0x2F}
  }

  /** The number of payload bytes a known message has at least. */
  function LeastSize(f: RawFrame): nat {
    if f.channel.Video? then 15
    else if HasReason(f) then 4
    else if HasVersion(f) then 14
    else if f.kind == 0x10 then 5
    else 8
  }

  /** Every error of the decoder, in the order of its checks: reserved flags, unknown type, too few
      bytes, a version other than 1, a reason of another length than stated, too many bytes. */
  lemma DecoderVerdicts(f: RawFrame)
    ensures var p, d := f.payload, Decode(f);
            && (d == Err(ReservedFlagsSet) <==> f.flags != 0)
            && (d == Err(UnknownType) <==> f.flags == 0 && !Known(f))
            && (d == Err(ShortBuffer) <==> f.flags == 0 && Known(f) && |p| < LeastSize(f))
            && (d == Err(UnsupportedVersion) <==>
                  f.flags == 0 && HasVersion(f) && |p| >= 14 && Short(p, 0) != 1)
            && (d == Err(BadField) <==>
                  f.flags == 0 && HasReason(f) && |p| >= 4 && Short(p, 2) != |p| - 4)
            && (d == Err(TrailingBytes) <==>
                  && f.flags == 0 && Known(f) && !HasReason(f) && f.channel.Control? && |p| > LeastSize(f)
                  && (HasVersion(f) ==> Short(p, 0) == 1))
            && (d.Err? ==>
                  d.error in {ReservedFlagsSet, UnknownType, ShortBuffer, UnsupportedVersion, BadField, TrailingBytes})
  {
    var p := f.payload;
    if |p| >= 4 {
      TwoBytes(p, 0);
      TwoBytes(p, 2);
    }
  }
}
