/** The wire protocol v1: typed messages, frames, and the pure codec and frame parser.
    The imperative reader, writer and incremental parser in WireCodec.dfy and
    FrameParser.dfy are proved against the functions of this module. */
module Wire {
  import opened Bytes

  const PROTOCOL_VERSION: u16 := 1
  const MAX_PAYLOAD: nat := 16 * 1024 * 1024
  const HEADER_SIZE: nat := 7
  const MAX_REASON: nat := 0xFFFF

  datatype Channel = Control | Video

  const HELLO: u8 := 0x01
  const WELCOME: u8 := 0x02
  const ERROR: u8 := 0x03
  const KEYFRAME_REQUEST: u8 := 0x10
  const FORMAT_CHANGE: u8 := 0x11
  const PING: u8 := 0x20
  const PONG: u8 := 0x21
  const DISCONNECT: u8 := 0x2F
  const VIDEO_FRAME: u8 := 0x01

  datatype WireError =
    | ShortBuffer
    | OversizedMessage
    | UnknownChannel
    | UnknownType
    | ReservedFlagsSet
    | BadField
    | TrailingBytes
    | UnsupportedVersion

  /** The seven fields shared, in this order and with these widths, by HELLO and WELCOME. */
  datatype Caps = Caps(version: u16, codec: u8, width: u16, height: u16, bitrate: u32, fps: u16, flags: u8)

  datatype Message =
    | Hello(caps: Caps)
    | Welcome(format: Caps)
    | ErrorMsg(code: u16, reason: seq<byte>)
    | KeyframeRequest(why: u8, lastGoodSeq: u32)
    | FormatChange(newFormat: Caps)
    | Ping(token: u64)
    | Pong(token: u64)
    | Disconnect(code: u16, reason: seq<byte>)
    | VideoFrame(codec: u8, frameType: u8, vflags: u8, pts: u64, seqno: u32, bitstream: seq<byte>)

  datatype RawFrame = RawFrame(channel: Channel, kind: u8, flags: u8, payload: seq<byte>)

  datatype Decoded = Ok(msg: Message) | Err(error: WireError)

  /** What one look at the front of a byte stream finds: `NeedMore` asks for more bytes,
      `Bad` is a terminal error, `Got` is a frame and the number of bytes it took. */
  datatype Parsed = NeedMore | Bad(error: WireError) | Got(frame: RawFrame, used: nat)

  // ---- encoding ----

  function CapsBytes(c: Caps): (s: seq<byte>)
    ensures |s| == 14
  {
    LE(2, c.version) + [c.codec] + LE(2, c.width) + LE(2, c.height) + LE(4, c.bitrate) + LE(2, c.fps) + [c.flags]
  }

  function ReasonBytes(code: u16, reason: seq<byte>): seq<byte> {
    var n := if |reason| <= MAX_REASON then |reason| else MAX_REASON;
    LE(2, code) + LE(2, n) + reason[..n]
  }

  function ChannelOf(m: Message): Channel {
    if m.VideoFrame? then Video else Control
  }

  function KindOf(m: Message): u8 {
    match m
    case Hello(_) => HELLO
    case Welcome(_) => WELCOME
    case ErrorMsg(_, _) => ERROR
    case KeyframeRequest(_, _) => KEYFRAME_REQUEST
    case FormatChange(_) => FORMAT_CHANGE
    case Ping(_) => PING
    case Pong(_) => PONG
    case Disconnect(_, _) => DISCONNECT
    case VideoFrame(_, _, _, _, _, _) => VIDEO_FRAME
  }

  function Payload(m: Message): seq<byte> {
    match m
    case Hello(c) => CapsBytes(c)
    case Welcome(c) => CapsBytes(c)
    case FormatChange(c) => CapsBytes(c)
    case ErrorMsg(code, reason) => ReasonBytes(code, reason)
    case Disconnect(code, reason) => ReasonBytes(code, reason)
    case KeyframeRequest(why, good) => [why] + LE(4, good)
    case Ping(token) => LE(8, token)
    case Pong(token) => LE(8, token)
    case VideoFrame(codec, frameType, vflags, pts, n, bits) =>
      [codec, frameType, vflags] + LE(8, pts) + LE(4, n) + bits
  }

  function ChannelByte(c: Channel): byte {
    if c.Control? then 0 else 1
  }

  /** The length field counts the three header bytes after it and is narrowed to 32 bits. */
  function FrameBytes(f: RawFrame): (s: seq<byte>)
    ensures |s| == HEADER_SIZE + |f.payload|
  {
    LE(4, (3 + |f.payload|) % U32_SIZE) + [ChannelByte(f.channel), f.kind, f.flags] + f.payload
  }

  function FrameOf(m: Message): RawFrame {
    RawFrame(ChannelOf(m), KindOf(m), 0, Payload(m))
  }

  function Encode(m: Message): seq<byte> {
    FrameBytes(FrameOf(m))
  }

  /** The messages version 1 can carry: what a caller of `Encode` can check beforehand. */
  predicate Encodable(m: Message) {
    match m
    case Hello(c) => c.version == PROTOCOL_VERSION
    case Welcome(c) => c.version == PROTOCOL_VERSION
    case FormatChange(c) => c.version == PROTOCOL_VERSION
    case ErrorMsg(_, reason) => |reason| <= MAX_REASON
    case Disconnect(_, reason) => |reason| <= MAX_REASON
    case VideoFrame(_, _, _, _, _, bits) => 15 + |bits| <= MAX_PAYLOAD
    case _ => true
  }

  // ---- decoding ----

  function CapsAt(p: seq<byte>): Caps
    requires |p| >= 14
  {
    Pow256Values();
    Caps(Field(p, 0, 2), Field(p, 2, 1), Field(p, 3, 2), Field(p, 5, 2), Field(p, 7, 4), Field(p, 11, 2),
        Field(p, 13, 1))
  }

  function DecodeCaps(kind: u8, p: seq<byte>): Decoded {
    if |p| < 14 then Err(ShortBuffer)
    else if CapsAt(p).version != PROTOCOL_VERSION then Err(UnsupportedVersion)
    else if |p| > 14 then Err(TrailingBytes)
    else if kind == HELLO then Ok(Hello(CapsAt(p)))
    else if kind == WELCOME then Ok(Welcome(CapsAt(p)))
    else Ok(FormatChange(CapsAt(p)))
  }

  function DecodeReason(kind: u8, p: seq<byte>): Decoded {
    Pow256Values();
    if |p| < 4 then Err(ShortBuffer)
    else if Field(p, 2, 2) != |p| - 4 then Err(BadField)
    else if kind == ERROR then Ok(ErrorMsg(Field(p, 0, 2), p[4..]))
    else Ok(Disconnect(Field(p, 0, 2), p[4..]))
  }

  function DecodeToken(kind: u8, p: seq<byte>): Decoded {
    Pow256Values();
    if |p| < 8 then Err(ShortBuffer)
    else if |p| > 8 then Err(TrailingBytes)
    else if kind == PING then Ok(Ping(Field(p, 0, 8)))
    else Ok(Pong(Field(p, 0, 8)))
  }

  function DecodeKeyframeRequest(p: seq<byte>): Decoded {
    Pow256Values();
    if |p| < 5 then Err(ShortBuffer)
    else if |p| > 5 then Err(TrailingBytes)
    else Ok(KeyframeRequest(Field(p, 0, 1), Field(p, 1, 4)))
  }

  function DecodeVideo(p: seq<byte>): Decoded {
    Pow256Values();
    if |p| < 15 then Err(ShortBuffer)
    else Ok(VideoFrame(Field(p, 0, 1), Field(p, 1, 1), Field(p, 2, 1), Field(p, 3, 8), Field(p, 11, 4), p[15..]))
  }

  function Decode(f: RawFrame): Decoded {
    var p := f.payload;
    if f.flags != 0 then Err(ReservedFlagsSet)
    else if f.channel.Video? then
      if f.kind != VIDEO_FRAME then Err(UnknownType) else DecodeVideo(p)
    else if f.kind in {HELLO, WELCOME, FORMAT_CHANGE} then DecodeCaps(f.kind, p)
    else if f.kind in {ERROR, DISCONNECT} then DecodeReason(f.kind, p)
    else if f.kind == KEYFRAME_REQUEST then DecodeKeyframeRequest(p)
    else if f.kind in {PING, PONG} then DecodeToken(f.kind, p)
    else Err(UnknownType)
  }

  /** One look at the front of the stream `s`. */
  function ParseFrame(s: seq<byte>): Parsed {
    if |s| < 4 then NeedMore
    else
      var length := Field(s, 0, 4);
      if length < 3 then Bad(BadField)
      else if length - 3 > MAX_PAYLOAD then Bad(OversizedMessage)
      else if |s| < 4 + length then NeedMore
      else if s[4] > 1 then Bad(UnknownChannel)
      else Got(RawFrame(if s[4] == 0 then Control else Video, s[5], s[6], s[7..4 + length]), 4 + length)
  }

  // ---- one message: the codec is a bijection ----

  lemma CapsReadBack(c: Caps)
    ensures CapsAt(CapsBytes(c)) == c
  {
    Pow256Values();
    var p := CapsBytes(c);
    ReadBack(2, c.version);
    ReadBack(2, c.width);
    ReadBack(2, c.height);
    ReadBack(4, c.bitrate);
    ReadBack(2, c.fps);
    ByteField(p, 2);
    ByteField(p, 13);
    assert p[0..2] == LE(2, c.version);
    assert p[3..5] == LE(2, c.width);
    assert p[5..7] == LE(2, c.height);
    assert p[7..11] == LE(4, c.bitrate);
    assert p[11..13] == LE(2, c.fps);
  }

  lemma CapsWriteBack(p: seq<byte>)
    requires |p| == 14
    ensures CapsBytes(CapsAt(p)) == p
  {
    Pow256Values();
    WriteBack(p[0..2]);
    WriteBack(p[3..5]);
    WriteBack(p[5..7]);
    WriteBack(p[7..11]);
    WriteBack(p[11..13]);
    ByteField(p, 2);
    ByteField(p, 13);
    assert p == p[0..2] + [p[2]] + p[3..5] + p[5..7] + p[7..11] + p[11..13] + [p[13]];
  }

  lemma ReasonReadBack(code: u16, reason: seq<byte>)
    requires |reason| <= MAX_REASON
    ensures var p := ReasonBytes(code, reason);
            |p| == 4 + |reason| && Field(p, 0, 2) == code && Field(p, 2, 2) == |reason| && p[4..] == reason
  {
    Pow256Values();
    var p := ReasonBytes(code, reason);
    ReadBack(2, code);
    ReadBack(2, |reason|);
    assert p[0..2] == LE(2, code);
    assert p[2..4] == LE(2, |reason|);
  }

  lemma ReasonWriteBack(p: seq<byte>)
    requires |p| >= 4 && Field(p, 2, 2) == |p| - 4
    ensures Field(p, 0, 2) < 0x1_0000 && |p| - 4 <= MAX_REASON
    ensures ReasonBytes(Field(p, 0, 2), p[4..]) == p
  {
    Pow256Values();
    WriteBack(p[0..2]);
    WriteBack(p[2..4]);
    assert p == p[0..2] + p[2..4] + p[4..];
  }

  lemma VideoReadBack(m: Message)
    requires m.VideoFrame?
    ensures DecodeVideo(Payload(m)) == Ok(m)
  {
    Pow256Values();
    var p := Payload(m);
    ReadBack(8, m.pts);
    ReadBack(4, m.seqno);
    ByteField(p, 0);
    ByteField(p, 1);
    ByteField(p, 2);
    assert p[3..11] == LE(8, m.pts);
    assert p[11..15] == LE(4, m.seqno);
    assert p[15..] == m.bitstream;
  }

  lemma VideoWriteBack(p: seq<byte>)
    requires |p| >= 15
    ensures Payload(DecodeVideo(p).msg) == p
  {
    Pow256Values();
    WriteBack(p[3..11]);
    WriteBack(p[11..15]);
    ByteField(p, 0);
    ByteField(p, 1);
    ByteField(p, 2);
    assert p == [p[0], p[1], p[2]] + p[3..11] + p[11..15] + p[15..];
  }

  lemma KeyframeReadBack(why: u8, good: u32)
    ensures DecodeKeyframeRequest([why] + LE(4, good)) == Ok(KeyframeRequest(why, good))
  {
    Pow256Values();
    var p := [why] + LE(4, good);
    ReadBack(4, good);
    ByteField(p, 0);
    assert p[1..5] == LE(4, good);
  }

  lemma KeyframeWriteBack(p: seq<byte>)
    requires |p| == 5
    ensures [Field(p, 0, 1)] + LE(4, Field(p, 1, 4)) == p
  {
    WriteBack(p[1..5]);
    ByteField(p, 0);
    assert p == [p[0]] + p[1..5];
  }

  lemma TokenReadBack(token: u64)
    ensures Field(LE(8, token), 0, 8) == token
  {
    Pow256Values();
    ReadBack(8, token);
    assert LE(8, token)[0..8] == LE(8, token);
  }

  lemma TokenWriteBack(p: seq<byte>)
    requires |p| == 8
    ensures LE(8, Field(p, 0, 8)) == p
  {
    assert p[0..8] == p;
    WriteBack(p);
  }

  lemma PayloadFits(m: Message)
    requires Encodable(m)
    ensures |Payload(m)| <= MAX_PAYLOAD
  {
  }

  /** Encoding then decoding gives the message back. */
  lemma DecodeEncode(m: Message)
    requires Encodable(m)
    ensures Decode(FrameOf(m)) == Ok(m)
  {
    match m
    case Hello(c) => CapsReadBack(c);
    case Welcome(c) => CapsReadBack(c);
    case FormatChange(c) => CapsReadBack(c);
    case ErrorMsg(code, reason) => ReasonReadBack(code, reason);
    case Disconnect(code, reason) => ReasonReadBack(code, reason);
    case KeyframeRequest(why, good) => KeyframeReadBack(why, good);
    case Ping(token) => TokenReadBack(token);
    case Pong(token) => TokenReadBack(token);
    case VideoFrame(_, _, _, _, _, _) => VideoReadBack(m);
  }

  /** Whatever decodes is an encodable message, and the frame is the one it encodes to. */
  lemma EncodeDecode(f: RawFrame)
    requires |f.payload| <= MAX_PAYLOAD && Decode(f).Ok?
    ensures Encodable(Decode(f).msg)
    ensures FrameOf(Decode(f).msg) == f
  {
    var p := f.payload;
    match Decode(f).msg
    case Hello(_) => CapsWriteBack(p);
    case Welcome(_) => CapsWriteBack(p);
    case FormatChange(_) => CapsWriteBack(p);
    case ErrorMsg(_, _) => ReasonWriteBack(p);
    case Disconnect(_, _) => ReasonWriteBack(p);
    case KeyframeRequest(_, _) => KeyframeWriteBack(p);
    case Ping(_) => TokenWriteBack(p);
    case Pong(_) => TokenWriteBack(p);
    case VideoFrame(_, _, _, _, _, _) => VideoWriteBack(p);
  }

  // ---- one frame: parsing inverts printing, and nothing else is accepted ----

  lemma FrameLayout(len: seq<byte>, header: seq<byte>, payload: seq<byte>, rest: seq<byte>)
    requires |len| == 4 && |header| == 3
    ensures var s := len + header + payload + rest;
            && s[0..4] == len
            && s[4] == header[0] && s[5] == header[1] && s[6] == header[2]
            && s[7..7 + |payload|] == payload
  {
  }

  lemma ParseAtFront(s: seq<byte>, f: RawFrame)
    requires |f.payload| <= MAX_PAYLOAD && |s| >= HEADER_SIZE + |f.payload|
    requires Field(s, 0, 4) == 3 + |f.payload|
    requires s[4] == ChannelByte(f.channel) && s[5] == f.kind && s[6] == f.flags
    requires s[7..7 + |f.payload|] == f.payload
    ensures ParseFrame(s) == Got(f, HEADER_SIZE + |f.payload|)
  {
  }

  lemma ParsePrinted(f: RawFrame, rest: seq<byte>)
    requires |f.payload| <= MAX_PAYLOAD
    ensures ParseFrame(FrameBytes(f) + rest) == Got(f, |FrameBytes(f)|)
  {
    hide LE, FromLE, Pow256, ParseFrame;
    Pow256Values();
    var len := LE(4, 3 + |f.payload|);
    var header := [ChannelByte(f.channel), f.kind, f.flags];
    ReadBack(4, 3 + |f.payload|);
    FrameLayout(len, header, f.payload, rest);
    ParseAtFront(len + header + f.payload + rest, f);
  }

  lemma FrameSplit(s: seq<byte>, used: nat)
    requires 7 <= used <= |s|
    ensures s[..used] == s[0..4] + [s[4], s[5], s[6]] + s[7..used]
  {
  }

  lemma PrintParsed(s: seq<byte>)
    requires ParseFrame(s).Got?
    ensures var Got(f, used) := ParseFrame(s);
            |f.payload| <= MAX_PAYLOAD && used <= |s| && FrameBytes(f) == s[..used]
  {
    hide LE, FromLE, Pow256;
    Pow256Values();
    var Got(f, used) := ParseFrame(s);
    WriteBack(s[0..4]);
    FrameSplit(s, used);
  }

  lemma NoBytesNeedMore()
    ensures ParseFrame([]).NeedMore?
  {
  }

  /** A verdict other than `NeedMore` is final: later bytes cannot change it. */
  lemma VerdictIsFinal(s: seq<byte>, more: seq<byte>)
    requires !ParseFrame(s).NeedMore?
    ensures ParseFrame(s + more) == ParseFrame(s)
  {
    assert (s + more)[0..4] == s[0..4];
    var length := Field(s, 0, 4);
    if ParseFrame(s).Got? {
      assert (s + more)[7..4 + length] == s[7..4 + length];
    }
  }

  /** The whole codec on raw bytes, exactly: a message survives encoding, framing, parsing
      and decoding (whatever follows it) if and only if it is encodable. */
  lemma SurvivesIffEncodable(m: Message, rest: seq<byte>)
    ensures var p := ParseFrame(Encode(m) + rest);
            Encodable(m) <==> p.Got? && Decode(p.frame) == Ok(m)
  {
    if Encodable(m) {
      PayloadFits(m);
      DecodeEncode(m);
      ParsePrinted(FrameOf(m), rest);
    } else {
      var p := ParseFrame(Encode(m) + rest);
      if p.Got? && Decode(p.frame) == Ok(m) {
        PrintParsed(Encode(m) + rest);
        EncodeDecode(p.frame);
      }
    }
  }

  /** Every accepted run of bytes is exactly the encoding of the message it was read as. */
  lemma AcceptedBytesAreCanonical(s: seq<byte>)
    requires ParseFrame(s).Got? && Decode(ParseFrame(s).frame).Ok?
    ensures var Got(f, used) := ParseFrame(s);
            used <= |s| && Encode(Decode(f).msg) == s[..used]
  {
    PrintParsed(s);
    EncodeDecode(ParseFrame(s).frame);
  }

  // ---- the whole stream ----

  /** All frames at the front of `s`, and what is left once none can be taken. */
  function Frames(s: seq<byte>): seq<RawFrame>
    decreases |s|
  {
    match ParseFrame(s)
    case Got(f, used) => PrintParsed(s); [f] + Frames(s[used..])
    case _ => []
  }

  function Remainder(s: seq<byte>): seq<byte>
    decreases |s|
  {
    match ParseFrame(s)
    case Got(f, used) => PrintParsed(s); Remainder(s[used..])
    case _ => s
  }

  function Printed(frames: seq<RawFrame>): seq<byte> {
    if frames == [] then [] else FrameBytes(frames[0]) + Printed(frames[1..])
  }

  predicate Fits(frames: seq<RawFrame>) {
    forall f :: f in frames ==> |f.payload| <= MAX_PAYLOAD
  }

  lemma PrintedCons(f: RawFrame, fs: seq<RawFrame>)
    ensures Printed([f] + fs) == FrameBytes(f) + Printed(fs)
  {
    assert ([f] + fs)[1..] == fs;
  }

  lemma {:induction false} PrintedConcat(a: seq<RawFrame>, b: seq<RawFrame>)
    ensures Printed(a + b) == Printed(a) + Printed(b)
  {
    if a == [] {
      assert a + b == b;
    } else {
      PrintedConcat(a[1..], b);
      assert (a + b)[1..] == a[1..] + b;
      Regroup(FrameBytes(a[0]), Printed(a[1..]), Printed(b));
    }
  }

  lemma FramesStep(front: seq<byte>, f: RawFrame, tail: seq<byte>)
    requires ParseFrame(front + tail) == Got(f, |front|)
    ensures Frames(front + tail) == [f] + Frames(tail)
    ensures Remainder(front + tail) == Remainder(tail)
  {
    assert (front + tail)[|front|..] == tail;
  }

  lemma FramesOfOne(f: RawFrame, tail: seq<byte>)
    requires |f.payload| <= MAX_PAYLOAD
    ensures Frames(FrameBytes(f) + tail) == [f] + Frames(tail)
    ensures Remainder(FrameBytes(f) + tail) == Remainder(tail)
  {
    ParsePrinted(f, tail);
    FramesStep(FrameBytes(f), f, tail);
  }

  lemma FramesOfCons(f: RawFrame, fs: seq<RawFrame>, rest: seq<byte>)
    requires |f.payload| <= MAX_PAYLOAD
    ensures Frames(Printed([f] + fs) + rest) == [f] + Frames(Printed(fs) + rest)
    ensures Remainder(Printed([f] + fs) + rest) == Remainder(Printed(fs) + rest)
  {
    PrintedCons(f, fs);
    Regroup(FrameBytes(f), Printed(fs), rest);
    FramesOfOne(f, Printed(fs) + rest);
  }

  /** Parsing what was printed: the frames come back, and the bytes behind them go on as
      if they stood alone. */
  lemma {:induction false} FramesOfPrinted(frames: seq<RawFrame>, rest: seq<byte>)
    requires Fits(frames)
    ensures Frames(Printed(frames) + rest) == frames + Frames(rest)
    ensures Remainder(Printed(frames) + rest) == Remainder(rest)
  {
    if frames == [] {
      assert Printed(frames) + rest == rest;
    } else {
      FramesOfPrinted(frames[1..], rest);
      FramesOfCons(frames[0], frames[1..], rest);
      assert frames == [frames[0]] + frames[1..];
      Regroup([frames[0]], frames[1..], Frames(rest));
    }
  }

  lemma {:induction false} FramesFit(s: seq<byte>)
    ensures Fits(Frames(s))
    decreases |s|
  {
    if ParseFrame(s).Got? {
      PrintParsed(s);
      FramesFit(s[ParseFrame(s).used..]);
    }
  }

  lemma {:induction false} RemainderHasNoFrame(s: seq<byte>)
    ensures !ParseFrame(Remainder(s)).Got?
    decreases |s|
  {
    if ParseFrame(s).Got? {
      PrintParsed(s);
      RemainderHasNoFrame(s[ParseFrame(s).used..]);
    }
  }

  /** Nothing is lost or invented: the frames and the remainder are the stream. */
  lemma {:induction false} FramesPartition(s: seq<byte>)
    ensures Printed(Frames(s)) + Remainder(s) == s
    decreases |s|
  {
    hide ParseFrame, FrameBytes, Printed, Frames, Remainder;
    FramesUnfold(s);
    if ParseFrame(s).Got? {
      var Got(f, used) := ParseFrame(s);
      PrintParsed(s);
      var tail := s[used..];
      FramesPartition(tail);
      PrintedCons(f, Frames(tail));
      Regroup(FrameBytes(f), Printed(Frames(tail)), Remainder(tail));
      assert s == s[..used] + tail;
    }
  }

  lemma FramesUnfold(s: seq<byte>)
    ensures ParseFrame(s).Got? ==>
              && ParseFrame(s).used <= |s|
              && Frames(s) == [ParseFrame(s).frame] + Frames(s[ParseFrame(s).used..])
              && Remainder(s) == Remainder(s[ParseFrame(s).used..])
    ensures !ParseFrame(s).Got? ==> Frames(s) == [] && Printed(Frames(s)) == [] && Remainder(s) == s
  {
    hide ParseFrame;
    if ParseFrame(s).Got? {
      PrintParsed(s);
    }
  }

  function MessageIn(f: RawFrame): seq<Message> {
    match Decode(f) case Ok(m) => [m] case Err(_) => []
  }

  /** The messages among the frames: a frame that does not decode is skipped. */
  function Messages(frames: seq<RawFrame>): seq<Message> {
    if frames == [] then [] else MessageIn(frames[0]) + Messages(frames[1..])
  }

  lemma {:induction false} MessagesConcat(a: seq<RawFrame>, b: seq<RawFrame>)
    ensures Messages(a + b) == Messages(a) + Messages(b)
  {
    if a == [] {
      assert a + b == b;
    } else {
      MessagesConcat(a[1..], b);
      assert (a + b)[1..] == a[1..] + b;
      Regroup(MessageIn(a[0]), Messages(a[1..]), Messages(b));
    }
  }

  lemma MessagesSnoc(taken: seq<RawFrame>, f: RawFrame)
    ensures Messages(taken + [f]) == Messages(taken) + MessageIn(f)
  {
    hide MessageIn;
    MessagesConcat(taken, [f]);
    assert Messages([f]) == MessageIn(f) + Messages([]);
  }

  lemma PrintedSnoc(taken: seq<RawFrame>, f: RawFrame)
    ensures Printed(taken + [f]) == Printed(taken) + FrameBytes(f)
  {
    hide FrameBytes;
    PrintedConcat(taken, [f]);
    assert Printed([f]) == FrameBytes(f) + Printed([]);
  }

  function FramesFor(ms: seq<Message>): seq<RawFrame> {
    seq(|ms|, i requires 0 <= i < |ms| => FrameOf(ms[i]))
  }

  function EncodeAll(ms: seq<Message>): seq<byte> {
    Printed(FramesFor(ms))
  }

  predicate AllEncodable(ms: seq<Message>) {
    forall m :: m in ms ==> Encodable(m)
  }

  lemma {:induction false} MessagesOfEncoded(ms: seq<Message>)
    requires AllEncodable(ms)
    ensures Fits(FramesFor(ms)) && Messages(FramesFor(ms)) == ms
  {
    forall m | m in ms
      ensures |FrameOf(m).payload| <= MAX_PAYLOAD
    {
      PayloadFits(m);
    }
    if ms != [] {
      DecodeEncode(ms[0]);
      MessagesOfEncoded(ms[1..]);
      assert FramesFor(ms) == [FrameOf(ms[0])] + FramesFor(ms[1..]);
    }
  }

  /** A stream of encoded messages is read back as exactly those messages. */
  lemma StreamRoundTrip(ms: seq<Message>, rest: seq<byte>)
    requires AllEncodable(ms)
    ensures Messages(Frames(EncodeAll(ms) + rest)) == ms + Messages(Frames(rest))
    ensures Remainder(EncodeAll(ms) + rest) == Remainder(rest)
  {
    MessagesOfEncoded(ms);
    FramesOfPrinted(FramesFor(ms), rest);
    MessagesConcat(FramesFor(ms), Frames(rest));
  }

  // ---- the end of a conversation ----

  /** The messages up to the first DISCONNECT, the last one a session takes notice of. */
  function UntilDisconnect(ms: seq<Message>): seq<Message> {
    if ms == [] then []
    else if ms[0].Disconnect? then [ms[0]]
    else [ms[0]] + UntilDisconnect(ms[1..])
  }

  predicate NoDisconnect(ms: seq<Message>) {
    forall i :: 0 <= i < |ms| ==> !ms[i].Disconnect?
  }

  /** The messages end with a DISCONNECT. */
  predicate Ended(ms: seq<Message>) {
    ms != [] && ms[|ms| - 1].Disconnect?
  }

  /** A DISCONNECT can only be the last of the messages. */
  predicate EndsAtDisconnect(ms: seq<Message>) {
    forall i :: 0 <= i < |ms| - 1 ==> !ms[i].Disconnect?
  }

  /** Reading that stops at a DISCONNECT reads at most the messages up to the first, and exactly
      those if it met one or read everything. */
  lemma {:induction false} ReadUntilDisconnect(log: seq<Message>, ms: seq<Message>)
    requires log <= ms && EndsAtDisconnect(log)
    ensures log <= UntilDisconnect(ms)
    ensures Ended(log) || log == ms ==> log == UntilDisconnect(ms)
  {
    if log != [] {
      assert log[0] == ms[0] && log == [log[0]] + log[1..] && ms == [ms[0]] + ms[1..];
      if log[0].Disconnect? {
        assert log == [log[0]];
      } else {
        ReadUntilDisconnect(log[1..], ms[1..]);
      }
    }
  }
}
