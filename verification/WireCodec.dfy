/** The imperative half of the codec: the byte writer, the error-latching byte reader, and the
    encode and decode routines built on them, each proved to compute its function in Wire.dfy. */
module WireCodec {
  import opened Bytes
  import opened Wire

  /** Appends little-endian fields to a growing byte vector. */
  class ByteWriter {
    var out: seq<byte>

    constructor ()
      ensures out == []
    {
      out := [];
    }

    method U8(v: u8)
      modifies this
      ensures out == old(out) + [v]
    {
      out := out + [v];
    }

    method U16(v: u16)
      modifies this
      ensures out == old(out) + LE(2, v)
    {
      U8(v % 256);
      U8(v / 256 % 256);
      assert LE(2, v) == [v % 256] + LE(1, v / 256);
    }

    method U32(v: u32)
      modifies this
      ensures out == old(out) + LE(4, v)
    {
      for i := 0 to 4
        invariant out == old(out) + LE(i, v)
      {
        LESnoc(i, v);
        U8(v / Pow256(i) % 256);
      }
    }

    method U64(v: u64)
      modifies this
      ensures out == old(out) + LE(8, v)
    {
      for i := 0 to 8
        invariant out == old(out) + LE(i, v)
      {
        LESnoc(i, v);
        U8(v / Pow256(i) % 256);
      }
    }

    method Write(b: seq<byte>)
      modifies this
      ensures out == old(out) + b
    {
      out := out + b;
    }
  }

  /** Reads little-endian fields. The first read past the end latches `error`; from then on
      every read moves nothing and returns zero. */
  class ByteReader {
    const data: seq<byte>
    var pos: nat
    var error: bool

    ghost predicate Valid()
      reads this
    {
      pos <= |data|
    }

    constructor (data: seq<byte>)
      ensures Valid() && this.data == data && pos == 0 && !error
    {
      this.data := data;
      pos, error := 0, false;
    }

    function Remaining(): (n: nat)
      requires Valid()
      reads this
    {
      if error then 0 else |data| - pos
    }

    method Ensure(n: nat) returns (ok: bool)
      requires Valid()
      modifies this`error
      ensures Valid() && ok == !error
      ensures error == (old(error) || |data| - pos < n)
    {
      if error {
        return false;
      }
      if |data| - pos < n {
        error := true;
        return false;
      }
      return true;
    }

    /** What every fixed-width read promises, for a field of `n` bytes. */
    twostate predicate HasRead(n: nat, v: nat)
      reads this
    {
      && old(Valid()) && Valid()
      && error == (old(error) || |data| - old(pos) < n)
      && (error ==> pos == old(pos) && v == 0)
      && (!error ==> pos == old(pos) + n && v == Field(data, old(pos), n))
    }

    method U8() returns (v: u8)
      requires Valid()
      modifies this
      ensures HasRead(1, v)
    {
      var ok := Ensure(1);
      if !ok {
        return 0;
      }
      ByteField(data, pos);
      v, pos := data[pos], pos + 1;
    }

    method U16() returns (v: u16)
      requires Valid()
      modifies this
      ensures HasRead(2, v)
    {
      var ok := Ensure(2);
      if !ok {
        return 0;
      }
      var low: int, high: int := data[pos], data[pos + 1];
      v := low + high * 256;
      assert data[pos..pos + 2] == [data[pos]] + [data[pos + 1]];
      FromLESnoc([data[pos]], data[pos + 1]);
      pos := pos + 2;
    }

    method U32() returns (v: u32)
      requires Valid()
      modifies this
      ensures HasRead(4, v)
    {
      var ok := Ensure(4);
      if !ok {
        return 0;
      }
      v := ReadLoop(4);
    }

    method U64() returns (v: u64)
      requires Valid()
      modifies this
      ensures HasRead(8, v)
    {
      var ok := Ensure(8);
      if !ok {
        return 0;
      }
      v := ReadLoop(8);
    }

    /** The shift-and-or loop of the 32- and 64-bit reads. */
    method ReadLoop(n: nat) returns (v: nat)
      requires Valid() && !error && n in {4, 8} && pos + n <= |data|
      modifies this`pos
      ensures Valid() && pos == old(pos) + n && v == Field(data, old(pos), n)
      ensures v < (if n == 4 then U32_SIZE else U32_SIZE * U32_SIZE)
    {
      v := 0;
      for i := 0 to n
        invariant pos == old(pos) && v == FromLE(data[pos..pos + i])
      {
        FromLESnoc(data[pos..pos + i], data[pos + i]);
        assert data[pos..pos + i] + [data[pos + i]] == data[pos..pos + i + 1];
        v := v + data[pos + i] * Pow256(i);
      }
      FromLEBound(data[pos..pos + n]);
      Pow256Values();
      pos := pos + n;
    }

    method Take(n: nat) returns (v: seq<byte>)
      requires Valid()
      modifies this
      ensures Valid()
      ensures error == (old(error) || |data| - old(pos) < n)
      ensures error ==> pos == old(pos) && v == []
      ensures !error ==> pos == old(pos) + n && v == data[old(pos)..pos]
    {
      var ok := Ensure(n);
      if !ok {
        return [];
      }
      v, pos := data[pos..pos + n], pos + n;
    }
  }

  // ---- encoding ----

  lemma RegroupFields(o: seq<byte>, a: seq<byte>, b: seq<byte>, c: seq<byte>, d: seq<byte>, e: seq<byte>, f: seq<byte>,
                      g: seq<byte>)
    ensures o + a + b + c + d + e + f + g == o + (a + b + c + d + e + f + g)
  {
  }

  method PutCaps(w: ByteWriter, c: Caps)
    modifies w
    ensures w.out == old(w.out) + CapsBytes(c)
  {
    w.U16(c.version);
    w.U8(c.codec);
    w.U16(c.width);
    w.U16(c.height);
    w.U32(c.bitrate);
    w.U16(c.fps);
    w.U8(c.flags);
    RegroupFields(old(w.out), LE(2, c.version), [c.codec], LE(2, c.width), LE(2, c.height), LE(4, c.bitrate),
        LE(2, c.fps),
      [c.flags]);
  }

  method PutReason(w: ByteWriter, code: u16, reason: seq<byte>)
    modifies w
    ensures w.out == old(w.out) + ReasonBytes(code, reason)
  {
    var n := if |reason| <= MAX_REASON then |reason| else MAX_REASON;
    w.U16(code);
    w.U16(n);
    w.Write(reason[..n]);
  }

  lemma RegroupVideo(o: seq<byte>, a: byte, b: byte, c: byte, d: seq<byte>, e: seq<byte>, f: seq<byte>)
    ensures o + [a] + [b] + [c] + d + e + f == o + ([a, b, c] + d + e + f)
  {
  }

  method PutVideo(w: ByteWriter, m: Message)
    requires m.VideoFrame?
    modifies w
    ensures w.out == old(w.out) + Payload(m)
  {
    w.U8(m.codec);
    w.U8(m.frameType);
    w.U8(m.vflags);
    w.U64(m.pts);
    w.U32(m.seqno);
    w.Write(m.bitstream);
    RegroupVideo(old(w.out), m.codec, m.frameType, m.vflags, LE(8, m.pts), LE(4, m.seqno), m.bitstream);
  }

  method BodyOf(m: Message) returns (channel: Channel, kind: u8, payload: seq<byte>)
    ensures RawFrame(channel, kind, 0, payload) == FrameOf(m)
  {
    var w := new ByteWriter();
    channel := Control;
    match m {
      case Hello(c) =>
        kind := HELLO;
        PutCaps(w, c);
      case Welcome(c) =>
        kind := WELCOME;
        PutCaps(w, c);
      case FormatChange(c) =>
        kind := FORMAT_CHANGE;
        PutCaps(w, c);
      case ErrorMsg(code, reason) =>
        kind := ERROR;
        PutReason(w, code, reason);
      case Disconnect(code, reason) =>
        kind := DISCONNECT;
        PutReason(w, code, reason);
      case KeyframeRequest(why, good) =>
        kind := KEYFRAME_REQUEST;
        w.U8(why);
        w.U32(good);
      case Ping(token) =>
        kind := PING;
        w.U64(token);
      case Pong(token) =>
        kind := PONG;
        w.U64(token);
      case VideoFrame(codec, frameType, vflags, pts, n, bits) =>
        channel, kind := Video, VIDEO_FRAME;
        PutVideo(w, m);
    }
    payload := w.out;
  }

  method EncodeFrame(channel: Channel, kind: u8, payload: seq<byte>) returns (out: seq<byte>)
    ensures out == FrameBytes(RawFrame(channel, kind, 0, payload))
  {
    var w := new ByteWriter();
    w.U32((3 + |payload|) % U32_SIZE);
    w.U8(ChannelByte(channel));
    w.U8(kind);
    w.U8(0);
    w.Write(payload);
    out := w.out;
  }

  method EncodeMessage(m: Message) returns (out: seq<byte>)
    ensures out == Encode(m)
  {
    var channel, kind, payload := BodyOf(m);
    out := EncodeFrame(channel, kind, payload);
  }

  // ---- decoding ----

  method ReadCaps(r: ByteReader) returns (ok: bool, c: Caps)
    requires r.Valid() && r.pos == 0 && !r.error
    modifies r
    ensures r.Valid() && ok == !r.error == (|r.data| >= 14)
    ensures ok ==> r.pos == 14 && c == CapsAt(r.data)
  {
    var version := r.U16();
    var codec := r.U8();
    var width := r.U16();
    var height := r.U16();
    var bitrate := r.U32();
    var fps := r.U16();
    var flags := r.U8();
    c := Caps(version, codec, width, height, bitrate, fps, flags);
    ok := !r.error;
  }

  /** The check every fixed-size body ends with: all read, nothing left. */
  method Finish(r: ByteReader, m: Message) returns (d: Decoded)
    requires r.Valid()
    ensures d == if r.error then Err(ShortBuffer) else if r.pos < |r.data| then Err(TrailingBytes) else Ok(m)
  {
    if r.error {
      return Err(ShortBuffer);
    }
    if r.Remaining() != 0 {
      return Err(TrailingBytes);
    }
    return Ok(m);
  }

  method DecodeCapsBody(r: ByteReader, kind: u8) returns (d: Decoded)
    requires r.Valid() && r.pos == 0 && !r.error && kind in {HELLO, WELCOME, FORMAT_CHANGE}
    modifies r
    ensures d == DecodeCaps(kind, r.data)
  {
    var ok, c := ReadCaps(r);
    if !ok {
      return Err(ShortBuffer);
    }
    if c.version != PROTOCOL_VERSION {
      return Err(UnsupportedVersion);
    }
    d := Finish(r, if kind == HELLO then Hello(c) else if kind == WELCOME then Welcome(c) else FormatChange(c));
  }

  method DecodeReasonBody(r: ByteReader, kind: u8) returns (d: Decoded)
    requires r.Valid() && r.pos == 0 && !r.error && kind in {ERROR, DISCONNECT}
    modifies r
    ensures d == DecodeReason(kind, r.data)
  {
    var code := r.U16();
    var reasonLen := r.U16();
    if r.error {
      return Err(ShortBuffer);
    }
    if r.Remaining() != reasonLen {
      return Err(BadField);
    }
    var reason := r.Take(reasonLen);
    assert reason == r.data[4..];
    d := Finish(r, if kind == ERROR then ErrorMsg(code, reason) else Disconnect(code, reason));
  }

  method DecodeFixedBody(r: ByteReader, kind: u8) returns (d: Decoded)
    requires r.Valid() && r.pos == 0 && !r.error && kind in {KEYFRAME_REQUEST, PING, PONG}
    modifies r
    ensures d == if kind == KEYFRAME_REQUEST then DecodeKeyframeRequest(r.data) else DecodeToken(kind, r.data)
  {
    if kind == KEYFRAME_REQUEST {
      var why := r.U8();
      var good := r.U32();
      d := Finish(r, KeyframeRequest(why, good));
    } else {
      var token := r.U64();
      d := Finish(r, if kind == PING then Ping(token) else Pong(token));
    }
  }

  method DecodeVideoBody(r: ByteReader) returns (d: Decoded)
    requires r.Valid() && r.pos == 0 && !r.error
    modifies r
    ensures d == DecodeVideo(r.data)
  {
    var codec := r.U8();
    var frameType := r.U8();
    var vflags := r.U8();
    var pts := r.U64();
    var n := r.U32();
    if r.error {
      return Err(ShortBuffer);
    }
    var bits := r.Take(r.Remaining());
    assert bits == r.data[15..];
    return Ok(VideoFrame(codec, frameType, vflags, pts, n, bits));
  }

  method DecodeMessage(f: RawFrame) returns (d: Decoded)
    ensures d == Decode(f)
  {
    if f.flags != 0 {
      return Err(ReservedFlagsSet);
    }
    var r := new ByteReader(f.payload);
    if f.channel == Control {
      if f.kind in {HELLO, WELCOME, FORMAT_CHANGE} {
        d := DecodeCapsBody(r, f.kind);
      } else if f.kind in {ERROR, DISCONNECT} {
        d := DecodeReasonBody(r, f.kind);
      } else if f.kind in {KEYFRAME_REQUEST, PING, PONG} {
        d := DecodeFixedBody(r, f.kind);
      } else {
        d := Err(UnknownType);
      }
    } else if f.kind != VIDEO_FRAME {
      d := Err(UnknownType);
    } else {
      d := DecodeVideoBody(r);
    }
  }
}
