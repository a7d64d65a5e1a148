/** The live streaming session as interleaved threads. One step is one access to shared state:
    the running flag, the forced-keyframe flag, the frame counter, the send mutex, the channel. */
module Session {
  import opened Bytes
  import opened Wire

  const RECV_BUFFER: nat := 64 * 1024
  const CODEC_MASK: u8 := 3

  datatype Setup = Setup(h264: bool, width: u32, height: u32, fps: u32, target: u32, max: u32)

  datatype Packet = Packet(keyframe: bool, data: seq<byte>)

  /** The session's own threads, the callers of Stop, and the network. */
  datatype Thread = Runner | Reader | Capturer | Stopper | Network

  /** What the scheduler and the environment decide at a step: whether a call succeeds, whether a
      write has to wait for the peer, how many bytes a call handles, what arrives, what the encoder
      emits. */
  datatype Choice = Choice(
    ok: bool, stall: bool, amount: nat, bytes: seq<byte>, packets: seq<Packet>, timestamp: u64)

  /** Where a thread stands inside Send: waiting for the mutex, about to write, or after some
      bytes of the message have been written. */
  datatype SendPc = Acquire | First | Second(cut: nat)

  datatype MainPc =
    | Boot | SendHello(send: SendPc) | SendWelcome(send: SendPc) | Spawn | StartCapture | CaptureStarted
    | Wait | StopCapture | Shutdown | Join | Done

  datatype ControlPc =
    | NotStarted | Outer | Receiving | Inner
    | Handle(msg: Message) | Replying(token: u64, send: SendPc) | Exited

  datatype CapturePc =
    | Idle | Initialize(pts: u64) | Exchange(pts: u64)
    | Emit(pts: u64, packets: seq<Packet>)
    | Posting(pts: u64, packet: Packet, seqno: u32, send: SendPc, packets: seq<Packet>)

  /** Handled keyframe requests and calls of EncodeFrame, in order; a call hands out packets. */
  datatype Event = Requested | Encoded(idr: bool, pts: u64, packets: seq<Packet>)

  /** The unfinished message at the end of what was written, if any. */
  datatype Tail = Clean | Torn(msg: Message, cut: nat)

  /** The outgoing side of the channel: a failed write latches `broken`. `wire` is every byte
      written, `log` the messages written whole. */
  datatype Outgoing = Outgoing(broken: bool, wire: seq<byte>, tail: Tail, log: seq<Message>)

  /** The incoming side: bytes not yet received, all bytes received, the frames taken from them,
      the bytes not yet parsed, and the messages handled. */
  datatype Incoming = Incoming(
    inbound: seq<byte>, received: seq<byte>, taken: seq<RawFrame>, unread: seq<byte>, handled: seq<Message>)

  /** The forced-keyframe flag and the history that explains it. */
  datatype Forcing = Forcing(flag: bool, events: seq<Event>)

  datatype State = State(
    running: bool, seqno: u32, encoderReady: bool, mutex: Option<Thread>,
    main: MainPc, control: ControlPc, capture: CapturePc, stopping: bool,
    closed: bool, capturing: bool, out: Outgoing, incoming: Incoming, force: Forcing)

  const START := State(false, 0, false, None, Boot, NotStarted, Idle, false,
                       false, false, Outgoing(false, [], Clean, []), Incoming([], [], [], [], []), Forcing(true, []))

  /** 1 is HEVC, 2 is H.264. */
  function CodecId(cfg: Setup): u8 {
    if cfg.h264 then 2 else 1
  }

  function HelloOf(cfg: Setup): Message {
    Hello(Caps(PROTOCOL_VERSION, CODEC_MASK, cfg.width % 0x1_0000, cfg.height % 0x1_0000, cfg.max,
        cfg.fps % 0x1_0000, 0))
  }

  function WelcomeOf(cfg: Setup): Message {
    Welcome(Caps(PROTOCOL_VERSION, CodecId(cfg), cfg.width % 0x1_0000, cfg.height % 0x1_0000, cfg.target,
        cfg.fps % 0x1_0000, 0))
  }

  /** Capture time is in 100 ns ticks, the wire's in microseconds. */
  function BuildVideoFrame(cfg: Setup, p: Packet, pts: u64, seqno: u32): Message {
    VideoFrame(CodecId(cfg), if p.keyframe then 1 else 0, 0, pts / 10, seqno, p.data)
  }

  /** What the host does about a message from the iPad. */
  datatype Actions = Actions(
    forceIdr: bool, pong: Option<u64>, clientCaps: Option<Caps>, newFormat: Option<Caps>, disconnect: bool)

  const NO_ACTION := Actions(false, None, None, None, false)

  function HandleControlMessage(m: Message): Actions {
    match m
    case KeyframeRequest(_, _) => NO_ACTION.(forceIdr := true)
    case Ping(token) => NO_ACTION.(pong := Some(token))
    case Hello(caps) => NO_ACTION.(clientCaps := Some(caps))
    case FormatChange(format) => NO_ACTION.(newFormat := Some(format))
    case Disconnect(_, _) => NO_ACTION.(disconnect := true)
    case _ => NO_ACTION
  }

  /** The action table: which message asks for what, and that no other does. */
  lemma ActionTable(m: Message)
    ensures var act := HandleControlMessage(m);
            && (act.forceIdr <==> m.KeyframeRequest?)
            && (act.pong.Some? <==> m.Ping?) && (m.Ping? ==> act.pong.value == m.token)
            && (act.clientCaps.Some? <==> m.Hello?) && (m.Hello? ==> act.clientCaps.value == m.caps)
            && (act.newFormat.Some? <==> m.FormatChange?) && (m.FormatChange? ==> act.newFormat.value == m.newFormat)
            && (act.disconnect <==> m.Disconnect?)
  {
  }

  // ---- sending ----

  /** The state after one step inside Send, and where the sender then stands: nowhere once done. */
  datatype Sent = Sent(state: State, next: Option<SendPc>)

  /** A write may wait, for as long as the peer takes nothing, while the channel is open and works. */
  predicate Waits(s: State, c: Choice) {
    c.stall && !s.closed && !s.out.broken
  }

  /** A write on a closed or broken channel fails; so may any other. A failure stays. */
  function SendStep(s: State, t: Thread, m: Message, pc: SendPc, c: Choice): Sent {
    match pc
    case Acquire => if s.mutex.None? then Sent(s.(mutex := Some(t)), Some(First)) else Sent(s, Some(Acquire))
    case First => if Waits(s, c) then Sent(s, Some(First)) else WriteSome(s, m, c)
    case Second(cut) => if Waits(s, c) then Sent(s, Some(Second(cut))) else WriteRest(s, m, cut, c)
  }

  function WriteSome(s: State, m: Message, c: Choice): Sent {
    if s.out.broken || s.closed || !c.ok then Sent(Failed(s), None)
    else
      var cut := c.amount % |Encode(m)|;
      Sent(s.(out := s.out.(wire := s.out.wire + Encode(m)[..cut], tail := Torn(m, cut))), Some(Second(cut)))
  }

  function WriteRest(s: State, m: Message, cut: nat, c: Choice): Sent {
    if s.out.broken || s.closed || !c.ok || cut > |Encode(m)| then Sent(Failed(s), None)
    else Sent(s.(out := Outgoing(false, s.out.wire + Encode(m)[cut..], Clean, s.out.log + [m]), mutex := None), None)
  }

  /** The send fails: the session stops running and the mutex is released. */
  function Failed(s: State): State {
    s.(out := s.out.(broken := true), running := false, mutex := None)
  }

  // ---- the threads ----

  function MainStep(cfg: Setup, s: State, c: Choice): State {
    match s.main
    case Boot => s.(running := true, main := SendHello(Acquire))
    case SendHello(pc) =>
      var r := SendStep(s, Runner, HelloOf(cfg), pc, c);
      r.state.(main := if r.next.Some? then SendHello(r.next.value) else SendWelcome(Acquire))
    case SendWelcome(pc) =>
      var r := SendStep(s, Runner, WelcomeOf(cfg), pc, c);
      r.state.(main := if r.next.Some? then SendWelcome(r.next.value) else Spawn)
    case Spawn => s.(control := Outer, main := StartCapture)
    case StartCapture => s.(capturing := true, main := CaptureStarted)
    case CaptureStarted => s.(running := s.running && c.ok, main := Wait)
    case Wait => if s.running then s else s.(main := StopCapture)
    case StopCapture => if s.capture.Idle? then s.(capturing := false, main := Shutdown) else s
    case Shutdown => s.(main := Join)
    case Join => if s.control.Exited? then s.(main := Done) else s
    case Done => s
  }

  /** Recv blocks while nothing has come and the channel is open; it may fail at any time. */
  function ReceiveStep(s: State, c: Choice): State {
    if !c.ok || (s.incoming.inbound == [] && s.closed) then s.(running := false, control := Exited)
    else if s.incoming.inbound == [] then s
    else
      var most := if |s.incoming.inbound| < RECV_BUFFER then |s.incoming.inbound| else RECV_BUFFER;
      var n := 1 + c.amount % most;
      s.(incoming := Delivered(s.incoming, n), control := Inner)
  }

  function Delivered(i: Incoming, n: nat): Incoming
    requires n <= |i.inbound|
  {
    i.(inbound := i.inbound[n..], received := i.received + i.inbound[..n], unread := i.unread + i.inbound[..n])
  }

  function FrameTaken(i: Incoming): Incoming
    requires ParseFrame(i.unread).Got?
  {
    i.(unread := Beyond(i.unread), taken := i.taken + [ParseFrame(i.unread).frame])
  }

  /** Whether the frame holds a message or not, its bytes are gone; a bad message is skipped. */
  function InnerStep(s: State): State {
    if !s.running then s.(control := Outer)
    else
      var p := ParseFrame(s.incoming.unread);
      if p.NeedMore? then s.(control := Outer)
      else if p.Bad? then s.(running := false, control := Outer)
      else s.(incoming := FrameTaken(s.incoming), control := AfterFrame(Decode(p.frame)))
  }

  function Beyond(unread: seq<byte>): seq<byte>
    requires ParseFrame(unread).Got?
  {
    PrintParsed(unread);
    unread[ParseFrame(unread).used..]
  }

  function AfterFrame(d: Decoded): ControlPc {
    if d.Ok? then Handle(d.msg) else Inner
  }

  function Noted(s: State, m: Message): State {
    s.(incoming := s.incoming.(handled := s.incoming.handled + [m]))
  }

  function HandleStep(s: State, act: Actions): State {
    if act.forceIdr then s.(force := Forcing(true, s.force.events + [Requested]), control := Inner)
    else if act.pong.Some? then s.(control := Replying(act.pong.value, Acquire))
    else if act.disconnect then s.(running := false, control := Outer)
    else s.(control := Inner)
  }

  function ControlStep(s: State, c: Choice): State {
    match s.control
    case NotStarted => s
    case Outer => s.(control := if s.running then Receiving else Exited)
    case Receiving => ReceiveStep(s, c)
    case Inner => InnerStep(s)
    case Handle(m) => HandleStep(Noted(s, m), HandleControlMessage(m))
    case Replying(token, pc) =>
      var r := SendStep(s, Reader, Pong(token), pc, c);
      r.state.(control := if r.next.Some? then Replying(token, r.next.value) else Inner)
    case Exited => s
  }

  function CaptureStep(cfg: Setup, s: State, c: Choice): State {
    match s.capture
    case Idle =>
      if !s.capturing || !s.running then s
      else s.(capture := if s.encoderReady then Exchange(c.timestamp) else Initialize(c.timestamp))
    case Initialize(pts) =>
      if c.ok then s.(encoderReady := true, capture := Exchange(pts)) else s.(running := false, capture := Idle)
    case Exchange(pts) =>
      s.(force := Forcing(false, s.force.events + [Encoded(s.force.flag, pts, c.packets)]),
          capture := Emit(pts, c.packets))
    case Emit(pts, packets) =>
      if packets == [] then s.(capture := Idle)
      else s.(seqno := (s.seqno + 1) % U32_SIZE, capture := Posting(pts, packets[0], s.seqno, Acquire, packets[1..]))
    case Posting(pts, p, n, pc, packets) =>
      var r := SendStep(s, Capturer, BuildVideoFrame(cfg, p, pts, n), pc, c);
      r.state.(capture := if r.next.Some? then Posting(pts, p, n, r.next.value, packets) else Emit(pts, packets))
  }

  /** Stop clears the flag, then closes the channel; it may be called at any time, repeatedly. */
  function StopStep(s: State): State {
    if s.stopping then s.(stopping := false, closed := true) else s.(stopping := true, running := false)
  }

  function Step(cfg: Setup, s: State, t: Thread, c: Choice): State {
    match t
    case Runner => MainStep(cfg, s, c)
    case Reader => ControlStep(s, c)
    case Capturer => CaptureStep(cfg, s, c)
    case Stopper => StopStep(s)
    case Network => if s.closed then s else s.(incoming := s.incoming.(inbound := s.incoming.inbound + c.bytes))
  }

  type Schedule = seq<(Thread, Choice)>

  /** The state after any finite interleaving. */
  function After(cfg: Setup, run: Schedule): State {
    if run == [] then START
    else Step(cfg, After(cfg, run[..|run| - 1]), run[|run| - 1].0, run[|run| - 1].1)
  }

  // ---- who holds the mutex, and in which phase each thread can be ----

  predicate RunnerInside(m: MainPc) {
    (m.SendHello? || m.SendWelcome?) && !m.send.Acquire?
  }

  predicate ReaderInside(r: ControlPc) {
    r.Replying? && !r.send.Acquire?
  }

  predicate CapturerInside(k: CapturePc) {
    k.Posting? && !k.send.Acquire?
  }

  /** The mutex is held by exactly the thread that is writing. */
  predicate MutexOrder(s: State) {
    && (s.mutex == Some(Runner) <==> RunnerInside(s.main))
    && (s.mutex == Some(Reader) <==> ReaderInside(s.control))
    && (s.mutex == Some(Capturer) <==> CapturerInside(s.capture))
    && s.mutex != Some(Stopper) && s.mutex != Some(Network)
  }

  predicate Opening(m: MainPc) {
    m.Boot? || m.SendHello? || m.SendWelcome? || m.Spawn?
  }

  predicate Closing(m: MainPc) {
    m.Shutdown? || m.Join? || m.Done?
  }

  predicate PhaseOrder(s: State) {
    && (Opening(s.main) <==> s.control.NotStarted?)
    && (Opening(s.main) || s.main.StartCapture? || Closing(s.main) ==> !s.capturing)
    && (!s.capturing ==> s.capture.Idle?)
    && (s.control.Exited? || s.main.StopCapture? || Closing(s.main) ==> !s.running)
    && (s.main.Done? ==> s.control.Exited?)
    && (s.capture.Exchange? || s.capture.Emit? || s.capture.Posting? ==> s.encoderReady)
  }

  predicate Orderly(s: State) {
    MutexOrder(s) && PhaseOrder(s)
  }

  /** What a step of Send touches, and how it passes through the mutex. */
  predicate SendMoves(s: State, t: Thread, m: Message, pc: SendPc, r: Sent) {
    && r.state == s.(running := r.state.running, mutex := r.state.mutex, out := r.state.out)
    && (r.state.running != s.running ==> s.running)
    && (pc.Acquire? && s.mutex.None? ==> r.next == Some(First) && r.state == s.(mutex := Some(t)))
    && (pc.Acquire? && s.mutex.Some? ==> r == Sent(s, Some(Acquire)))
    && (!pc.Acquire? && r.next.None? ==> r.state.mutex.None?)
    && (!pc.Acquire? && r.next.Some? ==>
          || r == Sent(s, Some(pc))
          || (pc.First? && r.next.value.Second? && r.state.mutex == s.mutex && r.state.running == s.running))
    && (!pc.Acquire? && (s.closed || s.out.broken) ==> r.next.None? && !r.state.running)
    && (r.next.None? && !r.state.out.broken ==> pc.Second?)
    && Posted(s, r.state, m, r.next.None?)
  }

  /** The message joins the log exactly when its send ends and the channel still works. */
  predicate Posted(s: State, r: State, m: Message, ended: bool) {
    && (s.out.broken ==> r.out.broken)
    && (r.out.broken != s.out.broken ==> ended)
    && r.out.log == if ended && !r.out.broken then s.out.log + [m] else s.out.log
  }

  lemma SomeWrittenMoves(s: State, t: Thread, m: Message, cut: nat, wire: seq<byte>)
    requires !s.out.broken && !s.closed
    ensures SendMoves(s, t, m, First, Sent(s.(out := s.out.(wire := wire, tail := Torn(m, cut))), Some(Second(cut))))
  {
  }

  lemma WriteSomeMoves(s: State, t: Thread, m: Message, c: Choice)
    ensures SendMoves(s, t, m, First, WriteSome(s, m, c))
  {
    hide Encode;
    if s.out.broken || s.closed || !c.ok {
      assert SendMoves(s, t, m, First, Sent(Failed(s), None));
    } else {
      var q := WriteSome(s, m, c);
      SomeWrittenMoves(s, t, m, q.next.value.cut, q.state.out.wire);
    }
  }

  lemma WriteRestMoves(s: State, t: Thread, m: Message, cut: nat, c: Choice)
    ensures SendMoves(s, t, m, Second(cut), WriteRest(s, m, cut, c))
  {
    hide Encode;
    if s.out.broken || s.closed || !c.ok || cut > |Encode(m)| {
      assert SendMoves(s, t, m, Second(cut), Sent(Failed(s), None));
    }
  }

  lemma AcquireMoves(s: State, t: Thread, m: Message)
    ensures s.mutex.None? ==> SendMoves(s, t, m, Acquire, Sent(s.(mutex := Some(t)), Some(First)))
    ensures s.mutex.Some? ==> SendMoves(s, t, m, Acquire, Sent(s, Some(Acquire)))
  {
  }

  lemma WaitingMoves(s: State, t: Thread, m: Message, pc: SendPc)
    requires !pc.Acquire? && !s.closed && !s.out.broken
    ensures SendMoves(s, t, m, pc, Sent(s, Some(pc)))
  {
  }

  lemma SendStepMoves(s: State, t: Thread, m: Message, pc: SendPc, c: Choice)
    ensures SendMoves(s, t, m, pc, SendStep(s, t, m, pc, c))
  {
    hide WriteSome, WriteRest, SendMoves;
    if !pc.Acquire? && Waits(s, c) {
      WaitingMoves(s, t, m, pc);
    } else {
      match pc
      case Acquire => AcquireMoves(s, t, m);
      case First => WriteSomeMoves(s, t, m, c);
      case Second(cut) => WriteRestMoves(s, t, m, cut, c);
    }
  }

  lemma MainSendKeepsOrder(cfg: Setup, s: State, c: Choice)
    requires Orderly(s) && (s.main.SendHello? || s.main.SendWelcome?)
    ensures Orderly(MainStep(cfg, s, c))
  {
    hide SendStep, HelloOf, WelcomeOf;
    if s.main.SendHello? {
      SendStepMoves(s, Runner, HelloOf(cfg), s.main.send, c);
      assert Orderly(MainStep(cfg, s, c));
    } else {
      SendStepMoves(s, Runner, WelcomeOf(cfg), s.main.send, c);
      assert Orderly(MainStep(cfg, s, c));
    }
  }

  function Announcement(cfg: Setup, m: MainPc): Message {
    if m.SendHello? then HelloOf(cfg) else WelcomeOf(cfg)
  }

  /** What a step of Run inside Send touches. */
  lemma RunnerPosts(cfg: Setup, s: State, c: Choice)
    requires s.main.SendHello? || s.main.SendWelcome?
    ensures var r := MainStep(cfg, s, c);
            && r == s.(running := r.running, mutex := r.mutex, out := r.out, main := r.main)
               && (r.running ==> s.running)
            && (if s.main.SendHello? then r.main.SendHello? || r.main.SendWelcome?
                else r.main.SendWelcome? || r.main.Spawn?)
            && Posted(s, r, Announcement(cfg, s.main), if s.main.SendHello? then r.main.SendWelcome? else r.main.Spawn?)
  {
    hide SendStep, HelloOf, WelcomeOf;
    SendStepMoves(s, Runner, Announcement(cfg, s.main), s.main.send, c);
  }

  /** What a step of Run outside Send touches. */
  predicate RunnerMoves(s: State, r: State) {
    && r == s.(running := r.running, main := r.main, control := r.control, capturing := r.capturing)
    && (r.running && !s.running ==> s.main.Boot?)
    && !RunnerInside(r.main)
    && (r.control == s.control || (s.main.Spawn? && r.control == Outer))
  }

  lemma RunnerStepMoves(cfg: Setup, s: State, c: Choice)
    requires !s.main.SendHello? && !s.main.SendWelcome?
    ensures RunnerMoves(s, MainStep(cfg, s, c))
  {
    hide SendStep, HelloOf, WelcomeOf, RunnerMoves;
    match s.main
    case Boot => RunnerOpens(s, c);
    case Spawn => RunnerOpens(s, c);
    case StartCapture => RunnerOpens(s, c);
    case CaptureStarted => RunnerOpens(s, c);
    case Wait => RunnerStaysOrGoes(s, s.(main := StopCapture));
    case StopCapture => RunnerStaysOrGoes(s, s.(capturing := false, main := Shutdown));
    case Shutdown => RunnerStaysOrGoes(s, s.(main := Join));
    case Join => RunnerStaysOrGoes(s, s.(main := Done));
    case Done => RunnerStaysOrGoes(s, s);
  }

  lemma RunnerOpens(s: State, c: Choice)
    ensures s.main.Boot? ==> RunnerMoves(s, s.(running := true, main := SendHello(Acquire)))
    ensures s.main.Spawn? ==> RunnerMoves(s, s.(control := Outer, main := StartCapture))
    ensures s.main.StartCapture? ==> RunnerMoves(s, s.(capturing := true, main := CaptureStarted))
    ensures s.main.CaptureStarted? ==> RunnerMoves(s, s.(running := s.running && c.ok, main := Wait))
  {
  }

  lemma RunnerStaysOrGoes(s: State, r: State)
    requires r == s.(main := r.main, capturing := r.capturing)
    requires !s.main.SendHello? && !s.main.SendWelcome? && !r.main.SendHello? && !r.main.SendWelcome?
    ensures RunnerMoves(s, s) && RunnerMoves(s, r)
  {
  }

  lemma RunnerKeepsPhase(cfg: Setup, s: State, c: Choice)
    requires PhaseOrder(s) && !s.main.SendHello? && !s.main.SendWelcome?
    ensures PhaseOrder(MainStep(cfg, s, c))
  {
    hide SendStep, HelloOf, WelcomeOf;
    var r := MainStep(cfg, s, c);
    match s.main
    case Boot => assert PhaseOrder(r);
    case Spawn => assert PhaseOrder(r);
    case StartCapture => assert PhaseOrder(r);
    case CaptureStarted => assert PhaseOrder(r);
    case Wait => assert PhaseOrder(r);
    case StopCapture => assert PhaseOrder(r);
    case Shutdown => assert PhaseOrder(r);
    case Join => assert PhaseOrder(r);
    case Done => assert PhaseOrder(r);
  }

  lemma MainKeepsOrder(cfg: Setup, s: State, c: Choice)
    requires Orderly(s)
    ensures Orderly(MainStep(cfg, s, c))
  {
    hide MainStep;
    if s.main.SendHello? || s.main.SendWelcome? {
      MainSendKeepsOrder(cfg, s, c);
    } else {
      RunnerStepMoves(cfg, s, c);
      RunnerKeepsPhase(cfg, s, c);
    }
  }

  /** What a step of the control reader outside Send touches. */
  predicate ReaderMoves(s: State, r: State) {
    && r == s.(running := r.running, control := r.control, incoming := r.incoming, force := r.force)
    && (r.running ==> s.running)
    && (r.control.NotStarted? <==> s.control.NotStarted?)
    && !ReaderInside(r.control)
    && (r.control.Exited? ==> !r.running)
    && Answers(s.incoming.handled, r)
    && Honours(s.incoming.handled, s.force, r)
  }

  /** The tokens of the pings handled, in order. */
  function PingTokens(handled: seq<Message>): seq<u64> {
    if handled == [] then []
    else
      var m := handled[|handled| - 1];
      if m.Ping? then PingTokens(handled[..|handled| - 1]) + [m.token] else PingTokens(handled[..|handled| - 1])
  }

  /** How many keyframe requests were handled. */
  function KeyframeRequests(handled: seq<Message>): nat {
    if handled == [] then 0
    else KeyframeRequests(handled[..|handled| - 1]) + (if handled[|handled| - 1].KeyframeRequest? then 1 else 0)
  }

  /** The reader is about to reply exactly when it just handled a ping, and with its token. */
  predicate Answers(was: seq<Message>, r: State) {
    PingTokens(r.incoming.handled)
    == if r.control.Replying? then PingTokens(was) + [r.control.token] else PingTokens(was)
  }

  /** The forced-keyframe flag is set exactly when a keyframe request was handled. */
  predicate Honours(was: seq<Message>, f: Forcing, r: State) {
    if KeyframeRequests(r.incoming.handled) == KeyframeRequests(was) then r.force == f
    else
      && KeyframeRequests(r.incoming.handled) == KeyframeRequests(was) + 1
      && r.force == Forcing(true, f.events + [Requested])
  }

  lemma ReceiveMoves(s: State, c: Choice)
    requires s.control.Receiving?
    ensures ReaderMoves(s, ReceiveStep(s, c))
  {
    if !c.ok || (s.incoming.inbound == [] && s.closed) {
      assert ReaderMoves(s, ReceiveStep(s, c));
    } else if s.incoming.inbound == [] {
      assert ReaderMoves(s, ReceiveStep(s, c));
    } else {
      assert ReaderMoves(s, ReceiveStep(s, c));
    }
  }

  lemma InnerMoves(s: State)
    requires s.control.Inner?
    ensures ReaderMoves(s, InnerStep(s))
  {
    hide ParseFrame, Decode, Beyond, AfterFrame;
    AfterFrameIsInLoop();
    if !s.running {
      assert ReaderMoves(s, s.(control := Outer));
    } else if ParseFrame(s.incoming.unread).NeedMore? {
      assert ReaderMoves(s, s.(control := Outer));
    } else if ParseFrame(s.incoming.unread).Bad? {
      assert ReaderMoves(s, s.(running := false, control := Outer));
    } else {
      var f := ParseFrame(s.incoming.unread).frame;
      assert ReaderMoves(s, s.(incoming := FrameTaken(s.incoming), control := AfterFrame(Decode(f))));
    }
  }

  lemma AfterFrameIsInLoop()
    ensures forall d :: AfterFrame(d).Handle? || AfterFrame(d).Inner?
  {
  }

  lemma NotedHandled(handled: seq<Message>, m: Message)
    ensures PingTokens(handled + [m]) == if m.Ping? then PingTokens(handled) + [m.token] else PingTokens(handled)
    ensures KeyframeRequests(handled + [m]) == KeyframeRequests(handled) + if m.KeyframeRequest? then 1 else 0
  {
    assert (handled + [m])[..|handled|] == handled;
  }

  lemma HandleMoves(s: State, m: Message)
    requires s.control.Handle?
    ensures var r := HandleStep(Noted(s, m), HandleControlMessage(m));
            && ReaderMoves(s, r) && r.incoming.handled == s.incoming.handled + [m]
            && r.running == (s.running && !m.Disconnect?)
            && (r.control.Replying? <==> m.Ping?) && (m.Disconnect? ==> r.control.Outer?)
            && (r.force != s.force ==> m.KeyframeRequest?) && (m.KeyframeRequest? ==> r.force.flag)
  {
    hide PingTokens, KeyframeRequests;
    NotedHandled(s.incoming.handled, m);
    var act := HandleControlMessage(m);
    var r := HandleStep(Noted(s, m), act);
    if act.forceIdr {
      assert ReaderMoves(s, r);
    } else if act.pong.Some? {
      assert ReaderMoves(s, r);
    } else if act.disconnect {
      assert ReaderMoves(s, r);
    } else {
      assert ReaderMoves(s, r);
    }
  }

  lemma ReaderStepMoves(s: State, c: Choice)
    requires !s.control.Replying? && (s.control.Exited? ==> !s.running)
    ensures ReaderMoves(s, ControlStep(s, c))
  {
    hide ReceiveStep, InnerStep, HandleStep, HandleControlMessage, Noted;
    match s.control
    case Receiving => ReceiveMoves(s, c);
    case Inner => InnerMoves(s);
    case Handle(m) => HandleMoves(s, m);
    case _ =>
  }

  lemma ControlKeepsOrder(s: State, c: Choice)
    requires Orderly(s)
    ensures Orderly(ControlStep(s, c))
  {
    hide SendStep;
    if s.control.Replying? {
      SendStepMoves(s, Reader, Pong(s.control.token), s.control.send, c);
      assert Orderly(ControlStep(s, c));
    } else {
      ReaderStepMoves(s, c);
      assert Orderly(ControlStep(s, c));
    }
  }

  /** What a step of the capture thread outside Send touches. */
  predicate CapturerMoves(s: State, r: State) {
    && r == s.(running := r.running, seqno := r.seqno, encoderReady := r.encoderReady,
               capture := r.capture, force := r.force)
    && (r.running ==> s.running)
    && !CapturerInside(r.capture)
    && (!s.capturing && s.capture.Idle? ==> r.capture.Idle?)
    && (if r.capture.Posting? then r.capture.seqno == s.seqno && r.seqno == (s.seqno + 1) % U32_SIZE
        else r.seqno == s.seqno)
    && (s.encoderReady ==> r.encoderReady)
    && (r.capture.Exchange? ==> r.encoderReady)
    && (s.capture.Initialize? && !r.capture.Exchange? ==> !r.running)
    && (r.capture.Initialize? ==> !s.encoderReady)
    && (r.capture.Emit? || r.capture.Posting? ==> s.capture.Exchange? || s.capture.Emit? || s.capture.Posting?)
    && EmitsThen(s, r)
  }

  /** A packet and the time of the captured frame it belongs to. */
  datatype Stamp = Stamp(pts: u64, packet: Packet)

  function Stamped(pts: u64, packets: seq<Packet>): seq<Stamp> {
    if packets == [] then [] else [Stamp(pts, packets[0])] + Stamped(pts, packets[1..])
  }

  /** The packets handed out by the encoder and not yet sent. */
  function Unsent(k: CapturePc): seq<Stamp> {
    match k
    case Emit(pts, packets) => Stamped(pts, packets)
    case Posting(pts, packet, _, _, packets) => [Stamp(pts, packet)] + Stamped(pts, packets)
    case _ => []
  }

  /** Either the encoder was called, consumed the flag and handed out packets to send, or the
      packets still to send stayed the same. */
  predicate EmitsThen(s: State, r: State) {
    if r.force == s.force then Unsent(r.capture) == Unsent(s.capture)
    else
      && s.capture.Exchange? && r.capture.Emit?
      && r.force == Forcing(false, s.force.events + [Encoded(s.force.flag, r.capture.pts, r.capture.packets)])
  }

  lemma CapturerStepMoves(cfg: Setup, s: State, c: Choice)
    requires !s.capture.Posting?
    ensures CapturerMoves(s, CaptureStep(cfg, s, c))
  {
    hide SendStep, BuildVideoFrame;
    match s.capture
    case Idle =>
      assert CapturerMoves(s, s);
      assert CapturerMoves(s, CaptureStep(cfg, s, c));
    case Initialize(pts) =>
      assert CapturerMoves(s, s.(running := false, capture := Idle));
      assert CapturerMoves(s, s.(encoderReady := true, capture := Exchange(pts)));
    case Exchange(pts) => ExchangeMoves(s, c, pts);
    case Emit(pts, packets) => EmitMoves(s, c, pts, packets);
  }

  lemma ExchangeMoves(s: State, c: Choice, pts: u64)
    requires s.capture == Exchange(pts)
    ensures CapturerMoves(s, s.(force := Forcing(false, s.force.events + [Encoded(s.force.flag, pts, c.packets)]),
                                capture := Emit(pts, c.packets)))
  {
    assert |s.force.events + [Encoded(s.force.flag, pts, c.packets)]| > |s.force.events|;
  }

  lemma EmitMoves(s: State, c: Choice, pts: u64, packets: seq<Packet>)
    requires s.capture == Emit(pts, packets)
    ensures packets == [] ==> CapturerMoves(s, s.(capture := Idle))
    ensures packets != [] ==>
              CapturerMoves(s, s.(seqno := (s.seqno + 1) % U32_SIZE,
                                  capture := Posting(pts, packets[0], s.seqno, Acquire, packets[1..])))
  {
  }

  /** A frame keeps the time it was captured at, and what the encoder handed out, up to its last send. */
  lemma FrameIsKept(cfg: Setup, s: State, c: Choice)
    ensures var k := CaptureStep(cfg, s, c).capture;
            && (s.capture.Idle? && !k.Idle? ==> (k.Initialize? || k.Exchange?) && k.pts == c.timestamp)
            && (s.capture.Initialize? && !k.Idle? ==> k == Exchange(s.capture.pts))
            && (s.capture.Exchange? ==> k == Emit(s.capture.pts, c.packets))
            && (s.capture.Emit? && s.capture.packets != [] ==>
                  k == Posting(s.capture.pts, s.capture.packets[0], s.seqno, Acquire, s.capture.packets[1..]))
            && (s.capture.Posting? && !k.Posting? ==> k == Emit(s.capture.pts, s.capture.packets))
  {
    hide SendStep, BuildVideoFrame;
  }

  lemma CaptureKeepsOrder(cfg: Setup, s: State, c: Choice)
    requires Orderly(s)
    ensures Orderly(CaptureStep(cfg, s, c))
  {
    hide SendStep, BuildVideoFrame;
    if s.capture.Posting? {
      SendStepMoves(s, Capturer, BuildVideoFrame(cfg, s.capture.packet, s.capture.pts, s.capture.seqno),
          s.capture.send, c);
      assert Orderly(CaptureStep(cfg, s, c));
    } else {
      CapturerStepMoves(cfg, s, c);
      assert Orderly(CaptureStep(cfg, s, c));
    }
  }

  lemma StepKeepsOrder(cfg: Setup, s: State, t: Thread, c: Choice)
    requires Orderly(s)
    ensures Orderly(Step(cfg, s, t, c))
  {
    hide MainStep, ControlStep, CaptureStep;
    match t
    case Runner => MainKeepsOrder(cfg, s, c);
    case Reader => ControlKeepsOrder(s, c);
    case Capturer => CaptureKeepsOrder(cfg, s, c);
    case _ =>
  }
}
