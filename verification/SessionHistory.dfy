/** What every run of the session, under every interleaving, has sent, answered and forced. */
module SessionHistory {
  import opened Bytes
  import opened Wire
  import opened Session

  // ---- the outgoing log ----

  function OpeningMessages(cfg: Setup): seq<Message> {
    [HelloOf(cfg), WelcomeOf(cfg)]
  }

  /** A beginning of HELLO, WELCOME; or both and then video frames and pongs only. */
  predicate LogShape(cfg: Setup, log: seq<Message>) {
    log <= OpeningMessages(cfg)
    || (OpeningMessages(cfg) <= log && forall i :: 2 <= i < |log| ==> log[i].VideoFrame? || log[i].Pong?)
  }

  predicate LogInvariant(cfg: Setup, s: State) {
    && LogShape(cfg, s.out.log)
    && (s.main.Boot? || s.main.SendHello? ==> s.out.log == [])
    && (s.main.SendWelcome? ==> s.out.log == if s.out.broken then [] else [HelloOf(cfg)])
    && (!s.out.broken && !s.main.Boot? && !s.main.SendHello? && !s.main.SendWelcome? ==> |s.out.log| >= 2)
  }

  /** The video frames sent, in order. */
  function Videos(log: seq<Message>): seq<Message> {
    if log == [] then []
    else
      var m := log[|log| - 1];
      if m.VideoFrame? then Videos(log[..|log| - 1]) + [m] else Videos(log[..|log| - 1])
  }

  /** All packets handed out by the encoder, in order. */
  function Emitted(events: seq<Event>): seq<Stamp> {
    if events == [] then []
    else
      var e := events[|events| - 1];
      if e.Encoded? then Emitted(events[..|events| - 1]) + Stamped(e.pts, e.packets)
      else Emitted(events[..|events| - 1])
  }

  /** The tokens of the pongs sent, in order. */
  function PongTokens(log: seq<Message>): seq<u64> {
    if log == [] then []
    else PongTokens(log[..|log| - 1]) + (var m := log[|log| - 1]; if m.Pong? then [m.token] else [])
  }

  /** The video frames that carry the packets, numbered from 0 modulo 2^32. */
  function Numbered(cfg: Setup, stamps: seq<Stamp>): seq<Message> {
    seq(|stamps|, i requires 0 <= i < |stamps| => BuildVideoFrame(cfg, stamps[i].packet, stamps[i].pts, i % U32_SIZE))
  }

  /** The frames sent carry the first packets handed out; while the channel works the others are
      still to be sent. */
  predicate VideoInvariant(cfg: Setup, s: State) {
    var sent, all := |Videos(s.out.log)|, Emitted(s.force.events);
    && sent <= |all| && Videos(s.out.log) == Numbered(cfg, all[..sent])
    && (!s.out.broken ==> all[sent..] == Unsent(s.capture) && NumberAt(s, sent))
  }

  predicate NumberAt(s: State, sent: nat) {
    if s.capture.Posting? then s.capture.seqno == sent % U32_SIZE && s.seqno == (sent + 1) % U32_SIZE
    else s.seqno == sent % U32_SIZE
  }

  predicate PongInvariant(s: State) {
    var owed := PingTokens(s.incoming.handled);
    if s.out.broken then PongTokens(s.out.log) <= owed
    else if s.control.Replying? then owed == PongTokens(s.out.log) + [s.control.token]
    else owed == PongTokens(s.out.log)
  }

  // ---- forced keyframes ----

  /** Whether the next encoded frame must be a keyframe: it is the first, or one was requested
      since the last. */
  function Wanted(events: seq<Event>): bool {
    events == [] || events[|events| - 1].Requested?
  }

  /** Every frame was forced exactly when wanted. */
  predicate Faithful(events: seq<Event>) {
    forall i :: 0 <= i < |events| && events[i].Encoded? ==> events[i].idr == Wanted(events[..i])
  }

  function Requests(events: seq<Event>): nat {
    if events == [] then 0 else Requests(events[..|events| - 1]) + (if events[|events| - 1].Requested? then 1 else 0)
  }

  predicate ForceInvariant(s: State) {
    && s.force.flag == Wanted(s.force.events) && Faithful(s.force.events)
    && Requests(s.force.events) == KeyframeRequests(s.incoming.handled)
  }

  predicate HistoryInvariant(cfg: Setup, s: State) {
    Orderly(s) && LogInvariant(cfg, s) && VideoInvariant(cfg, s) && PongInvariant(s) && ForceInvariant(s)
  }

  // ---- preservation ----

  lemma AppendedProjections(log: seq<Message>, m: Message)
    ensures Videos(log + [m]) == if m.VideoFrame? then Videos(log) + [m] else Videos(log)
    ensures PongTokens(log + [m]) == if m.Pong? then PongTokens(log) + [m.token] else PongTokens(log)
  {
    assert (log + [m])[..|log + [m]| - 1] == log;
  }

  lemma RecordedKeepsFaithful(events: seq<Event>, e: Event)
    requires Faithful(events) && (e.Encoded? ==> e.idr == Wanted(events))
    ensures Faithful(events + [e]) && Wanted(events + [e]) == e.Requested?
    ensures Requests(events + [e]) == Requests(events) + if e.Requested? then 1 else 0
  {
    var later := events + [e];
    assert later[..|events|] == events;
    forall i | 0 <= i < |later| && later[i].Encoded?
      ensures later[i].idr == Wanted(later[..i])
    {
      assert later[..i] == events[..i];
    }
  }

  lemma RequestKeepsForce(s: State, r: State)
    requires ForceInvariant(s) && Honours(s.incoming.handled, s.force, r)
    ensures ForceInvariant(r)
  {
    hide Faithful, Wanted, Requests, KeyframeRequests;
    RecordedKeepsFaithful(s.force.events, Requested);
  }

  lemma EncodeKeepsForce(s: State, r: State)
    requires ForceInvariant(s) && r.incoming == s.incoming
    requires EmitsThen(s, r)
    ensures ForceInvariant(r)
  {
    hide Faithful, Wanted, Requests, KeyframeRequests, Unsent;
    if r.force != s.force {
      RecordedKeepsFaithful(s.force.events, Encoded(s.force.flag, r.capture.pts, r.capture.packets));
    }
  }

  /** A message that is no video frame leaves the frame numbers as they are. */
  lemma OthersKeepVideo(cfg: Setup, s: State, r: State, m: Message, ended: bool)
    requires VideoInvariant(cfg, s) && Posted(s, r, m, ended) && !m.VideoFrame?
    requires r.seqno == s.seqno && r.capture == s.capture && r.force == s.force
    ensures VideoInvariant(cfg, r)
  {
    hide Videos, PongTokens, Emitted, Numbered, Unsent;
    AppendedProjections(s.out.log, m);
  }

  /** A message that is no pong leaves the answers as they are. */
  lemma OthersKeepPongs(s: State, r: State, m: Message, ended: bool)
    requires PongInvariant(s) && Posted(s, r, m, ended) && !m.Pong? && r.control == s.control
             && r.incoming == s.incoming
    ensures PongInvariant(r)
  {
    hide Videos, PongTokens;
    AppendedProjections(s.out.log, m);
  }

  /** After the opening a video frame or a pong may follow. */
  lemma LaterKeepsShape(cfg: Setup, s: State, r: State, m: Message, ended: bool)
    requires LogInvariant(cfg, s) && Posted(s, r, m, ended) && (m.VideoFrame? || m.Pong?) && r.main == s.main
             && !Opening(s.main)
    ensures LogInvariant(cfg, r)
  {
    hide HelloOf, WelcomeOf;
  }

  lemma RunnerSendKeepsHistory(cfg: Setup, s: State, c: Choice)
    requires HistoryInvariant(cfg, s) && (s.main.SendHello? || s.main.SendWelcome?)
    ensures var r := MainStep(cfg, s, c);
            LogInvariant(cfg, r) && VideoInvariant(cfg, r) && PongInvariant(r) && ForceInvariant(r)
  {
    hide MainStep, HelloOf, WelcomeOf, Orderly, VideoInvariant, PongInvariant, LogInvariant, Wanted, Faithful;
    var r, m := MainStep(cfg, s, c), Announcement(cfg, s.main);
    RunnerPosts(cfg, s, c);
    HelloIsHello(cfg);
    RunnerSendShape(cfg, s, r);
    SpawnMeansNoReply(s);
    var ended := if s.main.SendHello? then r.main.SendWelcome? else r.main.Spawn?;
    OthersKeepVideo(cfg, s, r, m, ended);
    OthersKeepPongs(s, r, m, ended);
  }

  lemma RunnerSendShape(cfg: Setup, s: State, r: State)
    requires LogInvariant(cfg, s) && (s.main.SendHello? || s.main.SendWelcome?)
    requires if s.main.SendHello? then r.main.SendHello? || r.main.SendWelcome?
             else r.main.SendWelcome? || r.main.Spawn?
    requires Posted(s, r, Announcement(cfg, s.main), if s.main.SendHello? then r.main.SendWelcome? else r.main.Spawn?)
    ensures LogInvariant(cfg, r)
  {
    hide HelloOf, WelcomeOf;
  }

  lemma RunnerKeepsHistory(cfg: Setup, s: State, c: Choice)
    requires HistoryInvariant(cfg, s)
    ensures HistoryInvariant(cfg, MainStep(cfg, s, c))
  {
    hide HelloOf, WelcomeOf;
    MainKeepsOrder(cfg, s, c);
    if s.main.SendHello? || s.main.SendWelcome? {
      RunnerSendKeepsHistory(cfg, s, c);
    } else {
      var r := MainStep(cfg, s, c);
      RunnerStepMoves(cfg, s, c);
      SpawnMeansNoReply(s);
      assert LogInvariant(cfg, r);
      assert VideoInvariant(cfg, r) && PongInvariant(r) && ForceInvariant(r);
    }
  }

  lemma SpawnMeansNoReply(s: State)
    requires Orderly(s)
    ensures s.main.Spawn? ==> !s.control.Replying?
  {
  }

  lemma HelloIsHello(cfg: Setup)
    ensures HelloOf(cfg).Hello? && WelcomeOf(cfg).Welcome?
  {
  }

  lemma ReaderPosts(s: State, c: Choice)
    requires s.control.Replying?
    ensures var r := ControlStep(s, c);
            && r == s.(running := r.running, mutex := r.mutex, out := r.out, control := r.control)
            && (r.control.Inner? || (r.control.Replying? && r.control.token == s.control.token))
            && Posted(s, r, Pong(s.control.token), r.control.Inner?)
  {
    hide SendStep;
    SendStepMoves(s, Reader, Pong(s.control.token), s.control.send, c);
  }

  lemma ReplyKeepsPongs(s: State, r: State)
    requires PongInvariant(s) && s.control.Replying? && r.incoming == s.incoming
    requires r.control.Inner? || (r.control.Replying? && r.control.token == s.control.token)
    requires Posted(s, r, Pong(s.control.token), r.control.Inner?)
    ensures PongInvariant(r)
  {
    hide Videos, PongTokens;
    AppendedProjections(s.out.log, Pong(s.control.token));
  }

  lemma ReaderSendKeepsHistory(cfg: Setup, s: State, c: Choice)
    requires HistoryInvariant(cfg, s) && s.control.Replying?
    ensures var r := ControlStep(s, c);
            LogInvariant(cfg, r) && VideoInvariant(cfg, r) && PongInvariant(r) && ForceInvariant(r)
  {
    hide ControlStep, Orderly, VideoInvariant, PongInvariant, LogInvariant, Wanted, Faithful;
    ReadingMeansOpened(s);
    var r, m := ControlStep(s, c), Pong(s.control.token);
    ReaderPosts(s, c);
    OthersKeepVideo(cfg, s, r, m, r.control.Inner?);
    ReplyKeepsPongs(s, r);
    LaterKeepsShape(cfg, s, r, m, r.control.Inner?);
  }

  lemma ReadingMeansOpened(s: State)
    requires Orderly(s)
    ensures !s.control.NotStarted? ==> !Opening(s.main)
  {
  }

  lemma ReaderKeepsHistory(cfg: Setup, s: State, c: Choice)
    requires HistoryInvariant(cfg, s)
    ensures HistoryInvariant(cfg, ControlStep(s, c))
  {
    hide ControlStep, Orderly, HelloOf, WelcomeOf, ForceInvariant, VideoInvariant, LogShape, PongTokens, PingTokens,
         Honours;
    ControlKeepsOrder(s, c);
    ExitedMeansStopped(s);
    var r := ControlStep(s, c);
    if s.control.Replying? {
      ReaderSendKeepsHistory(cfg, s, c);
    } else {
      ReaderStepMoves(s, c);
      RequestKeepsForce(s, r);
      RequestKeepsVideo(cfg, s, r);
      assert LogInvariant(cfg, r);
      assert PongInvariant(r);
    }
  }

  lemma ExitedMeansStopped(s: State)
    requires Orderly(s)
    ensures s.control.Exited? ==> !s.running
  {
  }

  lemma CapturerPosts(cfg: Setup, s: State, c: Choice)
    requires s.capture.Posting?
    ensures var r := CaptureStep(cfg, s, c);
            && r == s.(running := r.running, mutex := r.mutex, out := r.out, capture := r.capture)
            && SendsOn(s.capture, r.capture) && (r.running ==> s.running)
            && Posted(s, r, BuildVideoFrame(cfg, s.capture.packet, s.capture.pts, s.capture.seqno), r.capture.Emit?)
  {
    hide SendStep, BuildVideoFrame;
    SendStepMoves(s, Capturer, BuildVideoFrame(cfg, s.capture.packet, s.capture.pts, s.capture.seqno),
        s.capture.send, c);
  }

  lemma NumberedSnoc(cfg: Setup, stamps: seq<Stamp>, n: nat)
    requires n < |stamps|
    ensures Numbered(cfg, stamps[..n + 1]) ==
            Numbered(cfg, stamps[..n]) + [BuildVideoFrame(cfg, stamps[n].packet, stamps[n].pts, n % U32_SIZE)]
  {
    hide BuildVideoFrame;
  }

  /** The send goes on, or ends and the rest is left. */
  predicate SendsOn(k: CapturePc, l: CapturePc)
    requires k.Posting?
  {
    if l.Posting? then l == k.(send := l.send) else l == Emit(k.pts, k.packets)
  }

  lemma FrameKeepsVideo(cfg: Setup, s: State, r: State)
    requires VideoInvariant(cfg, s) && s.capture.Posting? && r.seqno == s.seqno && r.force == s.force
    requires SendsOn(s.capture, r.capture)
    requires Posted(s, r, BuildVideoFrame(cfg, s.capture.packet, s.capture.pts, s.capture.seqno), r.capture.Emit?)
    ensures VideoInvariant(cfg, r)
  {
    hide Videos, PongTokens, Emitted, Numbered, BuildVideoFrame, Stamped;
    var m := BuildVideoFrame(cfg, s.capture.packet, s.capture.pts, s.capture.seqno);
    var sent, all := |Videos(s.out.log)|, Emitted(s.force.events);
    AppendedProjections(s.out.log, m);
    FrameIsVideo(cfg, s.capture.packet, s.capture.pts, s.capture.seqno);
    if r.capture.Emit? && !r.out.broken {
      var next, later := Stamp(s.capture.pts, s.capture.packet), Stamped(s.capture.pts, s.capture.packets);
      assert all[sent..] == [next] + later;
      assert all[sent] == all[sent..][0] == next;
      assert all[sent + 1..] == all[sent..][1..] == later;
      NumberedSnoc(cfg, all, sent);
    }
  }

  lemma FrameIsVideo(cfg: Setup, p: Packet, pts: u64, seqno: u32)
    ensures BuildVideoFrame(cfg, p, pts, seqno).VideoFrame?
  {
  }

  lemma EmittedSnoc(events: seq<Event>, e: Event)
    ensures Emitted(events + [e]) == if e.Encoded? then Emitted(events) + Stamped(e.pts, e.packets) else Emitted(events)
  {
    hide Stamped;
    assert (events + [e])[..|events|] == events;
  }

  /** Packets newly handed out wait to be sent. */
  lemma EmitKeepsVideo(cfg: Setup, s: State, r: State)
    requires VideoInvariant(cfg, s) && EmitsThen(s, r) && !s.capture.Posting? && r.out == s.out
    requires if r.capture.Posting? then r.capture.seqno == s.seqno && r.seqno == (s.seqno + 1) % U32_SIZE
             else r.seqno == s.seqno
    ensures VideoInvariant(cfg, r)
  {
    hide Videos, Emitted, Numbered, BuildVideoFrame, Stamped;
    var sent, all := |Videos(s.out.log)|, Emitted(s.force.events);
    if r.force != s.force {
      EmittedSnoc(s.force.events, Encoded(s.force.flag, r.capture.pts, r.capture.packets));
      var more := Stamped(r.capture.pts, r.capture.packets);
      assert (all + more)[..sent] == all[..sent];
      assert !s.out.broken ==> sent == |all| && (all + more)[sent..] == more;
    }
  }

  lemma RequestKeepsVideo(cfg: Setup, s: State, r: State)
    requires VideoInvariant(cfg, s) && Honours(s.incoming.handled, s.force, r)
    requires r.out == s.out && r.capture == s.capture && r.seqno == s.seqno
    ensures VideoInvariant(cfg, r)
  {
    hide Videos, Emitted, Numbered, BuildVideoFrame, Stamped, KeyframeRequests, Unsent;
    EmittedSnoc(s.force.events, Requested);
  }

  lemma CapturerSendKeepsHistory(cfg: Setup, s: State, c: Choice)
    requires HistoryInvariant(cfg, s) && s.capture.Posting?
    ensures var r := CaptureStep(cfg, s, c);
            LogInvariant(cfg, r) && VideoInvariant(cfg, r) && PongInvariant(r) && ForceInvariant(r)
  {
    hide CaptureStep, Orderly, VideoInvariant, PongInvariant, LogInvariant, Wanted, Faithful, BuildVideoFrame;
    CaptureMeansOpened(s);
    var r, m := CaptureStep(cfg, s, c), BuildVideoFrame(cfg, s.capture.packet, s.capture.pts, s.capture.seqno);
    CapturerPosts(cfg, s, c);
    FrameIsVideo(cfg, s.capture.packet, s.capture.pts, s.capture.seqno);
    OthersKeepPongs(s, r, m, r.capture.Emit?);
    FrameKeepsVideo(cfg, s, r);
    LaterKeepsShape(cfg, s, r, m, r.capture.Emit?);
  }

  lemma CaptureMeansOpened(s: State)
    requires Orderly(s)
    ensures !s.capture.Idle? ==> !Opening(s.main)
  {
  }

  lemma CapturerKeepsHistory(cfg: Setup, s: State, c: Choice)
    requires HistoryInvariant(cfg, s)
    ensures HistoryInvariant(cfg, CaptureStep(cfg, s, c))
  {
    hide CaptureStep, Orderly, HelloOf, WelcomeOf, ForceInvariant, VideoInvariant, LogShape, PongTokens, PingTokens,
         EmitsThen;
    CaptureKeepsOrder(cfg, s, c);
    var r := CaptureStep(cfg, s, c);
    if s.capture.Posting? {
      CapturerSendKeepsHistory(cfg, s, c);
    } else {
      CapturerStepMoves(cfg, s, c);
      EncodeKeepsForce(s, r);
      EmitKeepsVideo(cfg, s, r);
      assert LogInvariant(cfg, r);
      assert PongInvariant(r);
    }
  }

  lemma OthersKeepHistory(cfg: Setup, s: State, t: Thread, c: Choice)
    requires HistoryInvariant(cfg, s) && (t.Stopper? || t.Network?)
    ensures HistoryInvariant(cfg, Step(cfg, s, t, c))
  {
    hide Orderly, HelloOf, WelcomeOf, Faithful, Wanted, LogShape, Videos, PongTokens, Emitted, Numbered, Unsent;
    StepKeepsOrder(cfg, s, t, c);
  }

  lemma {:induction false} RunsKeepHistory(cfg: Setup, run: Schedule)
    ensures HistoryInvariant(cfg, After(cfg, run))
  {
    hide MainStep, ControlStep, CaptureStep;
    if run != [] {
      var s, t, c := After(cfg, run[..|run| - 1]), run[|run| - 1].0, run[|run| - 1].1;
      RunsKeepHistory(cfg, run[..|run| - 1]);
      match t
      case Runner => RunnerKeepsHistory(cfg, s, c);
      case Reader => ReaderKeepsHistory(cfg, s, c);
      case Capturer => CapturerKeepsHistory(cfg, s, c);
      case _ => OthersKeepHistory(cfg, s, t, c);
    }
  }

  // ---- what was handled is what was received ----

  /** The bytes received are the frames taken and then the bytes unread; the messages among the
      frames are those handled and the one at hand. */
  predicate IncomingInvariant(s: State) {
    && Fits(s.incoming.taken)
    && s.incoming.received == Printed(s.incoming.taken) + s.incoming.unread
    && Messages(s.incoming.taken)
       == (if s.control.Handle? then s.incoming.handled + [s.control.msg] else s.incoming.handled)
    && CaughtUp(s) && StopsAtDisconnect(s)
  }

  /** After a DISCONNECT no further message is handled. */
  predicate StopsAtDisconnect(s: State) {
    && EndsAtDisconnect(s.incoming.handled)
    && (Ended(s.incoming.handled) ==> !s.running && (s.control.Outer? || s.control.Exited?))
  }

  /** A reader that waits for more bytes has parsed all it could from those it has. */
  predicate CaughtUp(s: State) {
    && (s.control.NotStarted? ==> s.incoming.unread == [])
    && (s.running && (s.control.Outer? || s.control.Receiving?) ==> ParseFrame(s.incoming.unread).NeedMore?)
  }

  lemma TakenFrame(taken: seq<RawFrame>, unread: seq<byte>)
    requires ParseFrame(unread).Got?
    ensures var f := ParseFrame(unread).frame;
            && |f.payload| <= MAX_PAYLOAD
            && Printed(taken + [f]) + Beyond(unread) == Printed(taken) + unread
            && Messages(taken + [f]) == Messages(taken) + MessageIn(f)
  {
    hide ParseFrame, FrameBytes, Decode, Printed, Messages;
    PrintParsed(unread);
    var f := ParseFrame(unread).frame;
    assert unread == FrameBytes(f) + Beyond(unread);
    PrintedSnoc(taken, f);
    MessagesSnoc(taken, f);
    Regroup(Printed(taken), FrameBytes(f), Beyond(unread));
  }

  lemma InnerKeepsIncoming(s: State)
    requires IncomingInvariant(s) && s.control.Inner?
    ensures IncomingInvariant(InnerStep(s))
  {
    hide ParseFrame, Printed, Messages, Beyond, Decode;
    var p := ParseFrame(s.incoming.unread);
    if s.running && p.Got? {
      TakenFrame(s.incoming.taken, s.incoming.unread);
      assert IncomingInvariant(InnerStep(s));
    } else {
      hide ParseFrame, Printed, Messages, Beyond, Decode;
    }
  }

  lemma ReceiveKeepsIncoming(s: State, c: Choice)
    requires IncomingInvariant(s) && s.control.Receiving?
    ensures IncomingInvariant(ReceiveStep(s, c))
  {
    hide Printed, Messages, Fits;
    var r := ReceiveStep(s, c);
    if r.incoming != s.incoming {
      var got := r.incoming.received[|s.incoming.received|..];
      Regroup(Printed(s.incoming.taken), s.incoming.unread, got);
    }
  }

  lemma HandleKeepsIncoming(s: State)
    requires IncomingInvariant(s) && s.control.Handle?
    ensures IncomingInvariant(HandleStep(Noted(s, s.control.msg), HandleControlMessage(s.control.msg)))
  {
    hide ParseFrame, HandleControlMessage, HandleStep, Printed, Messages, Fits, PingTokens, KeyframeRequests;
    HandleMoves(s, s.control.msg);
    HandleKeepsTheRest(s, s.control.msg);
  }

  lemma HandleKeepsTheRest(s: State, m: Message)
    ensures var r := HandleStep(Noted(s, m), HandleControlMessage(m));
            && r.incoming == s.incoming.(handled := s.incoming.handled + [m])
            && !r.control.Handle? && !r.control.NotStarted? && !r.control.Receiving?
            && (r.control.Outer? ==> m.Disconnect?)
  {
  }

  /** A step of another thread: the reader stands where it stood, or is started. */
  lemma OthersKeepIncoming(s: State, r: State)
    requires IncomingInvariant(s) && r.incoming == s.incoming.(inbound := r.incoming.inbound)
    requires r.running ==> s.running || s.control.NotStarted?
    requires r.control == s.control || (s.control.NotStarted? && r.control.Outer?)
    ensures IncomingInvariant(r)
  {
    hide ParseFrame, Printed, Messages, Fits;
    NoBytesNeedMore();
  }

  lemma ReplyKeepsIncoming(s: State, r: State)
    requires IncomingInvariant(s) && s.control.Replying? && r.incoming == s.incoming
             && (r.control.Inner? || r.control.Replying?)
    ensures IncomingInvariant(r)
  {
    hide ParseFrame, Printed, Messages, Fits;
  }

  lemma OuterKeepsIncoming(s: State)
    requires IncomingInvariant(s)
    ensures s.running ==> s.control.Outer? ==> IncomingInvariant(s.(control := Receiving))
    ensures !s.running ==> s.control.Outer? ==> IncomingInvariant(s.(control := Exited))
  {
    hide ParseFrame, Printed, Messages, Fits;
  }

  lemma ReaderKeepsIncoming(s: State, c: Choice)
    requires IncomingInvariant(s)
    ensures IncomingInvariant(ControlStep(s, c))
  {
    hide IncomingInvariant, InnerStep, ReceiveStep, HandleStep, Noted, HandleControlMessage, SendStep;
    match s.control
    case Outer => OuterKeepsIncoming(s);
    case Receiving => ReceiveKeepsIncoming(s, c);
    case Inner => InnerKeepsIncoming(s);
    case Handle(_) => HandleKeepsIncoming(s);
    case Replying(_, _) =>
      ReaderPosts(s, c);
      ReplyKeepsIncoming(s, ControlStep(s, c));
    case _ =>
  }

  lemma StepKeepsIncoming(cfg: Setup, s: State, t: Thread, c: Choice)
    requires Orderly(s) && IncomingInvariant(s)
    ensures IncomingInvariant(Step(cfg, s, t, c))
  {
    hide IncomingInvariant, MainStep, ControlStep, CaptureStep, MutexOrder, Posted, EmitsThen;
    match t
    case Runner =>
      if s.main.SendHello? || s.main.SendWelcome? {
        RunnerPosts(cfg, s, c);
      } else {
        RunnerStepMoves(cfg, s, c);
      }
      OthersKeepIncoming(s, MainStep(cfg, s, c));
    case Reader => ReaderKeepsIncoming(s, c);
    case Capturer =>
      if s.capture.Posting? {
        CapturerPosts(cfg, s, c);
      } else {
        CapturerStepMoves(cfg, s, c);
      }
      OthersKeepIncoming(s, CaptureStep(cfg, s, c));
    case _ => OthersKeepIncoming(s, Step(cfg, s, t, c));
  }

  lemma {:induction false} RunsKeepIncoming(cfg: Setup, run: Schedule)
    ensures IncomingInvariant(After(cfg, run))
  {
    if run != [] {
      var before := run[..|run| - 1];
      RunsKeepHistory(cfg, before);
      RunsKeepIncoming(cfg, before);
      StepKeepsIncoming(cfg, After(cfg, before), run[|run| - 1].0, run[|run| - 1].1);
    }
  }

  /** All bytes the network brought while the channel was open, in order. */
  function Brought(cfg: Setup, run: Schedule): seq<byte> {
    if run == [] then []
    else
      var before, last := run[..|run| - 1], run[|run| - 1];
      if last.0.Network? && !After(cfg, before).closed then Brought(cfg, before) + last.1.bytes
      else Brought(cfg, before)
  }

  lemma ReceiveLosesNothing(s: State, c: Choice)
    requires s.control.Receiving?
    ensures var r := ReceiveStep(s, c).incoming;
            r.received + r.inbound == s.incoming.received + s.incoming.inbound
  {
    var r := ReceiveStep(s, c).incoming;
    if r != s.incoming {
      var n := |r.received| - |s.incoming.received|;
      Regroup(s.incoming.received, s.incoming.inbound[..n], s.incoming.inbound[n..]);
      assert s.incoming.inbound[..n] + s.incoming.inbound[n..] == s.incoming.inbound;
    }
  }

  lemma ReaderLosesNothing(s: State, c: Choice)
    ensures var r := ControlStep(s, c).incoming;
            r.received + r.inbound == s.incoming.received + s.incoming.inbound
  {
    hide ReceiveStep, ParseFrame, Decode, HandleControlMessage, SendStep, Beyond;
    if s.control.Receiving? {
      ReceiveLosesNothing(s, c);
    } else if s.control.Replying? {
      ReaderPosts(s, c);
    }
  }

  /** Under every interleaving the bytes received and those still to come are those the network
      brought, in order: no read loses or invents one. */
  lemma {:induction false} NothingIsLost(cfg: Setup, run: Schedule)
    ensures var i := After(cfg, run).incoming; i.received + i.inbound == Brought(cfg, run)
  {
    if run != [] {
      hide MainStep, ControlStep, CaptureStep, Orderly;
      var s, t, c := After(cfg, run[..|run| - 1]), run[|run| - 1].0, run[|run| - 1].1;
      NothingIsLost(cfg, run[..|run| - 1]);
      match t
      case Runner =>
        if s.main.SendHello? || s.main.SendWelcome? {
          RunnerPosts(cfg, s, c);
        } else {
          RunnerStepMoves(cfg, s, c);
        }
      case Reader => ReaderLosesNothing(s, c);
      case Capturer =>
        if s.capture.Posting? {
          CapturerPosts(cfg, s, c);
        } else {
          CapturerStepMoves(cfg, s, c);
        }
      case Stopper =>
      case Network => Regroup(s.incoming.received, s.incoming.inbound, c.bytes);
    }
  }

  // ---- the whole run ----

  /** Under every interleaving, what was handled is a beginning of the messages in the bytes
      received, whatever the sizes of the reads, and goes up to the first DISCONNECT at most; it is
      exactly the messages up to there once one was handled; and it is all of them whenever the
      running session's reader waits for bytes, which are then not corrupt. */
  lemma HandledIsReceived(cfg: Setup, run: Schedule)
    ensures var s := After(cfg, run); var i := s.incoming;
            && i.handled <= UntilDisconnect(Messages(Frames(i.received)))
            && (Ended(i.handled) ==> i.handled == UntilDisconnect(Messages(Frames(i.received))))
            && (s.running && s.control.Receiving? ==>
                  i.handled == Messages(Frames(i.received)) && !ParseFrame(Remainder(i.received)).Bad?)
  {
    var s := After(cfg, run);
    hide After, Printed, Messages, ParseFrame;
    RunsKeepIncoming(cfg, run);
    FramesOfPrinted(s.incoming.taken, s.incoming.unread);
    MessagesConcat(s.incoming.taken, Frames(s.incoming.unread));
    NothingMore(s.incoming.unread);
    ReadUntilDisconnect(s.incoming.handled, Messages(Frames(s.incoming.received)));
  }

  lemma NothingMore(unread: seq<byte>)
    ensures ParseFrame(unread).NeedMore? ==> Messages(Frames(unread)) == [] && Remainder(unread) == unread
  {
  }

  /** Under every interleaving the log is HELLO, WELCOME, then video frames and pongs; the pongs
      answer the pings handled, in order. */
  lemma LogOfEveryRun(cfg: Setup, run: Schedule)
    ensures var s := After(cfg, run);
            && LogShape(cfg, s.out.log)
            && PongTokens(s.out.log) <= PingTokens(s.incoming.handled)
            && (!s.out.broken && !s.control.Replying? ==> PongTokens(s.out.log) == PingTokens(s.incoming.handled))
            && (|s.out.log| >= 1 ==> Announces(s.out.log[0], cfg))
            && (|s.out.log| >= 2 ==> Welcomes(s.out.log[1], cfg))
            && (forall i :: 2 <= i < |s.out.log| ==> s.out.log[i].VideoFrame? || s.out.log[i].Pong?)
  {
    RunsKeepHistory(cfg, run);
  }

  /** HELLO: version 1, both codecs, the size and rate of the configuration and its largest bitrate. */
  predicate Announces(m: Message, cfg: Setup) {
    && m.Hello? && m.caps.version == 1 && m.caps.codec == 3 && m.caps.flags == 0
    && m.caps.width == cfg.width % 65536 && m.caps.height == cfg.height % 65536 && m.caps.fps == cfg.fps % 65536
    && m.caps.bitrate == cfg.max
  }

  /** WELCOME: version 1, the codec, size and rate of the configuration and its target bitrate. */
  predicate Welcomes(m: Message, cfg: Setup) {
    && m.Welcome? && m.format.version == 1 && m.format.codec == (if cfg.h264 then 2 else 1) && m.format.flags == 0
    && m.format.width == cfg.width % 65536 && m.format.height == cfg.height % 65536 && m.format.fps == cfg.fps % 65536
    && m.format.bitrate == cfg.target
  }

  /** Under every interleaving the video frames sent carry the packets handed out by the encoder,
      in order and none left out, numbered from 0 modulo 2^32; all of them were sent while the
      channel works and no frame is in flight. */
  lemma FramesOfEveryRun(cfg: Setup, run: Schedule)
    ensures var s := After(cfg, run); var sent, all := Videos(s.out.log), Emitted(s.force.events);
            && |sent| <= |all|
            && (forall i :: 0 <= i < |sent| ==>
                  && sent[i].VideoFrame? && sent[i].bitstream == all[i].packet.data && sent[i].seqno == i % U32_SIZE
                  && sent[i].codec == (if cfg.h264 then 2 else 1) && sent[i].vflags == 0
                  && sent[i].frameType == (if all[i].packet.keyframe then 1 else 0)
                  && 10 * sent[i].pts <= all[i].pts < 10 * sent[i].pts + 10)
            && (!s.out.broken && s.capture.Idle? ==> |sent| == |all|)
  {
    RunsKeepHistory(cfg, run);
    hide Videos, Emitted;
  }

  /** How many frames were forced to be keyframes. */
  function Forced(events: seq<Event>): nat {
    if events == [] then 0
    else
      var e := events[|events| - 1];
      Forced(events[..|events| - 1]) + (if e.Encoded? && e.idr then 1 else 0)
  }

  lemma {:induction false} ForcedIsBounded(events: seq<Event>)
    requires Faithful(events)
    ensures Forced(events) <= Requests(events) + if Wanted(events) then 0 else 1
  {
    if events != [] {
      var before := events[..|events| - 1];
      forall i | 0 <= i < |before| && before[i].Encoded?
        ensures before[i].idr == Wanted(before[..i])
      {
        assert before[..i] == events[..i];
      }
      ForcedIsBounded(before);
      if before != [] && before[|before| - 1].Requested? {
        ForcedIsBounded(before[..|before| - 1]);
      }
    }
  }

  /** The `j`-th event must be forced: no frame was encoded before it, or a request came since the
      last. */
  predicate Due(events: seq<Event>, j: nat)
    requires j <= |events|
  {
    || (forall i :: 0 <= i < j ==> events[i].Requested?)
    || exists i :: 0 <= i < j && events[i].Requested? && forall k :: i < k < j ==> events[k].Requested?
  }

  lemma DueIsWanted(events: seq<Event>, j: nat)
    requires j <= |events|
    ensures Due(events, j) <==> Wanted(events[..j])
  {
    if j > 0 && events[j - 1].Requested? {
      assert 0 <= j - 1 < j;
    }
  }

  /** A frame is forced to be a keyframe if and only if it is the first or a request came since
      the last; so no request is lost, and at most one frame more is forced than requested. */
  lemma KeyframesOfEveryRun(cfg: Setup, run: Schedule)
    ensures var s := After(cfg, run); var es := s.force.events;
            && (forall j :: 0 <= j < |es| && es[j].Encoded? ==> (es[j].idr <==> Due(es, j)))
            && Forced(es) <= KeyframeRequests(s.incoming.handled) + 1
  {
    hide After, Due, Wanted;
    RunsKeepHistory(cfg, run);
    var es := After(cfg, run).force.events;
    ForcedIsBounded(es);
    forall j | 0 <= j < |es| && es[j].Encoded?
      ensures es[j].idr <==> Due(es, j)
    {
      DueIsWanted(es, j);
    }
  }
}
