/** The bytes the session writes: whole messages one after another, never two interleaved. */
module SessionWire {
  import opened Bytes
  import opened Wire
  import opened Session
  import opened SessionHistory

  datatype Writing = Writing(msg: Message, pc: SendPc)

  /** The message being written under the mutex, if any. */
  function Holder(cfg: Setup, s: State): Option<Writing> {
    if RunnerInside(s.main) then Some(Writing(Announcement(cfg, s.main), s.main.send))
    else if ReaderInside(s.control) then Some(Writing(Pong(s.control.token), s.control.send))
    else if CapturerInside(s.capture) then Some(Writing(FrameAt(cfg, s.capture), s.capture.send))
    else None
  }

  function FrameAt(cfg: Setup, k: CapturePc): Message
    requires k.Posting?
  {
    BuildVideoFrame(cfg, k.packet, k.pts, k.seqno)
  }

  function TornBytes(t: Tail): seq<byte> {
    if t.Torn? && t.cut <= |Encode(t.msg)| then Encode(t.msg)[..t.cut] else []
  }

  function TailOf(w: Option<Writing>): Tail {
    if w.Some? && w.value.pc.Second? then Torn(w.value.msg, w.value.pc.cut) else Clean
  }

  /** What was written is the log, encoded, and then less than the whole of one message: the one
      being written, while the channel works. */
  predicate WireInvariant(o: Outgoing, w: Option<Writing>) {
    && o.wire == EncodeAll(o.log) + TornBytes(o.tail)
    && (o.tail.Torn? ==> o.tail.cut < |Encode(o.tail.msg)|)
    && (!o.broken ==> o.tail == TailOf(w))
  }

  lemma EncodeAllSnoc(ms: seq<Message>, m: Message)
    ensures EncodeAll(ms + [m]) == EncodeAll(ms) + Encode(m)
  {
    assert FramesFor(ms + [m]) == FramesFor(ms) + [FrameOf(m)];
    PrintedConcat(FramesFor(ms), [FrameOf(m)]);
    assert [FrameOf(m)] + [] == [FrameOf(m)];
    PrintedCons(FrameOf(m), []);
  }

  lemma WriteSomeKeepsWire(s: State, m: Message, c: Choice)
    requires WireInvariant(s.out, Some(Writing(m, First)))
    ensures var r := WriteSome(s, m, c);
            WireInvariant(r.state.out, if r.next.Some? then Some(Writing(m, r.next.value)) else None)
  {
    hide EncodeAll;
    assert |Encode(m)| > 0;
    assert !s.out.broken ==> s.out.wire == EncodeAll(s.out.log);
  }

  lemma WriteRestKeepsWire(s: State, m: Message, cut: nat, c: Choice)
    requires WireInvariant(s.out, Some(Writing(m, Second(cut))))
    ensures var r := WriteRest(s, m, cut, c); r.next.None? && WireInvariant(r.state.out, None)
  {
    hide Encode, EncodeAll;
    if !s.out.broken && !s.closed && c.ok && cut <= |Encode(m)| {
      EncodeAllSnoc(s.out.log, m);
      Regroup(EncodeAll(s.out.log), Encode(m)[..cut], Encode(m)[cut..]);
      assert Encode(m)[..cut] + Encode(m)[cut..] == Encode(m);
    }
  }

  lemma SendKeepsWire(s: State, t: Thread, m: Message, pc: SendPc, c: Choice, w: Option<Writing>)
    requires WireInvariant(s.out, w)
    requires if pc.Acquire? then s.mutex.None? ==> w.None? else w == Some(Writing(m, pc))
    ensures var r := SendStep(s, t, m, pc, c);
            WireInvariant(r.state.out, if pc.Acquire? && s.mutex.Some? then w
                                       else if r.next.Some? then Some(Writing(m, r.next.value)) else None)
  {
    hide WriteSome, WriteRest, EncodeAll, TornBytes;
    match pc
    case Acquire =>
    case First => WriteSomeKeepsWire(s, m, c);
    case Second(cut) => WriteRestKeepsWire(s, m, cut, c);
  }

  lemma RunnerKeepsWire(cfg: Setup, s: State, c: Choice)
    requires Orderly(s) && WireInvariant(s.out, Holder(cfg, s))
    ensures var r := MainStep(cfg, s, c); WireInvariant(r.out, Holder(cfg, r))
  {
    hide WireInvariant, SendStep, HelloOf, WelcomeOf, BuildVideoFrame;
    MainKeepsOrder(cfg, s, c);
    var r := MainStep(cfg, s, c);
    if s.main.SendHello? || s.main.SendWelcome? {
      var m := Announcement(cfg, s.main);
      SendStepMoves(s, Runner, m, s.main.send, c);
      SendKeepsWire(s, Runner, m, s.main.send, c, Holder(cfg, s));
      RunnerPosts(cfg, s, c);
    } else {
      RunnerStepMoves(cfg, s, c);
      assert Holder(cfg, r) == Holder(cfg, s);
    }
  }

  lemma ReaderKeepsWire(cfg: Setup, s: State, c: Choice)
    requires Orderly(s) && WireInvariant(s.out, Holder(cfg, s))
    ensures var r := ControlStep(s, c); WireInvariant(r.out, Holder(cfg, r))
  {
    hide WireInvariant, SendStep, HelloOf, WelcomeOf, BuildVideoFrame, PhaseOrder;
    ControlKeepsOrder(s, c);
    ExitedMeansStopped(s);
    var r := ControlStep(s, c);
    if s.control.Replying? {
      var m := Pong(s.control.token);
      SendStepMoves(s, Reader, m, s.control.send, c);
      SendKeepsWire(s, Reader, m, s.control.send, c, Holder(cfg, s));
      ReaderPosts(s, c);
    } else {
      ReaderStepMoves(s, c);
      assert Holder(cfg, r) == Holder(cfg, s);
    }
  }

  lemma CapturerKeepsWire(cfg: Setup, s: State, c: Choice)
    requires Orderly(s) && WireInvariant(s.out, Holder(cfg, s))
    ensures var r := CaptureStep(cfg, s, c); WireInvariant(r.out, Holder(cfg, r))
  {
    hide WireInvariant, SendStep, HelloOf, WelcomeOf, BuildVideoFrame, PhaseOrder;
    CaptureKeepsOrder(cfg, s, c);
    var r := CaptureStep(cfg, s, c);
    if s.capture.Posting? {
      var m := FrameAt(cfg, s.capture);
      SendStepMoves(s, Capturer, m, s.capture.send, c);
      SendKeepsWire(s, Capturer, m, s.capture.send, c, Holder(cfg, s));
      CapturerPosts(cfg, s, c);
    } else {
      CapturerStepMoves(cfg, s, c);
      assert Holder(cfg, r) == Holder(cfg, s);
    }
  }

  lemma StepKeepsWire(cfg: Setup, s: State, t: Thread, c: Choice)
    requires Orderly(s) && WireInvariant(s.out, Holder(cfg, s))
    ensures var r := Step(cfg, s, t, c); WireInvariant(r.out, Holder(cfg, r))
  {
    hide HelloOf, WelcomeOf, BuildVideoFrame, MainStep, ControlStep, CaptureStep, Orderly, WireInvariant;
    match t
    case Runner => RunnerKeepsWire(cfg, s, c);
    case Reader => ReaderKeepsWire(cfg, s, c);
    case Capturer => CapturerKeepsWire(cfg, s, c);
    case _ => assert Holder(cfg, Step(cfg, s, t, c)) == Holder(cfg, s);
  }

  lemma {:induction false} RunsKeepWire(cfg: Setup, run: Schedule)
    ensures var s := After(cfg, run); WireInvariant(s.out, Holder(cfg, s))
  {
    hide Step;
    if run == [] {
      assert EncodeAll([]) == [];
    } else {
      hide Orderly, WireInvariant, Holder;
      RunsKeepHistory(cfg, run[..|run| - 1]);
      RunsKeepWire(cfg, run[..|run| - 1]);
      StepKeepsWire(cfg, After(cfg, run[..|run| - 1]), run[|run| - 1].0, run[|run| - 1].1);
    }
  }

  // ---- what the peer reads ----

  predicate PacketsFit(packets: seq<Packet>) {
    forall i :: 0 <= i < |packets| ==> 15 + |packets[i].data| <= MAX_PAYLOAD
  }

  predicate ScheduleFits(run: Schedule) {
    forall i :: 0 <= i < |run| ==> PacketsFit(run[i].1.packets)
  }

  /** Every message logged or about to be written can be read back. */
  predicate EncodableInvariant(s: State) {
    && OutEncodable(s.out)
    && (s.capture.Emit? || s.capture.Posting? ==> PacketsFit(s.capture.packets))
    && (s.capture.Posting? ==> 15 + |s.capture.packet.data| <= MAX_PAYLOAD)
  }

  predicate OutEncodable(o: Outgoing) {
    AllEncodable(o.log) && (o.tail.Torn? ==> Encodable(o.tail.msg))
  }

  lemma SendKeepsEncodable(s: State, t: Thread, m: Message, pc: SendPc, c: Choice)
    requires OutEncodable(s.out) && Encodable(m)
    ensures OutEncodable(SendStep(s, t, m, pc, c).state.out)
  {
    hide Encode, Encodable;
    assert AllEncodable(s.out.log + [m]);
  }

  lemma AnnouncementsAreEncodable(cfg: Setup, m: MainPc, token: u64, p: Packet, pts: u64, seqno: u32)
    ensures Encodable(Announcement(cfg, m)) && Encodable(Pong(token))
    ensures 15 + |p.data| <= MAX_PAYLOAD ==> Encodable(BuildVideoFrame(cfg, p, pts, seqno))
  {
  }

  lemma CaptureKeepsEncodable(cfg: Setup, s: State, c: Choice)
    requires EncodableInvariant(s) && PacketsFit(c.packets)
    ensures EncodableInvariant(CaptureStep(cfg, s, c))
  {
    hide SendStep, OutEncodable, Encodable, BuildVideoFrame;
    if s.capture.Posting? {
      AnnouncementsAreEncodable(cfg, s.main, 0, s.capture.packet, s.capture.pts, s.capture.seqno);
      SendKeepsEncodable(s, Capturer, FrameAt(cfg, s.capture), s.capture.send, c);
      CapturerPosts(cfg, s, c);
    }
  }

  lemma StepKeepsEncodable(cfg: Setup, s: State, t: Thread, c: Choice)
    requires EncodableInvariant(s) && PacketsFit(c.packets)
    requires s.control.Exited? ==> !s.running
    ensures EncodableInvariant(Step(cfg, s, t, c))
  {
    hide SendStep, OutEncodable, Encodable, HelloOf, WelcomeOf, CaptureStep, InnerStep, ReceiveStep, HandleStep,
         Noted, HandleControlMessage, PacketsFit;
    match t
    case Runner =>
      if s.main.SendHello? || s.main.SendWelcome? {
        AnnouncementsAreEncodable(cfg, s.main, 0, Packet(false, []), 0, 0);
        SendKeepsEncodable(s, Runner, Announcement(cfg, s.main), s.main.send, c);
        RunnerPosts(cfg, s, c);
      } else {
        RunnerStepMoves(cfg, s, c);
      }
    case Reader =>
      if s.control.Replying? {
        AnnouncementsAreEncodable(cfg, s.main, s.control.token, Packet(false, []), 0, 0);
        SendKeepsEncodable(s, Reader, Pong(s.control.token), s.control.send, c);
        ReaderPosts(s, c);
      } else {
        ReaderStepMoves(s, c);
      }
    case Capturer => CaptureKeepsEncodable(cfg, s, c);
    case _ =>
  }

  lemma {:induction false} RunsKeepEncodable(cfg: Setup, run: Schedule)
    requires ScheduleFits(run)
    ensures EncodableInvariant(After(cfg, run))
  {
    hide Step;
    if run != [] {
      var before := run[..|run| - 1];
      RunsKeepEncodable(cfg, before);
      RunsKeepHistory(cfg, before);
      ExitedMeansStopped(After(cfg, before));
      assert PacketsFit(run[|run| - 1].1.packets);
      StepKeepsEncodable(cfg, After(cfg, before), run[|run| - 1].0, run[|run| - 1].1);
    }
  }

  /** Less than one whole encoded message holds no frame. */
  lemma TornHoldsNoFrame(m: Message, cut: nat)
    requires Encodable(m) && cut < |Encode(m)|
    ensures ParseFrame(Encode(m)[..cut]).NeedMore?
  {
    var part, rest := Encode(m)[..cut], Encode(m)[cut..];
    assert part + rest == Encode(m) == FrameBytes(FrameOf(m)) + [];
    PayloadFits(m);
    ParsePrinted(FrameOf(m), []);
    if !ParseFrame(part).NeedMore? {
      VerdictIsFinal(part, rest);
      PrintParsed(part);
    }
  }

  /** Under every interleaving the peer, parsing the bytes written so far, reads exactly the
      messages in the log, in order, and no more. */
  lemma PeerReadsTheLog(cfg: Setup, run: Schedule)
    requires ScheduleFits(run)
    ensures var s := After(cfg, run); Messages(Frames(s.out.wire)) == s.out.log
  {
    var o := After(cfg, run).out;
    RunsKeepWire(cfg, run);
    RunsKeepEncodable(cfg, run);
    StreamRoundTrip(o.log, TornBytes(o.tail));
    if o.tail.Torn? {
      TornHoldsNoFrame(o.tail.msg, o.tail.cut);
    }
    assert Frames(TornBytes(o.tail)) == [];
  }
}
