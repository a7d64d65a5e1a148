/** When the session ends: once the channel is closed every fair run joins the control thread and
    returns from Run; a session that stopped running for another reason does so if and only if no
    thread waits for a peer that may send nothing or take nothing. */
module SessionLiveness {
  import opened Bytes
  import opened Wire
  import opened Session
  import opened SessionHistory

  // ---- a measure ----

  datatype Triple = Triple(x: nat, y: nat, z: nat)

  datatype Rank = Rank(boot: nat, running: nat, main: nat, reader: Triple, capture: Triple)

  predicate Less3(a: Triple, b: Triple) {
    a.x < b.x || (a.x == b.x && (a.y < b.y || (a.y == b.y && a.z < b.z)))
  }

  /** The lexicographic order. */
  predicate Less(a: Rank, b: Rank) {
    || a.boot < b.boot
    || (a.boot == b.boot && a.running < b.running)
    || (a.boot == b.boot && a.running == b.running && a.main < b.main)
    || (a.boot == b.boot && a.running == b.running && a.main == b.main && Less3(a.reader, b.reader))
    || (a.boot == b.boot && a.running == b.running && a.main == b.main && a.reader == b.reader
         && Less3(a.capture, b.capture))
  }

  function SendRank(pc: SendPc): nat {
    match pc case Acquire => 2 case First => 1 case Second(_) => 0
  }

  function MainRank(m: MainPc): nat {
    match m
    case Boot => 14
    case SendHello(pc) => 11 + SendRank(pc)
    case SendWelcome(pc) => 8 + SendRank(pc)
    case Spawn => 7
    case StartCapture => 6
    case CaptureStarted => 5
    case Wait => 4
    case StopCapture => 3
    case Shutdown => 2
    case Join => 1
    case Done => 0
  }

  function ControlRank(r: ControlPc): nat {
    match r
    case Handle(_) => 7
    case Replying(_, pc) => 4 + SendRank(pc)
    case Inner => 3
    case Outer => 2
    case Receiving => 1
    case _ => 0
  }

  function ReaderRank(i: Incoming, r: ControlPc): Triple {
    Triple(|i.inbound| + |i.unread|, |i.inbound|, ControlRank(r))
  }

  /** Once the session does not run, the reader is on its way out: no byte count matters. */
  function LeavingRank(r: ControlPc): Triple {
    Triple(0, 0, if r.Receiving? then 8 else ControlRank(r))
  }

  function CapturePcRank(k: CapturePc): Triple {
    match k
    case Idle => Triple(0, 0, 0)
    case Initialize(_) => Triple(3, 0, 0)
    case Exchange(_) => Triple(2, 0, 0)
    case Emit(_, packets) => Triple(1, |packets|, 0)
    case Posting(_, _, _, pc, packets) => Triple(1, |packets|, 1 + SendRank(pc))
  }

  /** While the session runs frames may keep coming: then only the mutex counts. */
  function CaptureRank(s: State): Triple {
    if s.running then Triple(0, 0, if s.mutex == Some(Capturer) then 0 else 1) else CapturePcRank(s.capture)
  }

  function RankOf(s: State): Rank {
    Rank(if s.main.Boot? then 1 else 0, if s.running then 1 else 0, MainRank(s.main),
         if s.running then ReaderRank(s.incoming, s.control) else LeavingRank(s.control), CaptureRank(s))
  }

  // ---- when the end is certain ----

  /** The reader waits for bytes, none have come, and the channel is open. */
  predicate Starved(s: State) {
    s.control.Receiving? && s.incoming.inbound == [] && !s.closed
  }

  /** A thread has something to send, or may get it from the encoder. */
  predicate MaySend(s: State) {
    || s.main.SendHello? || s.main.SendWelcome?
    || s.control.Replying? || (s.control.Handle? && s.control.msg.Ping?)
    || !(s.capture.Idle? || (s.capture.Emit? && s.capture.packets == []))
  }

  /** A write may wait for a peer that takes nothing: the channel is open and works. */
  predicate Stalled(s: State) {
    MaySend(s) && !s.out.broken && !s.closed
  }

  /** The channel was closed, or the session stopped running and no thread waits for the peer. */
  predicate Ending(s: State) {
    s.closed || (!s.running && !s.main.Boot? && !Starved(s) && !Stalled(s))
  }

  // ---- the thread whose next step makes progress ----

  predicate ReaderBlocked(s: State) {
    s.control.Replying? && s.control.send.Acquire? && s.mutex.Some?
  }

  predicate CapturerBlocked(s: State) {
    s.capture.Posting? && s.capture.send.Acquire? && s.mutex.Some?
  }

  function Helper(s: State): Thread {
    match s.main
    case Wait => if !s.running then Runner else if ReaderBlocked(s) then Capturer else Reader
    case StopCapture => if s.capture.Idle? then Runner else if CapturerBlocked(s) then Reader else Capturer
    case Join => if s.control.Exited? then Runner else Reader
    case _ => Runner
  }

  /** Neither the measure nor the helper can tell the two states apart. */
  predicate Alike(s: State, r: State) {
    && r.main == s.main && r.control == s.control && r.running == s.running && r.mutex == s.mutex
    && (if s.running then r.incoming == s.incoming else r.capture == s.capture)
  }

  predicate Progress(s: State, t: Thread, r: State) {
    Less(RankOf(r), RankOf(s)) || (Alike(s, r) && (s.main.Done? || Helper(s) != t))
  }

  lemma AlikeIsSame(s: State, r: State)
    requires Alike(s, r)
    ensures RankOf(r) == RankOf(s)
    ensures PhaseOrder(s) ==> Helper(r) == Helper(s)
  {
  }

  /** A sender takes the free mutex, and fails on a closed or broken channel. */
  predicate SendGetsOn(s: State, pc: SendPc, r: Sent) {
    && (r.state.running ==> s.running)
    && (if pc.Acquire? then
          if s.mutex.None? then r.next == Some(First) && r.state.running == s.running
          else r.state == s && r.next == Some(Acquire)
        else s.closed || s.out.broken ==> r.next.None? && !r.state.running)
  }

  lemma SendStepGetsOn(s: State, t: Thread, m: Message, pc: SendPc, c: Choice)
    ensures SendGetsOn(s, pc, SendStep(s, t, m, pc, c))
  {
    SendStepMoves(s, t, m, pc, c);
  }

  lemma HolderIsInside(s: State)
    requires MutexOrder(s) && s.mutex.Some?
    ensures RunnerInside(s.main) || ReaderInside(s.control) || CapturerInside(s.capture)
  {
    match s.mutex.value
    case Runner =>
    case Reader =>
    case Capturer =>
  }

  lemma OpeningIsAlone(s: State)
    requires Orderly(s) && Opening(s.main) && !RunnerInside(s.main)
    ensures s.mutex.None?
  {
    if s.mutex.Some? {
      HolderIsInside(s);
    }
  }

  lemma RunnerSendProgress(cfg: Setup, s: State, c: Choice)
    requires Orderly(s) && Ending(s) && (s.main.SendHello? || s.main.SendWelcome?)
    ensures Less(RankOf(MainStep(cfg, s, c)), RankOf(s))
  {
    hide SendStep, HelloOf, WelcomeOf, Orderly, ReaderRank, LeavingRank, CaptureRank;
    if s.main.send.Acquire? {
      OpeningIsAlone(s);
    }
    SendStepGetsOn(s, Runner, Announcement(cfg, s.main), s.main.send, c);
    RunnerPosts(cfg, s, c);
    assert MainRank(MainStep(cfg, s, c).main) < MainRank(s.main);
  }

  predicate DescendsOrWaits(s: State, r: State) {
    MainRank(r.main) < MainRank(s.main) || (r == s && (s.main.Done? || Helper(s) != Runner))
  }

  lemma RunnerDescendsOrWaits(cfg: Setup, s: State, c: Choice)
    requires !s.main.SendHello? && !s.main.SendWelcome?
    ensures DescendsOrWaits(s, MainStep(cfg, s, c))
  {
    hide SendStep, ReaderBlocked, CapturerBlocked;
    var r := MainStep(cfg, s, c);
    match s.main
    case Boot => assert r.main == SendHello(Acquire);
    case Spawn => assert r.main == StartCapture;
    case StartCapture => assert r.main == CaptureStarted;
    case CaptureStarted => assert r.main == Wait;
    case Wait => assert if s.running then r == s else r.main == StopCapture;
    case StopCapture => assert if s.capture.Idle? then r.main == Shutdown else r == s;
    case Shutdown => assert r.main == Join;
    case Join => assert if s.control.Exited? then r.main == Done else r == s;
    case Done => assert r == s;
  }

  lemma RunnerProgress(cfg: Setup, s: State, c: Choice)
    requires Orderly(s) && Ending(s)
    ensures Progress(s, Runner, MainStep(cfg, s, c))
  {
    hide MainStep, MainRank, ReaderRank, LeavingRank, CaptureRank, Orderly, Helper;
    if s.main.SendHello? || s.main.SendWelcome? {
      RunnerSendProgress(cfg, s, c);
    } else {
      RunnerStepMoves(cfg, s, c);
      RunnerDescendsOrWaits(cfg, s, c);
      RunnerLeavesBoot(cfg, s, c);
    }
  }

  /** The reader has less to do, by the count that matters. */
  predicate ReaderGetsOn(s: State, r: State) {
    if s.running then Less3(ReaderRank(r.incoming, r.control), ReaderRank(s.incoming, s.control))
    else Less3(LeavingRank(r.control), LeavingRank(s.control))
  }

  lemma ReceiveProgress(s: State, c: Choice)
    requires s.control.Receiving? && Ending(s)
    ensures ReaderGetsOn(s, ReceiveStep(s, c))
  {
  }

  lemma InnerProgress(s: State)
    requires s.control.Inner?
    ensures ReaderGetsOn(s, InnerStep(s))
  {
    hide ParseFrame, Decode;
    var p := ParseFrame(s.incoming.unread);
    if s.running && p.Got? {
      PrintParsed(s.incoming.unread);
      assert |Beyond(s.incoming.unread)| < |s.incoming.unread|;
    }
  }

  lemma HandleProgress(s: State, m: Message)
    requires s.control == Handle(m)
    ensures ReaderGetsOn(s, HandleStep(Noted(s, m), HandleControlMessage(m)))
  {
    hide HandleControlMessage;
  }

  lemma ReaderStepProgress(s: State, c: Choice)
    requires Ending(s) && !s.control.Replying? && !s.control.NotStarted? && !s.control.Exited?
    ensures ReaderGetsOn(s, ControlStep(s, c))
  {
    hide ReceiveStep, InnerStep, HandleStep, HandleControlMessage, Noted;
    match s.control
    case Outer =>
    case Receiving => ReceiveProgress(s, c);
    case Inner => InnerProgress(s);
    case Handle(m) => HandleProgress(s, m);
  }

  lemma ReaderMatters(s: State)
    requires Orderly(s) && !s.main.Done? && Helper(s) == Reader
    ensures !s.control.NotStarted? && !s.control.Exited? && !ReaderBlocked(s)
  {
    if s.mutex.Some? {
      HolderIsInside(s);
    }
  }

  lemma ReaderProgress(cfg: Setup, s: State, c: Choice)
    requires Orderly(s) && Ending(s)
    ensures Progress(s, Reader, ControlStep(s, c))
  {
    hide SendStep, InnerStep, ReceiveStep, HandleStep, HandleControlMessage, Noted, MutexOrder, Helper, CaptureRank;
    if !s.main.Done? && Helper(s) == Reader {
      ReaderMatters(s);
    }
    ExitedMeansStopped(s);
    var r := ControlStep(s, c);
    if s.control.Replying? {
      ReaderPosts(s, c);
      SendStepGetsOn(s, Reader, Pong(s.control.token), s.control.send, c);
      assert r == s || ReaderGetsOn(s, r);
    } else if s.control.NotStarted? || s.control.Exited? {
      assert r == s;
    } else {
      ReaderStepProgress(s, c);
      ReaderStepMoves(s, c);
    }
  }

  lemma CapturerMatters(s: State)
    requires Orderly(s) && !s.main.Done? && Helper(s) == Capturer
    ensures if s.running then CapturerInside(s.capture) else !s.capture.Idle? && !CapturerBlocked(s)
  {
    if s.mutex.Some? {
      HolderIsInside(s);
    }
  }

  lemma CapturerSendProgress(cfg: Setup, s: State, c: Choice)
    requires Orderly(s) && Ending(s) && s.capture.Posting?
    ensures Progress(s, Capturer, CaptureStep(cfg, s, c))
  {
    if !s.main.Done? && Helper(s) == Capturer {
      CapturerMatters(s);
    }
    assert s.mutex == Some(Capturer) <==> CapturerInside(s.capture);
    var r, m := CaptureStep(cfg, s, c), BuildVideoFrame(cfg, s.capture.packet, s.capture.pts, s.capture.seqno);
    CapturerPosts(cfg, s, c);
    SendStepMoves(s, Capturer, m, s.capture.send, c);
    SendStepGetsOn(s, Capturer, m, s.capture.send, c);
  }

  lemma CapturerProgress(cfg: Setup, s: State, c: Choice)
    requires Orderly(s) && Ending(s)
    ensures Progress(s, Capturer, CaptureStep(cfg, s, c))
  {
    if s.capture.Posting? {
      CapturerSendProgress(cfg, s, c);
    } else {
      if !s.main.Done? && Helper(s) == Capturer {
        CapturerMatters(s);
      }
      CapturerStepMoves(cfg, s, c);
      var r := CaptureStep(cfg, s, c);
      if !s.running {
        assert r == s || Less3(CapturePcRank(r.capture), CapturePcRank(s.capture));
      }
    }
  }

  /** Once the end is certain no step raises the measure, and the helper's lowers it. */
  lemma StepProgress(cfg: Setup, s: State, t: Thread, c: Choice)
    requires Orderly(s) && Ending(s)
    ensures Progress(s, t, Step(cfg, s, t, c))
  {
    hide MainStep, ControlStep, CaptureStep;
    match t
    case Runner => RunnerProgress(cfg, s, c);
    case Reader => ReaderProgress(cfg, s, c);
    case Capturer => CapturerProgress(cfg, s, c);
    case _ =>
  }

  /** What a step of any thread leaves alone once the session has been started. */
  predicate StaysEnding(s: State, r: State) {
    && (s.closed ==> r.closed)
    && (s.incoming.inbound != [] && r.control.Receiving? && s.control.Receiving? ==> r.incoming.inbound != [])
    && (r.control.Receiving? && !s.control.Receiving? ==> s.running)
    && (!s.running && !s.main.Boot? ==> !r.running && !r.main.Boot?)
    && (s.out.broken ==> r.out.broken)
    && (!s.running && !s.main.Boot? && !MaySend(s) ==> !MaySend(r))
  }

  lemma ReaderStaysSilent(s: State, c: Choice)
    requires !s.running && !MaySend(s)
    ensures !MaySend(ControlStep(s, c))
  {
    hide ParseFrame, Decode;
  }

  lemma CapturerStaysSilent(cfg: Setup, s: State, c: Choice)
    requires !s.running && !MaySend(s)
    ensures !MaySend(CaptureStep(cfg, s, c))
  {
  }

  lemma ReaderStaysEnding(s: State, c: Choice)
    requires Orderly(s)
    ensures StaysEnding(s, ControlStep(s, c))
  {
    ExitedMeansStopped(s);
    hide InnerStep, HandleStep, HandleControlMessage, Noted, Orderly;
    if s.control.Replying? {
      ReaderPosts(s, c);
      SendStepGetsOn(s, Reader, Pong(s.control.token), s.control.send, c);
    } else {
      ReaderStepMoves(s, c);
      if !s.running && !MaySend(s) {
        ReaderStaysSilent(s, c);
      }
      if s.control.Inner? {
        InnerLeavesReceiving(s);
      } else if s.control.Handle? {
        HandleLeavesReceiving(s);
      }
    }
  }

  lemma InnerLeavesReceiving(s: State)
    ensures !InnerStep(s).control.Receiving?
  {
    hide ParseFrame, Decode;
  }

  lemma HandleLeavesReceiving(s: State)
    requires s.control.Handle?
    ensures !HandleStep(Noted(s, s.control.msg), HandleControlMessage(s.control.msg)).control.Receiving?
  {
  }

  lemma StepStaysEnding(cfg: Setup, s: State, t: Thread, c: Choice)
    requires Orderly(s)
    ensures StaysEnding(s, Step(cfg, s, t, c))
  {
    hide MainStep, ControlStep, CaptureStep, Orderly;
    match t
    case Runner =>
      if s.main.SendHello? || s.main.SendWelcome? {
        RunnerPosts(cfg, s, c);
      } else {
        RunnerStepMoves(cfg, s, c);
        RunnerLeavesBoot(cfg, s, c);
      }
    case Reader => ReaderStaysEnding(s, c);
    case Capturer =>
      if s.capture.Posting? {
        CapturerPosts(cfg, s, c);
      } else {
        CapturerStepMoves(cfg, s, c);
        if !s.running && !MaySend(s) {
          CapturerStaysSilent(cfg, s, c);
        }
      }
    case _ =>
  }

  lemma RunnerLeavesBoot(cfg: Setup, s: State, c: Choice)
    ensures var r := MainStep(cfg, s, c).main;
            !r.Boot? && (r.SendHello? || r.SendWelcome? ==> s.main.Boot? || s.main.SendHello? || s.main.SendWelcome?)
  {
    hide SendStep, HelloOf, WelcomeOf;
  }

  lemma StepKeepsEnding(cfg: Setup, s: State, t: Thread, c: Choice)
    requires Orderly(s) && Ending(s)
    ensures Ending(Step(cfg, s, t, c))
  {
    hide Step, Orderly;
    StepStaysEnding(cfg, s, t, c);
  }

  // ---- infinite runs ----

  type Endless = nat -> (Thread, Choice)

  function StateAt(cfg: Setup, sched: Endless, n: nat): State {
    After(cfg, seq(n, i requires 0 <= i => sched(i)))
  }

  lemma NextState(cfg: Setup, sched: Endless, n: nat)
    ensures StateAt(cfg, sched, n + 1) == Step(cfg, StateAt(cfg, sched, n), sched(n).0, sched(n).1)
    ensures Orderly(StateAt(cfg, sched, n))
  {
    hide Step;
    var run := seq(n, i requires 0 <= i => sched(i));
    RunsKeepHistory(cfg, run);
    var longer := seq(n + 1, i requires 0 <= i => sched(i));
    assert longer[..n] == run;
  }

  /** The scheduler never forgets a thread of the session. A step of a waiting thread does
      nothing. */
  ghost predicate Fair(sched: Endless) {
    forall t: Thread, n: nat :: t.Runner? || t.Reader? || t.Capturer? ==> Scheduled(sched, t, n)
  }

  ghost predicate Scheduled(sched: Endless, t: Thread, n: nat) {
    exists m :: m >= n && sched(m).0 == t
  }

  lemma {:induction false} RankDropsBy(cfg: Setup, sched: Endless, n: nat, m: nat) returns (j: nat)
    requires n <= m && sched(m).0 == Helper(StateAt(cfg, sched, n))
    requires Ending(StateAt(cfg, sched, n)) && !StateAt(cfg, sched, n).main.Done?
    ensures n < j <= m + 1 && Ending(StateAt(cfg, sched, j))
    ensures Less(RankOf(StateAt(cfg, sched, j)), RankOf(StateAt(cfg, sched, n)))
    decreases m - n
  {
    hide StateAt, Step, Less, RankOf, Helper, Orderly, Ending;
    var s, r := StateAt(cfg, sched, n), StateAt(cfg, sched, n + 1);
    NextState(cfg, sched, n);
    StepProgress(cfg, s, sched(n).0, sched(n).1);
    StepKeepsEnding(cfg, s, sched(n).0, sched(n).1);
    if Less(RankOf(r), RankOf(s)) {
      j := n + 1;
    } else {
      OrderlyIsPhased(s);
      AlikeIsSame(s, r);
      j := RankDropsBy(cfg, sched, n + 1, m);
    }
  }

  lemma OrderlyIsPhased(s: State)
    requires Orderly(s)
    ensures PhaseOrder(s)
  {
  }

  lemma {:induction false} EndsBy(cfg: Setup, sched: Endless, n: nat, rank: Rank) returns (m: nat)
    requires Fair(sched) && Ending(StateAt(cfg, sched, n)) && rank == RankOf(StateAt(cfg, sched, n))
    ensures m >= n && StateAt(cfg, sched, m).main.Done?
    decreases rank.boot, rank.running, rank.main, rank.reader.x, rank.reader.y, rank.reader.z,
              rank.capture.x, rank.capture.y, rank.capture.z
  {
    hide StateAt, RankOf, Helper, Ending;
    if StateAt(cfg, sched, n).main.Done? {
      m := n;
    } else {
      var t := Helper(StateAt(cfg, sched, n));
      HelperIsSession(StateAt(cfg, sched, n));
      assert Scheduled(sched, t, n);
      var k :| k >= n && sched(k).0 == t;
      var j := RankDropsBy(cfg, sched, n, k);
      m := EndsBy(cfg, sched, j, RankOf(StateAt(cfg, sched, j)));
    }
  }

  lemma HelperIsSession(s: State)
    ensures Helper(s).Runner? || Helper(s).Reader? || Helper(s).Capturer?
  {
  }

  /** From every reachable state, Stop racing with the start of Run included: once the channel is
      closed every fair run returns from Run, with the reader ended and no frame in flight. */
  lemma StopEndsTheSession(cfg: Setup, sched: Endless, n: nat)
    requires Fair(sched) && StateAt(cfg, sched, n).closed
    ensures exists m :: m >= n && StateAt(cfg, sched, m).main.Done? && StateAt(cfg, sched, m).control.Exited?
                        && StateAt(cfg, sched, m).capture.Idle? && StateAt(cfg, sched, m).mutex.None?
  {
    hide StateAt;
    var m := EndsBy(cfg, sched, n, RankOf(StateAt(cfg, sched, n)));
    NextState(cfg, sched, m);
    DoneIsQuiet(StateAt(cfg, sched, m));
  }

  /** A call of Stop is two steps: the flag is cleared at the first, the channel closed at the second,
      whatever the others do in between. */
  lemma StopCloses(cfg: Setup, s: State, between: Schedule, c: Choice, d: Choice)
    requires Orderly(s) && !s.stopping && forall i :: 0 <= i < |between| ==> !between[i].0.Stopper?
    ensures var r := Step(cfg, s, Stopper, c);
            !r.running && r.stopping && Step(cfg, Run(cfg, r, between), Stopper, d).closed
  {
    StoppingStays(cfg, Step(cfg, s, Stopper, c), between);
  }

  /** The state after the steps `run` from `s`. */
  function Run(cfg: Setup, s: State, run: Schedule): State {
    if run == [] then s
    else Step(cfg, Run(cfg, s, run[..|run| - 1]), run[|run| - 1].0, run[|run| - 1].1)
  }

  lemma {:induction false} StoppingStays(cfg: Setup, s: State, run: Schedule)
    requires Orderly(s) && s.stopping && forall i :: 0 <= i < |run| ==> !run[i].0.Stopper?
    ensures Orderly(Run(cfg, s, run)) && Run(cfg, s, run).stopping
  {
    hide Orderly, MainStep, ControlStep, CaptureStep;
    if run != [] {
      var before, last := run[..|run| - 1], run[|run| - 1];
      StoppingStays(cfg, s, before);
      var r := Run(cfg, s, before);
      StepKeepsOrder(cfg, r, last.0, last.1);
      StoppingIsUntouched(cfg, r, last.0, last.1);
    }
  }

  lemma StoppingIsUntouched(cfg: Setup, s: State, t: Thread, c: Choice)
    requires Orderly(s) && !t.Stopper?
    ensures Step(cfg, s, t, c).stopping == s.stopping
  {
    hide MainStep, ControlStep, CaptureStep, MutexOrder;
    ExitedMeansStopped(s);
    match t
    case Runner =>
      if s.main.SendHello? || s.main.SendWelcome? {
        RunnerPosts(cfg, s, c);
      } else {
        RunnerStepMoves(cfg, s, c);
      }
    case Reader =>
      if s.control.Replying? {
        ReaderPosts(s, c);
      } else {
        ReaderStepMoves(s, c);
      }
    case Capturer =>
      if s.capture.Posting? {
        CapturerPosts(cfg, s, c);
      } else {
        CapturerStepMoves(cfg, s, c);
      }
    case Network =>
  }

  lemma DoneIsQuiet(s: State)
    requires Orderly(s) && s.main.Done?
    ensures s.control.Exited? && s.capture.Idle? && s.mutex.None?
  {
    if s.mutex.Some? {
      HolderIsInside(s);
    }
  }

  // ---- sessions that stop running for another reason ----

  ghost predicate Extends(sched: Endless, run: Schedule) {
    forall i :: 0 <= i < |run| ==> sched(i) == run[i]
  }

  ghost predicate ReturnsAfter(cfg: Setup, sched: Endless, n: nat) {
    exists m :: m >= n && StateAt(cfg, sched, m).main.Done?
  }

  const WORKS := Choice(true, false, 0, [], [], 0)
  const FAILS := WORKS.(ok := false)
  /** The peer takes nothing; the encoder, if called, hands out a packet. */
  const STALLS := WORKS.(stall := true, packets := [Packet(false, [])])

  /** After `run` the three threads in turn, and a peer that neither sends nor takes anything. */
  function InTurn(run: Schedule): Endless {
    (i: nat) =>
      if i < |run| then run[i]
      else
        var turn := (i - |run|) % 3;
        (if turn == 0 then Runner else if turn == 1 then Reader else Capturer, STALLS)
  }

  lemma InTurnIsFair(run: Schedule)
    ensures Fair(InTurn(run)) && Extends(InTurn(run), run)
  {
    forall t: Thread, n: nat | t.Runner? || t.Reader? || t.Capturer?
      ensures Scheduled(InTurn(run), t, n)
    {
      var m := |run| + 3 * n + (if t.Runner? then 0 else if t.Reader? then 1 else 2);
      assert InTurn(run)(m).0 == t;
    }
  }

  lemma ExtendsReaches(cfg: Setup, sched: Endless, run: Schedule)
    requires Extends(sched, run)
    ensures StateAt(cfg, sched, |run|) == After(cfg, run)
  {
    assert seq(|run|, i requires 0 <= i => sched(i)) == run;
  }

  /** A starved reader stays starved. */
  lemma StepKeepsStarved(cfg: Setup, s: State, t: Thread)
    requires Orderly(s) && Starved(s) && (t.Runner? || t.Reader? || t.Capturer?)
    ensures Starved(Step(cfg, s, t, STALLS))
  {
    hide MainStep, CaptureStep;
    match t
    case Runner =>
      if s.main.SendHello? || s.main.SendWelcome? {
        RunnerPosts(cfg, s, STALLS);
      } else {
        RunnerStepMoves(cfg, s, STALLS);
      }
    case Reader =>
    case Capturer =>
      if s.capture.Posting? {
        CapturerPosts(cfg, s, STALLS);
      } else {
        CapturerStepMoves(cfg, s, STALLS);
      }
  }

  /** A send on a working channel gets no further than to the write. */
  lemma SendStalls(s: State, t: Thread, m: Message, pc: SendPc)
    requires !s.out.broken && !s.closed
    ensures var r := SendStep(s, t, m, pc, STALLS); r.next.Some? && !r.state.out.broken && !r.state.closed
  {
    hide WriteSome, WriteRest;
  }

  lemma RunnerStalls(cfg: Setup, s: State)
    requires Orderly(s) && Stalled(s)
    ensures Stalled(MainStep(cfg, s, STALLS))
  {
    hide SendStep, HelloOf, WelcomeOf, MutexOrder;
    if s.main.SendHello? || s.main.SendWelcome? {
      SendStalls(s, Runner, Announcement(cfg, s.main), s.main.send);
      RunnerPosts(cfg, s, STALLS);
    } else {
      RunnerStepMoves(cfg, s, STALLS);
    }
  }

  lemma ReaderStalls(s: State)
    requires Orderly(s) && Stalled(s)
    ensures Stalled(ControlStep(s, STALLS))
  {
    hide SendStep, InnerStep, ReceiveStep, MutexOrder;
    ExitedMeansStopped(s);
    if s.control.Replying? {
      SendStalls(s, Reader, Pong(s.control.token), s.control.send);
      ReaderPosts(s, STALLS);
    } else {
      ReaderStepMoves(s, STALLS);
    }
  }

  lemma CapturerStalls(cfg: Setup, s: State)
    requires Orderly(s) && Stalled(s)
    ensures Stalled(CaptureStep(cfg, s, STALLS))
  {
    hide SendStep, BuildVideoFrame, MutexOrder;
    if s.capture.Posting? {
      SendStalls(s, Capturer, BuildVideoFrame(cfg, s.capture.packet, s.capture.pts, s.capture.seqno), s.capture.send);
      CapturerPosts(cfg, s, STALLS);
    } else {
      CapturerStepMoves(cfg, s, STALLS);
    }
  }

  /** While the peer neither sends nor takes anything, a thread that waits for it waits on. */
  lemma StepKeepsWaiting(cfg: Setup, s: State, t: Thread)
    requires Orderly(s) && (Starved(s) || Stalled(s)) && (t.Runner? || t.Reader? || t.Capturer?)
    ensures var r := Step(cfg, s, t, STALLS); Starved(r) || Stalled(r)
  {
    hide MainStep, ControlStep, CaptureStep, Starved, Stalled, Orderly;
    if Starved(s) {
      StepKeepsStarved(cfg, s, t);
    } else {
      match t
      case Runner => RunnerStalls(cfg, s);
      case Reader => ReaderStalls(s);
      case Capturer => CapturerStalls(cfg, s);
    }
  }

  lemma {:induction false} InTurnWaits(cfg: Setup, run: Schedule, m: nat)
    requires (Starved(After(cfg, run)) || Stalled(After(cfg, run))) && m >= |run|
    ensures var s := StateAt(cfg, InTurn(run), m); (Starved(s) || Stalled(s)) && !s.main.Done?
    decreases m
  {
    hide StateAt, Step, After, Starved, Stalled;
    var sched := InTurn(run);
    NextState(cfg, sched, m);
    if m == |run| {
      InTurnIsFair(run);
      ExtendsReaches(cfg, sched, run);
    } else {
      NextState(cfg, sched, m - 1);
      InTurnWaits(cfg, run, m - 1);
      StepKeepsWaiting(cfg, StateAt(cfg, sched, m - 1), sched(m - 1).0);
    }
    WaitingIsNotDone(StateAt(cfg, sched, m));
  }

  lemma WaitingIsNotDone(s: State)
    requires Orderly(s) && (Starved(s) || Stalled(s))
    ensures !s.main.Done?
  {
  }

  /** Exactly when a session that stopped running ends: after every run that left it stopped, all
      fair continuations return from Run if and only if the channel was closed, or the reader does
      not wait for bytes and either a write failed or nothing is left to send. */
  lemma StoppedSessionReturnsIff(cfg: Setup, run: Schedule)
    requires !After(cfg, run).running && !After(cfg, run).main.Boot?
    ensures var s := After(cfg, run);
            (forall sched :: Fair(sched) && Extends(sched, run) ==> ReturnsAfter(cfg, sched, |run|))
            <==> s.closed || (!Starved(s) && (s.out.broken || !MaySend(s)))
  {
    hide StateAt, After, RankOf, MaySend;
    var s := After(cfg, run);
    if Starved(s) || Stalled(s) {
      var sched := InTurn(run);
      InTurnIsFair(run);
      if ReturnsAfter(cfg, sched, |run|) {
        var m :| m >= |run| && StateAt(cfg, sched, m).main.Done?;
        InTurnWaits(cfg, run, m);
      }
    } else {
      forall sched | Fair(sched) && Extends(sched, run)
        ensures ReturnsAfter(cfg, sched, |run|)
      {
        ExtendsReaches(cfg, sched, run);
        var m := EndsBy(cfg, sched, |run|, RankOf(StateAt(cfg, sched, |run|)));
      }
    }
  }

  // ---- a session that starves, and one that stalls ----

  /** Run waits to join a reader that waits for bytes on an open channel. */
  predicate Hung(s: State) {
    s.main.Join? && s.control.Receiving? && s.capture.Idle? && !s.running && !s.closed && s.incoming.inbound == []
  }

  /** The channel's silence: no receive fails. */
  predicate Silent(run: Schedule) {
    forall i :: 0 <= i < |run| ==> if run[i].0.Reader? then run[i].1.ok else !run[i].0.Stopper? && !run[i].0.Network?
  }

  /** The opening is sent, the reader waits for bytes, and the capture fails to start. */
  const FAILED_CAPTURE: Schedule := [
    (Runner, WORKS), (Runner, WORKS), (Runner, WORKS), (Runner, WORKS), (Runner, WORKS),
    (Runner, WORKS), (Runner, WORKS), (Runner, WORKS), (Reader, WORKS), (Runner, WORKS),
    (Runner, FAILS), (Runner, WORKS), (Runner, WORKS), (Runner, WORKS)]

  lemma AfterStep(cfg: Setup, run: Schedule, k: nat)
    requires k < |run|
    ensures After(cfg, run[..k + 1]) == Step(cfg, After(cfg, run[..k]), run[k].0, run[k].1)
  {
    assert run[..k + 1][..k] == run[..k];
  }

  /** A reachable starved session: the capture fails to start while the reader waits for bytes,
      and as long as the peer is silent Run stays in the join, whatever is scheduled. */
  lemma {:induction false} SilentPeerHangsRun(cfg: Setup, later: Schedule)
    requires Silent(later)
    ensures Hung(After(cfg, FAILED_CAPTURE + later))
  {
    if later == [] {
      CaptureFailureHangs(cfg);
      assert FAILED_CAPTURE + later == FAILED_CAPTURE;
    } else {
      var run := FAILED_CAPTURE + later;
      assert run[..|run| - 1] == FAILED_CAPTURE + later[..|later| - 1];
      SilentPeerHangsRun(cfg, later[..|later| - 1]);
    }
  }

  /** Nothing unusual so far, and nothing received. */
  predicate Quiet(s: State, m: MainPc, r: ControlPc) {
    && s.main == m && s.control == r && s.capture.Idle? && s.running && s.mutex == None && !s.closed && !s.out.broken
    && s.incoming.inbound == [] && !s.encoderReady
  }

  lemma SendGoesThrough(cfg: Setup, s: State)
    requires Quiet(s, s.main, s.control) && (s.main == SendHello(Acquire) || s.main == SendWelcome(Acquire))
    ensures var r := MainStep(cfg, MainStep(cfg, MainStep(cfg, s, WORKS), WORKS), WORKS);
            Quiet(r, if s.main.SendHello? then SendWelcome(Acquire) else Spawn, s.control)
  {
    hide HelloOf, WelcomeOf;
    var m := Announcement(cfg, s.main);
    assert |Encode(m)| > 0;
    var s1 := MainStep(cfg, s, WORKS);
    var s2 := MainStep(cfg, s1, WORKS);
    assert s1.main.send == First && s2.main.send == Second(0);
  }

  lemma OpeningGoesThrough(cfg: Setup)
    ensures Quiet(After(cfg, FAILED_CAPTURE[..7]), Spawn, NotStarted)
  {
    hide Encode, HelloOf, WelcomeOf, After, MainStep;
    var run := FAILED_CAPTURE;
    assert After(cfg, run[..0]) == START by { NothingDone(cfg, run); }
    AfterStep(cfg, run, 0);
    AfterStep(cfg, run, 1);
    AfterStep(cfg, run, 2);
    AfterStep(cfg, run, 3);
    AfterStep(cfg, run, 4);
    AfterStep(cfg, run, 5);
    AfterStep(cfg, run, 6);
    assert Quiet(After(cfg, run[..1]), SendHello(Acquire), NotStarted) by { Booted(cfg); }
    SendGoesThrough(cfg, After(cfg, run[..1]));
    SendGoesThrough(cfg, After(cfg, run[..4]));
  }

  lemma NothingDone(cfg: Setup, run: Schedule)
    ensures After(cfg, run[..0]) == START
  {
  }

  lemma Booted(cfg: Setup)
    ensures Quiet(MainStep(cfg, START, WORKS), SendHello(Acquire), NotStarted)
  {
  }

  lemma CaptureFailureHangs(cfg: Setup)
    ensures Hung(After(cfg, FAILED_CAPTURE))
  {
    hide SendStep, HelloOf, WelcomeOf, After;
    OpeningGoesThrough(cfg);
    var run := FAILED_CAPTURE;
    AfterStep(cfg, run, 7);
    AfterStep(cfg, run, 8);
    AfterStep(cfg, run, 9);
    AfterStep(cfg, run, 10);
    AfterStep(cfg, run, 11);
    AfterStep(cfg, run, 12);
    AfterStep(cfg, run, 13);
    assert run[..14] == run;
    assert Quiet(After(cfg, run[..9]), StartCapture, Receiving);
  }

  /** Run waits for the capture to stop, whose callback waits for the peer to take its frame. */
  predicate HungWriting(s: State) {
    && s.main.StopCapture? && s.control.Exited? && CapturerInside(s.capture)
    && !s.running && !s.closed && !s.out.broken
  }

  /** The peer takes nothing, whatever it sends, and Stop is not called. */
  predicate Undrained(run: Schedule) {
    forall i :: 0 <= i < |run| ==> (run[i].0.Capturer? ==> run[i].1.stall) && !run[i].0.Stopper?
  }

  /** The opening is sent, a frame is about to be written, and then a receive fails. */
  const STALLED_FRAME: Schedule := FAILED_CAPTURE[..7] + [
    (Runner, WORKS), (Runner, WORKS), (Runner, WORKS), (Reader, WORKS), (Capturer, WORKS), (Capturer, WORKS),
    (Capturer, STALLS), (Capturer, STALLS), (Capturer, STALLS), (Reader, FAILS), (Runner, WORKS)]

  /** A reachable stalled session: while the peer takes nothing Run stays in the stop of the
      capture, although the reader has ended, whatever is scheduled. */
  lemma {:induction false} UndrainedPeerHangsRun(cfg: Setup, later: Schedule)
    requires Undrained(later)
    ensures HungWriting(After(cfg, STALLED_FRAME + later))
  {
    var run := STALLED_FRAME + later;
    if later == [] {
      StalledFrameHangs(cfg);
      assert run == STALLED_FRAME;
    } else {
      hide Step, After, HungWriting;
      var before := STALLED_FRAME + later[..|later| - 1];
      assert run[..|run| - 1] == before && run[|run| - 1] == later[|later| - 1] && run[..|run|] == run;
      UndrainedPeerHangsRun(cfg, later[..|later| - 1]);
      AfterStep(cfg, run, |run| - 1);
      StepKeepsHungWriting(cfg, After(cfg, before), run[|run| - 1].0, run[|run| - 1].1);
    }
  }

  lemma StepKeepsHungWriting(cfg: Setup, s: State, t: Thread, c: Choice)
    requires HungWriting(s) && (t.Capturer? ==> c.stall) && !t.Stopper?
    ensures HungWriting(Step(cfg, s, t, c))
  {
    hide WriteSome, WriteRest, BuildVideoFrame;
  }

  /** The opening is sent, the capture runs, and the reader waits for bytes. */
  lemma FrameIsNext(cfg: Setup)
    ensures var s := After(cfg, STALLED_FRAME[..11]); Quiet(s, Wait, Receiving) && s.capturing
  {
    hide SendStep, HelloOf, WelcomeOf, After;
    OpeningGoesThrough(cfg);
    var run := STALLED_FRAME;
    assert run[..7] == FAILED_CAPTURE[..7];
    AfterStep(cfg, run, 7);
    AfterStep(cfg, run, 8);
    AfterStep(cfg, run, 9);
    AfterStep(cfg, run, 10);
  }

  lemma FrameReachesTheWrite(cfg: Setup)
    ensures var s := After(cfg, STALLED_FRAME[..16]);
            s == After(cfg, STALLED_FRAME[..11]).(encoderReady := true, seqno := s.seqno, force := s.force,
                                                  capture := s.capture, mutex := Some(Capturer))
            && s.capture.Posting? && s.capture.send == First
  {
    hide WriteSome, WriteRest, HelloOf, WelcomeOf, BuildVideoFrame, After;
    FrameIsNext(cfg);
    var run := STALLED_FRAME;
    AfterStep(cfg, run, 11);
    AfterStep(cfg, run, 12);
    AfterStep(cfg, run, 13);
    AfterStep(cfg, run, 14);
    AfterStep(cfg, run, 15);
  }

  lemma StalledFrameHangs(cfg: Setup)
    ensures HungWriting(After(cfg, STALLED_FRAME))
  {
    hide SendStep, HelloOf, WelcomeOf, BuildVideoFrame, After;
    FrameIsNext(cfg);
    FrameReachesTheWrite(cfg);
    var run := STALLED_FRAME;
    AfterStep(cfg, run, 16);
    AfterStep(cfg, run, 17);
    assert run[..18] == run;
  }
}
