/** The incremental frame parser: a buffer with a read cursor that is compacted now and then.
    It is proved to refine the pure parser of the concatenation of everything ever fed to it. */
module FrameParsing {
  import opened Bytes
  import opened Wire

  const COMPACT_LIMIT: nat := 64 * 1024

  /** The parser's buffer and cursor. */
  datatype Buffer = Buffer(bytes: seq<byte>, cursor: nat) {
    ghost predicate Valid() {
      cursor <= |bytes|
    }

    function Unread(): seq<byte>
      requires Valid()
    {
      bytes[cursor..]
    }
  }

  const EMPTY := Buffer([], 0)

  function AfterFeed(b: Buffer, more: seq<byte>): Buffer
    requires b.Valid()
  {
    if b.cursor > 0 && b.cursor == |b.bytes| then Buffer(more, 0)
    else if b.cursor > COMPACT_LIMIT then Buffer(b.bytes[b.cursor..] + more, 0)
    else Buffer(b.bytes + more, b.cursor)
  }

  function AfterNext(b: Buffer): Buffer
    requires b.Valid()
  {
    match ParseFrame(b.Unread())
    case Got(_, used) => b.(cursor := b.cursor + used)
    case _ => b
  }

  class FrameParser {
    var buf: seq<byte>
    var readPos: nat

    function State(): Buffer
      reads this
    {
      Buffer(buf, readPos)
    }

    constructor ()
      ensures State() == EMPTY
    {
      buf, readPos := [], 0;
    }

    method Feed(more: seq<byte>)
      requires State().Valid()
      modifies this
      ensures State() == AfterFeed(old(State()), more)
    {
      if readPos > 0 && readPos == |buf| {
        buf := [];
        readPos := 0;
      } else if readPos > COMPACT_LIMIT {
        buf := buf[readPos..];
        readPos := 0;
      }
      buf := buf + more;
    }

    method Next() returns (p: Parsed)
      requires State().Valid()
      modifies this`readPos
      ensures p == ParseFrame(old(State()).Unread())
      ensures State() == AfterNext(old(State()))
    {
      var avail := |buf| - readPos;
      if avail < 4 {
        return NeedMore;
      }
      var front := buf[readPos..];
      var length := 0;
      for i := 0 to 4
        invariant readPos == old(readPos) && length == FromLE(front[0..i])
      {
        FromLESnoc(front[0..i], front[i]);
        assert front[0..i] + [front[i]] == front[0..i + 1];
        length := length + front[i] * Pow256(i);
      }
      if length < 3 {
        return Bad(BadField);
      }
      if length - 3 > MAX_PAYLOAD {
        return Bad(OversizedMessage);
      }
      if avail < 4 + length {
        return NeedMore;
      }
      var channel := front[4];
      if channel != ChannelByte(Control) && channel != ChannelByte(Video) {
        return Bad(UnknownChannel);
      }
      p := Got(RawFrame(if channel == 0 then Control else Video, front[5], front[6], front[7..4 + length]), 4 + length);
      readPos := readPos + 4 + length;
    }
  }

  // ---- one step ----

  /** Neither branch of the compaction changes what is still to be read, and after every
      `feed` at most 64 KiB of consumed bytes are kept. */
  lemma FeedKeepsUnread(b: Buffer, more: seq<byte>)
    requires b.Valid()
    ensures var b' := AfterFeed(b, more);
            b'.Valid() && b'.Unread() == b.Unread() + more && b'.cursor <= 65536
  {
  }

  lemma NextAdvances(b: Buffer)
    requires b.Valid()
    ensures var b' := AfterNext(b);
            && b'.Valid()
            && (match ParseFrame(b.Unread())
                case Got(f, used) => used <= |b.Unread()| && b'.Unread() == b.Unread()[used..]
                case _ => b' == b)
  {
    if ParseFrame(b.Unread()).Got? {
      PrintParsed(b.Unread());
    }
  }

  // ---- whole runs ----

  datatype Op = Feed(more: seq<byte>) | Next

  datatype Run = Run(buffer: Buffer, yielded: seq<RawFrame>)

  /** The buffer and the frames yielded after the operations `ops`, in any order and number. */
  function After(ops: seq<Op>): (r: Run)
    ensures r.buffer.Valid()
  {
    if ops == [] then Run(EMPTY, [])
    else
      var r := After(ops[..|ops| - 1]);
      match ops[|ops| - 1]
      case Feed(more) => FeedKeepsUnread(r.buffer, more); Run(AfterFeed(r.buffer, more), r.yielded)
      case Next =>
        NextAdvances(r.buffer);
        Run(AfterNext(r.buffer),
            match ParseFrame(r.buffer.Unread()) case Got(f, _) => r.yielded + [f] case _ => r.yielded)
  }

  /** Everything fed by `ops`. */
  function Fed(ops: seq<Op>): seq<byte> {
    if ops == [] then []
    else Fed(ops[..|ops| - 1]) + (match ops[|ops| - 1] case Feed(more) => more case Next => [])
  }

  function Verdict(ops: seq<Op>): Parsed {
    ParseFrame(After(ops).buffer.Unread())
  }

  /** A run is drained when another `next` would yield no frame. */
  predicate Drained(ops: seq<Op>) {
    !Verdict(ops).Got?
  }

  lemma YieldOne(yielded: seq<RawFrame>, unread: seq<byte>)
    requires Fits(yielded) && ParseFrame(unread).Got?
    ensures var Got(f, used) := ParseFrame(unread);
            && used <= |unread| && Fits(yielded + [f])
            && Printed(yielded + [f]) + unread[used..] == Printed(yielded) + unread
  {
    var Got(f, used) := ParseFrame(unread);
    PrintParsed(unread);
    PrintedConcat(yielded, [f]);
    PrintedCons(f, []);
    assert [f] + [] == [f] && FrameBytes(f) + [] == FrameBytes(f);
    assert unread == FrameBytes(f) + unread[used..];
    Regroup(Printed(yielded), FrameBytes(f), unread[used..]);
  }

  /** The run invariant: the bytes fed are the frames yielded followed by the bytes unread. */
  lemma {:induction false} FedIsYieldedThenUnread(ops: seq<Op>)
    ensures Fits(After(ops).yielded)
    ensures Fed(ops) == Printed(After(ops).yielded) + After(ops).buffer.Unread()
  {
    if ops != [] {
      var before := ops[..|ops| - 1];
      var r := After(before);
      FedIsYieldedThenUnread(before);
      match ops[|ops| - 1]
      case Feed(more) =>
        FeedKeepsUnread(r.buffer, more);
        Regroup(Printed(r.yielded), r.buffer.Unread(), more);
      case Next =>
        NextAdvances(r.buffer);
        if ParseFrame(r.buffer.Unread()).Got? {
          YieldOne(r.yielded, r.buffer.Unread());
        }
        assert Fed(ops) == Fed(before);
    }
  }

  /** Refinement: at every moment of every run, the frames yielded so far followed by the frames
      still in the buffer are the frames of the total stream. Chunk boundaries, compaction and
      the times of the `next` calls play no part. */
  lemma RunRefinesPureParser(ops: seq<Op>)
    ensures Frames(Fed(ops)) == After(ops).yielded + Frames(After(ops).buffer.Unread())
    ensures Remainder(Fed(ops)) == Remainder(After(ops).buffer.Unread())
  {
    FedIsYieldedThenUnread(ops);
    FramesOfPrinted(After(ops).yielded, After(ops).buffer.Unread());
  }

  /** Two drained runs fed the same bytes yielded the same frames, hold the same bytes and
      give the same verdict, however the bytes were cut up. */
  lemma DrainedRunsAgree(a: seq<Op>, b: seq<Op>)
    requires Fed(a) == Fed(b) && Drained(a) && Drained(b)
    ensures After(a).yielded == After(b).yielded == Frames(Fed(a))
    ensures After(a).buffer.Unread() == After(b).buffer.Unread() == Remainder(Fed(a))
    ensures Verdict(a) == Verdict(b)
  {
    RunRefinesPureParser(a);
    RunRefinesPureParser(b);
  }

  /** A hard error is terminal: no later `feed` or `next` changes it or yields a frame. */
  lemma {:induction false} HardErrorIsTerminal(ops: seq<Op>, later: seq<Op>)
    requires Verdict(ops).Bad?
    ensures Verdict(ops + later) == Verdict(ops)
    ensures After(ops + later).yielded == After(ops).yielded
  {
    if later == [] {
      assert ops + later == ops;
    } else {
      var before := ops + later[..|later| - 1];
      HardErrorIsTerminal(ops, later[..|later| - 1]);
      assert (ops + later)[..|ops + later| - 1] == before;
      var b := After(before).buffer;
      match later[|later| - 1]
      case Feed(more) =>
        FeedKeepsUnread(b, more);
        VerdictIsFinal(b.Unread(), more);
      case Next =>
    }
  }

  /** Memory is bounded: a run drained to `NeedMore` holds less than one maximal frame. */
  lemma DrainedBufferIsBounded(ops: seq<Op>)
    requires Verdict(ops).NeedMore?
    ensures |After(ops).buffer.Unread()| < 16777216 + 7
  {
  }
}
