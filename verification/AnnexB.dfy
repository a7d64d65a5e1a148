/** The HEVC access unit on the iPad: splitting an Annex-B buffer into NAL units and rewriting
    its slices in length-prefixed form. */
module AnnexB {
  import opened Bytes

  const VPS: nat := 32
  const SPS: nat := 33
  const PPS: nat := 34
  const LAST_SLICE_TYPE: nat := 31

  /** The length of the start code at the front of `s`: 4, 3, or 0 for none. */
  function CodeAt(s: seq<byte>): (n: nat)
    ensures n <= |s| && n in {0, 3, 4}
  {
    if |s| >= 4 && s[0] == 0 && s[1] == 0 && s[2] == 0 && s[3] == 1 then 4
    else if |s| >= 3 && s[0] == 0 && s[1] == 0 && s[2] == 1 then 3
    else 0
  }

  /** How far into `s` the first start code begins, or its length if there is none. */
  function Gap(s: seq<byte>): (n: nat)
    ensures n <= |s|
  {
    if s == [] || CodeAt(s) > 0 then 0 else 1 + Gap(s[1..])
  }

  lemma {:induction false} CodeFollowsGap(s: seq<byte>)
    ensures s[Gap(s)..] == [] || CodeAt(s[Gap(s)..]) > 0
    ensures forall p :: 0 <= p < Gap(s) ==> CodeAt(s[p..]) == 0
  {
    if s != [] && CodeAt(s) == 0 {
      CodeFollowsGap(s[1..]);
      assert s[Gap(s)..] == s[1..][Gap(s[1..])..];
      forall p | 0 <= p < Gap(s)
        ensures CodeAt(s[p..]) == 0
      {
        if p > 0 {
          assert s[p..] == s[1..][p - 1..];
        } else {
          assert s[p..] == s;
        }
      }
    }
  }

  /** A start code, long or short, and the bytes up to the next one. */
  datatype Unit = Unit(long: bool, nal: seq<byte>)

  function Code(long: bool): seq<byte> {
    if long then [0, 0, 0, 1] else [0, 0, 1]
  }

  function Join(units: seq<Unit>): seq<byte> {
    if units == [] then [] else Code(units[0].long) + units[0].nal + Join(units[1..])
  }

  /** The units of a buffer that begins with a start code. */
  function Units(s: seq<byte>): seq<Unit>
    decreases |s|
  {
    if CodeAt(s) == 0 then []
    else
      var t := s[CodeAt(s)..];
      [Unit(CodeAt(s) == 4, t[..Gap(t)])] + Units(t[Gap(t)..])
  }

  /** The payloads, without the empty ones. */
  function Payloads(units: seq<Unit>): seq<seq<byte>> {
    if units == [] then []
    else (if units[0].nal == [] then [] else [units[0].nal]) + Payloads(units[1..])
  }

  function Split(data: seq<byte>): seq<seq<byte>> {
    Payloads(Units(data[Gap(data)..]))
  }

  // ---- the decomposition ----

  /** No start code begins inside `nal`. */
  predicate CodeFree(nal: seq<byte>) {
    forall p :: 0 <= p < |nal| ==> CodeAt(nal[p..]) == 0
  }

  /** What a splitter needs: no embedded start code, and before a short start code no trailing
      zero byte, which would turn it into a long one. */
  predicate WellFormed(units: seq<Unit>) {
    && (forall i :: 0 <= i < |units| ==> CodeFree(units[i].nal))
    && (forall i :: 0 <= i < |units| - 1 && !units[i + 1].long && units[i].nal != [] ==>
         units[i].nal[|units[i].nal| - 1] != 0)
  }

  lemma CodeThenRest(s: seq<byte>)
    requires CodeAt(s) > 0
    ensures s == Code(CodeAt(s) == 4) + s[CodeAt(s)..]
  {
  }

  lemma JoinCons(u: Unit, units: seq<Unit>)
    ensures Join([u] + units) == Code(u.long) + (u.nal + Join(units))
  {
    assert ([u] + units)[1..] == units;
    Regroup(Code(u.long), u.nal, Join(units));
  }

  lemma NothingToJoin()
    ensures Units([]) == [] && Join([]) == []
  {
  }

  /** A buffer that begins with a start code is exactly its units, end to end. */
  lemma {:induction false} UnitsPartition(s: seq<byte>)
    requires s == [] || CodeAt(s) > 0
    ensures Join(Units(s)) == s
    decreases |s|
  {
    hide CodeAt, Join, Code;
    NothingToJoin();
    if s != [] {
      var t := s[CodeAt(s)..];
      CodeThenRest(s);
      CodeFollowsGap(t);
      UnitsPartition(t[Gap(t)..]);
      assert t == t[..Gap(t)] + t[Gap(t)..];
      JoinCons(Unit(CodeAt(s) == 4, t[..Gap(t)]), Units(t[Gap(t)..]));
    }
  }

  lemma CodeFreePart(t: seq<byte>, n: nat)
    requires n <= |t| && forall p :: 0 <= p < n ==> CodeAt(t[p..]) == 0
    ensures CodeFree(t[..n])
  {
    forall p | 0 <= p < n
      ensures CodeAt(t[..n][p..]) == 0
    {
      assert CodeAt(t[p..]) == 0;
      if p + 1 < n {
        assert CodeAt(t[p + 1..]) == 0;
      }
    }
  }

  lemma WellFormedCons(u: Unit, units: seq<Unit>)
    requires CodeFree(u.nal) && WellFormed(units)
    requires units != [] && !units[0].long && u.nal != [] ==> u.nal[|u.nal| - 1] != 0
    ensures WellFormed([u] + units)
  {
    forall i | 0 <= i < |units| && !([u] + units)[i + 1].long && ([u] + units)[i].nal != []
      ensures var nal := ([u] + units)[i].nal; nal[|nal| - 1] != 0
    {
      if i > 0 {
        assert ([u] + units)[i] == units[i - 1] && ([u] + units)[i + 1] == units[i - 1 + 1];
      }
    }
  }

  lemma NoZeroBeforeShortCode(t: seq<byte>, n: nat)
    requires n < |t| && CodeAt(t[n..]) == 0 && CodeAt(t[n + 1..]) == 3
    ensures t[n] != 0
  {
  }

  /** The units found are well formed, for every buffer. */
  lemma {:induction false} UnitsAreWellFormed(s: seq<byte>)
    ensures WellFormed(Units(s))
    decreases |s|
  {
    hide CodeAt, CodeFree;
    if CodeAt(s) > 0 {
      var t := s[CodeAt(s)..];
      var n := Gap(t);
      CodeFollowsGap(t);
      CodeFreePart(t, n);
      UnitsAreWellFormed(t[n..]);
      if n > 0 && CodeAt(t[n..]) == 3 {
        assert CodeAt(t[n - 1..]) == 0;
        NoZeroBeforeShortCode(t, n - 1);
      }
      CodeLengths(t[n..]);
      WellFormedCons(Unit(CodeAt(s) == 4, t[..n]), Units(t[n..]));
    }
  }

  lemma CodeLengths(s: seq<byte>)
    ensures Units(s) != [] ==> Units(s)[0].long == (CodeAt(s) == 4)
  {
  }

  /** Every buffer is a start-code-free prefix followed by start codes and code-free payloads;
      the NAL units returned are the non-empty payloads, in order. */
  lemma SplitDecomposes(data: seq<byte>) returns (prefix: seq<byte>, units: seq<Unit>)
    ensures data == prefix + Join(units) && CodeFree(prefix) && WellFormed(units)
    ensures Split(data) == Payloads(units)
  {
    hide CodeAt, CodeFree, WellFormed, Join, Units, Gap;
    prefix, units := data[..Gap(data)], Units(data[Gap(data)..]);
    CodeFollowsGap(data);
    CodeFreePart(data, Gap(data));
    UnitsPartition(data[Gap(data)..]);
    UnitsAreWellFormed(data[Gap(data)..]);
  }

  // ---- the round trip ----

  lemma {:induction false} GapOfFront(nal: seq<byte>, rest: seq<byte>)
    requires forall p :: 0 <= p < |nal| ==> CodeAt((nal + rest)[p..]) == 0
    requires rest == [] || CodeAt(rest) > 0
    ensures Gap(nal + rest) == |nal|
  {
    if nal == [] {
      assert nal + rest == rest;
    } else {
      var s := nal + rest;
      assert s[0..] == s && s[1..] == nal[1..] + rest;
      forall p | 0 <= p < |nal| - 1
        ensures CodeAt((nal[1..] + rest)[p..]) == 0
      {
        assert (nal[1..] + rest)[p..] == s[p + 1..];
      }
      GapOfFront(nal[1..], rest);
    }
  }

  lemma NoCodeAcross(nal: seq<byte>, long: bool, rest: seq<byte>, p: nat)
    requires CodeFree(nal) && p < |nal| && (long || nal[|nal| - 1] != 0)
    ensures CodeAt((nal + (Code(long) + rest))[p..]) == 0
  {
    assert CodeAt(nal[p..]) == 0;
    if p + 1 < |nal| {
      assert CodeAt(nal[p + 1..]) == 0;
    }
    var s := (nal + (Code(long) + rest))[p..];
    assert s == nal[p..] + (Code(long) + rest);
  }

  lemma CodeFirst(long: bool, rest: seq<byte>)
    ensures CodeAt(Code(long) + rest) == |Code(long)| == (if long then 4 else 3)
            && (Code(long) + rest)[|Code(long)|..] == rest
  {
  }

  /** Joining with any mix of short and long start codes and splitting gives the units back
      if and only if they are well formed. */
  lemma UnitsOfJoined(units: seq<Unit>)
    ensures WellFormed(units) <==> Units(Join(units)) == units
  {
    if WellFormed(units) {
      JoinedSplits(units);
    } else {
      UnitsAreWellFormed(Join(units));
    }
  }

  lemma {:induction false} JoinedSplits(units: seq<Unit>)
    requires WellFormed(units)
    ensures Units(Join(units)) == units
  {
    if units != [] {
      var u, rest := units[0], Join(units[1..]);
      JoinedSplits(units[1..]);
      assert units == [u] + units[1..];
      JoinCons(u, units[1..]);
      GapBeforeJoined(u.nal, units[1..]);
      UnitsOfFirst(u, rest);
    }
  }

  lemma GapBeforeJoined(nal: seq<byte>, units: seq<Unit>)
    requires CodeFree(nal)
    requires units != [] && !units[0].long && nal != [] ==> nal[|nal| - 1] != 0
    ensures Gap(nal + Join(units)) == |nal|
  {
    hide CodeAt, Code;
    if units == [] {
      assert nal + Join(units) == nal;
    } else {
      var next := units[0].nal + Join(units[1..]);
      Regroup(Code(units[0].long), units[0].nal, Join(units[1..]));
      CodeFirst(units[0].long, next);
      forall p | 0 <= p < |nal|
        ensures CodeAt((nal + Join(units))[p..]) == 0
      {
        NoCodeAcross(nal, units[0].long, next, p);
      }
    }
    GapOfFront(nal, Join(units));
  }

  lemma UnitsOfFirst(u: Unit, rest: seq<byte>)
    requires Gap(u.nal + rest) == |u.nal|
    ensures Units(Code(u.long) + (u.nal + rest)) == [u] + Units(rest)
  {
    var t := u.nal + rest;
    CodeFirst(u.long, t);
    assert t[..|u.nal|] == u.nal && t[|u.nal|..] == rest;
  }

  function Nals(units: seq<Unit>): seq<seq<byte>> {
    seq(|units|, i requires 0 <= i < |units| => units[i].nal)
  }

  lemma {:induction false} PayloadsOfNonEmpty(units: seq<Unit>)
    requires forall u :: u in units ==> u.nal != []
    ensures Payloads(units) == Nals(units)
  {
    if units != [] {
      PayloadsOfNonEmpty(units[1..]);
      assert Nals(units) == [units[0].nal] + Nals(units[1..]);
    }
  }

  /** Well-formed, non-empty NAL units survive joining and splitting, whatever the start codes. */
  lemma SplitOfJoined(units: seq<Unit>)
    requires WellFormed(units) && forall u :: u in units ==> u.nal != []
    ensures Split(Join(units)) == Nals(units)
  {
    var s := Join(units);
    if units != [] {
      Regroup(Code(units[0].long), units[0].nal, Join(units[1..]));
      CodeFirst(units[0].long, units[0].nal + Join(units[1..]));
    }
    assert Gap(s) == 0 && s[0..] == s;
    JoinedSplits(units);
    PayloadsOfNonEmpty(units);
  }

  // ---- the loop ----

  /** What the loop has still to append when it stands at `i`, inside a unit that began at `start`
      (negative if no start code has been seen). */
  ghost function Rest(b: seq<byte>, i: nat, start: int): seq<seq<byte>>
    requires i <= |b| && -1 <= start <= i
  {
    var e := i + Gap(b[i..]);
    (if start >= 0 && start < e then [b[start..e]] else []) + Payloads(Units(b[e..]))
  }

  lemma RestAtCode(b: seq<byte>, i: nat, start: int)
    requires i < |b| && -1 <= start <= i && CodeAt(b[i..]) > 0
    ensures i + CodeAt(b[i..]) <= |b|
    ensures var j := i + CodeAt(b[i..]);
            Rest(b, i, start) == (if 0 <= start < i then [b[start..i]] else []) + Rest(b, j, j)
  {
    hide CodeAt, Payloads, Units;
    UnitsAtCode(b[i..]);
    var s, j := b[i..], i + CodeAt(b[i..]);
    var t := b[j..];
    var e := j + Gap(t);
    assert s[CodeAt(s)..] == t && t[Gap(t)..] == b[e..] && t[..Gap(t)] == b[j..e];
    PayloadsCons(Unit(CodeAt(s) == 4, b[j..e]), Units(b[e..]));
    assert Payloads(Units(s)) == Rest(b, j, j);
  }

  lemma UnitsAtCode(s: seq<byte>)
    requires CodeAt(s) > 0
    ensures var t := s[CodeAt(s)..];
            Units(s) == [Unit(CodeAt(s) == 4, t[..Gap(t)])] + Units(t[Gap(t)..])
  {
    hide CodeAt;
  }

  lemma PayloadsCons(u: Unit, units: seq<Unit>)
    ensures Payloads([u] + units) == (if u.nal == [] then [] else [u.nal]) + Payloads(units)
  {
    assert ([u] + units)[1..] == units;
  }

  lemma RestPastByte(b: seq<byte>, i: nat, start: int)
    requires i < |b| && -1 <= start <= i && CodeAt(b[i..]) == 0
    ensures Rest(b, i, start) == Rest(b, i + 1, start)
  {
    assert b[i..][1..] == b[i + 1..];
  }

  method SplitNalUnits(b: seq<byte>) returns (nals: seq<seq<byte>>)
    ensures nals == Split(b)
  {
    hide CodeAt, Units, Gap, Payloads, Rest;
    nals := [];
    var i, start := 0, -1;
    RestAtStart(b);
    while i < |b|
      invariant i <= |b| && -1 <= start <= i
      invariant nals + Rest(b, i, start) == Split(b)
    {
      var sc := CodeAt(b[i..]);
      if sc > 0 {
        RestAtCode(b, i, start);
        if start >= 0 && i > start {
          Regroup(nals, [b[start..i]], Rest(b, i + sc, i + sc));
          nals := nals + [b[start..i]];
        } else {
          assert [] + Rest(b, i + sc, i + sc) == Rest(b, i + sc, i + sc);
        }
        i := i + sc;
        start := i;
      } else {
        RestPastByte(b, i, start);
        i := i + 1;
      }
    }
    RestAtEnd(b, start);
    if start >= 0 && start < |b| {
      nals := nals + [b[start..|b|]];
    }
  }

  lemma RestAtStart(b: seq<byte>)
    ensures [] + Rest(b, 0, -1) == Split(b)
  {
    assert b[0..] == b;
  }

  lemma RestAtEnd(b: seq<byte>, start: int)
    requires -1 <= start <= |b|
    ensures Rest(b, |b|, start) == if 0 <= start < |b| then [b[start..|b|]] else []
  {
    assert b[|b|..] == [];
  }

  // ---- slices, length-prefixed ----

  function NalType(nal: seq<byte>): nat {
    (if nal == [] then 0 else nal[0]) / 2 % 64
  }

  function SliceIn(nal: seq<byte>): seq<seq<byte>> {
    if NalType(nal) <= LAST_SLICE_TYPE then [nal] else []
  }

  function Slices(nals: seq<seq<byte>>): seq<seq<byte>> {
    if nals == [] then [] else SliceIn(nals[0]) + Slices(nals[1..])
  }

  /** The last NAL unit of type `t`, if any. */
  function LastOfType(nals: seq<seq<byte>>, t: nat): Option<seq<byte>> {
    if nals == [] then None
    else if NalType(nals[|nals| - 1]) == t then Some(nals[|nals| - 1])
    else LastOfType(nals[..|nals| - 1], t)
  }

  function BigEndian(n: nat): (s: seq<byte>)
    ensures |s| == 4
  {
    var l := LE(4, n);
    [l[3], l[2], l[1], l[0]]
  }

  function FromBigEndian(s: seq<byte>): nat
    requires |s| == 4
  {
    FromLE([s[3], s[2], s[1], s[0]])
  }

  function LengthPrefixed(nals: seq<seq<byte>>): seq<byte> {
    if nals == [] then [] else BigEndian(|nals[0]| % U32_SIZE) + nals[0] + LengthPrefixed(nals[1..])
  }

  /** The units of a length-prefixed sample, or nothing if it is malformed. */
  function ReadLengthPrefixed(s: seq<byte>): Option<seq<seq<byte>>>
    decreases |s|
  {
    if s == [] then Some([])
    else if |s| < 4 || |s| < 4 + FromBigEndian(s[..4]) then None
    else
      var n := FromBigEndian(s[..4]);
      match ReadLengthPrefixed(s[4 + n..])
      case Some(more) => Some([s[4..4 + n]] + more)
      case None => None
  }

  lemma {:induction false} ReadPrefixed(nals: seq<seq<byte>>)
    requires forall n :: n in nals ==> |n| < U32_SIZE
    ensures ReadLengthPrefixed(LengthPrefixed(nals)) == Some(nals)
  {
    hide LE, FromLE, Pow256;
    if nals != [] {
      Pow256Values();
      var nal, rest := nals[0], LengthPrefixed(nals[1..]);
      var s := LengthPrefixed(nals);
      ReadBack(4, |nal|);
      var l := LE(4, |nal|);
      assert s[..4] == BigEndian(|nal|) && [l[0], l[1], l[2], l[3]] == l;
      assert s[4..4 + |nal|] == nal && s[4 + |nal|..] == rest;
      ReadPrefixed(nals[1..]);
      assert nals == [nal] + nals[1..];
    }
  }

  lemma {:induction false} SlicesConcat(a: seq<seq<byte>>, b: seq<seq<byte>>)
    ensures Slices(a + b) == Slices(a) + Slices(b)
  {
    if a == [] {
      assert a + b == b;
    } else {
      SlicesConcat(a[1..], b);
      assert (a + b)[1..] == a[1..] + b;
      Regroup(SliceIn(a[0]), Slices(a[1..]), Slices(b));
    }
  }

  lemma {:induction false} LengthPrefixedConcat(a: seq<seq<byte>>, b: seq<seq<byte>>)
    ensures LengthPrefixed(a + b) == LengthPrefixed(a) + LengthPrefixed(b)
  {
    hide BigEndian;
    if a == [] {
      assert a + b == b;
    } else {
      LengthPrefixedConcat(a[1..], b);
      assert (a + b)[1..] == a[1..] + b;
      Regroup(BigEndian(|a[0]| % U32_SIZE) + a[0], LengthPrefixed(a[1..]), LengthPrefixed(b));
    }
  }

  // ---- the same in header bytes ----

  predicate NonEmpty(nals: seq<seq<byte>>) {
    forall i :: 0 <= i < |nals| ==> nals[i] != []
  }

  /** `slices` are the units at the positions `at`: in order, all those whose first byte has its
      second highest bit clear, and no others. */
  predicate Picks(nals: seq<seq<byte>>, slices: seq<seq<byte>>, at: seq<nat>)
    requires NonEmpty(nals)
  {
    && |at| == |slices|
    && (forall j :: 0 <= j < |at| ==> at[j] < |nals| && slices[j] == nals[at[j]])
    && (forall j, k :: 0 <= j < k < |at| ==> at[j] < at[k])
    && (forall i :: 0 <= i < |nals| ==> (nals[i][0] / 64 % 2 == 0 <==> i in at))
  }

  /** `u` is the last unit with `t` in the six bits behind the first of its first byte. */
  predicate IsLast(nals: seq<seq<byte>>, t: nat, u: Option<seq<byte>>)
    requires NonEmpty(nals)
  {
    match u
    case None => forall i :: 0 <= i < |nals| ==> nals[i][0] / 2 % 64 != t
    case Some(x) =>
      exists i :: 0 <= i < |nals| && LastAt(nals, t, i) && nals[i] == x
  }

  predicate LastAt(nals: seq<seq<byte>>, t: nat, i: nat)
    requires NonEmpty(nals)
  {
    i < |nals| && nals[i][0] / 2 % 64 == t && forall j :: i < j < |nals| ==> nals[j][0] / 2 % 64 != t
  }

  lemma {:induction false} SlicesArePicked(nals: seq<seq<byte>>) returns (at: seq<nat>)
    requires NonEmpty(nals)
    ensures Picks(nals, Slices(nals), at)
  {
    at := [];
    if nals != [] {
      var last, before := |nals| - 1, nals[..|nals| - 1];
      at := SlicesArePicked(before);
      assert nals == before + [nals[last]];
      SlicesConcat(before, [nals[last]]);
      assert Slices([nals[last]]) == SliceIn(nals[last]) + [];
      SliceBit(nals[last]);
      assert last !in at;
      if NalType(nals[last]) <= LAST_SLICE_TYPE {
        at := at + [last];
      }
    }
  }

  lemma SliceBit(nal: seq<byte>)
    requires nal != []
    ensures NalType(nal) <= LAST_SLICE_TYPE <==> nal[0] / 64 % 2 == 0
  {
  }

  lemma {:induction false} LastIsLast(nals: seq<seq<byte>>, t: nat)
    requires NonEmpty(nals)
    ensures IsLast(nals, t, LastOfType(nals, t))
  {
    if nals != [] {
      if NalType(nals[|nals| - 1]) == t {
        assert LastAt(nals, t, |nals| - 1);
      } else {
        var before := nals[..|nals| - 1];
        LastIsLast(before, t);
        if LastOfType(before, t).Some? {
          var i :| 0 <= i < |before| && LastAt(before, t, i) && before[i] == LastOfType(before, t).value;
          assert LastAt(nals, t, i);
        }
      }
    }
  }

  lemma {:induction false} PayloadsAreNonEmpty(units: seq<Unit>)
    ensures NonEmpty(Payloads(units))
  {
    if units != [] {
      PayloadsAreNonEmpty(units[1..]);
    }
  }

  lemma BigEndianBytes(n: u32)
    ensures BigEndian(n) == [n / 0x100_0000 % 256, n / 0x1_0000 % 256, n / 256 % 256, n % 256]
  {
    hide LE;
    FourBytesOf(n);
  }

  /** A sample in bytes: each unit behind its length, most significant byte first. */
  lemma SampleInBytes(nal: seq<byte>, rest: seq<seq<byte>>)
    requires |nal| < U32_SIZE
    ensures var n := |nal|;
            LengthPrefixed([nal] + rest)
            == [n / 0x100_0000 % 256, n / 0x1_0000 % 256, n / 256 % 256, n % 256] + nal + LengthPrefixed(rest)
  {
    hide BigEndian;
    BigEndianBytes(|nal|);
    assert ([nal] + rest)[1..] == rest;
  }

  /** The start codes in bytes. */
  lemma CodesInBytes(s: seq<byte>)
    ensures Code(true) == [0, 0, 0, 1] && Code(false) == [0, 0, 1]
    ensures CodeAt(s) == 4 <==> [0, 0, 0, 1] <= s
    ensures CodeAt(s) == 3 <==> [0, 0, 1] <= s
  {
  }

  /** The portable part of decoding one access unit: split it, keep the last parameter sets, and
      rewrite the slices with length prefixes. */
  method Rewrite(accessUnit: seq<byte>)
    returns (vps: Option<seq<byte>>, sps: Option<seq<byte>>, pps: Option<seq<byte>>, sample: seq<byte>)
    ensures vps == LastOfType(Split(accessUnit), VPS)
    ensures sps == LastOfType(Split(accessUnit), SPS)
    ensures pps == LastOfType(Split(accessUnit), PPS)
    ensures sample == LengthPrefixed(Slices(Split(accessUnit)))
    ensures NonEmpty(Split(accessUnit))
    ensures IsLast(Split(accessUnit), 32, vps) && IsLast(Split(accessUnit), 33, sps)
            && IsLast(Split(accessUnit), 34, pps)
    ensures |accessUnit| < U32_SIZE ==>
              exists slices, at :: ReadLengthPrefixed(sample) == Some(slices) && Picks(Split(accessUnit), slices, at)
  {
    hide Split, LengthPrefixed, ReadLengthPrefixed, Picks, IsLast, NonEmpty;
    var nals := SplitNalUnits(accessUnit);
    vps, sps, pps := None, None, None;
    var vcl: seq<seq<byte>> := [];
    for i := 0 to |nals|
      invariant vps == LastOfType(nals[..i], VPS) && sps == LastOfType(nals[..i], SPS)
                && pps == LastOfType(nals[..i], PPS)
      invariant vcl == Slices(nals[..i])
    {
      var nal := nals[i];
      assert nals[..i + 1][..i] == nals[..i] && nals[..i + 1] == nals[..i] + [nal];
      SlicesConcat(nals[..i], [nal]);
      assert Slices([nal]) == SliceIn(nal) + [];
      var t := NalType(nal);
      if t == VPS {
        vps := Some(nal);
      } else if t == SPS {
        sps := Some(nal);
      } else if t == PPS {
        pps := Some(nal);
      } else if t <= LAST_SLICE_TYPE {
        vcl := vcl + [nal];
      }
    }
    assert nals[..|nals|] == nals;
    sample := Prefix(vcl);
    HeadersDecide(accessUnit);
    if |accessUnit| < U32_SIZE {
      SampleReadsBack(accessUnit);
      ghost var at := SlicesArePicked(nals);
    }
  }

  lemma HeadersDecide(data: seq<byte>)
    ensures NonEmpty(Split(data))
    ensures forall t :: t in {VPS, SPS, PPS} ==> IsLast(Split(data), t, LastOfType(Split(data), t))
  {
    PayloadsAreNonEmpty(Units(data[Gap(data)..]));
    LastIsLast(Split(data), VPS);
    LastIsLast(Split(data), SPS);
    LastIsLast(Split(data), PPS);
  }

  method Prefix(vcl: seq<seq<byte>>) returns (sample: seq<byte>)
    ensures sample == LengthPrefixed(vcl)
  {
    sample := [];
    for i := 0 to |vcl|
      invariant sample == LengthPrefixed(vcl[..i])
    {
      assert vcl[..i + 1] == vcl[..i] + [vcl[i]];
      LengthPrefixedConcat(vcl[..i], [vcl[i]]);
      assert LengthPrefixed([vcl[i]]) == BigEndian(|vcl[i]| % U32_SIZE) + vcl[i] + [];
      sample := sample + BigEndian(|vcl[i]| % U32_SIZE);
      sample := sample + vcl[i];
    }
    assert vcl[..|vcl|] == vcl;
  }

  /** The rewrite preserves meaning: an access unit of well-formed NAL units, joined by any start
      codes, becomes a sample whose units are exactly its slices, in order, byte for byte. */
  lemma SampleHoldsTheSlices(units: seq<Unit>)
    requires WellFormed(units) && forall u :: u in units ==> 0 < |u.nal| < U32_SIZE
    ensures ReadLengthPrefixed(LengthPrefixed(Slices(Split(Join(units))))) == Some(Slices(Nals(units)))
    ensures NonEmpty(Nals(units)) && exists at :: Picks(Nals(units), Slices(Nals(units)), at)
  {
    var at := SlicesArePicked(Nals(units));
    SplitOfJoined(units);
    SlicesAreAmong(Nals(units));
    ReadPrefixed(Slices(Nals(units)));
  }

  lemma {:induction false} SlicesAreAmong(nals: seq<seq<byte>>)
    ensures forall n :: n in Slices(nals) ==> n in nals
  {
    if nals != [] {
      SlicesAreAmong(nals[1..]);
    }
  }

  lemma {:induction false} PayloadsAreShort(units: seq<Unit>)
    ensures forall n :: n in Payloads(units) ==> |n| <= |Join(units)|
  {
    if units != [] {
      PayloadsAreShort(units[1..]);
    }
  }

  /** For every access unit under 4 GiB, well formed or not: what a reader of the sample finds
      is exactly the slices among the units the splitter returned. */
  lemma SampleReadsBack(data: seq<byte>)
    requires |data| < U32_SIZE
    ensures ReadLengthPrefixed(LengthPrefixed(Slices(Split(data)))) == Some(Slices(Split(data)))
    ensures NonEmpty(Split(data)) && exists at :: Picks(Split(data), Slices(Split(data)), at)
  {
    var prefix, units := SplitDecomposes(data);
    PayloadsAreShort(units);
    SlicesAreAmong(Split(data));
    ReadPrefixed(Slices(Split(data)));
    HeadersDecide(data);
    var at := SlicesArePicked(Split(data));
  }
}
