/** Choosing the supported display mode that best fits the desired one: three scans of the list
    that amount to one minimum of one order. */
module ModeSelect {
  import opened Bytes

  datatype Mode = Mode(width: u32, height: u32, refresh: u32)

  function Area(m: Mode): int {
    m.width * m.height
  }

  predicate SameAspect(a: Mode, b: Mode) {
    a.width * b.height == b.width * a.height
  }

  predicate SameResolution(a: Mode, b: Mode) {
    a.width == b.width && a.height == b.height
  }

  function Abs(n: int): nat {
    if n < 0 then -n else n
  }

  function RefreshDiff(a: Mode, b: Mode): nat {
    Abs(a.refresh - b.refresh)
  }

  function AreaDiff(a: Mode, b: Mode): nat {
    Abs(Area(a) - Area(b))
  }

  predicate BetterFit(a: Mode, b: Mode, desired: Mode) {
    if SameAspect(a, desired) != SameAspect(b, desired) then SameAspect(a, desired)
    else if AreaDiff(a, desired) != AreaDiff(b, desired) then AreaDiff(a, desired) < AreaDiff(b, desired)
    else a.refresh > b.refresh
  }

  // ---- the one order behind the three tiers ----

  datatype Key = Key(tier: int, first: int, second: int, third: int)

  predicate Less(k: Key, l: Key) {
    if k.tier != l.tier then k.tier < l.tier
    else if k.first != l.first then k.first < l.first
    else if k.second != l.second then k.second < l.second
    else k.third < l.third
  }

  /** Smaller is better. An exact match is the right resolution with no refresh difference. */
  function Rank(m: Mode, desired: Mode): Key {
    if SameResolution(m, desired) then Key(0, RefreshDiff(m, desired), 0 - m.refresh, 0)
    else Key(1, if SameAspect(m, desired) then 0 else 1, AreaDiff(m, desired), 0 - m.refresh)
  }

  predicate Better(a: Mode, b: Mode, desired: Mode) {
    Less(Rank(a, desired), Rank(b, desired))
  }

  /** The order is a strict weak order, and on modes of another resolution it is `BetterFit`. */
  lemma BetterIsStrictWeakOrder(a: Mode, b: Mode, c: Mode, desired: Mode)
    ensures !Better(a, a, desired)
    ensures Better(a, b, desired) && Better(b, c, desired) ==> Better(a, c, desired)
    ensures !Better(a, b, desired) && !Better(b, c, desired) ==> !Better(a, c, desired)
    ensures !SameResolution(a, desired) && !SameResolution(b, desired) ==>
              (Better(a, b, desired) <==> BetterFit(a, b, desired))
  {
  }

  /** `k` is the first of the best modes of the list. */
  ghost predicate FirstBest(desired: Mode, modes: seq<Mode>, k: int) {
    && 0 <= k < |modes|
    && (forall j :: 0 <= j < |modes| ==> !Better(modes[j], modes[k], desired))
    && (forall j :: 0 <= j < k ==> Better(modes[k], modes[j], desired))
  }

  lemma FirstBestIsUnique(desired: Mode, modes: seq<Mode>, k: int, l: int)
    requires FirstBest(desired, modes, k) && 0 <= l < |modes| && l != k
    ensures !FirstBest(desired, modes, l)
  {
    assert if l < k then Better(modes[k], modes[l], desired) else !Better(modes[l], modes[k], desired);
  }

  /** Looking at one more mode. */
  lemma ExtendBest(desired: Mode, modes: seq<Mode>, i: nat, best: nat)
    requires i < |modes| && FirstBest(desired, modes[..i], best)
    ensures FirstBest(desired, modes[..i + 1], if Better(modes[i], modes[best], desired) then i else best)
  {
    hide Better;
    var k := if Better(modes[i], modes[best], desired) then i else best;
    forall j | 0 <= j <= i
      ensures !Better(modes[j], modes[k], desired)
      ensures j < k ==> Better(modes[k], modes[j], desired)
    {
      if j < i {
        assert modes[..i][j] == modes[j];
      }
      BetterIsStrictWeakOrder(modes[best], modes[j], modes[i], desired);
      BetterIsStrictWeakOrder(modes[i], modes[j], modes[best], desired);
      BetterIsStrictWeakOrder(modes[j], modes[i], modes[best], desired);
      BetterIsStrictWeakOrder(modes[i], modes[best], modes[j], desired);
    }
  }

  // ---- the three tiers, on widths, heights and refresh rates ----

  function Apart(a: int, b: int): nat {
    if a < b then b - a else a - b
  }

  /** `m` is no worse than `n` where no mode has the desired resolution: the right proportions first,
      then the closest number of pixels, then the higher refresh rate. */
  predicate NoWorse(m: Mode, n: Mode, desired: Mode) {
    var pixels := desired.width * desired.height;
    var x, y := Apart(m.width * m.height, pixels), Apart(n.width * n.height, pixels);
    var right := m.width * desired.height == desired.width * m.height;
    var asRight := n.width * desired.height == desired.width * n.height;
    (asRight ==> right) && (right == asRight ==> x < y || (x == y && m.refresh >= n.refresh))
  }

  /** What the mode at `k` must be: the desired one if there is one; else of the desired resolution if
      there is one, with the nearest refresh rate and the higher of two as near; else no worse than
      any other, and the first such. */
  ghost predicate Tiers(desired: Mode, modes: seq<Mode>, k: nat) {
    && k < |modes|
    && (desired in modes ==> modes[k] == desired)
    && ((exists m :: m in modes && (m.width, m.height) == (desired.width, desired.height)) ==>
          && (modes[k].width, modes[k].height) == (desired.width, desired.height)
          && forall m :: m in modes && (m.width, m.height) == (desired.width, desired.height) ==>
               var x, y := Apart(modes[k].refresh, desired.refresh), Apart(m.refresh, desired.refresh);
               x < y || (x == y && modes[k].refresh >= m.refresh))
    && ((forall m :: m in modes ==> (m.width, m.height) != (desired.width, desired.height)) ==>
          && (forall m :: m in modes ==> NoWorse(modes[k], m, desired))
          && (forall j :: 0 <= j < k ==> !NoWorse(modes[j], modes[k], desired)))
  }

  lemma BestMeansTiers(desired: Mode, modes: seq<Mode>, k: nat)
    requires FirstBest(desired, modes, k)
    ensures Tiers(desired, modes, k)
  {
    var r := modes[k];
    forall m | m in modes
      ensures m == desired ==> r == desired
      ensures SameResolution(m, desired) ==>
                && SameResolution(r, desired)
                && var x, y := Apart(r.refresh, desired.refresh), Apart(m.refresh, desired.refresh);
                   x < y || (x == y && r.refresh >= m.refresh)
      ensures !SameResolution(m, desired) && !SameResolution(r, desired) ==> NoWorse(r, m, desired)
    {
      var j :| 0 <= j < |modes| && modes[j] == m;
      NotBetterMeans(r, m, desired);
    }
    forall j | 0 <= j < k && !SameResolution(modes[j], desired) && !SameResolution(r, desired)
      ensures !NoWorse(modes[j], r, desired)
    {
      BetterMeans(r, modes[j], desired);
    }
  }

  lemma NotBetterMeans(r: Mode, m: Mode, desired: Mode)
    requires !Better(m, r, desired)
    ensures m == desired ==> r == desired
    ensures SameResolution(m, desired) ==>
              && SameResolution(r, desired)
              && var x, y := Apart(r.refresh, desired.refresh), Apart(m.refresh, desired.refresh);
                 x < y || (x == y && r.refresh >= m.refresh)
    ensures !SameResolution(m, desired) && !SameResolution(r, desired) ==> NoWorse(r, m, desired)
  {
  }

  lemma BetterMeans(r: Mode, m: Mode, desired: Mode)
    requires Better(r, m, desired) && !SameResolution(m, desired) && !SameResolution(r, desired)
    ensures !NoWorse(m, r, desired)
  {
  }

  method PickBestMode(desired: Mode, modes: seq<Mode>) returns (r: Option<Mode>)
    ensures r.None? <==> modes == []
    ensures r.Some? ==> exists k :: FirstBest(desired, modes, k) && r.value == modes[k]
    ensures r.Some? ==> exists k: nat :: Tiers(desired, modes, k) && r.value == modes[k]
  {
    if modes == [] {
      return None;
    }
    for i := 0 to |modes|
      invariant desired !in modes[..i]
    {
      if modes[i] == desired {
        ExactIsFirstBest(desired, modes, i);
        BestMeansTiers(desired, modes, i);
        return Some(modes[i]);
      }
    }
    var best := NearestRefresh(desired, modes);
    if best < 0 {
      best := ClosestFit(desired, modes);
    }
    BestMeansTiers(desired, modes, best);
    return Some(modes[best]);
  }

  /** The scan for the right resolution: the first with the nearest refresh, higher winning ties. */
  method NearestRefresh(desired: Mode, modes: seq<Mode>) returns (best: int)
    ensures if best < 0 then forall j :: 0 <= j < |modes| ==> !SameResolution(modes[j], desired)
            else FirstBest(desired, modes, best)
  {
    best := -1;
    for i := 0 to |modes|
      invariant -1 <= best < i
      invariant best < 0 ==> forall j :: 0 <= j < i ==> !SameResolution(modes[j], desired)
      invariant best >= 0 ==> SameResolution(modes[best], desired) && FirstBest(desired, modes[..i], best)
    {
      var m := modes[i];
      if best >= 0 {
        ExtendBest(desired, modes, i, best);
      }
      if SameResolution(m, desired) {
        if best < 0
           || RefreshDiff(m, desired) < RefreshDiff(modes[best], desired)
           || (RefreshDiff(m, desired) == RefreshDiff(modes[best], desired) && m.refresh > modes[best].refresh)
        {
          best := i;
        }
      }
    }
    assert modes[..|modes|] == modes;
  }

  /** The scan of last resort: the first of the best fits. */
  method ClosestFit(desired: Mode, modes: seq<Mode>) returns (best: int)
    requires modes != [] && forall j :: 0 <= j < |modes| ==> !SameResolution(modes[j], desired)
    ensures FirstBest(desired, modes, best)
  {
    hide BetterFit, Better;
    best := 0;
    BetterIsStrictWeakOrder(modes[0], modes[0], modes[0], desired);
    for i := 1 to |modes|
      invariant FirstBest(desired, modes[..i], best)
    {
      ExtendBest(desired, modes, i, best);
      BetterIsStrictWeakOrder(modes[i], modes[best], modes[i], desired);
      if BetterFit(modes[i], modes[best], desired) {
        best := i;
      }
    }
    assert modes[..|modes|] == modes;
  }

  lemma ExactIsFirstBest(desired: Mode, modes: seq<Mode>, i: nat)
    requires i < |modes| && modes[i] == desired && desired !in modes[..i]
    ensures FirstBest(desired, modes, i)
  {
    forall j | 0 <= j < i
      ensures Better(modes[i], modes[j], desired)
    {
      assert modes[j] in modes[..i];
    }
  }

  // ---- the order of the list ----

  /** Best modes of the list, wherever they stand. */
  ghost predicate IsBest(desired: Mode, modes: seq<Mode>, m: Mode) {
    m in modes && forall n :: n in modes ==> !Better(n, m, desired)
  }

  ghost predicate Picks(desired: Mode, modes: seq<Mode>, m: Mode) {
    exists k :: FirstBest(desired, modes, k) && modes[k] == m
  }

  lemma PickedIsBest(desired: Mode, modes: seq<Mode>, m: Mode)
    requires Picks(desired, modes, m)
    ensures IsBest(desired, modes, m)
  {
  }

  /** If some mode has the desired resolution, the order of the list plays no part. */
  lemma RightResolutionMakesOrderIrrelevant(desired: Mode, s: seq<Mode>, t: seq<Mode>, a: Mode, b: Mode)
    requires multiset(s) == multiset(t) && Picks(desired, s, a) && Picks(desired, t, b)
    requires exists m :: m in s && SameResolution(m, desired)
    ensures a == b
  {
    PickedIsBest(desired, s, a);
    PickedIsBest(desired, t, b);
    assert forall m :: m in s <==> m in multiset(s);
    assert forall m :: m in t <==> m in multiset(t);
    assert !Better(a, b, desired) && !Better(b, a, desired);
    var m :| m in s && SameResolution(m, desired);
    assert SameResolution(a, desired) && SameResolution(b, desired);
  }

  /** In general, exactly: the answer is the same for every order of the list if and only if the
      list has only one best mode. */
  lemma OrderIrrelevantIffOneBest(desired: Mode, s: seq<Mode>, a: Mode)
    requires Picks(desired, s, a)
    ensures (forall t, b :: multiset(t) == multiset(s) && Picks(desired, t, b) ==> b == a)
       <==> (forall b :: IsBest(desired, s, b) ==> b == a)
  {
    hide Better;
    forall t, b | multiset(t) == multiset(s) && Picks(desired, t, b)
      ensures IsBest(desired, s, b)
    {
      PickedIsBest(desired, t, b);
      assert forall m :: m in s <==> m in multiset(s);
      assert forall m :: m in t <==> m in multiset(t);
    }
    forall b | IsBest(desired, s, b)
      ensures exists t :: multiset(t) == multiset(s) && Picks(desired, t, b)
    {
      var t := BestPutFirst(desired, s, b);
    }
  }

  lemma BestPutFirst(desired: Mode, s: seq<Mode>, b: Mode) returns (t: seq<Mode>)
    requires IsBest(desired, s, b)
    ensures multiset(t) == multiset(s) && Picks(desired, t, b)
  {
    hide Better;
    var i :| 0 <= i < |s| && s[i] == b;
    t := [b] + (s[..i] + s[i + 1..]);
    assert s == s[..i] + [b] + s[i + 1..];
    forall j | 0 <= j < |t|
      ensures t[j] in s
    {
      assert t[j] in multiset(t);
    }
    assert FirstBest(desired, t, 0);
  }

  // ---- signed 64-bit arithmetic ----

  const INT64_LIMIT := 0x8000_0000_0000_0000

  predicate FitsInt64(n: int) {
    0 - INT64_LIMIT <= n < INT64_LIMIT
  }

  /** Every product, difference and absolute value that may be computed to compare a mode with the
      desired one is exact. */
  predicate Exact(m: Mode, desired: Mode) {
    && FitsInt64(m.width * desired.height) && FitsInt64(desired.width * m.height)
    && FitsInt64(Area(m)) && FitsInt64(Area(desired))
    && FitsInt64(Area(m) - Area(desired)) && FitsInt64(AreaDiff(m, desired))
    && FitsInt64(m.refresh - desired.refresh) && FitsInt64(RefreshDiff(m, desired))
  }

  function Max(a: u32, b: u32): u32 {
    if a < b then b else a
  }

  /** The arithmetic is exact if and only if the larger width times the larger height is below
      2^63. */
  lemma ExactIff(m: Mode, desired: Mode)
    ensures Exact(m, desired) <==> Max(m.width, desired.width) * Max(m.height, desired.height) < INT64_LIMIT
  {
    var w, h := Max(m.width, desired.width), Max(m.height, desired.height);
    ProductBelow(m.width, m.height, w, h);
    ProductBelow(m.width, desired.height, w, h);
    ProductBelow(desired.width, m.height, w, h);
    ProductBelow(desired.width, desired.height, w, h);
  }

  lemma ProductBelow(a: nat, b: nat, w: nat, h: nat)
    requires a <= w && b <= h
    ensures 0 <= a * b <= w * h
  {
    TimesMonotone(0, a, b);
    TimesMonotone(a, w, b);
    TimesMonotone(b, h, w);
  }

  /** So it is for all dimensions up to 2^31, and it is not for the largest ones. */
  lemma NoOverflow(m: Mode, desired: Mode)
    ensures Max(m.width, desired.width) <= 0x8000_0000 && Max(m.height, desired.height) <= 0x8000_0000 ==>
              Exact(m, desired)
    ensures !Exact(Mode(0xFFFF_FFFF, 0xFFFF_FFFF, m.refresh), desired)
  {
    var w, h := Max(m.width, desired.width), Max(m.height, desired.height);
    ExactIff(m, desired);
    if w <= 0x8000_0000 && h <= 0x8000_0000 {
      ProductBelow(w, h, 0x8000_0000, 0x8000_0000);
    }
    assert Area(Mode(0xFFFF_FFFF, 0xFFFF_FFFF, m.refresh)) == 0xFFFF_FFFE_0000_0001;
  }
}
