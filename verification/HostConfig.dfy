/** The host's key=value configuration text and the encoder's rate plan. */
module HostConfig {
  import opened Bytes
  import opened Text

  const MIN_BITRATE: u32 := 5000
  const USB2_CEILING: u32 := 80000
  const DEFAULT_PORT: u16 := 2345
  const MAX_FPS: u32 := 240

  datatype Config = Config(devicePort: u16, useHevc: bool, target: u32, max: u32, fps: u32)

  const DEFAULTS := Config(DEFAULT_PORT, true, 50000, USB2_CEILING, 60)

  function Between(v: u32, low: u32, high: u32): u32 {
    if v < low then low else if high < v then high else v
  }

  function Clamp(c: Config): Config {
    var cap := Between(c.max, MIN_BITRATE, USB2_CEILING);
    Config(if c.devicePort == 0 then DEFAULT_PORT else c.devicePort, c.useHevc,
           Between(c.target, MIN_BITRATE, cap), cap, Between(c.fps, 1, MAX_FPS))
  }

  /** The ranges every loaded configuration is promised to be in. */
  predicate Safe(c: Config) {
    c.devicePort >= 1 && 1 <= c.fps <= MAX_FPS && MIN_BITRATE <= c.target <= c.max <= USB2_CEILING
  }

  /** Clamping yields safe values and leaves exactly the safe ones alone. */
  lemma ClampIsProjection(c: Config)
    ensures Safe(Clamp(c))
    ensures Safe(c) <==> Clamp(c) == c
  {
  }

  /** Where each value goes, in numbers: a missing port to 2345, any other out-of-range value to the
      nearest bound, the target to at most the maximum it ends up with. */
  lemma ClampInNumbers(c: Config)
    ensures var d := Clamp(c);
            && d.devicePort == (if c.devicePort == 0 then 2345 else c.devicePort) && d.useHevc == c.useHevc
            && (c.fps < 1 ==> d.fps == 1) && (c.fps > 240 ==> d.fps == 240) && (1 <= c.fps <= 240 ==> d.fps == c.fps)
            && (c.max < 5000 ==> d.max == 5000) && (c.max > 80000 ==> d.max == 80000)
            && (5000 <= c.max <= 80000 ==> d.max == c.max)
            && (c.target < 5000 ==> d.target == 5000) && (c.target > d.max ==> d.target == d.max)
            && (5000 <= c.target <= d.max ==> d.target == c.target)
  {
  }

  // ---- parsing ----

  predicate IsBlank(c: char) {
    c in {' ', '\t', '\r', '\n'}
  }

  /** The text without the blanks at its ends. */
  function Trim(s: string): string
    decreases |s|
  {
    if s == "" then ""
    else if IsBlank(s[0]) then Trim(s[1..])
    else if IsBlank(s[|s| - 1]) then Trim(s[..|s| - 1])
    else s
  }

  /** The lines of a text; the last needs no line feed. */
  function Lines(text: string): seq<string>
    decreases |text|
  {
    if text == "" then []
    else
      match Find(text, "\n")
      case None => [text]
      case Some(p) => [text[..p]] + Lines(text[p + 1..])
  }

  function ToU64(s: string): Option<nat> {
    ParseUnsigned(s, 0x1_0000_0000_0000_0000)
  }

  function ToU32(v: nat): u32 {
    v % U32_SIZE
  }

  function Apply(c: Config, key: string, val: string): Config {
    if key == "device_port" then
      match ToU64(val) case Some(v) => (if v <= 65535 then c.(devicePort := v) else c) case None => c
    else if key == "codec" then c.(useHevc := val != "h264")
    else if key == "target_bitrate_kbps" then
      match ToU64(val) case Some(v) => c.(target := ToU32(v)) case None => c
    else if key == "max_bitrate_kbps" then
      match ToU64(val) case Some(v) => c.(max := ToU32(v)) case None => c
    else if key == "fps" then
      match ToU64(val) case Some(v) => c.(fps := ToU32(v)) case None => c
    else c
  }

  /** The part of a line before its comment. */
  function Uncommented(line: string): string {
    match Find(line, "#") case Some(p) => line[..p] case None => line
  }

  function ApplyLine(c: Config, line: string): Config {
    var l := Uncommented(line);
    match Find(l, "=")
    case None => c
    case Some(eq) => Apply(c, Trim(l[..eq]), Trim(l[eq + 1..]))
  }

  function ApplyLines(c: Config, lines: seq<string>): Config
    decreases |lines|
  {
    if lines == [] then c else ApplyLines(ApplyLine(c, lines[0]), lines[1..])
  }

  function Parse(text: string): Config {
    Clamp(ApplyLines(DEFAULTS, Lines(text)))
  }

  method ParseConfig(text: string) returns (c: Config)
    ensures c == Parse(text)
  {
    hide Apply, Trim, Clamp, Find;
    c := DEFAULTS;
    var left := text;
    while left != ""
      invariant ApplyLines(c, Lines(left)) == ApplyLines(DEFAULTS, Lines(text))
      decreases |left|
    {
      ghost var before, unread := c, left;
      var newline := Find(left, "\n");
      var line;
      if newline.Some? {
        line, left := left[..newline.value], left[newline.value + 1..];
      } else {
        line, left := left, "";
      }
      ghost var whole := line;
      assert Lines(unread) == [whole] + Lines(left);
      var hash := Find(line, "#");
      if hash.Some? {
        line := line[..hash.value];
      }
      var eq := Find(line, "=");
      if eq.Some? {
        c := Apply(c, Trim(line[..eq.value]), Trim(line[eq.value + 1..]));
      }
      assert c == ApplyLine(before, whole);
      ApplyLinesCons(before, whole, Lines(left));
    }
    c := Clamp(c);
  }

  // ---- printing ----

  const COMMENT := "# TetherDisplay host config"

  function Setting(key: string, val: string): string {
    key + "=" + val
  }

  function Settings(c: Config): seq<string> {
    [COMMENT,
     Setting("device_port", Decimal(c.devicePort)),
     Setting("codec", if c.useHevc then "hevc" else "h264"),
     Setting("target_bitrate_kbps", Decimal(c.target)),
     Setting("max_bitrate_kbps", Decimal(c.max)),
     Setting("fps", Decimal(c.fps))]
  }

  function Unlines(lines: seq<string>): string {
    if lines == [] then "" else lines[0] + ("\n" + Unlines(lines[1..]))
  }

  function Serialize(c: Config): string {
    Unlines(Settings(c))
  }

  // ---- what a line means ----

  predicate Blanks(s: string) {
    forall i :: 0 <= i < |s| ==> s[i] == ' ' || s[i] == '\t' || s[i] == '\r' || s[i] == '\n'
  }

  /** Blanks around a text are trimmed, and nothing else. */
  lemma {:induction false} TrimPadded(a: string, s: string, b: string)
    requires Blanks(a) && Blanks(b) && (s == "" || Tight(s))
    ensures Trim(a + s + b) == s
    decreases |a| + |b|
  {
    var t := a + s + b;
    if a != "" {
      TrimPadded(a[1..], s, b);
      assert t[1..] == a[1..] + s + b && t[0] == a[0];
    } else if s == "" {
      if b != "" {
        TrimPadded("", "", b[1..]);
        assert t == b && t[1..] == "" + "" + b[1..];
      }
    } else if b != "" {
      TrimPadded("", s, b[..|b| - 1]);
      assert t[..|t| - 1] == "" + s + b[..|b| - 1] && t[0] == s[0] && t[|t| - 1] == b[|b| - 1];
    } else {
      assert t == s;
    }
  }

  /** Every text is blanks, what trimming leaves, and blanks. */
  lemma {:induction false} TrimSplits(s: string) returns (a: string, b: string)
    ensures s == a + Trim(s) + b && Blanks(a) && Blanks(b) && (Trim(s) == "" || Tight(Trim(s)))
    decreases |s|
  {
    if s == "" {
      a, b := "", "";
    } else if IsBlank(s[0]) {
      a, b := TrimSplits(s[1..]);
      a := [s[0]] + a;
    } else if IsBlank(s[|s| - 1]) {
      a, b := TrimSplits(s[..|s| - 1]);
      b := b + [s[|s| - 1]];
    } else {
      a, b := "", "";
    }
  }

  /** Blanks around key and value and a trailing comment change nothing. */
  lemma PaddedLine(c: Config, a: string, key: string, b: string, d: string, val: string, e: string, comment: string)
    requires Blanks(a) && Blanks(b) && Blanks(d) && Blanks(e)
    requires (key == "" || Tight(key)) && Lacks(key, '#') && Lacks(key, '=') && (val == "" || Tight(val))
             && Lacks(val, '#')
    requires comment == "" || comment[0] == '#'
    ensures ApplyLine(c, (a + key + b) + "=" + (d + val + e) + comment) == Apply(c, key, val)
  {
    hide Apply, Trim;
    var left, right := a + key + b, d + val + e;
    var l := left + "=" + right;
    PaddedLacks(a, key, b);
    PaddedLacks(d, val, e);
    FindPastText(l, comment, "#");
    assert comment != "" ==> "#" <= comment;
    assert (l + comment)[..|l|] == l && l + "" == l;
    assert l == left + ("=" + right) && "=" <= "=" + right;
    FindPastText(left, "=" + right, "=");
    assert l[..|left|] == left && l[|left| + 1..] == right;
    TrimPadded(a, key, b);
    TrimPadded(d, val, e);
  }

  lemma PaddedLacks(a: string, s: string, b: string)
    requires Blanks(a) && Blanks(b)
    ensures Lacks(s, '#') ==> Lacks(a + s + b, '#')
    ensures Lacks(s, '=') ==> Lacks(a + s + b, '=')
  {
  }

  /** A line without '=' before its comment changes nothing. */
  lemma OtherLine(c: Config, l: string, comment: string)
    requires Lacks(l, '#') && Lacks(l, '=') && (comment == "" || comment[0] == '#')
    ensures ApplyLine(c, l + comment) == c
  {
    FindPastText(l, comment, "#");
    assert comment != "" ==> "#" <= comment;
    assert (l + comment)[..|l|] == l && l + "" == l;
    NotFound(l, "=");
  }

  /** What each key does with a number `n` below 2^64, and with a value that is none. */
  lemma KeyTakes(c: Config, key: string, val: string, n: nat)
    requires n < 0x1_0000_0000_0000_0000
    ensures Apply(c, "device_port", Decimal(n)) == if n <= 65535 then c.(devicePort := n) else c
    ensures Apply(c, "target_bitrate_kbps", Decimal(n)) == c.(target := n % 0x1_0000_0000)
    ensures Apply(c, "max_bitrate_kbps", Decimal(n)) == c.(max := n % 0x1_0000_0000)
    ensures Apply(c, "fps", Decimal(n)) == c.(fps := n % 0x1_0000_0000)
    ensures Apply(c, "codec", val) == c.(useHevc := val != "h264")
    ensures key !in {"device_port", "codec", "target_bitrate_kbps", "max_bitrate_kbps", "fps"} ==>
            Apply(c, key, val) == c
    ensures key != "codec" && !(val != "" && AllDigits(val)) ==> Apply(c, key, val) == c
  {
    hide Decimal;
    DecimalParses(n);
    KeysDiffer();
  }

  /** An empty text gives the defaults. */
  lemma EmptyText()
    ensures Parse("") == Config(2345, true, 50000, 80000, 60)
  {
  }

  /** The text written, line by line, each ended by a line feed. */
  lemma SerializedText(c: Config)
    ensures Serialize(c) == "# TetherDisplay host config" + ("\n"
                            + ("device_port" + "=" + Decimal(c.devicePort) + ("\n"
                            + ("codec" + "=" + (if c.useHevc then "hevc" else "h264") + ("\n"
                            + ("target_bitrate_kbps" + "=" + Decimal(c.target) + ("\n"
                            + ("max_bitrate_kbps" + "=" + Decimal(c.max) + ("\n"
                            + ("fps" + "=" + Decimal(c.fps) + ("\n" + "")))))))))))
  {
    hide Decimal, Unlines;
    UnlinesOfSix(Settings(c));
  }

  lemma UnlinesOfSix(s: seq<string>)
    requires |s| == 6
    ensures Unlines(s) == s[0] + ("\n" + (s[1] + ("\n" + (s[2] + ("\n" + (s[3] + ("\n" + (s[4] + ("\n"
                          + (s[5] + ("\n" + "")))))))))))
  {
    assert s[1..][1..] == s[2..] && s[2..][1..] == s[3..] && s[3..][1..] == s[4..] && s[4..][1..] == s[5..];
    assert s[5..][1..] == [] && Unlines(s[5..]) == s[5] + ("\n" + "");
    assert Unlines(s[4..]) == s[4] + ("\n" + Unlines(s[5..]));
    assert Unlines(s[3..]) == s[3] + ("\n" + Unlines(s[4..]));
    assert Unlines(s[2..]) == s[2] + ("\n" + Unlines(s[3..]));
    assert Unlines(s[1..]) == s[1] + ("\n" + Unlines(s[2..]));
  }

  // ---- the round trip ----

  lemma {:induction false} LinesOfUnlines(lines: seq<string>)
    requires forall l :: l in lines ==> Lacks(l, '\n')
    ensures Lines(Unlines(lines)) == lines
  {
    if lines != [] {
      var l, rest := lines[0], Unlines(lines[1..]);
      FindPastText(l, "\n" + rest, "\n");
      assert "\n" <= "\n" + rest;
      var text := l + ("\n" + rest);
      assert text[..|l|] == l && text[|l| + 1..] == rest;
      LinesOfUnlines(lines[1..]);
      assert lines == [l] + lines[1..];
    }
  }

  /** Text that is not empty and has no blank at either end. */
  predicate Tight(s: string) {
    s != "" && !IsBlank(s[0]) && !IsBlank(s[|s| - 1])
  }

  lemma NotFound(s: string, needle: string)
    requires |needle| == 1 && Lacks(s, needle[0])
    ensures Find(s, needle) == None
  {
    FindPastText(s, "", needle);
    assert s + "" == s;
  }

  lemma SettingApplies(c: Config, key: string, val: string)
    requires Lacks(key, '#') && Lacks(key, '=') && Lacks(val, '#') && Tight(key) && Tight(val)
    ensures ApplyLine(c, Setting(key, val)) == Apply(c, key, val)
  {
    hide Apply;
    var line := Setting(key, val);
    NotFound(line, "#");
    assert line == key + ("=" + val) && "=" <= "=" + val;
    FindPastText(key, "=" + val, "=");
    assert line[..|key|] == key && line[|key| + 1..] == val;
  }

  lemma DecimalIsPlain(n: nat)
    ensures Lacks(Decimal(n), '#') && Lacks(Decimal(n), '\n') && Tight(Decimal(n))
  {
    assert forall i :: 0 <= i < |Decimal(n)| ==> IsDigit(Decimal(n)[i]);
  }

  lemma DecimalParses(n: nat)
    requires n < 0x1_0000_0000_0000_0000
    ensures ToU64(Decimal(n)) == Some(n)
  {
    DecimalReadBack(n);
  }

  lemma KeysArePlain()
    ensures forall key :: key in {"device_port", "codec", "target_bitrate_kbps", "max_bitrate_kbps", "fps"} ==>
              Lacks(key, '#') && Lacks(key, '=') && Lacks(key, '\n') && Tight(key)
    ensures forall val :: val in {"hevc", "h264"} ==> Lacks(val, '#') && Lacks(val, '\n') && Tight(val)
  {
  }

  lemma SettingIsOneLine(key: string, val: string)
    requires Lacks(key, '\n') && Lacks(val, '\n')
    ensures Lacks(Setting(key, val), '\n')
  {
  }

  lemma SettingsAreLines(c: Config)
    ensures forall l :: l in Settings(c) ==> Lacks(l, '\n')
  {
    hide Lacks, Tight, Setting;
    CommentIsOneLine();
    KeysArePlain();
    DecimalIsPlain(c.devicePort);
    DecimalIsPlain(c.target);
    DecimalIsPlain(c.max);
    DecimalIsPlain(c.fps);
    SettingIsOneLine("device_port", Decimal(c.devicePort));
    SettingIsOneLine("codec", if c.useHevc then "hevc" else "h264");
    SettingIsOneLine("target_bitrate_kbps", Decimal(c.target));
    SettingIsOneLine("max_bitrate_kbps", Decimal(c.max));
    SettingIsOneLine("fps", Decimal(c.fps));
  }

  lemma CommentIsOneLine()
    ensures Lacks(COMMENT, '\n')
  {
  }

  lemma CommentChangesNothing(c: Config)
    ensures ApplyLine(c, COMMENT) == c
  {
    assert "#" <= COMMENT && COMMENT[..0] == "";
  }

  lemma KeysDiffer()
    ensures |"device_port"| == 11 && |"codec"| == 5 && |"target_bitrate_kbps"| == 19 && |"max_bitrate_kbps"| == 16
            && |"fps"| == 3
    ensures "hevc" != "h264"
  {
    assert "hevc"[1] != "h264"[1];
  }

  lemma ApplyLinesCons(c: Config, line: string, lines: seq<string>)
    ensures ApplyLines(c, [line] + lines) == ApplyLines(ApplyLine(c, line), lines)
  {
    assert ([line] + lines)[1..] == lines;
  }

  lemma DevicePortApplies(c: Config, port: u16)
    ensures ApplyLine(c, Setting("device_port", Decimal(port))) == c.(devicePort := port)
  {
    hide ApplyLine, Setting, Lacks, Tight, ToU64;
    KeysArePlain();
    DecimalIsPlain(port);
    DecimalParses(port);
    SettingApplies(c, "device_port", Decimal(port));
  }

  lemma CodecApplies(c: Config, hevc: bool)
    ensures ApplyLine(c, Setting("codec", if hevc then "hevc" else "h264")) == c.(useHevc := hevc)
  {
    hide ApplyLine, Setting, Lacks, Tight, ToU64;
    KeysArePlain();
    KeysDiffer();
    SettingApplies(c, "codec", if hevc then "hevc" else "h264");
  }

  lemma TargetApplies(c: Config, n: u32)
    ensures ApplyLine(c, Setting("target_bitrate_kbps", Decimal(n))) == c.(target := n)
  {
    hide Apply, ApplyLine, Setting, Decimal;
    NumberReachesKey(c, "target_bitrate_kbps", n);
    NumberForKey(c, Decimal(n), n);
  }

  lemma MaxApplies(c: Config, n: u32)
    ensures ApplyLine(c, Setting("max_bitrate_kbps", Decimal(n))) == c.(max := n)
  {
    hide Apply, ApplyLine, Setting, Decimal;
    NumberReachesKey(c, "max_bitrate_kbps", n);
    NumberForKey(c, Decimal(n), n);
  }

  lemma FpsApplies(c: Config, n: u32)
    ensures ApplyLine(c, Setting("fps", Decimal(n))) == c.(fps := n)
  {
    hide Apply, ApplyLine, Setting, Decimal;
    NumberReachesKey(c, "fps", n);
    NumberForKey(c, Decimal(n), n);
  }

  lemma NumberReachesKey(c: Config, key: string, n: u32)
    requires key in {"device_port", "codec", "target_bitrate_kbps", "max_bitrate_kbps", "fps"}
    ensures ApplyLine(c, Setting(key, Decimal(n))) == Apply(c, key, Decimal(n)) && ToU64(Decimal(n)) == Some(n)
  {
    hide Apply, ApplyLine, Setting, Decimal, ToU64, Lacks, Tight;
    KeysArePlain();
    DecimalIsPlain(n);
    DecimalParses(n);
    SettingApplies(c, key, Decimal(n));
  }

  lemma NumberForKey(c: Config, val: string, n: u32)
    requires ToU64(val) == Some(n)
    ensures Apply(c, "target_bitrate_kbps", val) == c.(target := n)
    ensures Apply(c, "max_bitrate_kbps", val) == c.(max := n)
    ensures Apply(c, "fps", val) == c.(fps := n)
  {
    hide ToU64;
    KeysDiffer();
  }

  /** The settings of `c` overwrite every field, whatever was there. */
  lemma SettingsApply(start: Config, c: Config)
    ensures ApplyLines(start, Settings(c)) == c
  {
    hide ApplyLine, ApplyLines, Setting, Decimal;
    var c1 := start.(devicePort := c.devicePort);
    var c2 := c1.(useHevc := c.useHevc);
    var c3 := c2.(target := c.target);
    var c4 := c3.(max := c.max);
    SixLines(start, Settings(c));
    CommentChangesNothing(start);
    DevicePortApplies(start, c.devicePort);
    CodecApplies(c1, c.useHevc);
    TargetApplies(c2, c.target);
    MaxApplies(c3, c.max);
    FpsApplies(c4, c.fps);
    assert c4.(fps := c.fps) == c;
  }

  lemma SixLines(c: Config, s: seq<string>)
    requires |s| == 6
    ensures ApplyLines(c, s)
            == ApplyLine(ApplyLine(ApplyLine(ApplyLine(ApplyLine(ApplyLine(c, s[0]), s[1]), s[2]), s[3]), s[4]), s[5])
  {
    hide ApplyLine;
    var c1 := ApplyLine(c, s[0]);
    var c2 := ApplyLine(c1, s[1]);
    var c3 := ApplyLine(c2, s[2]);
    var c4 := ApplyLine(c3, s[3]);
    var c5 := ApplyLine(c4, s[4]);
    assert s[1..][1..] == s[2..] && s[2..][1..] == s[3..] && s[3..][1..] == s[4..] && s[4..][1..] == s[5..]
           && s[5..][1..] == [];
    assert ApplyLines(c5, s[5..]) == ApplyLine(c5, s[5]);
    assert ApplyLines(c4, s[4..]) == ApplyLines(c5, s[5..]);
    assert ApplyLines(c3, s[3..]) == ApplyLines(c4, s[4..]);
    assert ApplyLines(c2, s[2..]) == ApplyLines(c3, s[3..]);
    assert ApplyLines(c1, s[1..]) == ApplyLines(c2, s[2..]);
  }

  /** Printing then parsing clamps, for every configuration whatever. */
  lemma ParseOfSerialized(c: Config)
    ensures Parse(Serialize(c)) == Clamp(c)
  {
    SettingsAreLines(c);
    LinesOfUnlines(Settings(c));
    SettingsApply(DEFAULTS, c);
  }

  /** The round trip is the identity exactly on safe configurations. */
  lemma RoundTripIffSafe(c: Config)
    ensures Parse(Serialize(c)) == c <==> Safe(c)
  {
    ParseOfSerialized(c);
    ClampIsProjection(c);
  }

  /** Whatever the text, what is loaded is safe, and saving and loading it again changes nothing. */
  lemma LoadedIsSafeAndStable(text: string)
    ensures Safe(Parse(text))
    ensures Parse(Serialize(Parse(text))) == Parse(text)
  {
    ClampIsProjection(ApplyLines(DEFAULTS, Lines(text)));
    RoundTripIffSafe(Parse(text));
  }

  // ---- the rate plan ----

  datatype EncoderConfig = EncoderConfig(fps: u32, target: u32, max: u32, lowLatency: bool)

  datatype RatePlan = RatePlan(average: u32, max: u32, vbvSize: u32, vbvDelay: u32)

  function Min(a: u32, b: u32): u32 {
    if a < b then a else b
  }

  /** 64-bit arithmetic narrowed to 32 bits at the end. */
  function Plan(cfg: EncoderConfig, ceiling: u32): RatePlan {
    var hardCap := Min(cfg.max, ceiling);
    var average := Min(cfg.target, hardCap);
    var fps := if cfg.fps < 1 then 1 else cfg.fps;
    var bits := average * 1000;
    var vbv := if cfg.lowLatency then bits / fps % U32_SIZE else bits % U32_SIZE;
    RatePlan(average, hardCap, vbv, vbv)
  }

  lemma NextMultiple(n: nat, d: nat)
    ensures (n + 1) * d == n * d + d
  {
  }

  lemma DivisionBounds(n: nat, d: nat)
    requires d > 0
    ensures n / d * d <= n < (n / d + 1) * d
  {
    assert n == n / d * d + n % d;
    NextMultiple(n / d, d);
  }

  /** Neither the target nor the largest bitrate, nor the ceiling of the link, is ever exceeded, and
      nothing is given away. */
  lemma PlanIsTight(cfg: EncoderConfig, ceiling: u32)
    ensures var p := Plan(cfg, ceiling);
            && p.average <= p.max && p.average <= cfg.target && p.max <= cfg.max && p.max <= ceiling
            && p.max in {cfg.max, ceiling} && p.average in {cfg.target, p.max} && p.vbvDelay == p.vbvSize
  {
  }

  /** The buffer of any plan: `q` is the bits of a second, or of one frame rounded down where a rate of 0
      counts as 1; it is kept exactly if it fits 32 bits, and otherwise narrowed. */
  lemma PlanBuffer(cfg: EncoderConfig, ceiling: u32) returns (q: nat)
    ensures var p, fps := Plan(cfg, ceiling), if cfg.fps == 0 then 1 else cfg.fps;
            && (if cfg.lowLatency then fps * q <= p.average * 1000 < fps * (q + 1) else q == p.average * 1000)
            && p.vbvSize == q % 0x1_0000_0000
  {
    var fps := if cfg.fps == 0 then 1 else cfg.fps;
    var bits := Plan(cfg, ceiling).average * 1000;
    q := if cfg.lowLatency then bits / fps else bits;
    DivisionBounds(bits, fps);
  }

  /** A loaded configuration keeps its own target and maximum, and its low-latency buffer is one
      frame's worth of bits, to the bit. */
  lemma LoadedConfigIsPlannedAsIs(text: string, lowLatency: bool)
    ensures var c := Parse(text);
            var p := Plan(EncoderConfig(c.fps, c.target, c.max, lowLatency), USB2_CEILING);
            && p.average == c.target && p.max == c.max && p.vbvDelay == p.vbvSize
            && (lowLatency ==> c.fps * p.vbvSize <= c.target * 1000 < c.fps * (p.vbvSize + 1))
            && (!lowLatency ==> p.vbvSize == c.target * 1000)
  {
    LoadedIsSafeAndStable(text);
    SafePlan(Parse(text), lowLatency);
  }

  lemma SafePlan(c: Config, lowLatency: bool)
    requires Safe(c)
    ensures var p := Plan(EncoderConfig(c.fps, c.target, c.max, lowLatency), USB2_CEILING);
            && p.average == c.target && p.max == c.max && p.vbvDelay == p.vbvSize
            && (lowLatency ==> c.fps * p.vbvSize <= c.target * 1000 < c.fps * (p.vbvSize + 1))
            && (!lowLatency ==> p.vbvSize == c.target * 1000)
  {
    var bits := c.target * 1000;
    DivisionBounds(bits, c.fps);
    assert bits / c.fps <= bits by {
      TimesMonotone(1, c.fps, bits / c.fps);
    }
  }
}
