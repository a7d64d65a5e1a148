/** The usbmux request printer and the flat plist extractor. */
module Plist {
  import opened Bytes
  import opened Text

  // ---- the extractor ----

  /** The text of the first `<tag>` element after the first `<key>key</key>`, if it comes before
      the next key. */
  function ValueAfterKey(xml: string, key: string, tag: string): Option<string> {
    var marker := KeyElement(key);
    match Find(xml, marker)
    case None => None
    case Some(kpos) => FirstValue(xml[kpos + |marker|..], tag)
  }

  function FirstValue(after: string, tag: string): Option<string> {
    match Find(after, Open(tag))
    case None => None
    case Some(opos) =>
      var nextKey := Find(after, "<key>");
      if nextKey.Some? && opos > nextKey.value then None
      else
        var rest := after[opos + |Open(tag)|..];
        match Find(rest, Close(tag))
        case None => None
        case Some(cpos) => Some(rest[..cpos])
  }

  function Open(tag: string): string {
    "<" + tag + ">"
  }

  function Close(tag: string): string {
    "</" + tag + ">"
  }

  function GetString(xml: string, key: string): Option<string> {
    ValueAfterKey(xml, key, "string")
  }

  const LONG_LONG_LIMIT: nat := 0x8000_0000_0000_0000
  const INT_LIMIT: nat := 0x8000_0000

  function GetInteger(xml: string, key: string): Option<int> {
    match ValueAfterKey(xml, key, "integer")
    case Some(text) => ParseSigned(text, LONG_LONG_LIMIT)
    case None => None
  }

  datatype AttachedDevice = AttachedDevice(deviceId: int, serial: string, connectionType: string)

  function OrEmpty(s: Option<string>): string {
    match s case Some(t) => t case None => ""
  }

  /** Narrowing a wide integer to a 32-bit `int`. */
  function ToInt(v: int): int {
    (v + INT_LIMIT) % U32_SIZE - INT_LIMIT
  }

  function ParseAttached(xml: string): Option<AttachedDevice> {
    if OrEmpty(GetString(xml, "MessageType")) != "Attached" then None
    else
      match GetInteger(xml, "DeviceID")
      case None => None
      case Some(id) =>
        Some(AttachedDevice(ToInt(id), OrEmpty(GetString(xml, "SerialNumber")),
            OrEmpty(GetString(xml, "ConnectionType"))))
  }

  // ---- the printer ----

  function TagOf(integer: bool): string {
    if integer then "integer" else "string"
  }

  /** A key with a scalar value. */
  datatype Entry = Entry(key: string, integer: bool, value: string) {
    function Tag(): string {
      TagOf(integer)
    }

    predicate Flat() {
      Lacks(key, '<') && Lacks(value, '<')
    }
  }

  function KeyElement(key: string): (s: string)
    ensures |s| >= 2 && s[0] == '<' && s[1] == 'k'
  {
    "<key>" + key + "</key>"
  }

  function PrintEntry(e: Entry): string {
    "  " + (KeyElement(e.key) + (Open(e.Tag()) + (e.value + (Close(e.Tag()) + "\n"))))
  }

  function PrintEntries(entries: seq<Entry>): string {
    if entries == [] then "" else PrintEntry(entries[0]) + PrintEntries(entries[1..])
  }

  const HEADER1 := "?xml version=\"1.0\" encoding=\"UTF-8\"?>\n"
  const HEADER2 := "!DOCTYPE plist PUBLIC " + "\"-//Apple//DTD PLIST 1.0//EN\" "
    + "\"http://www.apple.com/DTDs/" + "PropertyList-1.0.dtd\">\n"
  const HEADER3 := "plist version=\"1.0\">\n"
  const HEADER4 := "dict>\n"
  const HEADER := "<" + HEADER1 + "<" + HEADER2 + "<" + HEADER3 + "<" + HEADER4
  const FOOTER := "</dict>\n</plist>\n"

  function Document(entries: seq<Entry>): string {
    HEADER + (PrintEntries(entries) + FOOTER)
  }

  /** The four keys that end every request. */
  function Boilerplate(progName: string): seq<Entry> {
    [Entry("BundleID", false, "com.tetherdisplay.host"),
     Entry("ClientVersionString", false, "tetherdisplay-usbmux"),
     Entry("ProgName", false, progName),
     Entry("kLibUSBMuxVersion", true, "3")]
  }

  /** A 16-bit port with its two bytes exchanged. */
  function SwapPort(port: u16): u16 {
    port % 256 * 256 + port / 256
  }

  function ListenPlist(progName: string): string {
    Document([Entry("MessageType", false, "Listen")] + Boilerplate(progName))
  }

  function ConnectEntries(deviceId: int, port: u16): seq<Entry> {
    [Entry("MessageType", false, "Connect"),
     Entry("DeviceID", true, SignedDecimal(deviceId)),
     Entry("PortNumber", true, SignedDecimal(SwapPort(port)))]
  }

  function ConnectPlist(deviceId: int, port: u16, progName: string): string {
    Document(ConnectEntries(deviceId, port) + Boilerplate(progName))
  }

  /** The first entry with the given key. */
  function Lookup(entries: seq<Entry>, key: string): Option<Entry> {
    if entries == [] then None
    else if entries[0].key == key then Some(entries[0])
    else Lookup(entries[1..], key)
  }

  // ---- passing over what is not there ----

  /** A piece of text that begins with '<', has no other, and does not begin the needle. */
  lemma PastElement(body: string, s: string, needle: string)
    requires needle != "" && needle[0] == '<' && Lacks(body, '<') && !(needle <= "<" + body + s)
    ensures Find("<" + body + s, needle) == Later(Find(s, needle), 1 + |body|)
  {
    var all := "<" + body + s;
    assert all[1..] == body + s;
    FindPastText(body, s, needle);
    if |all| < |needle| {
      assert Find(s, needle) == None;
    }
  }

  lemma SecondCharDiffers(a: string, b: string)
    requires |a| >= 2 && |b| >= 2 && a[1] != b[1]
    ensures !(a <= b)
  {
  }

  lemma OtherKeyDoesNotMatch(key: string, other: string, s: string)
    requires Lacks(key, '<') && Lacks(other, '<') && key != other
    ensures !(KeyElement(key) <= KeyElement(other) + s)
  {
    var needle, text := KeyElement(key), KeyElement(other) + s;
    if |key| < |other| {
      assert needle[5 + |key|] == '<' && text[5 + |key|] == other[|key|];
    } else if |other| < |key| {
      assert needle[5 + |other|] == key[|other|] && text[5 + |other|] == '<';
    } else {
      var i :| 0 <= i < |key| && key[i] != other[i];
      assert needle[5 + i] == key[i] && text[5 + i] == other[i];
    }
  }

  /** What follows the key of an entry: its value element, and then `s`. */
  function ValueThen(e: Entry, s: string): string {
    Open(e.Tag()) + (e.value + (Close(e.Tag()) + ("\n" + s)))
  }

  lemma EntryThen(e: Entry, s: string)
    ensures PrintEntry(e) + s == "  " + (KeyElement(e.key) + ValueThen(e, s))
    ensures |PrintEntry(e)| == 2 + |KeyElement(e.key)| + |ValueThen(e, "")|
  {
  }

  /** The markup of a value element holds neither a key nor an element of the other type. */
  lemma PastValue(e: Entry, s: string, needle: string)
    requires e.Flat() && needle != "" && needle[0] == '<'
    requires |needle| >= 2 && needle[1] != '/' && needle[1] != e.Tag()[0]
    ensures Find(ValueThen(e, s), needle) == Later(Find(s, needle), |ValueThen(e, "")|)
  {
    hide Find, ValueThen, Lacks;
    var open, close := ValueOpening(e), ValueClosing(e);
    var tail := "<" + close + s;
    ValueSplit(e, s);
    ValueSplit(e, "");
    PastOpening(e, tail, needle);
    PastClosing(e, s, needle);
  }

  function ValueOpening(e: Entry): string {
    e.Tag() + ">" + e.value
  }

  function ValueClosing(e: Entry): string {
    "/" + e.Tag() + ">\n"
  }

  lemma PastOpening(e: Entry, tail: string, needle: string)
    requires e.Flat() && |needle| >= 2 && needle[0] == '<' && needle[1] != e.Tag()[0]
    ensures Find("<" + ValueOpening(e) + tail, needle) == Later(Find(tail, needle), 1 + |ValueOpening(e)|)
  {
    hide Find;
    assert ValueOpening(e)[0] == e.Tag()[0];
    SecondCharDiffers(needle, "<" + ValueOpening(e) + tail);
    PastElement(ValueOpening(e), tail, needle);
  }

  lemma PastClosing(e: Entry, s: string, needle: string)
    requires |needle| >= 2 && needle[0] == '<' && needle[1] != '/'
    ensures Find("<" + ValueClosing(e) + s, needle) == Later(Find(s, needle), 1 + |ValueClosing(e)|)
  {
    hide Find;
    assert ValueClosing(e)[0] == '/';
    SecondCharDiffers(needle, "<" + ValueClosing(e) + s);
    PastElement(ValueClosing(e), s, needle);
  }

  lemma ValueSplit(e: Entry, s: string)
    ensures ValueThen(e, s) == "<" + ValueOpening(e) + ("<" + ValueClosing(e) + s)
  {
  }

  lemma KeySplit(key: string, s: string)
    ensures KeyElement(key) + s == "<" + ("key>" + key) + ("<" + "/key>" + s)
  {
  }

  lemma PastKey(key: string, s: string, needle: string)
    requires Lacks(key, '<') && |needle| >= 2 && needle[0] == '<' && needle[1] != '/'
    requires !(needle <= KeyElement(key) + s)
    ensures Find(KeyElement(key) + s, needle) == Later(Find(s, needle), |KeyElement(key)|)
  {
    hide Find;
    var open, close := "key>" + key, "/key>";
    KeySplit(key, s);
    PastElement(open, "<" + close + s, needle);
    SecondCharDiffers(needle, "<" + close + s);
    PastElement(close, s, needle);
  }

  /** The marker of another key is not found in an entry. */
  lemma MarkerPastEntry(e: Entry, key: string, s: string)
    requires e.Flat() && Lacks(key, '<') && e.key != key
    ensures Find(PrintEntry(e) + s, KeyElement(key)) == Later(Find(s, KeyElement(key)), |PrintEntry(e)|)
  {
    hide KeyElement, Find, ValueThen;
    var marker := KeyElement(key);
    EntryThen(e, s);
    FindPastText("  ", KeyElement(e.key) + ValueThen(e, s), marker);
    OtherKeyDoesNotMatch(key, e.key, ValueThen(e, s));
    PastKey(e.key, ValueThen(e, s), marker);
    PastValue(e, s, marker);
  }

  /** The marker of an entry's own key is found at once. */
  lemma MarkerAtEntry(e: Entry, s: string)
    ensures Find(PrintEntry(e) + s, KeyElement(e.key)) == Some(2)
    ensures (PrintEntry(e) + s)[2 + |KeyElement(e.key)|..] == ValueThen(e, s)
  {
    var rest := KeyElement(e.key) + ValueThen(e, s);
    EntryThen(e, s);
    FindPastText("  ", rest, KeyElement(e.key));
    assert KeyElement(e.key) <= rest;
  }

  /** Asked for its own type, the element right after the key gives its whole value. */
  lemma OwnTypeGivesValue(e: Entry, s: string)
    requires Find(e.value + (Close(e.Tag()) + ("\n" + s)), Close(e.Tag())) == Some(|e.value|)
    ensures FirstValue(ValueThen(e, s), e.Tag()) == Some(e.value)
  {
    var rest := e.value + (Close(e.Tag()) + ("\n" + s));
    assert Open(e.Tag()) <= ValueThen(e, s);
    assert ValueThen(e, s)[|Open(e.Tag())|..] == rest;
    assert rest[..|e.value|] == e.value;
  }

  lemma FlatValueEndsAtClose(e: Entry, s: string)
    requires e.Flat()
    ensures Find(e.value + (Close(e.Tag()) + ("\n" + s)), Close(e.Tag())) == Some(|e.value|)
  {
    var rest := Close(e.Tag()) + ("\n" + s);
    FindPastText(e.value, rest, Close(e.Tag()));
    assert Close(e.Tag()) <= rest;
  }

  // ---- lookups in printed plists ----

  /** `s` offers no element of type `tag` before its first key, if any. */
  predicate NothingBeforeNextKey(s: string, tag: string) {
    match Find(s, Open(tag))
    case None => true
    case Some(o) => Find(s, "<key>").Some? && Find(s, "<key>").value < o
  }

  /** Asked for the other type, the element after the key gives nothing, unless what follows
      offers that type before the next key. */
  lemma OtherTypeGivesNothing(e: Entry, s: string)
    requires e.Flat() && NothingBeforeNextKey(s, TagOf(!e.integer))
    ensures FirstValue(ValueThen(e, s), TagOf(!e.integer)) == None
  {
    PastValue(e, s, Open(TagOf(!e.integer)));
    PastValue(e, s, "<key>");
  }

  lemma FooterHasNothing(key: string, tag: string)
    requires tag in {"integer", "string"}
    ensures Find(FOOTER, KeyElement(key)) == None
    ensures NothingBeforeNextKey(FOOTER, tag)
  {
    forall needle | needle in {KeyElement(key), Open(tag)}
      ensures Find(FOOTER, needle) == None
    {
      var a, b := "/dict>\n", "/plist>\n";
      assert FOOTER == "<" + a + ("<" + b + "");
      SecondCharDiffers("<" + a + ("<" + b + ""), needle);
      PastElement(a, "<" + b + "", needle);
      PastElement(b, "", needle);
    }
  }

  lemma EntriesStartWithKey(entries: seq<Entry>, tag: string)
    requires tag in {"integer", "string"} && (forall e :: e in entries ==> e.Flat())
    ensures NothingBeforeNextKey(PrintEntries(entries) + FOOTER, tag)
  {
    if entries == [] {
      assert PrintEntries(entries) + FOOTER == FOOTER;
      FooterHasNothing("", tag);
    } else {
      var e, s := entries[0], PrintEntries(entries[1..]) + FOOTER;
      Regroup(PrintEntry(e), PrintEntries(entries[1..]), FOOTER);
      EntryThen(e, s);
      KeyComesFirst(e.key, ValueThen(e, s), tag);
    }
  }

  lemma KeyComesFirst(key: string, s: string, tag: string)
    requires tag in {"integer", "string"}
    ensures NothingBeforeNextKey("  " + (KeyElement(key) + s), tag)
  {
    hide Find;
    var rest := KeyElement(key) + s;
    FindPastText("  ", rest, "<key>");
    FindPastText("  ", rest, Open(tag));
    KeyTagFirst(key, s);
    FindAtFront(rest, "<key>");
    SecondCharDiffers(Open(tag), rest);
    FindAtFront(rest, Open(tag));
  }

  lemma KeyTagFirst(key: string, s: string)
    ensures "<key>" <= KeyElement(key) + s
  {
    assert KeyElement(key) + s == "<key>" + (key + "</key>" + s);
  }

  /** The first matching entry answers for its own type, whatever text follows the entries. */
  lemma {:induction false} FoundInEntries(entries: seq<Entry>, key: string, tail: string)
    requires (forall e :: e in entries ==> e.Flat()) && Lacks(key, '<')
    requires Lookup(entries, key).Some?
    ensures ValueAfterKey(PrintEntries(entries) + tail, key, Lookup(entries, key).value.Tag())
            == Some(Lookup(entries, key).value.value)
  {
    var e, s := entries[0], PrintEntries(entries[1..]) + tail;
    Regroup(PrintEntry(e), PrintEntries(entries[1..]), tail);
    if e.key == key {
      MarkerAtEntry(e, s);
      FlatValueEndsAtClose(e, s);
      OwnTypeGivesValue(e, s);
    } else {
      FoundInEntries(entries[1..], key, tail);
      SkipEntry(e, s, key, Lookup(entries, key).value.Tag());
    }
  }

  lemma SkipEntry(e: Entry, s: string, key: string, tag: string)
    requires e.Flat() && Lacks(key, '<') && e.key != key
    ensures ValueAfterKey(PrintEntry(e) + s, key, tag) == ValueAfterKey(s, key, tag)
  {
    MarkerPastEntry(e, key, s);
    SkipFront(PrintEntry(e), s, key, tag);
  }

  lemma SkipFront(front: string, s: string, key: string, tag: string)
    requires Find(front + s, KeyElement(key)) == Later(Find(s, KeyElement(key)), |front|)
    ensures ValueAfterKey(front + s, key, tag) == ValueAfterKey(s, key, tag)
  {
    hide FirstValue, KeyElement, Find;
    match Find(s, KeyElement(key))
    case None =>
    case Some(p) =>
      assert (front + s)[|front| + p + |KeyElement(key)|..] == s[p + |KeyElement(key)|..];
  }

  function Answer(entry: Option<Entry>, integer: bool): Option<string> {
    if entry.Some? && entry.value.integer == integer then Some(entry.value.value) else None
  }

  lemma {:induction false} LookupInEntries(entries: seq<Entry>, key: string, integer: bool)
    requires (forall e :: e in entries ==> e.Flat()) && Lacks(key, '<')
    ensures ValueAfterKey(PrintEntries(entries) + FOOTER, key, TagOf(integer)) == Answer(Lookup(entries, key), integer)
  {
    if entries == [] {
      assert PrintEntries(entries) + FOOTER == FOOTER;
      FooterHasNothing(key, "string");
    } else {
      var e, s := entries[0], PrintEntries(entries[1..]) + FOOTER;
      Regroup(PrintEntry(e), PrintEntries(entries[1..]), FOOTER);
      if e.key != key {
        SkipEntry(e, s, key, TagOf(integer));
        LookupInEntries(entries[1..], key, integer);
      } else {
        MarkerAtEntry(e, s);
        if e.integer == integer {
          FlatValueEndsAtClose(e, s);
          OwnTypeGivesValue(e, s);
        } else {
          EntriesStartWithKey(entries[1..], TagOf(integer));
          OtherTypeGivesNothing(e, s);
        }
      }
    }
  }

  lemma PastHeader(s: string, key: string, tag: string)
    ensures ValueAfterKey(HEADER + s, key, tag) == ValueAfterKey(s, key, tag)
  {
    hide KeyElement, Find, Lacks, FirstValue, ValueAfterKey;
    var marker := KeyElement(key);
    var s3 := "<" + HEADER4 + s;
    var s2 := "<" + HEADER3 + s3;
    var s1 := "<" + HEADER2 + s2;
    HeaderLacksMore();
    FourElements(HEADER1, HEADER2, HEADER3, HEADER4, s);
    SecondCharDiffers(marker, "<" + HEADER1 + s1);
    PastElement(HEADER1, s1, marker);
    SecondCharDiffers(marker, "<" + HEADER2 + s2);
    PastElement(HEADER2, s2, marker);
    SecondCharDiffers(marker, "<" + HEADER3 + s3);
    PastElement(HEADER3, s3, marker);
    SecondCharDiffers(marker, "<" + HEADER4 + s);
    PastElement(HEADER4, s, marker);
    SkipFront(HEADER, s, key, tag);
  }

  lemma FourElements(a: string, b: string, c: string, d: string, s: string)
    ensures "<" + a + "<" + b + "<" + c + "<" + d + s == "<" + a + ("<" + b + ("<" + c + ("<" + d + s)))
  {
  }

  lemma HeaderLacksMore()
    ensures Lacks(HEADER1, '<') && Lacks(HEADER2, '<') && Lacks(HEADER3, '<') && Lacks(HEADER4, '<')
  {
    assert Lacks("!DOCTYPE plist PUBLIC ", '<');
    assert Lacks("\"-//Apple//DTD PLIST 1.0//EN\" ", '<');
    assert Lacks("\"http://www.apple.com/DTDs/", '<');
    assert Lacks("PropertyList-1.0.dtd\">\n", '<');
  }

  /** Every lookup in every flat plist, exactly: the first entry with the key answers with its
      value when it has the type asked for, and otherwise there is no answer, whatever types the
      later keys have. */
  lemma DocumentLookup(entries: seq<Entry>, key: string, integer: bool)
    requires (forall e :: e in entries ==> e.Flat()) && Lacks(key, '<')
    ensures ValueAfterKey(Document(entries), key, TagOf(integer)) == Answer(Lookup(entries, key), integer)
  {
    PastHeader(PrintEntries(entries) + FOOTER, key, TagOf(integer));
    LookupInEntries(entries, key, integer);
  }

  // ---- requests and replies read back ----

  lemma {:induction false} PrintEntriesConcat(a: seq<Entry>, b: seq<Entry>)
    ensures PrintEntries(a + b) == PrintEntries(a) + PrintEntries(b)
  {
    hide PrintEntry;
    if a == [] {
      assert a + b == b;
    } else {
      PrintEntriesConcat(a[1..], b);
      assert (a + b)[1..] == a[1..] + b;
      assert PrintEntries(a + b) == PrintEntry(a[0]) + PrintEntries(a[1..] + b);
      Regroup(PrintEntry(a[0]), PrintEntries(a[1..]), PrintEntries(b));
    }
  }

  /** An answer found among the first entries of a document holds whatever comes later. */
  lemma FoundInDocument(first: seq<Entry>, later: seq<Entry>, key: string)
    requires (forall e :: e in first ==> e.Flat()) && Lacks(key, '<') && Lookup(first, key).Some?
    ensures ValueAfterKey(Document(first + later), key, Lookup(first, key).value.Tag())
            == Some(Lookup(first, key).value.value)
  {
    PrintEntriesConcat(first, later);
    Regroup(PrintEntries(first), PrintEntries(later), FOOTER);
    PastHeader(PrintEntries(first) + (PrintEntries(later) + FOOTER), key, Lookup(first, key).value.Tag());
    FoundInEntries(first, key, PrintEntries(later) + FOOTER);
  }

  lemma DecimalIsFlat(n: int)
    ensures Lacks(SignedDecimal(n), '<')
  {
  }

  /** The two bytes of the port, exchanged: 2345 is sent as 10505. */
  lemma SwappedBytes(port: u16)
    ensures SwapPort(port) / 256 == port % 256 && SwapPort(port) % 256 == port / 256
    ensures SwapPort(2345) == 10505
  {
    QuotientUnique(SwapPort(port), 256, port % 256, port / 256);
  }

  lemma SwapTwice(port: u16)
    ensures SwapPort(SwapPort(port)) == port
  {
    var high, low := port / 256, port % 256;
    QuotientUnique(low * 256 + high, 256, low, high);
  }

  /** With distinct keys, every entry is the first with its key. */
  lemma {:induction false} LookupDistinct(entries: seq<Entry>, i: nat)
    requires i < |entries| && forall j :: 0 <= j < i ==> entries[j].key != entries[i].key
    ensures Lookup(entries, entries[i].key) == Some(entries[i])
  {
    if i > 0 {
      assert entries[1..][i - 1] == entries[i];
      assert forall j :: 0 <= j < i - 1 ==> entries[1..][j] == entries[j + 1];
      LookupDistinct(entries[1..], i - 1);
    }
  }

  // ---- the text itself ----

  /** An entry in full. */
  lemma EntryText(key: string, value: string)
    ensures PrintEntry(Entry(key, true, value))
            == "  " + ("<key>" + key + "</key>" + ("<integer>" + (value + ("</integer>" + "\n"))))
    ensures PrintEntry(Entry(key, false, value))
            == "  " + ("<key>" + key + "</key>" + ("<string>" + (value + ("</string>" + "\n"))))
  {
    assert Open("integer") == "<integer>" && Close("integer") == "</integer>";
    assert Open("string") == "<string>" && Close("string") == "</string>";
    hide Open, Close;
  }

  /** What stands before and behind the entries. */
  lemma DocumentText(entries: seq<Entry>)
    ensures Document(entries) ==
            "<" + "?xml version=\"1.0\" encoding=\"UTF-8\"?>\n"
            + "<" + ("!DOCTYPE plist PUBLIC " + "\"-//Apple//DTD PLIST 1.0//EN\" "
                     + "\"http://www.apple.com/DTDs/" + "PropertyList-1.0.dtd\">\n")
            + "<" + "plist version=\"1.0\">\n" + "<" + "dict>\n"
            + (PrintEntries(entries) + "</dict>\n</plist>\n")
  {
    hide PrintEntries;
  }

  lemma BoilerplateIsFound(deviceId: int, port: u16, progName: string)
    ensures GetString(ConnectPlist(deviceId, port, progName), "BundleID") == Some("com.tetherdisplay.host")
    ensures GetString(ConnectPlist(deviceId, port, progName), "ClientVersionString") == Some("tetherdisplay-usbmux")
  {
    hide Document, ValueAfterKey, SignedDecimal;
    var ends := Boilerplate(progName);
    var first, later := ConnectEntries(deviceId, port) + ends[..2], ends[2..];
    assert ConnectEntries(deviceId, port) + ends == first + later;
    BoilerplateIsFlat();
    ConnectKeysAreFlat();
    DecimalIsFlat(deviceId);
    DecimalIsFlat(SwapPort(port));
    KeyLengths();
    LookupDistinct(first, 3);
    LookupDistinct(first, 4);
    FoundInDocument(first, later, "BundleID");
    FoundInDocument(first, later, "ClientVersionString");
  }

  lemma ConnectKeysAreFlat()
    ensures Lacks("DeviceID", '<') && Lacks("PortNumber", '<') && Lacks("Connect", '<')
  {
  }

  lemma KeyLengths()
    ensures |"MessageType"| == 11 && |"DeviceID"| == 8 && |"PortNumber"| == 10 && |"ClientVersionString"| == 19
    ensures "DeviceID" != "BundleID"
  {
    assert "DeviceID"[0] != "BundleID"[0] && |"BundleID"| == 8;
  }

  /** A listen request says so, whatever the program name. */
  lemma ListenReadsBack(progName: string)
    ensures GetString(ListenPlist(progName), "MessageType") == Some("Listen")
  {
    hide Document, ValueAfterKey;
    BoilerplateIsFlat();
    FoundInDocument([Entry("MessageType", false, "Listen")], Boilerplate(progName), "MessageType");
  }

  /** A connect request reads back as it was asked for, whatever the program name holds: the
      device id, and a port that swapped back is the port. */
  lemma ConnectReadsBack(deviceId: int, port: u16, progName: string)
    requires 0 - INT_LIMIT <= deviceId < INT_LIMIT
    ensures GetString(ConnectPlist(deviceId, port, progName), "MessageType") == Some("Connect")
    ensures GetInteger(ConnectPlist(deviceId, port, progName), "DeviceID") == Some(deviceId)
    ensures GetInteger(ConnectPlist(deviceId, port, progName), "PortNumber") == Some(SwapPort(port))
    ensures SwapPort(port) / 256 == port % 256 && SwapPort(port) % 256 == port / 256
    ensures GetString(ConnectPlist(deviceId, port, progName), "BundleID") == Some("com.tetherdisplay.host")
    ensures GetString(ConnectPlist(deviceId, port, progName), "ClientVersionString") == Some("tetherdisplay-usbmux")
  {
    hide Document, ValueAfterKey, SwapPort, SignedDecimal, ParseSigned;
    SwappedBytes(port);
    BoilerplateIsFound(deviceId, port, progName);
    var es := ConnectEntries(deviceId, port);
    assert Lacks("MessageType", '<') && Lacks("DeviceID", '<') && Lacks("PortNumber", '<') && Lacks("Connect", '<');
    DecimalIsFlat(deviceId);
    DecimalIsFlat(SwapPort(port));
    assert |"MessageType"| == 11 && |"DeviceID"| == 8 && |"PortNumber"| == 10;
    LookupDistinct(es, 0);
    LookupDistinct(es, 1);
    LookupDistinct(es, 2);
    FoundInDocument(es, Boilerplate(progName), "MessageType");
    FoundInDocument(es, Boilerplate(progName), "DeviceID");
    FoundInDocument(es, Boilerplate(progName), "PortNumber");
    SignedReadBack(deviceId, LONG_LONG_LIMIT);
    SignedReadBack(SwapPort(port), LONG_LONG_LIMIT);
    SwapTwice(port);
  }

  /** The end of a value is found where the value ends, exactly if the value holds no closing
      tag of its own. */
  lemma CloseFoundAtEnd(value: string, s: string)
    ensures Find(value + ("</string>" + s), "</string>") == Some(|value|) <==> Find(value, "</string>") == None
  {
    hide Find;
    var close, all := "</string>", value + ("</string>" + s);
    FindIsFirst(all, close);
    FindIsFirst(value, close);
    assert all[|value|..] == close + s;
    if Find(value, close).Some? {
      var p := Find(value, close).value;
      assert value[p..] <= all[p..];
      assert close <= all[p..] && p < |value|;
    } else {
      forall q | 0 <= q < |value|
        ensures !(close <= all[q..])
      {
        assert !(close <= value[q..]);
        CloseDoesNotStraddle(value, s, q);
      }
      FindUnique(all, close, |value|);
    }
  }

  lemma CloseDoesNotStraddle(value: string, s: string, q: nat)
    requires q < |value| && !("</string>" <= value[q..])
    ensures !("</string>" <= (value + ("</string>" + s))[q..])
  {
    var close, all := "</string>", value + ("</string>" + s);
    if q + |close| <= |value| {
      assert all[q..][..|close|] == value[q..][..|close|];
    } else {
      assert all[q..][|value| - q] == '<' && close[|value| - q] != '<';
    }
  }

  /** The program name of a listen request reads back if and only if it holds no closing tag. */
  lemma ProgramNameReadsBack(progName: string)
    ensures GetString(ListenPlist(progName), "ProgName") == Some(progName) <==> Find(progName, "</string>") == None
  {
    hide Find, FirstValue, ValueAfterKey, PrintEntry, ValueThen, Lacks;
    var b := Boilerplate(progName);
    var first := [Entry("MessageType", false, "Listen"), b[0], b[1]];
    var e, later := b[2], [b[3]];
    var s := PrintEntries(later) + FOOTER;
    assert [Entry("MessageType", false, "Listen")] + b == first + ([e] + later);
    PrintEntriesConcat(first, [e] + later);
    assert ([e] + later)[1..] == later;
    Regroup(PrintEntries(first), PrintEntry(e) + PrintEntries(later), FOOTER);
    Regroup(PrintEntry(e), PrintEntries(later), FOOTER);
    PastHeader(PrintEntries(first) + (PrintEntry(e) + s), "ProgName", "string");
    BoilerplateIsFlat();
    assert |"MessageType"| == 11 && |"ProgName"| == 8 && "BundleID"[0] == 'B' && "ProgName"[0] == 'P'
           && |"ClientVersionString"| == 19;
    SkipThree(first[0], first[1], first[2], PrintEntry(e) + s, "ProgName", "string");
    AtOwnEntry(e, s, "string");
    CloseFoundAtEnd(progName, "\n" + s);
    assert Close("string") == "</string>";
    if Find(progName, "</string>").None? {
      OwnTypeGivesValue(e, s);
    } else {
      ValueCutShort(e, s);
    }
  }

  lemma AtOwnEntry(e: Entry, s: string, tag: string)
    ensures ValueAfterKey(PrintEntry(e) + s, e.key, tag) == FirstValue(ValueThen(e, s), tag)
  {
    MarkerAtEntry(e, s);
  }

  lemma BoilerplateIsFlat()
    ensures Lacks("MessageType", '<') && Lacks("Listen", '<') && Lacks("BundleID", '<')
            && Lacks("com.tetherdisplay.host", '<')
    ensures Lacks("ClientVersionString", '<') && Lacks("tetherdisplay-usbmux", '<') && Lacks("ProgName", '<')
  {
  }

  lemma SkipThree(a: Entry, b: Entry, c: Entry, s: string, key: string, tag: string)
    requires a.Flat() && b.Flat() && c.Flat() && Lacks(key, '<') && key !in {a.key, b.key, c.key}
    ensures ValueAfterKey(PrintEntries([a, b, c]) + s, key, tag) == ValueAfterKey(s, key, tag)
  {
    hide PrintEntry, ValueAfterKey;
    assert [a, b, c][1..] == [b, c] && [b, c][1..] == [c] && [c][1..] == [];
    assert PrintEntries([c]) + s == PrintEntry(c) + s by {
      assert PrintEntry(c) + "" == PrintEntry(c);
    }
    Regroup(PrintEntry(b), PrintEntries([c]), s);
    Regroup(PrintEntry(a), PrintEntries([b, c]), s);
    SkipEntry(c, s, key, tag);
    SkipEntry(b, PrintEntry(c) + s, key, tag);
    SkipEntry(a, PrintEntry(b) + (PrintEntry(c) + s), key, tag);
  }

  lemma ValueCutShort(e: Entry, s: string)
    requires !e.integer && Find(e.value + (Close("string") + ("\n" + s)), Close("string")) != Some(|e.value|)
    ensures FirstValue(ValueThen(e, s), "string") != Some(e.value)
  {
    var rest := e.value + (Close("string") + ("\n" + s));
    assert Open("string") <= ValueThen(e, s);
    assert ValueThen(e, s)[|Open("string")|..] == rest;
  }

  /** An attach event with a flat serial number and connection type is parsed to exactly the
      device it announces. */
  lemma AttachedReadsBack(deviceId: int, serial: string, connectionType: string)
    requires 0 - INT_LIMIT <= deviceId < INT_LIMIT && Lacks(serial, '<') && Lacks(connectionType, '<')
    ensures ParseAttached(Document([Entry("MessageType", false, "Attached"),
                                    Entry("DeviceID", true, SignedDecimal(deviceId)),
                                    Entry("SerialNumber", false, serial),
                                    Entry("ConnectionType", false, connectionType)]))
         == Some(AttachedDevice(deviceId, serial, connectionType))
  {
    hide Document, ValueAfterKey, Lacks;
    var es := [Entry("MessageType", false, "Attached"), Entry("DeviceID", true, SignedDecimal(deviceId)),
               Entry("SerialNumber", false, serial), Entry("ConnectionType", false, connectionType)];
    AttachedKeysAreFlat();
    DecimalIsFlat(deviceId);
    assert |"MessageType"| == 11 && |"DeviceID"| == 8 && |"SerialNumber"| == 12 && |"ConnectionType"| == 14;
    forall i | 0 <= i < 4
      ensures ValueAfterKey(Document(es), es[i].key, TagOf(es[i].integer)) == Some(es[i].value)
    {
      LookupDistinct(es, i);
      DocumentLookup(es, es[i].key, es[i].integer);
    }
    var xml := Document(es);
    assert GetString(xml, es[0].key) == Some("Attached");
    assert ValueAfterKey(xml, es[1].key, "integer") == Some(SignedDecimal(deviceId));
    assert GetString(xml, es[2].key) == Some(serial) && GetString(xml, es[3].key) == Some(connectionType);
    SignedReadBack(deviceId, LONG_LONG_LIMIT);
  }

  lemma AttachedKeysAreFlat()
    ensures Lacks("MessageType", '<') && Lacks("DeviceID", '<') && Lacks("SerialNumber", '<')
            && Lacks("ConnectionType", '<')
    ensures Lacks("Attached", '<')
  {
  }

  /** Exactly which flat documents report an attached device, and what is taken from them: the message
      type is "Attached" and the device id an integer; a missing text is empty. */
  lemma AttachedIff(entries: seq<Entry>)
    requires forall e :: e in entries ==> e.Flat()
    ensures var kind, id := Answer(Lookup(entries, "MessageType"), false), Answer(Lookup(entries, "DeviceID"), true);
            var d := ParseAttached(Document(entries));
            && (d.Some? <==> && kind == Some("Attached")
                             && id.Some? && ParseSigned(id.value, 0x8000_0000_0000_0000).Some?)
            && (d.Some? ==>
                  && d.value.deviceId == ToInt(ParseSigned(id.value, 0x8000_0000_0000_0000).value)
                  && d.value.serial == OrEmpty(Answer(Lookup(entries, "SerialNumber"), false))
                  && d.value.connectionType == OrEmpty(Answer(Lookup(entries, "ConnectionType"), false)))
  {
    hide Document, ValueAfterKey, Lookup, ParseSigned;
    AttachedKeysAreFlat();
    DocumentLookup(entries, "MessageType", false);
    DocumentLookup(entries, "DeviceID", true);
    DocumentLookup(entries, "SerialNumber", false);
    DocumentLookup(entries, "ConnectionType", false);
  }

  /** The device id is narrowed to 32 bits with a sign. */
  lemma NarrowedId(v: int)
    ensures 0 - 0x8000_0000 <= ToInt(v) < 0x8000_0000 && (v - ToInt(v)) % 0x1_0000_0000 == 0
  {
  }
}
