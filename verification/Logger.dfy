/** The firmware's structured logger: fixed buffers, sanitised fields, one complete line per record. */
module Logger {
  import opened Wrappers
  import opened Text
  import opened Json

  type Word = w: nat | w < 0x1_0000_0000

  datatype Level = Debug | Info | Warn | Error | Off {
    function Rank(): nat {
      match this
      case Debug => 0
      case Info => 1
      case Warn => 2
      case Error => 3
      case Off => 4
    }

    function Name(): Text {
      match this
      case Debug => "debug"
      case Info => "info"
      case Warn => "warn"
      case Error => "error"
      case Off => "off"
    }
  }

  datatype Format = JsonLines | PlainText

  datatype Field = NoField | Code | ProgressPercent {
    function Name(): Option<Text> {
      match this
      case NoField => None
      case Code => Some("code")
      case ProgressPercent => Some("progress_percent")
    }
  }

  const COMPONENT_LIMIT: nat := 32
  const MESSAGE_LIMIT: nat := 128
  const RECORD_SIZE: nat := 512

  // ---- what a record says ----

  function Sanitize(c: Octet): Octet {
    if c < 32 as char || c > 126 as char then '?' else c
  }

  /** Printable ASCII: no control byte, no line break, nothing a terminal would act on. */
  predicate Printable(s: Text) {
    forall i :: 0 <= i < |s| ==> ' ' <= s[i] <= '~'
  }

  function SanitizeAll(s: Text): (r: Text)
    ensures |r| == |s| && Printable(r)
    ensures forall i :: 0 <= i < |s| ==> r[i] == Sanitize(s[i])
  {
    seq(|s|, i requires 0 <= i < |s| => Sanitize(s[i]))
  }

  /** The C string a pointer shows; a null pointer shows the empty one. */
  function Shown(pointer: Option<Text>): Text {
    match pointer
    case None => []
    case Some(memory) => CString(memory)
  }

  /** The sanitised prefix that is logged of an input. */
  function Clean(pointer: Option<Text>, limit: nat): Text {
    var s := Shown(pointer);
    SanitizeAll(if |s| <= limit then s else s[..limit])
  }

  predicate TooLong(pointer: Option<Text>, limit: nat) {
    |Shown(pointer)| > limit
  }

  /** Everything one call says. */
  datatype Entry = Entry(level: Level, component: Option<Text>, message: Option<Text>, field: Field, value: Word)

  predicate Truncated(e: Entry) {
    TooLong(e.component, COMPONENT_LIMIT) || TooLong(e.message, MESSAGE_LIMIT)
  }

  function FieldMembers(e: Entry): seq<Member> {
    match e.field.Name()
    case None => []
    case Some(name) => [Member(name, Num(e.value))]
  }

  /** The JSON object a record is meant to be. */
  function Members(uptime: Word, e: Entry): seq<Member> {
    [Member("uptime_ms", Num(uptime)),
     Member("level", Str(e.level.Name())),
     Member("service", Str("smartpod")),
     Member("component", Str(Clean(e.component, COMPONENT_LIMIT))),
     Member("message", Str(Clean(e.message, MESSAGE_LIMIT))),
     Member("truncated", Bool(Truncated(e)))] + FieldMembers(e)
  }

  // ---- what is kept of an input, byte by byte ----

  /** `r` shows an input: its bytes up to the terminator or the limit, those outside 32..126 as question marks. */
  ghost predicate Shows(r: Text, pointer: Option<Text>, limit: nat) {
    match pointer
    case None => r == []
    case Some(memory) =>
      && |r| <= limit && |r| <= |memory|
      && (forall i :: 0 <= i < |r| ==>
            memory[i] != NUL && r[i] == if 32 as char <= memory[i] <= 126 as char then memory[i] else '?')
      && (|r| == limit || |r| == |memory| || memory[|r|] == NUL)
  }

  /** More than `limit` bytes come before the terminator. */
  ghost predicate CutShort(pointer: Option<Text>, limit: nat) {
    pointer.Some? && limit < |pointer.value| && forall i :: 0 <= i <= limit ==> pointer.value[i] != NUL
  }

  lemma CleanShows(pointer: Option<Text>, limit: nat)
    ensures Shows(Clean(pointer, limit), pointer, limit)
    ensures TooLong(pointer, limit) <==> CutShort(pointer, limit)
  {
    if pointer.Some? {
      var s := CString(pointer.value);
      assert forall i :: 0 <= i < |s| ==> s[i] == pointer.value[i] != NUL;
    }
  }

  /** That determines it. */
  lemma ShownIsUnique(r: Text, q: Text, pointer: Option<Text>, limit: nat)
    requires Shows(r, pointer, limit) && Shows(q, pointer, limit)
    ensures r == q
  {
  }

  // ---- the texts the two format strings expand to ----

  function Extra(format: Format, e: Entry): Text {
    match e.field.Name()
    case None => ""
    case Some(name) =>
      if format.JsonLines? then ",\"" + name + "\":" + Decimal(e.value) else " " + name + "=" + Decimal(e.value)
  }

  // The pieces of
  // `{"uptime_ms":%lu,"level":"%s","service":"smartpod","component":"%s","message":"%s","truncated":%s%s}`.
  const UPTIME_PIECE: Text := "{\"uptime_ms\":"
  const LEVEL_PIECE: Text := ",\"level\":\""
  const COMPONENT_PIECE: Text := "\",\"service\":\"smartpod\",\"component\":\""
  const MESSAGE_PIECE: Text := "\",\"message\":\""
  const TRUNCATED_PIECE: Text := "\",\"truncated\":"

  function JsonText(uptime: Word, level: Text, component: Text, message: Text, truncated: bool, extra: Text): Text {
    UPTIME_PIECE + (Decimal(uptime) + (LEVEL_PIECE + (level + (COMPONENT_PIECE + (component
      + (MESSAGE_PIECE + (message + (TRUNCATED_PIECE + (TruthText(truncated) + (extra + ['}']))))))))))
  }

  function TruthText(b: bool): Text {
    if b then "true" else "false"
  }

  // The pieces of `[%lu] %s smartpod/%s: %s%s%s`.
  const OPEN_PIECE: Text := "["
  const CLOSE_PIECE: Text := "] "
  const SERVICE_PIECE: Text := " smartpod/"
  const COLON_PIECE: Text := ": "

  function PlainLine(uptime: Word, level: Text, component: Text, message: Text, truncated: bool, extra: Text): Text {
    OPEN_PIECE + (Decimal(uptime) + (CLOSE_PIECE + (level + (SERVICE_PIECE + (component
      + (COLON_PIECE + (message + (extra + TruncatedMark(truncated)))))))))
  }

  function TruncatedMark(truncated: bool): Text {
    if truncated then " [truncated]" else ""
  }

  /** Quotes and backslashes are escaped in JSON only. */
  function Escaped(format: Format, s: Text): Text {
    if format.JsonLines? then PrintChars(s) else s
  }

  /** The record text for the contents of the buffers. */
  function RecordText(format: Format, uptime: Word, level: Text, component: Text, message: Text, truncated: bool,
      extra: Text): Text {
    (if format.JsonLines?
     then JsonText(uptime, level, component, message, truncated, extra)
     else PlainLine(uptime, level, component, message, truncated, extra)) + ['\n']
  }

  /** The line a call emits. */
  function Line(format: Format, uptime: Word, e: Entry): Text {
    var component := Escaped(format, Clean(e.component, COMPONENT_LIMIT));
    var message := Escaped(format, Clean(e.message, MESSAGE_LIMIT));
    RecordText(format, uptime, e.level.Name(), component, message, Truncated(e), Extra(format, e))
  }

  // ---- every record fits ----

  lemma {:induction false} EscapingAtMostDoubles(s: Text)
    ensures |PrintChars(s)| <= 2 * |s|
  {
    if s != [] {
      EscapingAtMostDoubles(s[1..]);
    }
  }

  lemma EscapedLength(format: Format, pointer: Option<Text>, limit: nat)
    ensures |Escaped(format, Clean(pointer, limit))| <= 2 * limit
  {
    hide PrintChars;
    EscapingAtMostDoubles(Clean(pointer, limit));
  }

  lemma ExtraLength(format: Format, e: Entry)
    ensures |Extra(format, e)| < 48
  {
    hide Decimal;
    DecimalLength(e.value);
  }

  /** No record reaches the size of the buffer, so none is ever dropped. */
  lemma LineFits(format: Format, uptime: Word, e: Entry)
    ensures 0 < |Line(format, uptime, e)| < 512 == RECORD_SIZE
  {
    hide Decimal, Escaped, Extra, Clean, Truncated;
    DecimalLength(uptime);
    EscapedLength(format, e.component, COMPONENT_LIMIT);
    EscapedLength(format, e.message, MESSAGE_LIMIT);
    ExtraLength(format, e);
    assert |e.level.Name()| <= 5;
  }

  // ---- one line, and only one ----

  lemma {:induction false} EscapingKeepsPrintable(s: Text)
    requires Printable(s)
    ensures Printable(PrintChars(s))
  {
    if s != [] {
      EscapingKeepsPrintable(s[1..]);
      assert Printable(PrintChar(s[0]));
    }
  }

  lemma DecimalPrintable(n: nat)
    ensures Printable(Decimal(n))
  {
    hide Decimal;
    var d := Decimal(n);
    assert forall i :: 0 <= i < |d| ==> d[i] in d;
  }

  lemma ExtraPrintable(format: Format, e: Entry)
    ensures Printable(Extra(format, e))
  {
    hide Decimal;
    DecimalPrintable(e.value);
  }

  lemma PrintableConcat(a: Text, b: Text)
    requires Printable(a) && Printable(b)
    ensures Printable(a + b)
  {
  }

  lemma JsonTextPrintable(uptime: Word, level: Text, component: Text, message: Text, truncated: bool, extra: Text)
    requires Printable(level) && Printable(component) && Printable(message) && Printable(extra)
    ensures Printable(JsonText(uptime, level, component, message, truncated, extra))
  {
    hide Decimal, Printable, TruthText;
    DecimalPrintable(uptime);
    PiecesPrintable(truncated);
    PrintableConcat(extra, ['}']);
    var t := extra + ['}'];
    PrintableConcat(TruthText(truncated), t);
    t := TruthText(truncated) + t;
    PrintableConcat(TRUNCATED_PIECE, t);
    t := TRUNCATED_PIECE + t;
    PrintableConcat(message, t);
    t := message + t;
    PrintableConcat(MESSAGE_PIECE, t);
    t := MESSAGE_PIECE + t;
    PrintableConcat(component, t);
    t := component + t;
    PrintableConcat(COMPONENT_PIECE, t);
    t := COMPONENT_PIECE + t;
    PrintableConcat(level, t);
    t := level + t;
    PrintableConcat(LEVEL_PIECE, t);
    t := LEVEL_PIECE + t;
    PrintableConcat(Decimal(uptime), t);
    PrintableConcat(UPTIME_PIECE, Decimal(uptime) + t);
  }

  lemma PiecesPrintable(truncated: bool)
    ensures Printable(UPTIME_PIECE) && Printable(LEVEL_PIECE) && Printable(COMPONENT_PIECE)
    ensures Printable(MESSAGE_PIECE) && Printable(TRUNCATED_PIECE) && Printable(['}'])
        && Printable(TruthText(truncated))
  {
  }

  lemma PlainPiecesPrintable(truncated: bool)
    ensures Printable(OPEN_PIECE) && Printable(CLOSE_PIECE) && Printable(SERVICE_PIECE) && Printable(COLON_PIECE)
    ensures Printable(TruncatedMark(truncated))
  {
  }

  lemma PlainLinePrintable(uptime: Word, level: Text, component: Text, message: Text, truncated: bool, extra: Text)
    requires Printable(level) && Printable(component) && Printable(message) && Printable(extra)
    ensures Printable(PlainLine(uptime, level, component, message, truncated, extra))
  {
    hide Decimal, Printable, TruncatedMark;
    DecimalPrintable(uptime);
    PlainPiecesPrintable(truncated);
    var mark := TruncatedMark(truncated);
    PrintableConcat(extra, mark);
    PrintableConcat(message, extra + mark);
    var t := message + (extra + mark);
    PrintableConcat(COLON_PIECE, t);
    t := COLON_PIECE + t;
    PrintableConcat(component, t);
    t := component + t;
    PrintableConcat(SERVICE_PIECE, t);
    t := SERVICE_PIECE + t;
    PrintableConcat(level, t);
    t := level + t;
    PrintableConcat(CLOSE_PIECE, t);
    t := CLOSE_PIECE + t;
    PrintableConcat(Decimal(uptime), t);
    PrintableConcat(OPEN_PIECE, Decimal(uptime) + t);
  }

  lemma LineBodyPrintable(format: Format, uptime: Word, e: Entry)
    ensures var line := Line(format, uptime, e);
      line != [] && Printable(line[..|line| - 1]) && line[|line| - 1] == '\n'
  {
    hide Extra, Clean, Truncated, PrintChars, JsonText, PlainLine;
    var component, message := Clean(e.component, COMPONENT_LIMIT), Clean(e.message, MESSAGE_LIMIT);
    ExtraPrintable(format, e);
    CleanPrintable(e.component, COMPONENT_LIMIT);
    CleanPrintable(e.message, MESSAGE_LIMIT);
    EscapingKeepsPrintable(component);
    EscapingKeepsPrintable(message);
    LevelPrintable(e.level);
    var c, m := Escaped(format, component), Escaped(format, message);
    JsonTextPrintable(uptime, e.level.Name(), c, m, Truncated(e), Extra(format, e));
    PlainLinePrintable(uptime, e.level.Name(), c, m, Truncated(e), Extra(format, e));
    var line := Line(format, uptime, e);
    var body := if format.JsonLines? then JsonText(uptime, e.level.Name(), c, m, Truncated(e), Extra(format, e))
                else PlainLine(uptime, e.level.Name(), c, m, Truncated(e), Extra(format, e));
    assert line == body + "\n" && line[..|line| - 1] == body;
  }

  lemma LevelPrintable(level: Level)
    ensures Printable(level.Name()) && |level.Name()| <= 5
    ensures NeedsNoEscape(level.Name())
  {
  }

  lemma CleanPrintable(pointer: Option<Text>, limit: nat)
    ensures Printable(Clean(pointer, limit))
  {
  }

  /** The only line break is the last byte, and no other control byte is there either. */
  lemma OneLine(format: Format, uptime: Word, e: Entry, i: nat)
    requires i < |Line(format, uptime, e)|
    ensures Line(format, uptime, e)[i] == '\n' <==> i == |Line(format, uptime, e)| - 1
    ensures i < |Line(format, uptime, e)| - 1 ==> ' ' <= Line(format, uptime, e)[i] <= '~'
  {
    hide Line;
    LineBodyPrintable(format, uptime, e);
  }

  // ---- the JSON line reads back ----

  lemma PrintMembersSplit(m: Member, ms: seq<Member>)
    requires ms != []
    ensures PrintMembers([m] + ms) == PrintMember(m) + [','] + PrintMembers(ms)
  {
    assert ([m] + ms)[1..] == ms;
  }

  function StringKey(key: Text): Text { ['"'] + key + ['"', ':', '"'] }

  function BareKey(key: Text): Text { ['"'] + key + ['"', ':'] }

  const END_STRING: Text := ['"', ',']

  /** A string member in front of others, cut as the format string cuts it. */
  lemma StringMemberText(key: Text, text: Text, ms: seq<Member>)
    requires ms != [] && NeedsNoEscape(key)
    ensures PrintMembers([Member(key, Str(text))] + ms)
      == StringKey(key) + (PrintChars(text) + (END_STRING + PrintMembers(ms)))
  {
    hide PrintChars, PrintMembers;
    PlainChars(key);
    PrintMembersSplit(Member(key, Str(text)), ms);
    assert ['"'] + key + ['"', ':'] + (['"'] + PrintChars(text) + ['"']) + [','] + PrintMembers(ms)
        == StringKey(key) + (PrintChars(text) + (END_STRING + PrintMembers(ms)));
  }

  lemma NumberMemberText(key: Text, n: nat, ms: seq<Member>)
    requires ms != [] && NeedsNoEscape(key)
    ensures PrintMembers([Member(key, Num(n))] + ms) == BareKey(key) + (Decimal(n) + ([','] + PrintMembers(ms)))
  {
    hide PrintChars, PrintMembers, Decimal;
    PlainChars(key);
    PrintMembersSplit(Member(key, Num(n)), ms);
    assert ['"'] + key + ['"', ':'] + Decimal(n) + [','] + PrintMembers(ms)
        == BareKey(key) + (Decimal(n) + ([','] + PrintMembers(ms)));
  }

  /** The last members, with the closing brace: `truncated` and the optional field. */
  lemma TailText(truncated: bool, e: Entry)
    ensures PrintMembers([Member("truncated", Bool(truncated))] + FieldMembers(e))
      == BareKey("truncated") + (TruthText(truncated) + (Extra(JsonLines, e) + ['}']))
  {
    hide PrintMember, PrintMembers, Decimal, BareKey, TruthText;
    var t := Member("truncated", Bool(truncated));
    TruncatedMemberText(truncated);
    var r := TruthText(truncated);
    match e.field.Name()
    case None =>
      assert [t] + FieldMembers(e) == [t];
      LastMember(t);
      Glue(BareKey("truncated"), r, ['}']);
      assert Extra(JsonLines, e) + ['}'] == ['}'];
    case Some(name) =>
      var f := Member(name, Num(e.value));
      PrintMembersSplit(t, [f]);
      LastMember(f);
      FieldMemberText(e);
      Glue(BareKey("truncated"), r, Extra(JsonLines, e) + ['}']);
      assert PrintMember(t) + [','] + (PrintMember(f) + ['}']) == PrintMember(t) + ([','] + PrintMember(f) + ['}']);
  }

  lemma LastMember(m: Member)
    ensures PrintMembers([m]) == PrintMember(m) + ['}']
  {
  }

  lemma TruncatedMemberText(truncated: bool)
    ensures PrintMember(Member("truncated", Bool(truncated))) == BareKey("truncated") + TruthText(truncated)
  {
    hide PrintChars;
    PlainChars("truncated");
  }

  lemma FieldMemberText(e: Entry)
    requires e.field.Name().Some?
    ensures Extra(JsonLines, e) == [','] + PrintMember(Member(e.field.Name().value, Num(e.value)))
  {
    hide PrintChars, Decimal;
    var name := e.field.Name().value;
    PlainChars(name);
  }

  lemma Glue(a: Text, b: Text, rest: Text)
    ensures a + (b + rest) == (a + b) + rest
  {
  }

  lemma PiecesAreKeys()
    ensures UPTIME_PIECE == ['{'] + BareKey("uptime_ms")
    ensures LEVEL_PIECE == [','] + StringKey("level")
    ensures MESSAGE_PIECE == END_STRING + StringKey("message")
    ensures TRUNCATED_PIECE == END_STRING + BareKey("truncated")
  {
  }

  const SERVICE_START: Text := "\",\"service\":\""

  const SERVICE_END: Text := "smartpod\",\"component\":\""

  lemma ComponentPieceHalves()
    ensures COMPONENT_PIECE == SERVICE_START + SERVICE_END
  {
  }

  lemma ComponentKey()
    ensures SERVICE_END == "smartpod" + (END_STRING + StringKey("component"))
  {
  }

  lemma ServiceKey()
    ensures SERVICE_START == END_STRING + StringKey("service")
  {
  }

  lemma ComponentPieceIsKeys()
    ensures COMPONENT_PIECE ==
        END_STRING + (StringKey("service") + ("smartpod" + (END_STRING + StringKey("component"))))
  {
    hide StringKey;
    ServiceKey();
    ComponentKey();
    ComponentPieceHalves();
    Glue(END_STRING, StringKey("service"), SERVICE_END);
  }

  lemma KeysNeedNoEscape()
    ensures NeedsNoEscape("uptime_ms") && NeedsNoEscape("level") && NeedsNoEscape("service")
    ensures NeedsNoEscape("component") && NeedsNoEscape("message") && NeedsNoEscape("smartpod")
  {
  }

  /** `k + (text + rest)` continues a string member; `END_STRING` and the next key are one piece of the format. */
  lemma StringStep(key: Text, text: Text, ms: seq<Member>, nextKey: Text, rest: Text)
    requires ms != [] && NeedsNoEscape(key) && PrintMembers(ms) == nextKey + rest
    ensures PrintMembers([Member(key, Str(text))] + ms)
      == StringKey(key) + (PrintChars(text) + ((END_STRING + nextKey) + rest))
  {
    hide PrintChars, PrintMembers, StringKey, NeedsNoEscape;
    StringMemberText(key, text, ms);
    Glue(END_STRING, nextKey, rest);
  }

  /** The format string expands to the printed object and a newline. */
  lemma JsonLineIsPrint(uptime: Word, e: Entry)
    ensures Line(JsonLines, uptime, e) == Print(Members(uptime, e)) + ['\n']
  {
    hide PrintMembers, PrintChars, Decimal, Extra, Clean, Truncated, TruthText, StringKey, BareKey, NeedsNoEscape;
    var component, message := Clean(e.component, COMPONENT_LIMIT), Clean(e.message, MESSAGE_LIMIT);
    var tail := [Member("truncated", Bool(Truncated(e)))] + FieldMembers(e);
    var m4 := [Member("message", Str(message))] + tail;
    var m3 := [Member("component", Str(component))] + m4;
    var m2 := [Member("service", Str("smartpod"))] + m3;
    var m1 := [Member("level", Str(e.level.Name()))] + m2;
    assert Members(uptime, e) == [Member("uptime_ms", Num(uptime))] + m1;
    KeysNeedNoEscape();
    PiecesAreKeys();
    LevelPrintable(e.level);
    PlainChars(e.level.Name());

    TailText(Truncated(e), e);
    var t5 := TruthText(Truncated(e)) + (Extra(JsonLines, e) + ['}']);
    StringStep("message", message, tail, BareKey("truncated"), t5);
    var t4 := PrintChars(message) + (TRUNCATED_PIECE + t5);
    StringStep("component", component, m4, StringKey("message"), t4);
    var t3 := PrintChars(component) + (MESSAGE_PIECE + t4);
    ServiceStep(e.level.Name(), m3, t3);
    var t1 := e.level.Name() + (COMPONENT_PIECE + t3);
    NumberMemberText("uptime_ms", uptime, m1);
    Glue([','], StringKey("level"), t1);
    Glue(['{'], BareKey("uptime_ms"), Decimal(uptime) + (LEVEL_PIECE + t1));
  }

  /** The fixed `service` member sits inside one piece of the format string. */
  lemma ServiceStep(level: Text, ms: seq<Member>, t: Text)
    requires ms != [] && PrintMembers(ms) == StringKey("component") + t && PrintChars(level) == level
    ensures PrintMembers([Member("level", Str(level))] + ([Member("service", Str("smartpod"))] + ms))
      == StringKey("level") + (level + (COMPONENT_PIECE + t))
  {
    hide PrintMembers, PrintChars, StringKey, NeedsNoEscape;
    KeysNeedNoEscape();
    ComponentPieceIsKeys();
    PlainSmartpod();
    var service := [Member("service", Str("smartpod"))] + ms;
    StringStep("service", "smartpod", ms, StringKey("component"), t);
    var c := END_STRING + StringKey("component");
    Glue("smartpod", c, t);
    StringStep("level", level, service, StringKey("service"), ("smartpod" + c) + t);
    Glue(END_STRING + StringKey("service"), "smartpod" + c, t);
    Glue(END_STRING, StringKey("service"), "smartpod" + c);
  }

  lemma PlainSmartpod()
    ensures PrintChars("smartpod") == "smartpod"
  {
    PlainChars("smartpod");
  }

  /** The word for a level, and its field name if it has one, as a record shows them. */
  predicate WordOf(level: Level, word: Text) {
    match level
    case Debug => word == "debug"
    case Info => word == "info"
    case Warn => word == "warn"
    case Error => word == "error"
    case Off => word == "off"
  }

  /** The optional field at the end of a plain record. */
  predicate FieldText(field: Field, value: Word, text: Text) {
    match field
    case NoField => text == ""
    case Code => text == " code=" + Decimal(value)
    case ProgressPercent => text == " progress_percent=" + Decimal(value)
  }

  /** The optional member at the end of a JSON record. */
  predicate FieldMember(field: Field, value: Word, ms: seq<Member>) {
    match field
    case NoField => ms == []
    case Code => ms == [Member("code", Num(value))]
    case ProgressPercent => ms == [Member("progress_percent", Num(value))]
  }

  /** The record of a call in plain text, piece by piece. */
  lemma PlainLineShows(uptime: Word, e: Entry, word: Text, component: Text, message: Text, field: Text, mark: Text)
    requires WordOf(e.level, word) && FieldText(e.field, e.value, field)
    requires Shows(component, e.component, 32) && Shows(message, e.message, 128)
    requires mark == if CutShort(e.component, 32) || CutShort(e.message, 128) then " [truncated]" else ""
    ensures Line(PlainText, uptime, e) ==
      "[" + (Decimal(uptime)
          + ("] " + (word + (" smartpod/" + (component + (": " + (message + (field + mark)))))))) + "\n"
  {
    hide Decimal, Clean, Shows, CutShort, TooLong, Extra, PlainLine, FieldText;
    CleanIs(component, e.component, 32);
    CleanIs(message, e.message, 128);
    ExtraIs(e, field);
    PlainPieces(uptime, word, component, message, Truncated(e), field);
    assert ['\n'] == "\n";
  }

  lemma CleanIs(r: Text, pointer: Option<Text>, limit: nat)
    requires Shows(r, pointer, limit)
    ensures Clean(pointer, limit) == r && TooLong(pointer, limit) == CutShort(pointer, limit)
  {
    hide Shows, CutShort, TooLong, Clean;
    CleanShows(pointer, limit);
    ShownIsUnique(r, Clean(pointer, limit), pointer, limit);
  }

  lemma ExtraIs(e: Entry, field: Text)
    requires FieldText(e.field, e.value, field)
    ensures Extra(PlainText, e) == field
  {
    hide Decimal;
  }

  lemma PlainPieces(uptime: Word, word: Text, component: Text, message: Text, truncated: bool, field: Text)
    ensures PlainLine(uptime, word, component, message, truncated, field) ==
      "[" + (Decimal(uptime) + ("] " + (word + (" smartpod/" + (component + (": " + (message
        + (field + if truncated then " [truncated]" else ""))))))))
  {
    hide Decimal;
  }

  /** The object with these members, in this order. */
  predicate Tells(d: Document, uptime: Word, word: Text, component: Text, message: Text, cut: bool,
      field: seq<Member>) {
    d == Object([Member("uptime_ms", Num(uptime)),
                 Member("level", Str(word)),
                 Member("service", Str("smartpod")),
                 Member("component", Str(component)),
                 Member("message", Str(message)),
                 Member("truncated", Bool(cut))] + field)
  }

  lemma MembersTell(uptime: Word, e: Entry, word: Text, field: seq<Member>)
    requires WordOf(e.level, word) && FieldMember(e.field, e.value, field)
    ensures Tells(Object(Members(uptime, e)), uptime, word, Clean(e.component, 32), Clean(e.message, 128),
                  TooLong(e.component, 32) || TooLong(e.message, 128), field)
  {
    hide Clean, TooLong;
  }

  /** A JSON record is one text and a line break, and parsing the text gives back the call, byte by byte. */
  lemma JsonLineTells(uptime: Word, e: Entry, word: Text, component: Text, message: Text, field: seq<Member>)
    returns (text: Text)
    requires WordOf(e.level, word) && FieldMember(e.field, e.value, field)
    requires Shows(component, e.component, 32) && Shows(message, e.message, 128)
    ensures Line(JsonLines, uptime, e) == text + "\n"
    ensures Parse(text).Some? && Tells(Parse(text).value, uptime, word, component, message,
                                       CutShort(e.component, 32) || CutShort(e.message, 128), field)
  {
    hide Line, Parse, Members, Tells, Clean, Shows, CutShort, TooLong;
    CleanIs(component, e.component, 32);
    CleanIs(message, e.message, 128);
    JsonLineParsesBack(uptime, e);
    LineBodyPrintable(JsonLines, uptime, e);
    var line := Line(JsonLines, uptime, e);
    text := line[..|line| - 1];
    MembersTell(uptime, e, word, field);
  }

  /** Parsing an emitted JSON line gives back every field, and `truncated` tells exactly whether an input was cut. */
  lemma JsonLineParsesBack(uptime: Word, e: Entry)
    ensures var line := Line(JsonLines, uptime, e);
      line != [] && Parse(line[..|line| - 1]) == Some(Object(Members(uptime, e)))
  {
    hide Line, Print, Parse, Members;
    JsonLineIsPrint(uptime, e);
    PrintParsesBack(Object(Members(uptime, e)));
    var line := Line(JsonLines, uptime, e);
    assert line[..|line| - 1] == Print(Members(uptime, e));
  }
}
