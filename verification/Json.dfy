/** The JSON texts this firmware writes (RFC 8259), and a parser that accepts exactly those texts. */
module Json {
  import opened Wrappers
  import opened Text

  datatype Value = Str(text: Text) | Num(number: nat) | Bool(truth: bool)

  datatype Member = Member(key: Text, value: Value)

  /** A JSON document; `Null` is the cleared one. */
  datatype Document = Null | Scalar(value: Value) | Object(members: seq<Member>)

  datatype Parsed<+T> = Parsed(value: T, rest: Text)

  // ---- printing ----

  /** The letter after the backslash when a character is written as a two-character escape. */
  function EscapeLetter(c: Octet): Option<Octet> {
    if c == '"' || c == '\\' then Some(c)
    else if c == 8 as char then Some('b')
    else if c == 9 as char then Some('t')
    else if c == 10 as char then Some('n')
    else if c == 12 as char then Some('f')
    else if c == 13 as char then Some('r')
    else None
  }

  function PrintChar(c: Octet): Text {
    match EscapeLetter(c)
    case Some(letter) => ['\\', letter]
    case None => [c]
  }

  function PrintChars(s: Text): Text {
    if s == [] then [] else PrintChar(s[0]) + PrintChars(s[1..])
  }

  function PrintValue(v: Value): Text {
    match v
    case Str(text) => ['"'] + PrintChars(text) + ['"']
    case Num(number) => Decimal(number)
    case Bool(truth) => if truth then "true" else "false"
  }

  function PrintMember(m: Member): Text {
    ['"'] + PrintChars(m.key) + ['"', ':'] + PrintValue(m.value)
  }

  /** The members with their separators and the closing brace. */
  function PrintMembers(ms: seq<Member>): Text
    requires ms != []
  {
    PrintMember(ms[0]) + if |ms| == 1 then ['}'] else [','] + PrintMembers(ms[1..])
  }

  /** `serializeJson` of an object. */
  function Print(ms: seq<Member>): Text {
    ['{'] + if ms == [] then ['}'] else PrintMembers(ms)
  }

  function PrintDocument(d: Document): Text
    requires !d.Null?
  {
    match d
    case Scalar(v) => PrintValue(v)
    case Object(ms) => Print(ms)
  }

  /** The escapes of RFC 8259 section 7 that the firmware writes; every other byte stands for itself. */
  lemma EscapesExactly(c: Octet)
    ensures PrintChars([c]) ==
      if c == '"' then "\\\"" else if c == '\\' then "\\\\"
      else if c == 8 as char then "\\b" else if c == 9 as char then "\\t" else if c == 10 as char then "\\n"
      else if c == 12 as char then "\\f" else if c == 13 as char then "\\r"
      else [c]
  {
    assert [c][1..] == [];
  }

  predicate NeedsNoEscape(s: Text) {
    forall i :: 0 <= i < |s| ==> EscapeLetter(s[i]).None?
  }

  lemma {:induction false} PlainChars(s: Text)
    requires NeedsNoEscape(s)
    ensures PrintChars(s) == s
  {
    if s != [] {
      PlainChars(s[1..]);
      assert s == [s[0]] + s[1..];
    }
  }

  // ---- parsing ----

  function Unescape(letter: Octet): (r: Option<Octet>)
    ensures r.Some? ==> EscapeLetter(r.value) == Some(letter)
  {
    if letter == '"' || letter == '\\' then Some(letter)
    else if letter == 'b' then Some(8 as char)
    else if letter == 't' then Some(9 as char)
    else if letter == 'n' then Some(10 as char)
    else if letter == 'f' then Some(12 as char)
    else if letter == 'r' then Some(13 as char)
    else None
  }

  /** The characters of a string up to and including its closing quote. */
  function ParseChars(t: Text): (r: Option<Parsed<Text>>)
    ensures r.Some? ==> |r.value.rest| < |t|
  {
    if t == [] then None
    else if t[0] == '"' then Some(Parsed([], t[1..]))
    else if t[0] == '\\' then
      if |t| < 2 then None else
      var c :- Unescape(t[1]);
      var more :- ParseChars(t[2..]);
      Some(Parsed([c] + more.value, more.rest))
    else if EscapeLetter(t[0]).Some? then None
    else
      var more :- ParseChars(t[1..]);
      Some(Parsed([t[0]] + more.value, more.rest))
  }

  /** How many digits `t` starts with. */
  function DigitRun(t: Text): (k: nat)
    ensures k <= |t|
    ensures forall i :: 0 <= i < k ==> IsDigit(t[i])
    ensures k < |t| ==> !IsDigit(t[k])
  {
    if t == [] || !IsDigit(t[0]) then 0 else 1 + DigitRun(t[1..])
  }

  function NumberOf(digits: Text): nat
    requires forall i :: 0 <= i < |digits| ==> IsDigit(digits[i])
  {
    if digits == [] then 0 else NumberOf(digits[..|digits| - 1]) * 10 + DigitValue(digits[|digits| - 1])
  }

  function ParseNumber(t: Text): (r: Option<Parsed<Value>>)
    ensures r.Some? ==> |r.value.rest| < |t|
  {
    var k := DigitRun(t);
    if k == 0 || (t[0] == '0' && k > 1) then None else Some(Parsed(Num(NumberOf(t[..k])), t[k..]))
  }

  function ParseValue(t: Text): (r: Option<Parsed<Value>>)
    ensures r.Some? ==> |r.value.rest| < |t|
  {
    if t == [] then None
    else if t[0] == '"' then
      var s :- ParseChars(t[1..]);
      Some(Parsed(Str(s.value), s.rest))
    else if "true" <= t then Some(Parsed(Bool(true), t[4..]))
    else if "false" <= t then Some(Parsed(Bool(false), t[5..]))
    else ParseNumber(t)
  }

  function ParseMember(t: Text): (r: Option<Parsed<Member>>)
    ensures r.Some? ==> |r.value.rest| < |t|
  {
    if t == [] || t[0] != '"' then None else
    var key :- ParseChars(t[1..]);
    if key.rest == [] || key.rest[0] != ':' then None else
    var value :- ParseValue(key.rest[1..]);
    Some(Parsed(Member(key.value, value.value), value.rest))
  }

  function ParseMembers(t: Text): Option<Parsed<seq<Member>>>
    decreases |t|
  {
    var first :- ParseMember(t);
    if first.rest == [] then None
    else if first.rest[0] == '}' then Some(Parsed([first.value], first.rest[1..]))
    else if first.rest[0] == ',' then
      var more :- ParseMembers(first.rest[1..]);
      Some(Parsed([first.value] + more.value, more.rest))
    else None
  }

  /** `deserializeJson`; `None` is a deserialization error. */
  function Parse(t: Text): Option<Document> {
    if t != [] && t[0] == '{' then
      if |t| == 2 && t[1] == '}' then Some(Object([])) else
      var ms :- ParseMembers(t[1..]);
      if ms.rest == [] then Some(Object(ms.value)) else None
    else
      var v :- ParseValue(t);
      if v.rest == [] then Some(Scalar(v.value)) else None
  }

  // ---- parsing undoes printing ----

  lemma {:induction false} CharsParseBack(s: Text, rest: Text)
    ensures ParseChars(PrintChars(s) + ['"'] + rest) == Some(Parsed(s, rest))
  {
    var t := PrintChars(s) + ['"'] + rest;
    if s != [] {
      CharsParseBack(s[1..], rest);
      var tail := PrintChars(s[1..]) + ['"'] + rest;
      assert t == PrintChar(s[0]) + tail;
      assert s == [s[0]] + s[1..];
      if EscapeLetter(s[0]).Some? {
        assert t[2..] == tail;
        assert t[1] == EscapeLetter(s[0]).value;
      } else {
        assert t[1..] == tail;
      }
    } else {
      assert t[1..] == rest;
    }
  }

  lemma {:induction false} CharsAreThePrint(t: Text)
    requires ParseChars(t).Some?
    ensures t == PrintChars(ParseChars(t).value.value) + ['"'] + ParseChars(t).value.rest
  {
    var r := ParseChars(t).value;
    if t[0] == '"' {
    } else if t[0] == '\\' {
      CharsAreThePrint(t[2..]);
      assert r.value[1..] == ParseChars(t[2..]).value.value;
      assert t == t[..2] + t[2..];
    } else {
      CharsAreThePrint(t[1..]);
      assert r.value[1..] == ParseChars(t[1..]).value.value;
      assert t == t[..1] + t[1..];
    }
  }

  lemma {:induction false} NumberOfDecimal(n: nat)
    ensures NumberOf(Decimal(n)) == n
  {
    if n >= 10 {
      NumberOfDecimal(n / 10);
      assert Decimal(n)[..|Decimal(n)| - 1] == Decimal(n / 10);
    }
  }

  lemma {:induction false} DecimalOfNumber(digits: Text)
    requires digits != [] && forall i :: 0 <= i < |digits| ==> IsDigit(digits[i])
    requires digits[0] == '0' ==> |digits| == 1
    ensures Decimal(NumberOf(digits)) == digits
    ensures digits[0] != '0' ==> NumberOf(digits) > 0
  {
    if |digits| == 1 {
      assert digits[..0] == [];
    } else {
      var front := digits[..|digits| - 1];
      var last := digits[|digits| - 1];
      DecimalOfNumber(front);
      assert digits == front + [last];
      AppendedDigit(NumberOf(front), DigitValue(last));
    }
  }

  lemma AppendedDigit(n: nat, d: nat)
    requires n > 0 && d < 10
    ensures Decimal(n * 10 + d) == Decimal(n) + Decimal(d)
  {
    assert (n * 10 + d) / 10 == n && (n * 10 + d) % 10 == d;
  }

  lemma {:induction false} DigitRunOf(digits: Text, rest: Text)
    requires forall i :: 0 <= i < |digits| ==> IsDigit(digits[i])
    requires rest == [] || !IsDigit(rest[0])
    ensures DigitRun(digits + rest) == |digits|
  {
    if digits == [] {
      assert digits + rest == rest;
    } else {
      DigitRunOf(digits[1..], rest);
      assert (digits + rest)[1..] == digits[1..] + rest;
    }
  }

  /** After a value comes a separator, which is no digit. */
  predicate EndsValue(rest: Text) {
    rest == [] || !IsDigit(rest[0])
  }

  lemma NumberParsesBack(n: nat, rest: Text)
    requires EndsValue(rest)
    ensures ParseNumber(Decimal(n) + rest) == Some(Parsed(Num(n), rest))
  {
    hide Decimal, NumberOf, DigitRun;
    var digits := Decimal(n);
    var t := digits + rest;
    assert forall i :: 0 <= i < |digits| ==> digits[i] in digits;
    DigitRunOf(digits, rest);
    NumberOfDecimal(n);
    assert t[..|digits|] == digits && t[|digits|..] == rest;
    assert t[0] == digits[0];
  }

  lemma ValueParsesBack(v: Value, rest: Text)
    requires EndsValue(rest)
    ensures ParseValue(PrintValue(v) + rest) == Some(Parsed(v, rest))
  {
    hide Decimal, ParseNumber, ParseChars, PrintChars;
    var t := PrintValue(v) + rest;
    match v
    case Str(text) =>
      CharsParseBack(text, rest);
      assert t[1..] == PrintChars(text) + ['"'] + rest;
    case Num(number) =>
      NumberParsesBack(number, rest);
      assert t[0] == Decimal(number)[0] && Decimal(number)[0] in Decimal(number);
    case Bool(truth) =>
      if truth {
        assert t[..4] == "true" && t[4..] == rest;
      } else {
        assert t[0] == 'f';
        assert t[..5] == "false" && t[5..] == rest;
      }
  }

  lemma ValueIsThePrint(t: Text)
    requires ParseValue(t).Some?
    ensures t == PrintValue(ParseValue(t).value.value) + ParseValue(t).value.rest
  {
    hide Decimal, ParseChars, PrintChars, DigitRun, NumberOf;
    if t[0] == '"' {
      CharsAreThePrint(t[1..]);
    } else if "true" <= t {
      assert t == t[..4] + t[4..];
    } else if "false" <= t {
      assert t == t[..5] + t[5..];
    } else {
      var k := DigitRun(t);
      DecimalOfNumber(t[..k]);
    }
  }

  lemma MemberParsesBack(m: Member, rest: Text)
    requires EndsValue(rest)
    ensures ParseMember(PrintMember(m) + rest) == Some(Parsed(m, rest))
  {
    hide ParseChars, PrintChars, ParseValue, PrintValue;
    var t := PrintMember(m) + rest;
    var tail := [':'] + PrintValue(m.value) + rest;
    assert t[1..] == PrintChars(m.key) + ['"'] + tail;
    CharsParseBack(m.key, tail);
    ValueParsesBack(m.value, rest);
    assert tail[1..] == PrintValue(m.value) + rest;
  }

  lemma MemberIsThePrint(t: Text)
    requires ParseMember(t).Some?
    ensures t == PrintMember(ParseMember(t).value.value) + ParseMember(t).value.rest
  {
    hide ParseChars, PrintChars, ParseValue, PrintValue;
    CharsAreThePrint(t[1..]);
    ValueIsThePrint(ParseChars(t[1..]).value.rest[1..]);
  }

  lemma {:induction false} MembersParseBack(ms: seq<Member>, rest: Text)
    requires ms != []
    ensures ParseMembers(PrintMembers(ms) + rest) == Some(Parsed(ms, rest))
  {
    hide ParseMember, PrintMember;
    var t := PrintMembers(ms) + rest;
    if |ms| == 1 {
      MemberParsesBack(ms[0], ['}'] + rest);
      assert t == PrintMember(ms[0]) + (['}'] + rest);
      assert (['}'] + rest)[1..] == rest;
      assert ms == [ms[0]];
    } else {
      var tail := PrintMembers(ms[1..]) + rest;
      MemberParsesBack(ms[0], [','] + tail);
      MembersParseBack(ms[1..], rest);
      assert t == PrintMember(ms[0]) + ([','] + tail);
      assert ([','] + tail)[1..] == tail;
      assert ms == [ms[0]] + ms[1..];
    }
  }

  lemma {:induction false} MembersAreThePrint(t: Text)
    requires ParseMembers(t).Some?
    ensures ParseMembers(t).value.value != []
    ensures t == PrintMembers(ParseMembers(t).value.value) + ParseMembers(t).value.rest
    decreases |t|
  {
    hide ParseMember, PrintMember;
    MemberIsThePrint(t);
    var first := ParseMember(t).value;
    if first.rest[0] == ',' {
      MembersAreThePrint(first.rest[1..]);
      assert ParseMembers(t).value.value[1..] == ParseMembers(first.rest[1..]).value.value;
    }
  }

  /** The parser accepts a text as `d` exactly when the text is the one printed for `d`. */
  lemma ParseExactlyUndoesPrint(t: Text, d: Document)
    requires !d.Null?
    ensures Parse(t) == Some(d) <==> t == PrintDocument(d)
  {
    if t == PrintDocument(d) {
      PrintParsesBack(d);
    }
    if Parse(t) == Some(d) {
      ParsedIsThePrint(t);
    }
  }

  lemma PrintParsesBack(d: Document)
    requires !d.Null?
    ensures Parse(PrintDocument(d)) == Some(d)
  {
    var t := PrintDocument(d);
    match d
    case Scalar(v) =>
      ValueParsesBack(v, []);
      assert t + [] == t;
      assert t[0] != '{';
    case Object(ms) =>
      if ms != [] {
        MembersParseBack(ms, []);
        assert t[1..] == PrintMembers(ms) + [];
        assert t[1] == '"';
      }
  }

  lemma ParsedIsThePrint(t: Text)
    requires Parse(t).Some?
    ensures !Parse(t).value.Null? && t == PrintDocument(Parse(t).value)
  {
    if t != [] && t[0] == '{' {
      if !(|t| == 2 && t[1] == '}') {
        MembersAreThePrint(t[1..]);
      }
    } else {
      ValueIsThePrint(t);
    }
  }
}
