/** The form's hostname and IP address patterns, as regular expressions and as split-and-check. */
module Recognisers {

  datatype CharClass = Alphanumeric | AlphanumericOrHyphen | Dot | NoLineBreak | Between(low: char, high: char)

  predicate IsAlphanumeric(c: char) { 'a' <= c <= 'z' || 'A' <= c <= 'Z' || '0' <= c <= '9' }

  predicate InClass(k: CharClass, c: char) {
    match k
    case Alphanumeric => IsAlphanumeric(c)
    case AlphanumericOrHyphen => IsAlphanumeric(c) || c == '-'
    case Dot => c == '.'
    case NoLineBreak => c != '\n' && c != '\r' && c != 0x2028 as char && c != 0x2029 as char
    case Between(low, high) => low <= c <= high
  }

  datatype Regex = Empty | Class(k: CharClass) | Cat(a: Regex, b: Regex) | Alt(a: Regex, b: Regex) | Star(a: Regex)

  /** `^r$` matches the whole of `s`. */
  ghost predicate Matches(r: Regex, s: string)
    decreases r, |s|
  {
    match r
    case Empty => s == ""
    case Class(k) => |s| == 1 && InClass(k, s[0])
    case Cat(a, b) => exists i :: 0 <= i <= |s| && Matches(a, s[..i]) && Matches(b, s[i..])
    case Alt(a, b) => Matches(a, s) || Matches(b, s)
    case Star(a) => s == "" || exists i :: 1 <= i <= |s| && Matches(a, s[..i]) && Matches(r, s[i..])
  }

  function Optional(r: Regex): Regex { Alt(r, Empty) }

  /** `r{0,n}` */
  function UpTo(n: nat, r: Regex): Regex {
    if n == 0 then Empty else Alt(Empty, Cat(r, UpTo(n - 1, r)))
  }

  // ---- the patterns ----

  const LABEL: Regex :=
    Alt(Class(Alphanumeric), Cat(Class(Alphanumeric), Cat(Star(Class(AlphanumericOrHyphen)), Class(Alphanumeric))))

  const DOTTED_LABEL: Regex := Cat(LABEL, Class(Dot))

  const HOSTNAME_PATTERN: Regex := Cat(Star(DOTTED_LABEL), LABEL)

  function DigitClass(low: char, high: char): Regex { Class(Between(low, high)) }

  const OCTET: Regex :=
    Alt(Cat(DigitClass('2', '2'), Cat(DigitClass('5', '5'), DigitClass('0', '5'))),
        Alt(Cat(DigitClass('2', '2'), Cat(DigitClass('0', '4'), DigitClass('0', '9'))),
            Cat(Optional(DigitClass('0', '1')), Cat(DigitClass('0', '9'), Optional(DigitClass('0', '9'))))))

  const IP_PATTERN: Regex :=
    Cat(OCTET, Cat(Class(Dot), Cat(OCTET, Cat(Class(Dot), Cat(OCTET, Cat(Class(Dot), OCTET))))))

  ghost predicate IsHostname(s: string) {
    Matches(UpTo(32, Class(NoLineBreak)), s) && Matches(HOSTNAME_PATTERN, s)
  }

  ghost predicate IsIP(s: string) { Matches(IP_PATTERN, s) }

  // ---- split and check ----

  function FirstDot(s: string): (i: nat)
    ensures i <= |s| && '.' !in s[..i]
    ensures i < |s| <==> '.' in s
    ensures i < |s| ==> s[i] == '.'
  {
    if s == "" || s[0] == '.' then 0 else
      var i := 1 + FirstDot(s[1..]);
      assert s[..i] == [s[0]] + s[1..][..i - 1];
      i
  }

  function Split(s: string): (parts: seq<string>)
    ensures parts != []
    decreases |s|
  {
    var i := FirstDot(s);
    if i == |s| then [s] else [s[..i]] + Split(s[i + 1..])
  }

  /** A non-empty label of letters, digits and hyphens that neither starts nor ends with a hyphen. */
  predicate IsLabel(s: string) {
    && s != "" && IsAlphanumeric(s[0]) && IsAlphanumeric(s[|s| - 1])
    && forall i :: 0 <= i < |s| ==> InClass(AlphanumericOrHyphen, s[i])
  }

  function Value(s: string): nat
    requires forall i :: 0 <= i < |s| ==> '0' <= s[i] <= '9'
  {
    if s == "" then 0 else Value(s[..|s| - 1]) * 10 + (s[|s| - 1] as int - '0' as int)
  }

  /** One to three digits, of value at most 255; leading zeros are allowed. */
  predicate IsOctet(s: string) {
    1 <= |s| <= 3 && (forall i :: 0 <= i < |s| ==> '0' <= s[i] <= '9') && Value(s) <= 255
  }

  // ---- matching, piece by piece ----

  lemma {:induction false} UpToMatches(n: nat, k: CharClass, s: string)
    ensures Matches(UpTo(n, Class(k)), s) <==> |s| <= n && forall i :: 0 <= i < |s| ==> InClass(k, s[i])
  {
    if n > 0 && s != "" {
      UpToMatches(n - 1, k, s[1..]);
      OneThenRest(k, UpTo(n - 1, Class(k)), s);
    }
  }

  lemma OneThenRest(k: CharClass, r: Regex, s: string)
    ensures Matches(Cat(Class(k), r), s) <==> s != "" && InClass(k, s[0]) && Matches(r, s[1..])
  {
    if s != "" {
      assert Matches(Class(k), s[..1]) <==> InClass(k, s[0]);
    }
  }

  lemma RestThenOne(r: Regex, k: CharClass, s: string)
    ensures Matches(Cat(r, Class(k)), s) <==> s != "" && Matches(r, s[..|s| - 1]) && InClass(k, s[|s| - 1])
  {
    if s != "" {
      var n := |s| - 1;
      assert s[n..] == [s[n]];
      assert Matches(Class(k), s[n..]) <==> InClass(k, s[n]);
    }
  }

  lemma {:induction false} StarOfClass(k: CharClass, s: string)
    ensures Matches(Star(Class(k)), s) <==> forall i :: 0 <= i < |s| ==> InClass(k, s[i])
    decreases |s|
  {
    if s != "" {
      StarOfClass(k, s[1..]);
      assert Matches(Class(k), s[..1]) <==> InClass(k, s[0]);
    }
  }

  /** Which labels those are, character by character. */
  lemma LabelsExactly(s: string)
    ensures IsLabel(s) <==>
      && s != "" && s[0] != '-' && s[|s| - 1] != '-'
      && forall i :: 0 <= i < |s| ==> 'a' <= s[i] <= 'z' || 'A' <= s[i] <= 'Z' || '0' <= s[i] <= '9' || s[i] == '-'
  {
  }

  lemma LabelMatches(s: string)
    ensures Matches(LABEL, s) <==> IsLabel(s)
  {
    var inner := Cat(Star(Class(AlphanumericOrHyphen)), Class(Alphanumeric));
    OneThenRest(Alphanumeric, inner, s);
    if s != "" {
      var t := s[1..];
      RestThenOne(Star(Class(AlphanumericOrHyphen)), Alphanumeric, t);
      if t != "" {
        StarOfClass(AlphanumericOrHyphen, t[..|t| - 1]);
      }
    }
    assert Matches(LABEL, s) <==> Matches(Class(Alphanumeric), s) || Matches(Cat(Class(Alphanumeric), inner), s);
  }

  lemma LabelHasNoDot(s: string)
    requires IsLabel(s)
    ensures '.' !in s
  {
  }

  lemma SplitAtDot(a: string, b: string)
    requires '.' !in a
    ensures FirstDot(a + "." + b) == |a|
    ensures Split(a + "." + b) == [a] + Split(b)
  {
    var s := a + "." + b;
    assert s[|a|] == '.';
    assert s[..|a|] == a && s[|a| + 1..] == b;
    FirstDotUnique(s, |a|);
  }

  lemma FirstDotUnique(s: string, k: nat)
    requires k < |s| && s[k] == '.' && '.' !in s[..k]
    ensures FirstDot(s) == k
  {
    var i := FirstDot(s);
    assert forall j :: k < j <= |s| ==> s[..j][k] == '.';
    assert forall j :: 0 <= j < k ==> s[..k][j] == s[j];
  }

  predicate AllLabels(parts: seq<string>) {
    forall i :: 0 <= i < |parts| ==> IsLabel(parts[i])
  }

  lemma StarSplits(a: Regex, s: string) returns (i: nat)
    requires s != "" && Matches(Star(a), s)
    ensures 1 <= i <= |s| && Matches(a, s[..i]) && Matches(Star(a), s[i..])
  {
    i :| 1 <= i <= |s| && Matches(a, s[..i]) && Matches(Star(a), s[i..]);
  }

  lemma StarJoins(a: Regex, x: string, y: string)
    requires x != "" && Matches(a, x) && Matches(Star(a), y)
    ensures Matches(Star(a), x + y)
  {
    assert (x + y)[..|x|] == x && (x + y)[|x|..] == y;
  }

  lemma StarOfNothing(a: Regex)
    ensures Matches(Star(a), "")
  {
  }

  lemma DottedLabelMatches(s: string)
    ensures Matches(DOTTED_LABEL, s) <==> s != "" && IsLabel(s[..|s| - 1]) && s[|s| - 1] == '.'
  {
    hide Matches, LABEL, IsLabel;
    RestThenOne(LABEL, Dot, s);
    if s != "" {
      LabelMatches(s[..|s| - 1]);
    }
  }

  lemma AllLabelsCons(first: string, rest: seq<string>)
    ensures AllLabels([first] + rest) <==> IsLabel(first) && AllLabels(rest)
  {
    hide IsLabel;
    var parts := [first] + rest;
    if AllLabels(parts) {
      assert IsLabel(parts[0]);
      forall j | 0 <= j < |rest| ensures IsLabel(rest[j]) {
        assert parts[j + 1] == rest[j];
      }
    }
  }

  lemma AllLabelsOfSplit(s: string)
    ensures AllLabels(Split(s)) <==>
      var k := FirstDot(s); IsLabel(s[..k]) && (k < |s| ==> AllLabels(Split(s[k + 1..])))
  {
    hide IsLabel, FirstDot, AllLabels;
    var k := FirstDot(s);
    if k < |s| {
      AllLabelsCons(s[..k], Split(s[k + 1..]));
    } else {
      AllLabelsCons(s, []);
      assert [s] + [] == [s] && s[..k] == s;
      NoLabels();
    }
  }

  lemma NoLabels()
    ensures AllLabels([])
  {
  }

  /** A run of dotted labels in front of a last label. */
  lemma {:induction false} DottedThenLabel(u: string, v: string)
    requires Matches(Star(DOTTED_LABEL), u) && IsLabel(v)
    ensures AllLabels(Split(u + v))
    decreases |u|
  {
    hide Matches, DOTTED_LABEL, IsLabel, AllLabels, Split, FirstDot;
    if u == "" {
      assert u + v == v;
      LastLabel(v);
    } else {
      var i := StarSplits(DOTTED_LABEL, u);
      var head, rest := u[..i], u[i..];
      DottedLabelMatches(head);
      DottedThenLabel(rest, v);
      PrependLabel(head[..i - 1], rest + v);
      assert u + v == head[..i - 1] + "." + (rest + v);
    }
  }

  lemma LastLabel(v: string)
    requires IsLabel(v)
    ensures AllLabels(Split(v))
  {
    LabelHasNoDot(v);
    AllLabelsOfSplit(v);
    assert v[..|v|] == v;
  }

  lemma PrependLabel(first: string, s: string)
    requires IsLabel(first) && AllLabels(Split(s))
    ensures AllLabels(Split(first + "." + s))
  {
    hide IsLabel;
    LabelHasNoDot(first);
    SplitAtDot(first, s);
  }

  lemma {:induction false} LabelsMatch(s: string) returns (u: string, v: string)
    requires AllLabels(Split(s))
    ensures s == u + v && Matches(Star(DOTTED_LABEL), u) && IsLabel(v)
    decreases |s|
  {
    hide Matches, DOTTED_LABEL, IsLabel, AllLabels, Split;
    AllLabelsOfSplit(s);
    var k := FirstDot(s);
    if k == |s| {
      u, v := "", s;
      StarOfNothing(DOTTED_LABEL);
      assert s[..k] == s;
    } else {
      var w, x := LabelsMatch(s[k + 1..]);
      var head := s[..k + 1];
      assert head[..k] == s[..k];
      DottedLabelMatches(head);
      StarJoins(DOTTED_LABEL, head, w);
      u, v := head + w, x;
    }
  }

  /** The nested-star pattern is the check of the parts between dots. */
  lemma HostnamePatternExactly(s: string)
    ensures Matches(HOSTNAME_PATTERN, s) <==> AllLabels(Split(s))
  {
    hide DOTTED_LABEL, LABEL, IsLabel, AllLabels, Split;
    if Matches(HOSTNAME_PATTERN, s) {
      var i :| 0 <= i <= |s| && Matches(Star(DOTTED_LABEL), s[..i]) && Matches(LABEL, s[i..]);
      LabelMatches(s[i..]);
      DottedThenLabel(s[..i], s[i..]);
      assert s[..i] + s[i..] == s;
    }
    if AllLabels(Split(s)) {
      var u, v := LabelsMatch(s);
      LabelMatches(v);
      assert s[..|u|] == u && s[|u|..] == v;
    }
  }

  lemma {:induction false} LabelCharactersOnly(s: string)
    requires AllLabels(Split(s))
    ensures forall i :: 0 <= i < |s| ==> InClass(AlphanumericOrHyphen, s[i]) || s[i] == '.'
    decreases |s|
  {
    hide AllLabels, Split;
    var k := FirstDot(s);
    AllLabelsOfSplit(s);
    assert forall i :: 0 <= i < k ==> s[i] == s[..k][i];
    if k < |s| {
      var rest := s[k + 1..];
      LabelCharactersOnly(rest);
      assert forall i :: k < i < |s| ==> s[i] == rest[i - k - 1];
    }
  }

  /** `isHostname` accepts exactly the names of at most 32 characters whose dot-separated parts are labels. */
  lemma HostnameExactly(s: string)
    ensures IsHostname(s) <==> |s| <= 32 && AllLabels(Split(s))
  {
    hide Matches, Split, IsLabel;
    UpToMatches(32, NoLineBreak, s);
    HostnamePatternExactly(s);
    if AllLabels(Split(s)) {
      LabelCharactersOnly(s);
    }
  }

  // ---- IP addresses ----

  lemma OctetMatches(s: string)
    ensures Matches(OCTET, s) <==> IsOctet(s)
  {
    TwoFifty(s);
    TwoHundred(s);
    UpToTwoHundred(s);
    OctetCases(s);
  }

  function D(low: char, high: char): Regex { DigitClass(low, high) }

  lemma TwoFifty(s: string)
    ensures Matches(Cat(D('2', '2'), Cat(D('5', '5'), D('0', '5'))), s)
       <==> |s| == 3 && s[0] == '2' && s[1] == '5' && '0' <= s[2] <= '5'
  {
    ThreeDigits('2', '2', '5', '5', '0', '5', s);
  }

  lemma TwoHundred(s: string)
    ensures Matches(Cat(D('2', '2'), Cat(D('0', '4'), D('0', '9'))), s)
       <==> |s| == 3 && s[0] == '2' && '0' <= s[1] <= '4' && '0' <= s[2] <= '9'
  {
    ThreeDigits('2', '2', '0', '4', '0', '9', s);
  }

  lemma ThreeDigits(a: char, b: char, c: char, d: char, e: char, f: char, s: string)
    ensures Matches(Cat(D(a, b), Cat(D(c, d), D(e, f))), s)
       <==> |s| == 3 && a <= s[0] <= b && c <= s[1] <= d && e <= s[2] <= f
  {
    OneThenRest(Between(a, b), Cat(D(c, d), D(e, f)), s);
    if s != "" {
      OneThenRest(Between(c, d), D(e, f), s[1..]);
    }
  }

  lemma OptionalMatches(k: CharClass, s: string)
    ensures Matches(Optional(Class(k)), s) <==> s == "" || Matches(Class(k), s)
  {
    assert Matches(Empty, s) <==> s == "";
  }

  lemma OptionalThen(k: CharClass, r: Regex, s: string)
    ensures Matches(Cat(Optional(Class(k)), r), s) <==> Matches(r, s) || Matches(Cat(Class(k), r), s)
  {
    assert s[..0] == "" && s[0..] == s;
    var o := Optional(Class(k));
    if Matches(r, s) {
      assert Matches(o, s[..0]) && Matches(r, s[0..]);
    }
    forall i | 0 <= i <= |s| && Matches(o, s[..i]) && Matches(r, s[i..])
      ensures Matches(r, s) || Matches(Cat(Class(k), r), s)
    {
      OptionalMatches(k, s[..i]);
      if i == 0 {
        assert s[i..] == s;
      } else {
        assert Matches(Cat(Class(k), r), s);
      }
    }
    forall i | 0 <= i <= |s| && Matches(Class(k), s[..i]) && Matches(r, s[i..])
      ensures Matches(Cat(o, r), s)
    {
      assert Matches(o, s[..i]);
    }
  }

  lemma UpToTwoHundred(s: string)
    ensures Matches(Cat(Optional(D('0', '1')), Cat(D('0', '9'), Optional(D('0', '9')))), s)
       <==> OneOrTwoDigits(s) || (s != "" && '0' <= s[0] <= '1' && OneOrTwoDigits(s[1..]))
  {
    hide Matches;
    var tail := Cat(D('0', '9'), Optional(D('0', '9')));
    OptionalThen(Between('0', '1'), tail, s);
    OneThenRest(Between('0', '1'), tail, s);
    TailMatches(s);
    if s != "" {
      TailMatches(s[1..]);
    }
  }

  predicate OneOrTwoDigits(s: string) {
    1 <= |s| <= 2 && forall i :: 0 <= i < |s| ==> '0' <= s[i] <= '9'
  }

  lemma TailMatches(s: string)
    ensures Matches(Cat(D('0', '9'), Optional(D('0', '9'))), s) <==> OneOrTwoDigits(s)
  {
    OneThenRest(Between('0', '9'), Optional(D('0', '9')), s);
    if s != "" {
      var t := s[1..];
      assert Matches(Optional(D('0', '9')), t) <==> t == "" || (|t| == 1 && '0' <= t[0] <= '9');
    }
  }

  lemma ValueOfDigits(s: string)
    requires 1 <= |s| <= 3 && forall i :: 0 <= i < |s| ==> '0' <= s[i] <= '9'
    ensures |s| == 1 ==> Value(s) == s[0] as int - 48
    ensures |s| == 2 ==> Value(s) == (s[0] as int - 48) * 10 + s[1] as int - 48
    ensures |s| == 3 ==> Value(s) == ((s[0] as int - 48) * 10 + s[1] as int - 48) * 10 + s[2] as int - 48
  {
    assert s[..|s| - 1] == "" || s[..|s| - 1][..|s| - 2] == s[..|s| - 2];
    if |s| == 3 {
      assert s[..1][..0] == "";
    } else if |s| == 2 {
      assert s[..1][..0] == "";
    }
  }

  lemma OctetCases(s: string)
    ensures IsOctet(s) <==>
      || (|s| == 3 && s[0] == '2' && s[1] == '5' && '0' <= s[2] <= '5')
      || (|s| == 3 && s[0] == '2' && '0' <= s[1] <= '4' && '0' <= s[2] <= '9')
      || OneOrTwoDigits(s) || (s != "" && '0' <= s[0] <= '1' && OneOrTwoDigits(s[1..]))
  {
    hide Value;
    if 1 <= |s| <= 3 && forall i :: 0 <= i < |s| ==> '0' <= s[i] <= '9' {
      ValueOfDigits(s);
    }
  }

  lemma OctetHasNoDot(s: string)
    requires IsOctet(s)
    ensures '.' !in s
  {
  }

  /** An octet, a dot, and a rest: the dot is the first one. */
  lemma OctetDotRest(r: Regex, s: string)
    ensures Matches(Cat(OCTET, Cat(Class(Dot), r)), s)
       <==> '.' in s && IsOctet(s[..FirstDot(s)]) && Matches(r, s[FirstDot(s) + 1..])
  {
    var k := FirstDot(s);
    var dotted := Cat(Class(Dot), r);
    if k < |s| && IsOctet(s[..k]) && Matches(r, s[k + 1..]) {
      OctetMatches(s[..k]);
      OneThenRest(Dot, r, s[k..]);
      assert s[k..][1..] == s[k + 1..];
      assert Matches(OCTET, s[..k]) && Matches(dotted, s[k..]);
    }
    if Matches(Cat(OCTET, dotted), s) {
      var i :| 0 <= i <= |s| && Matches(OCTET, s[..i]) && Matches(dotted, s[i..]);
      OctetMatches(s[..i]);
      OctetHasNoDot(s[..i]);
      OneThenRest(Dot, r, s[i..]);
      assert s[i..][1..] == s[i + 1..];
      FirstDotUnique(s, i);
    }
  }

  predicate AllOctets(parts: seq<string>) {
    forall i :: 0 <= i < |parts| ==> IsOctet(parts[i])
  }

  lemma SplitHead(s: string)
    requires '.' in s
    ensures var rest := s[FirstDot(s) + 1..];
      && |Split(s)| == 1 + |Split(rest)|
      && (AllOctets(Split(s)) <==> IsOctet(s[..FirstDot(s)]) && AllOctets(Split(rest)))
  {
    hide IsOctet;
    var rest := s[FirstDot(s) + 1..];
    var parts := Split(s);
    assert parts == [s[..FirstDot(s)]] + Split(rest);
    if AllOctets(parts) {
      assert IsOctet(parts[0]);
      forall j | 0 <= j < |Split(rest)| ensures IsOctet(Split(rest)[j]) {
        assert Split(rest)[j] == parts[j + 1];
      }
    }
  }

  /** If `r` recognises n octets then an octet, a dot and `r` recognise n + 1. */
  lemma DottedOctets(n: nat, r: Regex, s: string)
    requires n > 0 && forall t :: Matches(r, t) <==> |Split(t)| == n && AllOctets(Split(t))
    ensures Matches(Cat(OCTET, Cat(Class(Dot), r)), s) <==> |Split(s)| == n + 1 && AllOctets(Split(s))
  {
    hide Matches, IsOctet, OCTET, Split, AllOctets;
    OctetDotRest(r, s);
    SplitCount(s);
    if '.' in s {
      SplitHead(s);
    }
  }

  lemma OneOctet(s: string)
    ensures Matches(OCTET, s) <==> |Split(s)| == 1 && AllOctets(Split(s))
  {
    hide Matches, OCTET;
    OctetMatches(s);
    SplitCount(s);
    if IsOctet(s) {
      OctetHasNoDot(s);
    }
    if '.' !in s {
      assert FirstDot(s) == |s|;
      assert Split(s)[0] == s;
    }
  }

  lemma SplitCount(s: string)
    ensures |Split(s)| > 1 <==> '.' in s
  {
  }

  /** `isIP` accepts exactly four dot-separated runs of one to three digits, each of value at most 255. */
  lemma IPExactly(s: string)
    ensures IsIP(s) <==> |Split(s)| == 4 && AllOctets(Split(s))
  {
    hide Matches, OCTET, Split, AllOctets;
    var r1 := OCTET;
    forall t ensures Matches(r1, t) <==> |Split(t)| == 1 && AllOctets(Split(t)) { OneOctet(t); }
    var r2 := Cat(OCTET, Cat(Class(Dot), r1));
    forall t ensures Matches(r2, t) <==> |Split(t)| == 2 && AllOctets(Split(t)) { DottedOctets(1, r1, t); }
    var r3 := Cat(OCTET, Cat(Class(Dot), r2));
    forall t ensures Matches(r3, t) <==> |Split(t)| == 3 && AllOctets(Split(t)) { DottedOctets(2, r2, t); }
    DottedOctets(3, r3, s);
  }
}
