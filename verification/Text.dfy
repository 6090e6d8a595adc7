/** Byte strings as the firmware's `String`, `char*` and the recognisers use them. */
module Text {

  /** One byte, shown as the character with that code. */
  type Octet = c: char | c < 256 as char witness 'D'

  type Text = seq<Octet>

  const NUL: Octet := '\0'

  /** The first position of `c`, or -1. */
  function IndexOf(s: Text, c: Octet): (i: int)
    ensures -1 <= i < |s|
    ensures i == -1 <==> c !in s
    ensures i >= 0 ==> s[i] == c && c !in s[..i]
  {
    if s == [] then -1
    else if s[0] == c then 0
    else
      var rest := IndexOf(s[1..], c);
      if rest == -1 then -1 else
        assert s[..rest + 1] == [s[0]] + s[1..][..rest];
        rest + 1
  }

  /** The last position of `c`, or -1. */
  function LastIndexOf(s: Text, c: Octet): (i: int)
    ensures -1 <= i < |s|
    ensures i == -1 <==> c !in s
    ensures i >= 0 ==> s[i] == c && c !in s[i + 1..]
  {
    if s == [] then -1
    else if s[|s| - 1] == c then |s| - 1
    else
      var front := LastIndexOf(s[..|s| - 1], c);
      if front == -1 then -1 else
        assert s[front + 1..] == s[..|s| - 1][front + 1..] + [s[|s| - 1]];
        front
  }

  /** What a NUL-terminated read of the bytes `s` sees: everything before the first NUL. */
  function CString(s: Text): (r: Text)
    ensures r <= s && '\0' !in r
    ensures |r| < |s| ==> s[|r|] == '\0'
    ensures r == s <==> NUL !in s
  {
    var i := IndexOf(s, NUL);
    if i == -1 then s else s[..i]
  }

  function ReplaceByte(c: Octet, from: Octet, to: Octet): Octet {
    if c == from then to else c
  }

  /** `String::replace(from, to)` for single characters. */
  function Replace(s: Text, from: Octet, to: Octet): (r: Text)
    ensures |r| == |s|
    ensures forall i :: 0 <= i < |s| ==> r[i] == ReplaceByte(s[i], from, to)
  {
    seq(|s|, i requires 0 <= i < |s| => ReplaceByte(s[i], from, to))
  }

  /** The split of `s` around a byte that occurs neither before nor after the split point is unique. */
  lemma SplitAtFirst(a: Text, b: Text, c: Octet)
    requires c !in a
    ensures IndexOf(a + [c] + b, c) == |a|
  {
    var s := a + [c] + b;
    assert s[|a|] == c;
    assert s[..|a|] == a;
  }

  lemma SplitAtLast(a: Text, b: Text, c: Octet)
    requires c !in b
    ensures LastIndexOf(a + [c] + b, c) == |a|
  {
    var s := a + [c] + b;
    assert s[|a|] == c;
    assert s[|a| + 1..] == b;
  }

  predicate IsDigit(c: Octet) { '0' <= c <= '9' }

  function Digit(d: nat): Octet
    requires d < 10
  {
    '0' + d as char
  }

  function DigitValue(c: Octet): nat
    requires IsDigit(c)
  {
    c as int - '0' as int
  }

  /** `%lu` */
  function Decimal(n: nat): (s: Text)
    ensures |s| > 0 && forall c :: c in s ==> IsDigit(c)
    ensures n > 0 ==> s[0] != '0'
    ensures n == 0 ==> s == "0"
  {
    if n < 10 then [Digit(n)] else Decimal(n / 10) + [Digit(n % 10)]
  }

  /** A 32-bit value prints in at most ten digits. */
  lemma DecimalLength(n: nat)
    requires n < 0x1_0000_0000
    ensures |Decimal(n)| <= 10
  {
    var a := n / 10; var b := a / 10; var c := b / 10; var d := c / 10; var e := d / 10;
    var f := e / 10; var g := f / 10; var h := g / 10;
    assert h / 10 < 10;
    assert |Decimal(h)| <= 2;
    assert |Decimal(g)| <= 3; assert |Decimal(f)| <= 4; assert |Decimal(e)| <= 5;
    assert |Decimal(d)| <= 6; assert |Decimal(c)| <= 7; assert |Decimal(b)| <= 8;
    assert |Decimal(a)| <= 9;
  }
}
