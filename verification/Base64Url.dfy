/** Unpadded base64url (RFC 4648 sections 4 and 5) as the token handler produces and reads it. */
module Base64Url {
  import opened Wrappers
  import opened Text

  type Sextet = v: nat | v < 64

  /** The base 64 alphabet, RFC 4648 table 1. */
  function Symbol(v: Sextet): Octet {
    if v < 26 then 'A' + v as char
    else if v < 52 then 'a' + (v - 26) as char
    else if v < 62 then '0' + (v - 52) as char
    else if v == 62 then '+' else '/'
  }

  function SymbolValue(c: Octet): (r: Option<Sextet>)
    ensures r.Some? ==> Symbol(r.value) == c
  {
    if 'A' <= c <= 'Z' then Some(c as int - 'A' as int)
    else if 'a' <= c <= 'z' then Some(c as int - 'a' as int + 26)
    else if '0' <= c <= '9' then Some(c as int - '0' as int + 52)
    else if c == '+' then Some(62)
    else if c == '/' then Some(63)
    else None
  }

  function Symbols(vs: seq<Sextet>): (s: Text)
    ensures |s| == |vs|
    ensures forall i :: 0 <= i < |vs| ==> s[i] == Symbol(vs[i])
  {
    seq(|vs|, i requires 0 <= i < |vs| => Symbol(vs[i]))
  }

  /** The 6-bit groups of the bytes `b`, the last one filled up with zero bits. */
  function Sextets(b: Text): (vs: seq<Sextet>)
    ensures |vs| == |b| + (|b| + 2) / 3
  {
    if |b| >= 3 then Quartet(b[0], b[1], b[2]) + Sextets(b[3..])
    else if |b| == 2 then Quartet(b[0], b[1], NUL)[..3]
    else if |b| == 1 then Quartet(b[0], NUL, NUL)[..2]
    else []
  }

  /** Three bytes regrouped as four 6-bit values. */
  function Quartet(c: Octet, d: Octet, e: Octet): (vs: seq<Sextet>)
    ensures |vs| == 4
  {
    var x, y, z := c as int, d as int, e as int;
    [x / 4, x % 4 * 16 + y / 16, y % 16 * 4 + z / 64, z % 64]
  }

  function Padding(n: nat): Text {
    if n % 3 == 0 then "" else if n % 3 == 1 then "==" else "="
  }

  /** Standard, padded base64 (RFC 4648 section 4). */
  function Standard(b: Text): Text {
    Symbols(Sextets(b)) + Padding(|b|)
  }

  /** What `ArduinoJsonJWT::encode` returns when its allocation succeeds. */
  function UrlEncode(b: Text): Text {
    Replace(Replace(Symbols(Sextets(b)), '+', '-'), '/', '_')
  }

  /** What `encode` returns in any case. */
  function Encoded(b: Text, heap: bool): Text {
    if heap then UrlEncode(b) else ""
  }

  /** The values of the alphabet characters of `s`; every other character is skipped. */
  function Values(s: Text): seq<Sextet> {
    if s == [] then []
    else
      var v := SymbolValue(s[0]);
      (if v.Some? then [v.value] else []) + Values(s[1..])
  }

  /** The whole bytes held by a stream of 6-bit groups. */
  function Bytes(vs: seq<Sextet>): Text {
    if |vs| >= 4 then [Byte(1, vs[0], vs[1]), Byte(2, vs[1], vs[2]), Byte(3, vs[2], vs[3])] + Bytes(vs[4..])
    else if |vs| == 3 then [Byte(1, vs[0], vs[1]), Byte(2, vs[1], vs[2])]
    else if |vs| == 2 then [Byte(1, vs[0], vs[1])]
    else []
  }

  /** The byte completed by `next` when it is group `step` (0..3) of its quartet and follows `previous`. */
  function Byte(step: nat, previous: Sextet, next: Sextet): Octet
    requires 1 <= step <= 3
  {
    if step == 1 then (previous * 4 + next / 16) as char
    else if step == 2 then (previous % 16 * 16 + next / 4) as char
    else (previous % 4 * 64 + next) as char
  }

  /** What `ArduinoJsonJWT::decode` returns: the bytes, read back as a C string. */
  function UrlDecode(s: Text): Text {
    CString(Bytes(Values(Replace(Replace(s, '-', '+'), '_', '/'))))
  }

  // ---- the encoding is the one of the standard: the big-endian number is kept ----

  /** The bytes `b` read as one big-endian number. */
  function ByteNumber(b: Text): nat {
    if b == [] then 0 else ByteNumber(b[..|b| - 1]) * 256 + b[|b| - 1] as int
  }

  /** The 6-bit groups `vs` read as one big-endian number. */
  function SextetNumber(vs: seq<Sextet>): nat {
    if vs == [] then 0 else SextetNumber(vs[..|vs| - 1]) * 64 + vs[|vs| - 1]
  }

  /** The factor by which zero bits filling up the last group scale the number. */
  function FillFactor(n: nat): nat {
    if n % 3 == 0 then 1 else if n % 3 == 1 then 16 else 4
  }

  lemma QuartetNumber(us: seq<Sextet>, vs: seq<Sextet>)
    requires |vs| == 4
    ensures SextetNumber(us + vs) == (((SextetNumber(us) * 64 + vs[0]) * 64 + vs[1]) * 64 + vs[2]) * 64 + vs[3]
  {
    PairNumber(us, vs[0], vs[1]);
    PairNumber(us + [vs[0], vs[1]], vs[2], vs[3]);
    assert us + vs == us + [vs[0], vs[1]] + [vs[2], vs[3]];
  }

  lemma PairNumber(us: seq<Sextet>, v: Sextet, w: Sextet)
    ensures SextetNumber(us + [v, w]) == (SextetNumber(us) * 64 + v) * 64 + w
  {
    assert (us + [v, w])[..|us| + 1] == us + [v];
    assert (us + [v])[..|us|] == us;
  }

  lemma TripleNumber(a: Text, c: Octet, d: Octet, e: Octet)
    ensures ByteNumber(a + [c, d, e]) == ((ByteNumber(a) * 256 + c as int) * 256 + d as int) * 256 + e as int
  {
    assert a + [c, d, e] == a + [c] + [d] + [e];
    ByteNumberOfExtended(a, c);
    ByteNumberOfExtended(a + [c], d);
    ByteNumberOfExtended(a + [c] + [d], e);
  }

  lemma ByteNumberOfExtended(a: Text, c: Octet)
    ensures ByteNumber(a + [c]) == ByteNumber(a) * 256 + c as int
  {
    assert (a + [c])[..|a|] == a;
  }

  lemma GroupNumber(a: Text, c: Octet, d: Octet, e: Octet)
    requires SextetNumber(Sextets(a)) == ByteNumber(a)
    ensures SextetNumber(Sextets(a) + Quartet(c, d, e)) == ByteNumber(a + [c, d, e])
  {
    QuartetNumber(Sextets(a), Quartet(c, d, e));
    TripleNumber(a, c, d, e);
  }

  /** A last short group is the full group with zero bytes, cut after the groups that hold data. */
  lemma FillWithZero(b: Text)
    requires |b| % 3 != 0
    ensures SextetNumber(Sextets(b)) == ByteNumber(b) * FillFactor(|b|)
  {
    hide Sextets, ByteNumber, SextetNumber;
    var a, g := b[..|b| - |b| % 3], b[|b| - |b| % 3..];
    assert b == a + g;
    SextetsOfAppended(a, g);
    WholeGroups(a);
    if |g| == 1 {
      OneByteNumber(a, g[0]);
      assert b == a + [g[0]];
    } else {
      TwoByteNumber(a, g[0], g[1]);
      assert b == a + [g[0], g[1]];
    }
  }

  lemma OneByteNumber(a: Text, c: Octet)
    requires SextetNumber(Sextets(a)) == ByteNumber(a)
    ensures SextetNumber(Sextets(a) + Sextets([c])) == ByteNumber(a + [c]) * 16
  {
    var q := Quartet(c, NUL, NUL);
    assert Sextets([c]) == [q[0], q[1]];
    PairNumber(Sextets(a), q[0], q[1]);
    assert (a + [c])[..|a|] == a;
  }

  lemma TwoByteNumber(a: Text, c: Octet, d: Octet)
    requires SextetNumber(Sextets(a)) == ByteNumber(a)
    ensures SextetNumber(Sextets(a) + Sextets([c, d])) == ByteNumber(a + [c, d]) * 4
  {
    var q := Quartet(c, d, NUL);
    var us := Sextets(a);
    PairNumber(us, q[0], q[1]);
    var all := us + Sextets([c, d]);
    assert all[..|us| + 2] == us + [q[0], q[1]];
    assert (a + [c, d])[..|a| + 1] == a + [c];
    assert (a + [c])[..|a|] == a;
  }

  lemma {:induction false} WholeGroups(b: Text)
    requires |b| % 3 == 0
    ensures SextetNumber(Sextets(b)) == ByteNumber(b)
    decreases |b|
  {
    if b != [] {
      var a, g := b[..|b| - 3], b[|b| - 3..];
      WholeGroups(a);
      assert b == a + g;
      SextetsOfAppended(a, g);
      GroupNumber(a, g[0], g[1], g[2]);
      assert Sextets(g) == Quartet(g[0], g[1], g[2]);
      assert g == [g[0], g[1], g[2]];
    }
  }

  /** The encoding is the one of the standard: both sides are the same big-endian bit stream. */
  lemma EncodingKeepsNumber(b: Text)
    ensures SextetNumber(Sextets(b)) == ByteNumber(b) * FillFactor(|b|)
  {
    if |b| % 3 == 0 {
      WholeGroups(b);
    } else {
      FillWithZero(b);
    }
  }

  // ---- round trip ----

  lemma SwapsUndoEachOther(vs: seq<Sextet>)
    ensures Replace(Replace(Replace(Replace(Symbols(vs), '+', '-'), '/', '_'), '-', '+'), '_', '/') == Symbols(vs)
  {
  }

  lemma {:induction false} ValuesOfSymbols(vs: seq<Sextet>)
    ensures Values(Symbols(vs)) == vs
  {
    if vs != [] {
      ValuesOfSymbols(vs[1..]);
      assert Symbols(vs)[1..] == Symbols(vs[1..]);
      assert SymbolValue(Symbol(vs[0])) == Some(vs[0]);
    }
  }

  lemma QuartetBytes(c: Octet, d: Octet, e: Octet)
    ensures var q := Quartet(c, d, e); Byte(1, q[0], q[1]) == c && Byte(2, q[1], q[2]) == d && Byte(3, q[2], q[3]) == e
  {
  }

  lemma {:induction false} BytesOfSextets(b: Text)
    ensures Bytes(Sextets(b)) == b
  {
    hide Byte, Quartet;
    if |b| >= 3 {
      BytesOfSextets(b[3..]);
      QuartetBytes(b[0], b[1], b[2]);
      assert Sextets(b)[4..] == Sextets(b[3..]);
      assert b == [b[0], b[1], b[2]] + b[3..];
    } else if |b| == 2 {
      QuartetBytes(b[0], b[1], NUL);
    } else if |b| == 1 {
      QuartetBytes(b[0], NUL, NUL);
    }
  }

  /** Decoding gives back the bytes up to their first NUL: all of them exactly when they hold no NUL. */
  lemma DecodeUndoesEncode(b: Text)
    ensures UrlDecode(UrlEncode(b)) == CString(b)
    ensures UrlDecode(UrlEncode(b)) == b <==> NUL !in b
  {
    SwapsUndoEachOther(Sextets(b));
    ValuesOfSymbols(Sextets(b));
    BytesOfSextets(b);
  }

  lemma EncodingIsInjective(b: Text, c: Text)
    requires UrlEncode(b) == UrlEncode(c)
    ensures b == c
  {
    SwapsUndoEachOther(Sextets(b));
    SwapsUndoEachOther(Sextets(c));
    ValuesOfSymbols(Sextets(b));
    ValuesOfSymbols(Sextets(c));
    BytesOfSextets(b);
    BytesOfSextets(c);
  }

  /** The text is safe between the dots of a token, and its length is the unpadded one. */
  lemma EncodedAlphabet(b: Text)
    ensures |UrlEncode(b)| == |b| + (|b| + 2) / 3
    ensures forall c :: c in UrlEncode(b) ==> ('A' <= c <= 'Z' || 'a' <= c <= 'z' || IsDigit(c) || c == '-' || c == '_')
    ensures '.' !in UrlEncode(b) && '=' !in UrlEncode(b) && NUL !in UrlEncode(b)
  {
  }

  /** One letter of the URL-safe alphabet. */
  function UrlSymbol(v: Sextet): Octet {
    ReplaceByte(ReplaceByte(Symbol(v), '+', '-'), '/', '_')
  }

  /** Every whole group of three bytes is encoded as its four letters, whatever comes before and after. */
  lemma {:induction false} EncodedGroup(b: Text, k: nat, j: nat)
    requires 3 * k + 3 <= |b| && j < 4
    ensures 4 * k + j < |UrlEncode(b)|
    ensures UrlEncode(b)[4 * k + j] == UrlSymbol(Quartet(b[3 * k], b[3 * k + 1], b[3 * k + 2])[j])
  {
    hide Symbol, Quartet;
    assert Sextets(b) == Quartet(b[0], b[1], b[2]) + Sextets(b[3..]);
    if k > 0 {
      EncodedGroup(b[3..], k - 1, j);
      assert Sextets(b)[4 * k + j] == Sextets(b[3..])[4 * (k - 1) + j];
    }
  }

  // ---- the two buffer-filling operations ----

  /** `base64_encode_expected_len`: four characters for every started group of three bytes. */
  function ExpectedEncodedLength(n: nat): nat {
    var m := 4 * n / 3 + 3;
    m - m % 4
  }

  function ExpectedDecodedLength(n: nat): nat {
    n * 3 / 4
  }

  lemma PaddedLength(n: nat)
    ensures n + (n + 2) / 3 + |Padding(n)| == ExpectedEncodedLength(n)
  {
    var k, r := n / 3, n % 3;
    assert n == 3 * k + r;
    assert 4 * n / 3 == 4 * k + r;
    assert (4 * k + r + 3) - (4 * k + r + 3) % 4 == if r == 0 then 4 * k else 4 * k + 4;
  }

  /** The padded encoding has exactly the length the buffer is allocated for. */
  lemma StandardFitsBuffer(b: Text)
    ensures |Standard(b)| == ExpectedEncodedLength(|b|)
  {
    hide Sextets, Symbol, ExpectedEncodedLength, Padding;
    PaddedLength(|b|);
  }

  lemma {:induction false} SextetsOfAppended(a: Text, g: Text)
    requires |a| % 3 == 0
    ensures Sextets(a + g) == Sextets(a) + Sextets(g)
  {
    hide Quartet;
    if a == [] {
      assert a + g == g;
    } else {
      SextetsOfAppended(a[3..], g);
      assert (a + g)[3..] == a[3..] + g;
      var q := Quartet(a[0], a[1], a[2]);
      assert q + (Sextets(a[3..]) + Sextets(g)) == q + Sextets(a[3..]) + Sextets(g);
    }
  }

  /** The byte that a further group `v` completes. */
  function CompletedByte(vs: seq<Sextet>, v: Sextet): Text {
    if |vs| % 4 == 0 then [] else [Byte(|vs| % 4, vs[|vs| - 1], v)]
  }

  lemma {:induction false} BytesOfExtended(vs: seq<Sextet>, v: Sextet)
    ensures Bytes(vs + [v]) == Bytes(vs) + CompletedByte(vs, v)
  {
    hide Byte;
    var us := vs + [v];
    if |vs| >= 4 {
      BytesOfExtended(vs[4..], v);
      assert us[4..] == vs[4..] + [v];
      assert |vs| % 4 == |vs[4..]| % 4;
      assert CompletedByte(vs, v) == CompletedByte(vs[4..], v);
    } else if |vs| == 3 {
      assert us[4..] == [];
    }
  }

  lemma {:induction false} BytesLength(vs: seq<Sextet>)
    ensures |Bytes(vs)| == 3 * |vs| / 4
  {
    hide Byte;
    if |vs| >= 4 {
      BytesLength(vs[4..]);
    }
  }

  lemma {:induction false} ValuesLength(s: Text)
    ensures |Values(s)| <= |s|
  {
    hide SymbolValue;
    if s != [] {
      ValuesLength(s[1..]);
    }
  }

  lemma {:induction false} ValuesOfExtended(s: Text, c: Octet)
    ensures Values(s + [c]) == Values(s) + if SymbolValue(c).Some? then [SymbolValue(c).value] else []
  {
    if s == [] {
      assert s + [c] == [c];
    } else {
      ValuesOfExtended(s[1..], c);
      assert (s + [c])[1..] == s[1..] + [c];
    }
  }

  lemma GroupFits(n: nat, groups: nat)
    requires 3 * groups <= n
    ensures 4 * groups <= ExpectedEncodedLength(n)
    ensures n % 3 != 0 && n / 3 == groups ==> ExpectedEncodedLength(n) == 4 * groups + 4
    ensures n == 3 * groups ==> ExpectedEncodedLength(n) == 4 * groups
  {
  }

  lemma StandardOfGroups(b: Text, groups: nat)
    requires 3 * groups <= |b| < 3 * groups + 3
    ensures Standard(b) == Symbols(Sextets(b[..3 * groups])) + Symbols(Sextets(b[3 * groups..]))
        + Padding(|b| - 3 * groups)
    ensures |Standard(b)| == ExpectedEncodedLength(|b|)
  {
    hide Sextets, Symbol, ExpectedEncodedLength;
    StandardFitsBuffer(b);
    var a, g := b[..3 * groups], b[3 * groups..];
    assert a + g == b;
    SextetsOfAppended(a, g);
    SymbolsConcat(Sextets(a), Sextets(g));
  }

  lemma SymbolsConcat(us: seq<Sextet>, vs: seq<Sextet>)
    ensures Symbols(us + vs) == Symbols(us) + Symbols(vs)
  {
  }

  lemma StandardShape(b: Text)
    ensures var symbols := Symbols(Sextets(b)); var padded := Standard(b);
      && '=' !in symbols && symbols <= padded && CString(padded) == padded
      && forall i :: |symbols| <= i < |padded| ==> padded[i] == '='
  {
    assert NUL !in Standard(b);
  }

  /** `base64_encode_block` and `base64_encode_blockend`: fill `buffer` with the padded encoding. */
  method EncodeInto(input: Text, buffer: array<Octet>) returns (len: nat)
    requires buffer.Length > ExpectedEncodedLength(|input|)
    modifies buffer
    ensures len == ExpectedEncodedLength(|input|)
    ensures buffer[..len] == Standard(input)
  {
    hide Quartet, Symbol, Sextets, ExpectedEncodedLength, Standard, Padding;
    len := 0;
    var i := 0;
    ghost var groups := 0;
    assert input[..0] == [];
    assert Sextets([]) == [] by { assert |Sextets([])| == 0; }
    while i + 3 <= |input|
      invariant i == 3 * groups <= |input| && len == 4 * groups < buffer.Length
      invariant buffer[..len] == Symbols(Sextets(input[..i]))
    {
      var g := input[i..i + 3];
      GroupFits(|input|, groups + 1);
      SextetsOfAppended(input[..i], g);
      SymbolsConcat(Sextets(input[..i]), Sextets(g));
      assert input[..i] + g == input[..i + 3];
      assert input[..i + 3] == input[..3 * (groups + 1)];
      WriteSymbols(Sextets(g), buffer, len);
      i, len, groups := i + 3, len + 4, groups + 1;
    }
    var g := input[i..];
    StandardOfGroups(input, groups);
    WriteSymbols(Sextets(g), buffer, len);
    len := WritePadding(|g|, buffer, len + |Sextets(g)|);
  }

  method WritePadding(rest: nat, buffer: array<Octet>, at: nat) returns (len: nat)
    requires rest < 3 && at + |Padding(rest)| <= buffer.Length
    modifies buffer
    ensures len == at + |Padding(rest)| && buffer[..len] == old(buffer[..at]) + Padding(rest)
  {
    len := at;
    if rest == 1 {
      buffer[len], buffer[len + 1] := '=', '=';
      len := len + 2;
    } else if rest == 2 {
      buffer[len] := '=';
      len := len + 1;
    }
  }

  method WriteSymbols(vs: seq<Sextet>, buffer: array<Octet>, at: nat)
    requires at + |vs| <= buffer.Length
    modifies buffer
    ensures buffer[..at + |vs|] == old(buffer[..at]) + Symbols(vs)
  {
    hide Symbol;
    for k := 0 to |vs|
      invariant buffer[..at + k] == old(buffer[..at]) + Symbols(vs)[..k]
    {
      buffer[at + k] := Symbol(vs[k]);
    }
  }

  /** `ArduinoJsonJWT::encode`; `heap` says whether the allocation succeeds. */
  method Encode(input: Text, heap: bool) returns (value: Text)
    ensures value == Encoded(input, heap)
  {
    hide Symbol, Sextets, ExpectedEncodedLength, Standard;
    if !heap {
      return "";
    }
    var buffer := new Octet[ExpectedEncodedLength(|input|) + 1];
    var len := EncodeInto(input, buffer);
    buffer[len] := NUL;
    assert buffer[..len] == Standard(input);
    CStringOfTerminated(Standard(input), buffer[..]);
    value := CString(buffer[..]);
    StandardShape(input);
    value := StripPadding(Symbols(Sextets(input)), value);
    value := Replace(value, '+', '-');
    value := Replace(value, '/', '_');
  }

  /** The loop that removes trailing `=` characters. */
  method StripPadding(ghost symbols: Text, padded: Text) returns (value: Text)
    requires '=' !in symbols && symbols <= padded
    requires forall i :: |symbols| <= i < |padded| ==> padded[i] == '='
    ensures value == symbols
  {
    value := padded;
    while |value| > 0 && value[|value| - 1] == '='
      invariant |symbols| <= |value| <= |padded|
      invariant value == padded[..|value|]
    {
      value := value[..|value| - 1];
    }
  }

  lemma DecodedPrefixFits(value: Text, i: nat)
    requires i <= |value|
    ensures |Bytes(Values(value[..i]))| <= ExpectedDecodedLength(|value|)
  {
    ValuesLength(value[..i]);
    BytesLength(Values(value[..i]));
  }

  /** `base64_decode_chars`: write the decoded bytes, staying inside the expected length. */
  method DecodeInto(value: Text, buffer: array<Octet>) returns (len: nat)
    requires buffer.Length > ExpectedDecodedLength(|value|)
    modifies buffer
    ensures len <= ExpectedDecodedLength(|value|)
    ensures buffer[..len] == Bytes(Values(value))
  {
    hide Byte, Bytes, SymbolValue, Values, ExpectedDecodedLength;
    len := 0;
    var step: nat, previous: Sextet := 0, 0;
    ghost var seen: seq<Sextet> := [];
    BytesLength(seen);
    ValuesLength(value[..0]);
    DecodedPrefixFits(value, 0);
    for i := 0 to |value|
      invariant seen == Values(value[..i])
      invariant step == |seen| % 4 && (seen != [] ==> previous == seen[|seen| - 1])
      invariant len < buffer.Length && buffer[..len] == Bytes(seen)
    {
      ValuesOfExtended(value[..i], value[i]);
      assert value[..i] + [value[i]] == value[..i + 1];
      DecodedPrefixFits(value, i + 1);
      var v := SymbolValue(value[i]);
      if v.Some? {
        BytesOfExtended(seen, v.value);
        if step > 0 {
          buffer[len] := Byte(step, previous, v.value);
          len := len + 1;
        }
        seen := seen + [v.value];
        step, previous := (step + 1) % 4, v.value;
      }
    }
    assert value[..|value|] == value;
    DecodedPrefixFits(value, |value|);
  }

  /** `ArduinoJsonJWT::decode`. */
  method Decode(value: Text) returns (r: Text)
    ensures r == UrlDecode(value)
  {
    var text := Replace(value, '-', '+');
    text := Replace(text, '_', '/');
    var buffer := new Octet[ExpectedDecodedLength(|text|) + 1];
    var len := DecodeInto(text, buffer);
    ghost var bytes := Bytes(Values(text));
    buffer[len] := NUL;
    assert buffer[..len] == bytes;
    CStringOfTerminated(bytes, buffer[..]);
    r := CString(buffer[..]);
  }

  /** Whatever follows the terminator is not read. */
  lemma CStringOfTerminated(b: Text, memory: Text)
    requires |b| < |memory| && memory[..|b|] == b && memory[|b|] == NUL
    ensures CString(memory) == CString(b)
  {
    if NUL in b {
      var j := IndexOf(b, NUL);
      assert memory == memory[..j] + [NUL] + memory[j + 1..];
      assert memory[..j] == b[..j];
      SplitAtFirst(memory[..j], memory[j + 1..], NUL);
    } else {
      assert memory == b + [NUL] + memory[|b| + 1..];
      SplitAtFirst(b, memory[|b| + 1..], NUL);
    }
  }
}
