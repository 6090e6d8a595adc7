/** Compact tokens (RFC 7515 section 7.1): building, parsing, and finding the user one stands for. */
module Token {
  import opened Wrappers
  import opened Text
  import opened Json
  import opened Base64Url

  /** The fixed header `{"alg":"HS256","typ":"JWT"}`, already encoded. */
  const HEADER: Text := "eyJhbGciOiJIUzI1NiIsInR5cCI6IkpXVCJ9"

  const HEADER_SIZE: nat := 36

  const DIGEST_SIZE: nat := 32

  type Digest = d: Text | |d| == DIGEST_SIZE witness seq(DIGEST_SIZE, _ => NUL)

  /** A secret together with the keyed hash it is used with (HMAC-SHA256 in the firmware). */
  datatype Key = Key(hmac: (Text, Text) -> Digest, secret: Text)

  /** The signature, or nothing if `encode` cannot allocate its buffer. */
  function Sign(k: Key, input: Text, heap: bool): Text {
    Encoded(k.hmac(k.secret, input), heap)
  }

  /** Header and payload part: the text that is signed. */
  function SigningInput(payload: Text): Text {
    HEADER + ['.'] + payload
  }

  /** The token whose payload part is `payload`, with the signature as it comes out of `Sign`. */
  function Signed(k: Key, payload: Text, heap: bool): Text {
    SigningInput(payload) + ['.'] + Sign(k, SigningInput(payload), heap)
  }

  /** `buildJWT`, given which of its two encodings can allocate. */
  function BuildToken(k: Key, ms: seq<Member>, payloadHeap: bool, heap: bool): Text {
    Signed(k, Encoded(Print(ms), payloadHeap), heap)
  }

  /** What `parseJWT` leaves in the document, given whether signing can allocate. */
  function ParseToken(k: Key, jwt: Text, heap: bool): Document {
    if !(HEADER <= jwt) || IndexOf(jwt, '.') != HEADER_SIZE then Null
    else
      var d := LastIndexOf(jwt, '.');
      if d == HEADER_SIZE then Null
      else if Sign(k, jwt[..d], heap) != jwt[d + 1..] then Null
      else ObjectOrNull(UrlDecode(jwt[..d][HEADER_SIZE + 1..]))
  }

  function ObjectOrNull(json: Text): Document {
    var r := Parse(json);
    if r.Some? && r.value.Object? then r.value else Null
  }

  lemma HeaderShape()
    ensures |HEADER| == HEADER_SIZE && '.' !in HEADER
  {
  }

  /** What the fixed header says. */
  const HEADER_JSON: Text := "{\"alg\":\"HS256\",\"typ\":\"JWT\"}"

  /** The fixed header is the encoding of its JSON text. */
  lemma HeaderIsEncodedJson()
    ensures UrlEncode(HEADER_JSON) == HEADER
  {
    hide UrlEncode, UrlSymbol, Quartet;
    EncodedAlphabet(HEADER_JSON);
    assert |HEADER_JSON| == 27 && |HEADER| == 36;
    forall i | 0 <= i < HEADER_SIZE ensures UrlEncode(HEADER_JSON)[i] == HEADER[i] {
      var k, j := i / 4, i % 4;
      EncodedGroup(HEADER_JSON, k, j);
      HeaderGroup(HEADER_JSON, HEADER, k, j);
    }
  }

  /** The four letters for three bytes. */
  function Letters(c: Octet, d: Octet, e: Octet): (w: Text)
    ensures |w| == 4 && forall j :: 0 <= j < 4 ==> w[j] == UrlSymbol(Quartet(c, d, e)[j])
  {
    var q := Quartet(c, d, e);
    [UrlSymbol(q[0]), UrlSymbol(q[1]), UrlSymbol(q[2]), UrlSymbol(q[3])]
  }

  /** One letter of the header is the one for its three bytes of the text. */
  predicate LetterFits(text: Text, header: Text, k: nat, j: nat)
    requires |text| == 27 && |header| == 36 && k < 9 && j < 4
  {
    header[4 * k + j] == Letters(text[3 * k], text[3 * k + 1], text[3 * k + 2])[j]
  }

  lemma HeaderGroup(text: Text, header: Text, k: nat, j: nat)
    requires text == HEADER_JSON && header == HEADER && k < 9 && j < 4
    ensures |text| == 27 && |header| == 36
    ensures header[4 * k + j] == UrlSymbol(Quartet(text[3 * k], text[3 * k + 1], text[3 * k + 2])[j])
  {
    hide UrlSymbol, Quartet, Letters;
    assert |text| == 27 && |header| == 36;
    assert LetterFits(text, header, k, j) by {
      hide LetterFits;
      if k < 3 {
        StartFits(text, header, k, j);
      } else if k < 6 {
        MiddleFits(text, header, k, j);
      } else {
        EndFits(text, header, k, j);
      }
    }
  }

  lemma StartFits(text: Text, header: Text, k: nat, j: nat)
    requires text == HEADER_JSON && header == HEADER && k < 3 && j < 4
    ensures |text| == 27 && |header| == 36 && LetterFits(text, header, k, j)
  {
    hide UrlSymbol, Quartet, Letters;
    HeaderStart();
  }

  lemma MiddleFits(text: Text, header: Text, k: nat, j: nat)
    requires text == HEADER_JSON && header == HEADER && 3 <= k < 6 && j < 4
    ensures |text| == 27 && |header| == 36 && LetterFits(text, header, k, j)
  {
    hide UrlSymbol, Quartet, Letters;
    HeaderMiddle();
  }

  lemma EndFits(text: Text, header: Text, k: nat, j: nat)
    requires text == HEADER_JSON && header == HEADER && 6 <= k < 9 && j < 4
    ensures |text| == 27 && |header| == 36 && LetterFits(text, header, k, j)
  {
    hide UrlSymbol, Quartet, Letters;
    HeaderEnd();
  }

  lemma HeaderStart()
    ensures Letters('{', '"', 'a') == "eyJh"
    ensures Letters('l', 'g', '"') == "bGci"
    ensures Letters(':', '"', 'H') == "OiJI"
  {
  }

  lemma HeaderMiddle()
    ensures Letters('S', '2', '5') == "UzI1"
    ensures Letters('6', '"', ',') == "NiIs"
    ensures Letters('"', 't', 'y') == "InR5"
  {
  }

  lemma HeaderEnd()
    ensures Letters('p', '"', ':') == "cCI6"
    ensures Letters('"', 'J', 'W') == "IkpX"
    ensures Letters('T', '"', '}') == "VCJ9"
  {
  }

  /** A signature has 43 letters, none of them a dot; only a failed allocation makes it empty. */
  lemma SignatureShape(k: Key, input: Text, heap: bool)
    ensures '.' !in Sign(k, input, heap)
    ensures Sign(k, input, heap) == [] <==> !heap
    ensures |Sign(k, input, heap)| == if heap then 43 else 0
  {
    hide UrlEncode;
    EncodedAlphabet(k.hmac(k.secret, input));
  }

  /** The first and last dots of a token are its two delimiters, whatever lies between them. */
  lemma Delimiters(k: Key, payload: Text, heap: bool)
    ensures var jwt := Signed(k, payload, heap);
      && HEADER <= jwt && IndexOf(jwt, '.') == HEADER_SIZE
      && LastIndexOf(jwt, '.') == |SigningInput(payload)| > HEADER_SIZE
  {
    hide Sign, IndexOf, LastIndexOf;
    var x := SigningInput(payload);
    SignatureShape(k, x, heap);
    DotPositions(HEADER, payload, Sign(k, x, heap));
    HeaderShape();
  }

  lemma DotPositions(header: Text, payload: Text, signature: Text)
    requires '.' !in header && '.' !in signature
    ensures var jwt := header + ['.'] + payload + ['.'] + signature;
      && header <= jwt && IndexOf(jwt, '.') == |header|
      && LastIndexOf(jwt, '.') == |header + ['.'] + payload|
  {
    hide IndexOf, LastIndexOf;
    var jwt := header + ['.'] + payload + ['.'] + signature;
    SplitAtLast(header + ['.'] + payload, signature, '.');
    assert jwt == header + ['.'] + (payload + ['.'] + signature);
    SplitAtFirst(header, payload + ['.'] + signature, '.');
  }

  /** A signed token parses to what its payload part decodes to, if both signatures could be computed or neither. */
  lemma ParseSigned(k: Key, payload: Text, made: bool, heap: bool)
    ensures ParseToken(k, Signed(k, payload, made), heap) ==
      if made == heap then ObjectOrNull(UrlDecode(payload)) else Null
  {
    hide HEADER, UrlDecode, Sign, ObjectOrNull;
    var x := SigningInput(payload);
    var jwt := Signed(k, payload, made);
    HeaderShape();
    Delimiters(k, payload, made);
    SignatureShape(k, x, made);
    SignatureShape(k, x, heap);
    assert jwt[..|x|] == x && jwt[|x| + 1..] == Sign(k, x, made);
    assert x[HEADER_SIZE + 1..] == payload;
  }

  /** Any token the parser does not clear is its payload part followed by what `Sign` gave for it. */
  lemma ParsedIsSigned(k: Key, jwt: Text, heap: bool) returns (payload: Text)
    requires !ParseToken(k, jwt, heap).Null?
    ensures jwt == Signed(k, payload, heap)
    ensures ParseToken(k, jwt, heap) == ObjectOrNull(UrlDecode(payload))
  {
    hide HEADER, UrlDecode, Sign, ObjectOrNull;
    HeaderShape();
    var d := LastIndexOf(jwt, '.');
    assert jwt[HEADER_SIZE] == '.';
    payload := jwt[..d][HEADER_SIZE + 1..];
    assert jwt[..d] == SigningInput(payload);
    assert jwt == jwt[..d] + ['.'] + jwt[d + 1..];
  }

  /**
   * The parser accepts exactly the texts `x.sign(x)` with the fixed header whose payload decodes to an
   * object, where `sign(x)` is empty if it cannot allocate.
   */
  lemma AcceptedExactly(k: Key, jwt: Text, heap: bool, ms: seq<Member>)
    ensures ParseToken(k, jwt, heap) == Object(ms)
       <==> exists payload :: jwt == Signed(k, payload, heap) && UrlDecode(payload) == Print(ms)
  {
    hide Signed, Print, Parse, UrlDecode, ParseToken;
    if ParseToken(k, jwt, heap) == Object(ms) {
      var payload := ParsedIsSigned(k, jwt, heap);
      ParseExactlyUndoesPrint(UrlDecode(payload), Object(ms));
    }
    forall payload | jwt == Signed(k, payload, heap) && UrlDecode(payload) == Print(ms)
      ensures ParseToken(k, jwt, heap) == Object(ms)
    {
      ParseSigned(k, payload, heap, heap);
      ParseExactlyUndoesPrint(UrlDecode(payload), Object(ms));
    }
  }

  /** The token carries a signature made with this key. */
  ghost predicate HasSignature(k: Key, jwt: Text) {
    exists payload :: jwt == Signed(k, payload, true)
  }

  /**
   * An accepted token carries its signature exactly if signing could allocate, that is, if it does not end in a
   * dot.
   */
  lemma AcceptedHasSignature(k: Key, jwt: Text, heap: bool)
    requires !ParseToken(k, jwt, heap).Null?
    ensures HasSignature(k, jwt) <==> heap
    ensures heap <==> jwt[|jwt| - 1] != '.'
  {
    hide Sign, ParseToken;
    var payload := ParsedIsSigned(k, jwt, heap);
    SignatureShape(k, SigningInput(payload), heap);
    forall other | jwt == Signed(k, other, true) ensures jwt[|jwt| - 1] != '.' {
      SignatureShape(k, SigningInput(other), true);
    }
  }

  /** With no room to sign, the unsigned token of any payload is accepted. */
  lemma UnsignedIsAccepted(k: Key, ms: seq<Member>)
    requires !HasNul(ms)
    ensures var jwt := SigningInput(UrlEncode(Print(ms))) + ['.'];
      ParseToken(k, jwt, false) == Object(ms) && !HasSignature(k, jwt)
  {
    hide ParseToken, Print, UrlEncode, SigningInput, HasSignature, HasNul;
    var jwt := SigningInput(UrlEncode(Print(ms))) + ['.'];
    BuildThenParse(k, ms, true, false, false);
    assert jwt == BuildToken(k, ms, true, false);
    AcceptedHasSignature(k, jwt, false);
  }

  /** All accepted tokens carry a signature if and only if signing can allocate. */
  lemma AcceptsOnlySignedExactly(k: Key, heap: bool)
    ensures (forall jwt :: !ParseToken(k, jwt, heap).Null? ==> HasSignature(k, jwt)) <==> heap
  {
    hide ParseToken, HasSignature;
    forall jwt | heap && !ParseToken(k, jwt, heap).Null? ensures HasSignature(k, jwt) {
      AcceptedHasSignature(k, jwt, heap);
    }
    NoMembersNoNul();
    UnsignedIsAccepted(k, []);
  }

  // ---- the round trip, and the one thing that breaks it ----

  predicate ValueHasNul(v: Value) { v.Str? && NUL in v.text }

  predicate HasNul(ms: seq<Member>) {
    exists i :: 0 <= i < |ms| && (NUL in ms[i].key || ValueHasNul(ms[i].value))
  }

  lemma {:induction false} NulInChars(s: Text)
    ensures NUL in PrintChars(s) <==> NUL in s
  {
    if s != [] {
      NulInChars(s[1..]);
      assert NUL in PrintChar(s[0]) <==> s[0] == NUL;
      assert s == [s[0]] + s[1..];
    }
  }

  lemma NulInMember(m: Member)
    ensures NUL in PrintMember(m) <==> NUL in m.key || ValueHasNul(m.value)
  {
    hide PrintChars, Decimal;
    NulInChars(m.key);
    match m.value
    case Str(text) => NulInChars(text);
    case Num(n) => assert NUL !in Decimal(n);
    case Bool(_) =>
  }

  lemma NulInMembers(ms: seq<Member>)
    requires ms != []
    ensures NUL in PrintMembers(ms) <==> HasNul(ms)
  {
    hide PrintMember, ValueHasNul;
    NulInMember(ms[0]);
    if |ms| > 1 {
      NulInMembers(ms[1..]);
      assert HasNul(ms) <==> (NUL in ms[0].key || ValueHasNul(ms[0].value) || HasNul(ms[1..])) by {
        if HasNul(ms) {
          var i :| 0 <= i < |ms| && (NUL in ms[i].key || ValueHasNul(ms[i].value));
          if i > 0 {
            assert ms[i] == ms[1..][i - 1];
          }
        }
        if HasNul(ms[1..]) {
          var i :| 0 <= i < |ms[1..]| && (NUL in ms[1..][i].key || ValueHasNul(ms[1..][i].value));
          assert ms[1..][i] == ms[i + 1];
        }
      }
    }
  }

  lemma PrintsArePrefixFree(ms: seq<Member>, ns: seq<Member>, rest: Text)
    requires ms != [] && ns != [] && PrintMembers(ms) == PrintMembers(ns) + rest
    ensures rest == [] && ms == ns
  {
    hide ParseMembers, PrintMembers;
    MembersParseBack(ns, rest);
    MembersParseBack(ms, []);
    assert PrintMembers(ms) + [] == PrintMembers(ms);
  }

  /** No printed object is a proper prefix of another: a text cut short does not parse. */
  lemma CutShortDoesNotParse(ms: seq<Member>, cut: Text)
    requires cut < Print(ms)
    ensures Parse(cut) == None
  {
    hide ParseMembers, PrintMembers;
    var t := Print(ms);
    if |cut| >= 2 && Parse(cut).Some? {
      ParsedIsThePrint(cut);
      FirstIsQuote(ms);
      assert cut[0] == '{' && cut[1] == '"';
      var d := Parse(cut).value;
      PrintsArePrefixFree(ms, d.members, t[|cut|..]);
    } else if |cut| == 1 {
      OpenBraceDoesNotParse();
      assert cut == ['{'];
    }
  }

  lemma OpenBraceDoesNotParse()
    ensures Parse(['{']) == None
  {
    assert ['{'][1..] == [];
  }

  lemma FirstIsQuote(ms: seq<Member>)
    requires ms != []
    ensures PrintMembers(ms)[0] == '"'
  {
  }

  /**
   * Parsing gives the built payload back exactly if it holds no NUL, its encoding could allocate, and
   * building and parsing got the same signature; otherwise it gives nothing at all.
   */
  lemma BuildThenParse(k: Key, ms: seq<Member>, payloadHeap: bool, made: bool, heap: bool)
    ensures ParseToken(k, BuildToken(k, ms, payloadHeap, made), heap) ==
      if payloadHeap && made == heap && !HasNul(ms) then Object(ms) else Null
  {
    hide ParseToken, Signed, Print, UrlEncode, UrlDecode, HasNul, ObjectOrNull;
    ParseSigned(k, Encoded(Print(ms), payloadHeap), made, heap);
    if payloadHeap {
      DecodedPrint(ms);
    } else {
      EmptyPayload();
    }
  }

  /** Decoding an encoded print gives a text that parses to the members, unless a NUL cuts it short. */
  lemma DecodedPrint(ms: seq<Member>)
    ensures ObjectOrNull(UrlDecode(UrlEncode(Print(ms)))) == if HasNul(ms) then Null else Object(ms)
  {
    hide PrintMembers, UrlEncode, UrlDecode, HasNul;
    var json := Print(ms);
    DecodeUndoesEncode(json);
    if ms != [] {
      NulInMembers(ms);
    } else {
      NoMembersNoNul();
    }
    assert NUL in json <==> HasNul(ms);
    if HasNul(ms) {
      CutShortDoesNotParse(ms, CString(json));
    } else {
      PrintParsesBack(Object(ms));
    }
  }

  lemma EmptyPayload()
    ensures ObjectOrNull(UrlDecode("")) == Null
  {
    DecodeUndoesEncode("");
    assert UrlEncode("") == "" by { EncodedAlphabet(""); }
    assert Parse("") == None;
  }

  lemma NoMembersNoNul()
    ensures !HasNul([])
  {
  }

  // ---- users ----

  datatype User = User(username: Text, password: Text, admin: bool)

  /** `populateJWTPayload`. */
  function Payload(u: User): seq<Member> {
    [Member("username", Str(u.username)), Member("admin", Bool(u.admin))]
  }

  /** The payload's text, letter by letter. */
  lemma PayloadText(u: User)
    ensures Print(Payload(u)) ==
      "{" + ("\"username\":\"" + PrintChars(u.username) + "\""
             + ("," + ((if u.admin then "\"admin\":true" else "\"admin\":false") + "}")))
  {
    hide PrintMember, PrintChars;
    var first, second := Payload(u)[0], Payload(u)[1];
    assert Payload(u)[1..] == [second];
    UsernameText(u.username);
    AdminText(u.admin);
    var x, y := PrintMember(first), PrintMember(second);
    assert PrintMembers([second]) == y + ['}'];
    assert PrintMembers(Payload(u)) == x + ([','] + (y + ['}']));
    assert "{" == ['{'] && "," == [','] && "}" == ['}'];
  }

  lemma UsernameText(username: Text)
    ensures PrintMember(Member("username", Str(username))) == "\"username\":\"" + PrintChars(username) + "\""
  {
    hide PrintChars;
    PlainKeys();
    assert ['"'] + "username" + ['"', ':'] + ['"'] == "\"username\":\"";
  }

  lemma AdminText(admin: bool)
    ensures PrintMember(Member("admin", Bool(admin))) == if admin then "\"admin\":true" else "\"admin\":false"
  {
    hide PrintChars;
    PlainKeys();
  }

  lemma PlainKeys()
    ensures PrintChars("username") == "username" && PrintChars("admin") == "admin"
  {
    PlainChars("username");
    PlainChars("admin");
  }

  /** `object[key]`: the first member with that key. */
  function Lookup(ms: seq<Member>, key: Text): Option<Value> {
    if ms == [] then None
    else if ms[0].key == key then Some(ms[0].value)
    else Lookup(ms[1..], key)
  }

  /** Object comparison: as many members, and every member of `a` found in `b` with its value. */
  predicate SameObject(a: seq<Member>, b: seq<Member>) {
    |a| == |b| && forall i :: 0 <= i < |a| ==> Lookup(b, a[i].key) == Some(a[i].value)
  }

  /** A JSON value read as a `String`; a missing one reads as `null`. */
  function AsString(v: Option<Value>): Text {
    match v
    case None => "null"
    case Some(Str(text)) => text
    case Some(Num(n)) => Decimal(n)
    case Some(Bool(b)) => if b then "true" else "false"
  }

  /** The loop's test: name first, then the whole payload. */
  predicate Validates(ms: seq<Member>, u: User) {
    u.username == AsString(Lookup(ms, "username")) && SameObject(Payload(u), ms)
  }

  function Validating(ms: seq<Member>): User -> bool {
    (u: User) => Validates(ms, u)
  }

  function WithCredentials(username: Text, password: Text): User -> bool {
    (u: User) => u.username == username && u.password == password
  }

  /** The `i`-th user has the property `p`, and no earlier one has. */
  ghost predicate FirstAt(users: seq<User>, p: User -> bool, i: nat)
    requires i < |users|
  {
    p(users[i]) && forall j :: 0 <= j < i ==> !p(users[j])
  }

  /** The first listed user with the property `p`. */
  function First(users: seq<User>, p: User -> bool): (r: Option<User>)
    ensures r.None? <==> forall i :: 0 <= i < |users| ==> !p(users[i])
    ensures r.Some? ==> exists i :: 0 <= i < |users| && users[i] == r.value && FirstAt(users, p, i)
  {
    if users == [] then None
    else if p(users[0]) then
      assert FirstAt(users, p, 0);
      Some(users[0])
    else
      var r := First(users[1..], p);
      assert r.Some? ==> exists i :: 0 <= i < |users| && users[i] == r.value && FirstAt(users, p, i) by {
        if r.Some? {
          var i :| 0 <= i < |users[1..]| && users[1..][i] == r.value && FirstAt(users[1..], p, i);
          assert forall j :: 0 < j < i + 1 ==> users[j] == users[1..][j - 1];
          assert users[i + 1] == r.value && FirstAt(users, p, i + 1);
        }
      }
      assert forall i :: 0 < i < |users| ==> users[i] == users[1..][i - 1];
      r
  }

  /** The user a token authenticates. */
  function AuthenticatedUser(k: Key, users: seq<User>, jwt: Text, heap: bool): Option<User> {
    match ParseToken(k, jwt, heap)
    case Object(ms) => First(users, Validating(ms))
    case _ => None
  }

  function GenerateToken(k: Key, u: User, payloadHeap: bool, heap: bool): Text {
    BuildToken(k, Payload(u), payloadHeap, heap)
  }

  lemma LookupTwo(m: Member, n: Member, key: Text)
    ensures Lookup([m, n], key) == if m.key == key then Some(m.value) else if n.key == key then Some(n.value) else None
  {
    assert [m, n][1..] == [n] && [n][1..] == [];
    assert Lookup([n], key) == if n.key == key then Some(n.value) else None;
  }

  /** The two members, in either order, and nothing else; so comparing the name first changes nothing. */
  lemma ValidatesExactly(ms: seq<Member>, u: User)
    ensures Validates(ms, u) <==> ms == Payload(u) || ms == [Payload(u)[1], Payload(u)[0]]
  {
    var p := Payload(u);
    assert |p[0].key| != |p[1].key|;
    if |ms| == 2 {
      LookupTwo(ms[0], ms[1], "username");
      LookupTwo(ms[0], ms[1], "admin");
      assert ms == [ms[0], ms[1]];
      assert SameObject(p, ms) <==>
          Lookup(ms, p[0].key) == Some(p[0].value) && Lookup(ms, p[1].key) == Some(p[1].value);
    }
  }

  lemma PayloadsAgree(u: User, v: User)
    ensures Validates(Payload(u), v) <==> u.username == v.username && u.admin == v.admin
  {
    hide Validates;
    ValidatesExactly(Payload(u), v);
    assert Payload(u)[0] == Member("username", Str(u.username)) && Payload(u)[1] == Member("admin", Bool(u.admin));
    assert |Payload(u)[0].key| != |Payload(v)[1].key|;
  }

  lemma {:induction false} FirstOfEqual(users: seq<User>, p: User -> bool, q: User -> bool)
    requires forall u :: p(u) <==> q(u)
    ensures First(users, p) == First(users, q)
  {
    if users != [] {
      FirstOfEqual(users[1..], p, q);
    }
  }

  predicate SameAccount(u: User, v: User) { u.username == v.username && u.admin == v.admin }

  function SameAccountAs(u: User): User -> bool {
    (v: User) => SameAccount(u, v)
  }

  /**
   * A generated token finds the first listed user with that name and admin flag, exactly if the name holds
   * no NUL, the payload could be encoded, and issuing and checking got the same signature.
   */
  lemma GeneratedTokenAuthenticates(k: Key, users: seq<User>, u: User, payloadHeap: bool, made: bool, heap: bool)
    ensures AuthenticatedUser(k, users, GenerateToken(k, u, payloadHeap, made), heap) ==
      if NUL !in u.username && payloadHeap && made == heap then First(users, SameAccountAs(u)) else None
  {
    hide BuildToken, ParseToken, Validates;
    BuildThenParse(k, Payload(u), payloadHeap, made, heap);
    PayloadNul(u);
    PayloadFinds(users, u);
  }

  lemma PayloadFinds(users: seq<User>, u: User)
    ensures First(users, Validating(Payload(u))) == First(users, SameAccountAs(u))
  {
    hide Validates;
    forall v ensures Validates(Payload(u), v) <==> SameAccount(u, v) {
      PayloadsAgree(u, v);
    }
    FirstOfEqual(users, Validating(Payload(u)), SameAccountAs(u));
  }

  lemma PayloadNul(u: User)
    ensures HasNul(Payload(u)) <==> NUL in u.username
  {
    var p := Payload(u);
    assert p[0].value == Str(u.username);
    assert NUL !in p[0].key && NUL !in p[1].key && !ValueHasNul(p[1].value);
    if NUL in u.username {
      assert ValueHasNul(p[0].value);
    }
  }

  /**
   * Whoever is authenticated is listed, by a token over exactly that user's two members, signed as far as
   * signing could.
   */
  lemma AuthenticatedOnlyIfSigned(k: Key, users: seq<User>, jwt: Text, heap: bool)
    requires AuthenticatedUser(k, users, jwt, heap).Some?
    ensures var u := AuthenticatedUser(k, users, jwt, heap).value;
      && u in users
      && exists payload :: jwt == Signed(k, payload, heap)
           && (UrlDecode(payload) == Print(Payload(u)) || UrlDecode(payload) == Print([Payload(u)[1], Payload(u)[0]]))
    ensures HasSignature(k, jwt) <==> heap
  {
    hide ParseToken, Signed, UrlDecode, Print, Validates, HasSignature;
    var ms := ParseToken(k, jwt, heap).members;
    var u := AuthenticatedUser(k, users, jwt, heap).value;
    AcceptedExactly(k, jwt, heap, ms);
    AcceptedHasSignature(k, jwt, heap);
    assert Validates(ms, u);
    ValidatesExactly(ms, u);
  }

  /** With no room to sign, an unsigned token authenticates whoever its payload names. */
  lemma UnsignedAuthenticates(k: Key, users: seq<User>, u: User)
    requires NUL !in u.username
    ensures var jwt := SigningInput(UrlEncode(Print(Payload(u)))) + ['.'];
      AuthenticatedUser(k, users, jwt, false) == First(users, SameAccountAs(u)) && !HasSignature(k, jwt)
  {
    hide ParseToken, Print, UrlEncode, SigningInput, HasSignature, HasNul, Payload;
    PayloadNul(u);
    UnsignedIsAccepted(k, Payload(u));
    PayloadFinds(users, u);
  }
}
