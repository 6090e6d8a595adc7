/** The token handler and the security manager as the objects that hold the secret and the users. */
module TokenService {
  import opened Wrappers
  import opened Text
  import opened Json
  import Base64Url
  import opened Token

  /** The document the caller hands over to be filled. */
  class JsonDocument {
    var content: Document

    constructor ()
      ensures content == Null
    {
      content := Null;
    }

    method Clear()
      modifies this
      ensures content == Null
    {
      content := Null;
    }

    /** `deserializeJson`. */
    method Deserialize(json: Text) returns (ok: bool)
      modifies this
      ensures ok == Parse(json).Some?
      ensures ok ==> content == Parse(json).value
    {
      var r := Parse(json);
      ok := r.Some?;
      if ok {
        content := r.value;
      }
    }
  }

  class ArduinoJsonJWT {
    const hmac: (Text, Text) -> Digest
    var secret: Text

    constructor (hmac: (Text, Text) -> Digest, secret: Text)
      ensures this.hmac == hmac && this.secret == secret
    {
      this.hmac := hmac;
      this.secret := secret;
    }

    ghost function CurrentKey(): Key
      reads this
    {
      Key(hmac, secret)
    }

    method SetSecret(secret: Text)
      modifies this
      ensures this.secret == secret
    {
      this.secret := secret;
    }

    /** `sign`; as in every method here, `heap` says whether the encoder's allocation succeeds. */
    method SignText(payload: Text, heap: bool) returns (signature: Text)
      ensures signature == Sign(CurrentKey(), payload, heap)
    {
      signature := Base64Url.Encode(hmac(secret, payload), heap);
    }

    method BuildJWT(payload: seq<Member>, payloadHeap: bool, heap: bool) returns (jwt: Text)
      ensures jwt == BuildToken(CurrentKey(), payload, payloadHeap, heap)
    {
      jwt := Print(payload);
      jwt := Base64Url.Encode(jwt, payloadHeap);
      jwt := HEADER + ['.'] + jwt;
      var signature := SignText(jwt, heap);
      jwt := jwt + ['.'] + signature;
    }

    method ParseJWT(token: Text, document: JsonDocument, heap: bool)
      modifies document
      ensures document.content == ParseToken(CurrentKey(), token, heap)
    {
      var jwt := token;
      document.Clear();
      if !(HEADER <= jwt) || IndexOf(jwt, '.') != HEADER_SIZE {
        return;
      }
      var delimiter := LastIndexOf(jwt, '.');
      if delimiter == HEADER_SIZE {
        return;
      }
      var signature := jwt[delimiter + 1..];
      jwt := jwt[..delimiter];
      var expected := SignText(jwt, heap);
      if expected != signature {
        return;
      }
      DelimiterAfterHeader(token);
      jwt := jwt[HEADER_SIZE + 1..];
      jwt := Base64Url.Decode(jwt);
      var ok := document.Deserialize(jwt);
      if !ok || !document.content.Object? {
        document.Clear();
      }
    }
  }

  lemma DelimiterAfterHeader(jwt: Text)
    requires IndexOf(jwt, '.') == HEADER_SIZE
    ensures LastIndexOf(jwt, '.') >= HEADER_SIZE
  {
    assert jwt[HEADER_SIZE] == '.';
  }

  class SecurityManager {
    const jwtHandler: ArduinoJsonJWT
    var users: seq<User>

    constructor (jwtHandler: ArduinoJsonJWT, users: seq<User>)
      ensures this.jwtHandler == jwtHandler && this.users == users
    {
      this.jwtHandler := jwtHandler;
      this.users := users;
    }

    /** `authenticateRequest`, given the Authorization header if there is one. */
    method AuthenticateRequest(header: Option<Text>, heap: bool) returns (user: Option<User>)
      ensures user == match header
        case Some(value) =>
          if "Bearer " <= value then AuthenticatedUser(jwtHandler.CurrentKey(), users, value[7..], heap) else None
        case None => None
    {
      user := None;
      if header.Some? && "Bearer " <= header.value {
        user := AuthenticateJWT(header.value[7..], heap);
      }
    }

    method AuthenticateJWT(jwt: Text, heap: bool) returns (user: Option<User>)
      ensures user == AuthenticatedUser(jwtHandler.CurrentKey(), users, jwt, heap)
    {
      hide ParseToken, Lookup, Payload, SameObject, AsString;
      var document := new JsonDocument();
      jwtHandler.ParseJWT(jwt, document, heap);
      if document.content.Object? {
        var payload := document.content.members;
        var username := AsString(Lookup(payload, "username"));
        for i := 0 to |users|
          invariant First(users, Validating(payload)) == First(users[i..], Validating(payload))
        {
          if users[i].username == username && SameObject(Payload(users[i]), payload) {
            return Some(users[i]);
          }
          assert users[i..][1..] == users[i + 1..];
        }
      }
      return None;
    }

    /** `authenticate`: the first user with both the name and the password. */
    method Authenticate(username: Text, password: Text) returns (user: Option<User>)
      ensures user == First(users, WithCredentials(username, password))
      ensures user.None? <==>
        forall i :: 0 <= i < |users| ==> users[i].username != username || users[i].password != password
      ensures user.Some? ==>
        exists i :: 0 <= i < |users| && users[i] == user.value
                 && users[i].username == username && users[i].password == password
                 && forall j :: 0 <= j < i ==> users[j].username != username || users[j].password != password
    {
      for i := 0 to |users|
        invariant First(users, WithCredentials(username, password))
               == First(users[i..], WithCredentials(username, password))
      {
        if users[i].username == username && users[i].password == password {
          return Some(users[i]);
        }
        assert users[i..][1..] == users[i + 1..];
      }
      return None;
    }

    method GenerateJWT(user: User, payloadHeap: bool, heap: bool) returns (jwt: Text)
      ensures jwt == GenerateToken(jwtHandler.CurrentKey(), user, payloadHeap, heap)
    {
      jwt := jwtHandler.BuildJWT(Payload(user), payloadHeap, heap);
    }

    /**
     * Signing in and presenting the token: the caller is served as the first account with the same name and
     * flag exactly if the name holds no NUL, the payload could be encoded and both signatures came out alike.
     */
    method SignInThenAuthenticate(username: Text, password: Text, payloadHeap: bool, made: bool, heap: bool)
      returns (issued: Option<User>, served: Option<User>)
      ensures issued == First(users, WithCredentials(username, password))
      ensures issued.Some? ==>
        issued.value in users && issued.value.username == username && issued.value.password == password
      ensures issued.None? <==>
        forall i :: 0 <= i < |users| ==> users[i].username != username || users[i].password != password
      ensures issued.Some? && NUL !in username && payloadHeap && made == heap ==>
        served == First(users, SameAccountAs(issued.value)) && served.Some?
      ensures issued.None? || NUL in username || !payloadHeap || made != heap ==> served.None?
    {
      issued := Authenticate(username, password);
      served := None;
      if issued.Some? {
        var jwt := GenerateJWT(issued.value, payloadHeap, made);
        served := AuthenticateJWT(jwt, heap);
        GeneratedTokenAuthenticates(jwtHandler.CurrentKey(), users, issued.value, payloadHeap, made, heap);
        assert SameAccount(issued.value, issued.value);
      }
    }
  }
}
