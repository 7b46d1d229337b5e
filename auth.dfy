/**
 The authentication routes of the mock server: eight request handlers over one
 shared document holding a `users` table and an `auth.tokens` table.

 Each request runs to completion before the next, so each handler is one method
 of `Store`. Signing a token is replaced by a fresh token string passed in,
 checking one by a verifier function, and the clock by a timestamp argument.
 */
module Auth {
  import opened Wrappers
  import opened Json
  import opened Lookup
  import opened Bearer
  import opened Decimal

  /** An entry of `auth.tokens`: the id of the user a token was issued to, and the token. */
  datatype TokenRec = TokenRec(userId: Value, token: Value)

  /** What a handler sends back: the HTTP status and the JSON object. */
  datatype Response = Response(status: int, body: Record)

  /** `jwt.verify(token, secret).userId`: the user id claimed by a token whose
      signature and expiry check out, or None when verification throws. */
  type Verifier = string -> Option<Value>

  /** The outcome of the token check that opens the authenticated handlers. */
  datatype Credential = NoToken | InvalidToken | Verified(userId: Value)

  /** The body `{ message: text }`. */
  function Message(text: string): Record
  {
    map["message" := Str(text)]
  }

  /** `if (!token)` on the bearer token, then `jwt.verify` inside the try block.
      Without a header there is no token; otherwise the verifier is asked about
      the bearer token and its answer alone decides. */
  function Authenticate(header: Option<string>, verify: Verifier): (c: Credential)
    ensures header.None? ==> c == NoToken
    ensures c.NoToken? <==> BearerToken(header).None? || BearerToken(header).value == ""
    ensures !c.NoToken? ==> c.Verified? == verify(BearerToken(header).value).Some?
    ensures c.Verified? ==> verify(BearerToken(header).value) == Some(c.userId)
  {
    var t := BearerToken(header);
    if t.None? || t.value == "" then NoToken
    else match verify(t.value)
      case None => InvalidToken
      case Some(id) => Verified(id)
  }

  /** The token checked is the second space-separated word of the header:
      there is none when the header is missing or holds no space, and an empty
      second word (as in `"Bearer "`) counts as no token. */
  lemma AuthenticateSecondWord(header: Option<string>, verify: Verifier)
    ensures Authenticate(header, verify).NoToken? <==>
      header.None? || ' ' !in header.value || Split(header.value, ' ')[1] == ""
    ensures header.Some? && ' ' in header.value && Split(header.value, ' ')[1] != "" ==>
      var token := Split(header.value, ' ')[1];
      Authenticate(header, verify)
        == if verify(token).Some? then Verified(verify(token).value) else InvalidToken
  {
  }

  /** A header `Bearer <token>` with a non-empty token reaches the verifier with that token. */
  lemma AuthenticateBearer(token: string, verify: Verifier)
    requires ' ' !in token && token != ""
    ensures Authenticate(Some("Bearer " + token), verify)
         == if verify(token).Some? then Verified(verify(token).value) else InvalidToken
  {
    assert "Bearer " + token == "Bearer" + " " + token;
    BearerTokenOfScheme("Bearer", token);
  }

  // The callbacks given to find, findIndex, some and filter.

  /** The callback selecting users whose email is `===` to the given one. */
  function EmailIs(email: Value): Record -> bool
  {
    u => StrictEquals(Get(u, "email"), email)
  }

  /** The callback selecting users whose id is `===` to the given one. */
  function IdIs(id: Value): Record -> bool
  {
    u => StrictEquals(Get(u, "id"), id)
  }

  /** The callback selecting token records that hold the given token; the logout
      filter keeps its negation. */
  function HoldsToken(token: string): TokenRec -> bool
  {
    (r: TokenRec) => StrictEquals(r.token, Str(token))
  }

  /** The callback selecting token records issued to the given id; the account
      deletion filter keeps its negation. */
  function IssuedTo(id: Value): TokenRec -> bool
  {
    (r: TokenRec) => StrictEquals(r.userId, id)
  }

  /** A user matches `EmailIs(email)` exactly when its email is `===` to the
      given one; an absent email matches an absent one. */
  lemma EmailIsMatches(email: Value, u: Record)
    ensures EmailIs(email)(u) <==> !email.Composite? && Get(u, "email") == email
  {
  }

  /** A user matches `IdIs(id)` exactly when its id is `===` to the given one. */
  lemma IdIsMatches(id: Value, u: Record)
    ensures IdIs(id)(u) <==> !id.Composite? && Get(u, "id") == id
  {
  }

  /** A token record matches `HoldsToken(token)` exactly when it stores that
      string as its token. */
  lemma HoldsTokenMatches(token: string, r: TokenRec)
    ensures HoldsToken(token)(r) <==> r.token == Str(token)
  {
  }

  /** A token record matches `IssuedTo(id)` exactly when its userId is `===`
      to the given id. */
  lemma IssuedToMatches(id: Value, r: TokenRec)
    ensures IssuedTo(id)(r) <==> !id.Composite? && r.userId == id
  {
  }

  /** The fields the register handler takes from the request body. */
  const RegisterFields: set<string> :=
    {"email", "password", "name", "phone", "location", "service", "workType", "openingTime", "closingTime"}

  /** The fields the register handler sets itself. */
  const FixedFields: set<string> := {"id", "photoUrl", "isEmailVerified", "userType", "createdAt", "updatedAt"}

  /** The fields of a freshly registered user. */
  const UserFields: set<string> := RegisterFields + FixedFields

  /** What the register handler promises about the user it creates: exactly
      the nine body fields, as given (absent ones as `undefined`), the id, and
      the fixed defaults. */
  predicate IsNewUser(u: Record, body: Record, id: string, now: string)
  {
    && u.Keys == UserFields
    && (forall k :: k in RegisterFields ==> Get(u, k) == Get(body, k))
    && Get(u, "id") == Str(id)
    && Get(u, "photoUrl") == Null
    && Get(u, "isEmailVerified") == Bool(false)
    && Get(u, "userType") == Str("tailor")
    && Get(u, "createdAt") == Str(now)
    && Get(u, "updatedAt") == Str(now)
  }

  /** The user record the register handler builds: the promised fields. */
  function NewUser(body: Record, id: string, now: string): (u: Record)
    ensures IsNewUser(u, body, id, now)
  {
    var fromBody := map k | k in RegisterFields :: Get(body, k);
    var fixed := map[
      "id" := Str(id),
      "photoUrl" := Null,
      "isEmailVerified" := Bool(false),
      "userType" := Str("tailor"),
      "createdAt" := Str(now),
      "updatedAt" := Str(now)
    ];
    assert fixed.Keys == FixedFields;
    FieldNamesDisjoint();
    fromBody + fixed
  }

  /** The promised fields leave no freedom: two records that both have them
      are the same record. */
  lemma NewUserDetermined(u: Record, v: Record, body: Record, id: string, now: string)
    requires IsNewUser(u, body, id, now) && IsNewUser(v, body, id, now)
    ensures u == v
  {
    forall k | k in UserFields ensures u[k] == v[k] {
      assert Get(u, k) == u[k] && Get(v, k) == v[k];
    }
  }

  /** No body field of the register handler is one it sets itself. */
  lemma FieldNamesDisjoint()
    ensures RegisterFields !! FixedFields
  {
    forall k | k in RegisterFields ensures k !in FixedFields {
      assert |k| == 8 ==> k[0] != 'u' && k != "photoUrl";
    }
  }

  /** `{...existing, ...body, updatedAt: now}`: the body's fields override the
      stored ones, and the timestamp overrides both. */
  function Merged(existing: Record, body: Record, now: string): (u: Record)
    ensures u.Keys == existing.Keys + body.Keys + {"updatedAt"}
    ensures u["updatedAt"] == Str(now)
    ensures forall k :: k in body && k != "updatedAt" ==> u[k] == body[k]
    ensures forall k :: k in existing && k !in body && k != "updatedAt" ==> u[k] == existing[k]
  {
    existing + body + map["updatedAt" := Str(now)]
  }

  /** The two records do not carry `===`-equal emails. */
  predicate EmailsDiffer(a: Record, b: Record)
  {
    !StrictEquals(Get(a, "email"), Get(b, "email"))
  }

  /** No two users share an email: what the register handler's check aims at. */
  predicate EmailsDistinct(users: seq<Record>)
  {
    forall i, j :: 0 <= i < j < |users| ==> EmailsDiffer(users[i], users[j])
  }

  /** Removing users never makes two emails collide. */
  lemma FilterKeepsEmailsDistinct(users: seq<Record>, keep: Record -> bool)
    requires EmailsDistinct(users)
    ensures EmailsDistinct(Filter(users, keep))
  {
    FilterIsSubsequence(users, keep);
    SubsequencePairwise(Filter(users, keep), users, EmailsDiffer);
  }

  /** A user appended with an email no earlier user has keeps emails distinct. */
  lemma AppendKeepsEmailsDistinct(users: seq<Record>, u: Record)
    requires EmailsDistinct(users)
    requires !Any(users, EmailIs(Get(u, "email")))
    ensures EmailsDistinct(users + [u])
  {
    forall i, j | 0 <= i < j < |users + [u]| ensures EmailsDiffer((users + [u])[i], (users + [u])[j]) {
      if j == |users| {
        assert !EmailIs(Get(u, "email"))(users[i]);
      } else {
        assert EmailsDiffer(users[i], users[j]);
      }
    }
  }

  /** The profile handler does not check emails: an update can give one user
      the email of another. */
  lemma ProfileMayDuplicateEmail()
    ensures var users := [map["id" := Str("1"), "email" := Str("a")],
                          map["id" := Str("2"), "email" := Str("b")]];
            && EmailsDistinct(users)
            && FindIndex(users, IdIs(Str("2"))) == 1
            && !EmailsDistinct(users[1 := Merged(users[1], map["email" := Str("a")], "t")])
  {
    var users := [map["id" := Str("1"), "email" := Str("a")],
                  map["id" := Str("2"), "email" := Str("b")]];
    assert !IdIs(Str("2"))(users[0]);
    var after := users[1 := Merged(users[1], map["email" := Str("a")], "t")];
    assert !EmailsDiffer(after[0], after[1]);
  }

  /** The shared document: the `users` table and the `auth.tokens` table. */
  class Store {
    var users: seq<Record>
    var tokens: seq<TokenRec>

    constructor (users: seq<Record>, tokens: seq<TokenRec>)
      ensures this.users == users && this.tokens == tokens
    {
      this.users := users;
      this.tokens := tokens;
    }

    /** POST /auth/login. The password is only checked for being non-empty. */
    method Login(body: Record, token: string) returns (resp: Response)
      modifies this
      ensures users == old(users)
      ensures var user := Find(old(users), EmailIs(Get(body, "email")));
        if user.None? || !Truthy(Get(body, "password")) then
          && resp == Response(401, Message("Invalid credentials"))
          && tokens == old(tokens)
        else
          && tokens == old(tokens) + [TokenRec(Get(user.value, "id"), Str(token))]
          && resp == Response(200, user.value["token" := Str(token)])
    {
      var user := Find(users, EmailIs(Get(body, "email")));
      if user.None? {
        return Response(401, Message("Invalid credentials"));
      }
      if !Truthy(Get(body, "password")) {
        return Response(401, Message("Invalid credentials"));
      }
      tokens := tokens + [TokenRec(Get(user.value, "id"), Str(token))];
      resp := Response(200, user.value["token" := Str(token)]);
    }

    /** POST /auth/register. The new id is the decimal text of the table's
        length plus one; nothing else makes it unique. */
    method Register(body: Record, token: string, now: string) returns (resp: Response)
      modifies this
      ensures Any(old(users), EmailIs(Get(body, "email"))) ==>
        && resp == Response(400, Message("User already exists"))
        && users == old(users)
        && tokens == old(tokens)
      ensures !Any(old(users), EmailIs(Get(body, "email"))) ==>
        var n := |old(users)|;
        var id := NatToDecimal(n + 1);
        && |users| == n + 1
        && users == old(users) + [users[n]]
        && Get(users[n], "id") == Str(id)
        && IsNewUser(users[n], body, id, now)
        && tokens == old(tokens) + [TokenRec(Str(id), Str(token))]
        && resp == Response(200, users[n]["token" := Str(token)])
      ensures EmailsDistinct(old(users)) ==> EmailsDistinct(users)
    {
      if Any(users, EmailIs(Get(body, "email"))) {
        return Response(400, Message("User already exists"));
      }
      var id := NatToDecimal(|users| + 1);
      var newUser := NewUser(body, id, now);
      if EmailsDistinct(users) {
        assert "email" in RegisterFields;
        AppendKeepsEmailsDistinct(users, newUser);
      }
      users := users + [newUser];
      tokens := tokens + [TokenRec(Str(id), Str(token))];
      resp := Response(200, newUser["token" := Str(token)]);
    }

    /** GET /auth/me: the first user whose id is the token's userId. */
    method Me(header: Option<string>, verify: Verifier) returns (resp: Response)
      ensures match Authenticate(header, verify)
        case NoToken => resp == Response(401, Message("No token provided"))
        case InvalidToken => resp == Response(401, Message("Invalid token"))
        case Verified(id) =>
          var i := FindIndex(users, IdIs(id));
          resp == if i == -1 then Response(404, Message("User not found")) else Response(200, users[i])
    {
      match Authenticate(header, verify)
      case NoToken =>
        resp := Response(401, Message("No token provided"));
      case InvalidToken =>
        resp := Response(401, Message("Invalid token"));
      case Verified(id) =>
        var user := Find(users, IdIs(id));
        if user.None? {
          resp := Response(404, Message("User not found"));
        } else {
          resp := Response(200, user.value);
        }
    }

    /** POST /auth/logout: drops every token record holding the presented
        token. The token is not verified, and the reply is always a success. */
    method Logout(header: Option<string>) returns (resp: Response)
      modifies this
      ensures users == old(users)
      ensures resp == Response(200, Message("Logged out successfully"))
      ensures var t := BearerToken(header);
        tokens == if t.Some? && t.value != "" then Filter(old(tokens), Not(HoldsToken(t.value))) else old(tokens)
    {
      var t := BearerToken(header);
      if t.Some? && t.value != "" {
        tokens := Filter(tokens, Not(HoldsToken(t.value)));
      }
      resp := Response(200, Message("Logged out successfully"));
    }

    /** POST /auth/reset-password: only reports whether the email is known. */
    method ResetPassword(body: Record) returns (resp: Response)
      ensures resp == if Any(users, EmailIs(Get(body, "email")))
                      then Response(200, Message("Password reset email sent"))
                      else Response(404, Message("User not found"))
    {
      var user := Find(users, EmailIs(Get(body, "email")));
      if user.None? {
        return Response(404, Message("User not found"));
      }
      resp := Response(200, Message("Password reset email sent"));
    }

    /** POST /auth/update-password: checks the token and that both passwords
        are non-empty, and stores nothing. */
    method UpdatePassword(header: Option<string>, body: Record, verify: Verifier) returns (resp: Response)
      ensures resp.status == 400 <==>
        Authenticate(header, verify).Verified? &&
        (!Truthy(Get(body, "currentPassword")) || !Truthy(Get(body, "newPassword")))
      ensures match Authenticate(header, verify)
        case NoToken => resp == Response(401, Message("No token provided"))
        case InvalidToken => resp == Response(401, Message("Invalid token"))
        case Verified(_) =>
          resp == if resp.status == 400 then Response(400, Message("Invalid password"))
                  else Response(200, Message("Password updated successfully"))
    {
      match Authenticate(header, verify)
      case NoToken =>
        resp := Response(401, Message("No token provided"));
      case InvalidToken =>
        resp := Response(401, Message("Invalid token"));
      case Verified(_) =>
        if !Truthy(Get(body, "currentPassword")) || !Truthy(Get(body, "newPassword")) {
          resp := Response(400, Message("Invalid password"));
        } else {
          resp := Response(200, Message("Password updated successfully"));
        }
    }

    /** PUT /auth/profile: merges the body into the first user with the token's
        userId, in place. Any field, the id and the email included, can be overwritten. */
    method UpdateProfile(header: Option<string>, body: Record, verify: Verifier, now: string)
      returns (resp: Response)
      modifies this
      ensures tokens == old(tokens)
      ensures match Authenticate(header, verify)
        case NoToken => resp == Response(401, Message("No token provided")) && users == old(users)
        case InvalidToken => resp == Response(401, Message("Invalid token")) && users == old(users)
        case Verified(id) =>
          var i := FindIndex(old(users), IdIs(id));
          if i == -1 then
            resp == Response(404, Message("User not found")) && users == old(users)
          else
            && |users| == |old(users)|
            && users[i] == Merged(old(users)[i], body, now)
            && (forall j :: 0 <= j < |users| && j != i ==> users[j] == old(users)[j])
            && resp == Response(200, users[i])
    {
      match Authenticate(header, verify)
      case NoToken =>
        resp := Response(401, Message("No token provided"));
      case InvalidToken =>
        resp := Response(401, Message("Invalid token"));
      case Verified(id) =>
        var i := FindIndex(users, IdIs(id));
        if i == -1 {
          return Response(404, Message("User not found"));
        }
        var updated := Merged(users[i], body, now);
        users := users[i := updated];
        resp := Response(200, updated);
    }

    /** DELETE /auth/account: removes every user with the token's userId and
        every token record issued to that id. */
    method DeleteAccount(header: Option<string>, verify: Verifier) returns (resp: Response)
      modifies this
      ensures match Authenticate(header, verify)
        case NoToken =>
          resp == Response(401, Message("No token provided")) && users == old(users) && tokens == old(tokens)
        case InvalidToken =>
          resp == Response(401, Message("Invalid token")) && users == old(users) && tokens == old(tokens)
        case Verified(id) =>
          && users == Filter(old(users), Not(IdIs(id)))
          && tokens == Filter(old(tokens), Not(IssuedTo(id)))
          && resp == Response(200, Message("Account deleted successfully"))
      ensures EmailsDistinct(old(users)) ==> EmailsDistinct(users)
    {
      match Authenticate(header, verify)
      case NoToken =>
        resp := Response(401, Message("No token provided"));
      case InvalidToken =>
        resp := Response(401, Message("Invalid token"));
      case Verified(id) =>
        if EmailsDistinct(users) {
          FilterKeepsEmailsDistinct(users, Not(IdIs(id)));
        }
        users := Filter(users, Not(IdIs(id)));
        tokens := Filter(tokens, Not(IssuedTo(id)));
        resp := Response(200, Message("Account deleted successfully"));
    }
  }
}
