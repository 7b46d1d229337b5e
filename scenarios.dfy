/**
 Requests in sequence against one store, stating what a client observes across
 handlers. The verifier passed in is assumed to accept the tokens that were
 issued, with the user id they were signed for; no check of expiry or revocation
 is involved.
 */
module Scenarios {
  import opened Wrappers
  import opened Json
  import opened Lookup
  import opened Bearer
  import opened Decimal
  import opened Auth

  /** A fresh registration followed by a login with the same body finds the
      new user: the register check guarantees no earlier user has that email.
      This holds for an absent email too, since `undefined === undefined`. */
  method RegisterThenLogin(s: Store, body: Record, token1: string, token2: string, now: string)
    returns (reg: Response, login: Response)
    requires !Get(body, "email").Composite?
    requires !Any(s.users, EmailIs(Get(body, "email")))
    requires Truthy(Get(body, "password"))
    modifies s
    ensures reg.status == 200 && login.status == 200
    ensures |s.users| == |old(s.users)| + 1
    ensures login.body == s.users[|old(s.users)|]["token" := Str(token2)]
    ensures var id := Str(NatToDecimal(|old(s.users)| + 1));
      s.tokens == old(s.tokens) + [TokenRec(id, Str(token1)), TokenRec(id, Str(token2))]
  {
    ghost var before := s.users;
    reg := RegisterFresh(s, body, token1, now);
    FindAppended(before, s.users[|before|], EmailIs(Get(body, "email")));
    login := s.Login(body, token2);
  }

  /** A token issued at login, presented to /auth/me, identifies the first user
      carrying the logged-in user's id: the logged-in user itself, or an earlier
      user with the same id. */
  method LoginThenMe(s: Store, body: Record, token: string, verify: Verifier)
    returns (login: Response, me: Response)
    requires Find(s.users, EmailIs(Get(body, "email"))).Some?
    requires Truthy(Get(body, "password"))
    requires ' ' !in token && token != ""
    requires var u := Find(s.users, EmailIs(Get(body, "email"))).value;
      !Get(u, "id").Composite? && verify(token) == Some(Get(u, "id"))
    modifies s
    ensures s.users == old(s.users)
    ensures login.status == 200 && me.status == 200
    ensures var i := FindIndex(s.users, IdIs(Get(s.users[FindIndex(s.users, EmailIs(Get(body, "email")))], "id")));
      && 0 <= i <= FindIndex(s.users, EmailIs(Get(body, "email")))
      && me.body == s.users[i]
  {
    ghost var k := FindIndex(s.users, EmailIs(Get(body, "email")));
    ghost var id := Get(s.users[k], "id");
    assert IdIs(id)(s.users[k]);
    login := s.Login(body, token);
    AuthenticateBearer(token, verify);
    me := s.Me(Some("Bearer " + token), verify);
  }

  /** Logging out removes the token record but does not revoke the token:
      /auth/me answers the same before and after. */
  method LogoutDoesNotRevoke(s: Store, header: Option<string>, verify: Verifier)
    returns (before: Response, after: Response)
    modifies s
    ensures s.users == old(s.users)
    ensures after == before
  {
    before := s.Me(header, verify);
    var _ := s.Logout(header);
    after := s.Me(header, verify);
  }

  /** After an account is deleted, its still-valid token finds no user. */
  method DeleteThenMe(s: Store, header: Option<string>, verify: Verifier)
    returns (del: Response, me: Response)
    requires Authenticate(header, verify).Verified?
    modifies s
    ensures del.status == 200 && me == Response(404, Message("User not found"))
    ensures forall r :: r in s.tokens ==> !StrictEquals(r.userId, Authenticate(header, verify).userId)
  {
    del := s.DeleteAccount(header, verify);
    me := s.Me(header, verify);
  }

  /** Ids are not unique. In a table whose last user holds the id equal to
      its length, as registration alone would leave it, deleting any one other
      user and registering again hands out the last user's id a second time. */
  method DeleteThenRegisterReusesId(s: Store, header: Option<string>, verify: Verifier,
                                    body: Record, token: string, now: string)
    returns (del: Response, reg: Response)
    requires Authenticate(header, verify).Verified?
    requires |s.users| >= 1
    requires Get(s.users[|s.users| - 1], "id") == Str(NatToDecimal(|s.users|))
    requires !IdIs(Authenticate(header, verify).userId)(s.users[|s.users| - 1])
    requires |Filter(s.users, Not(IdIs(Authenticate(header, verify).userId)))| == |s.users| - 1
    requires !Any(s.users, EmailIs(Get(body, "email")))
    modifies s
    ensures del.status == 200 && reg.status == 200
    ensures |s.users| == |old(s.users)| >= 2
    ensures Get(s.users[|s.users| - 2], "id") == Get(s.users[|s.users| - 1], "id")
  {
    ghost var keep := Not(IdIs(Authenticate(header, verify).userId));
    ghost var before := s.users;
    AnyOfFilter(before, keep, EmailIs(Get(body, "email")));
    del := s.DeleteAccount(header, verify);
    ghost var mid := s.users;
    reg := RegisterFresh(s, body, token, now);
    RemovalThenAppendRepeatsId(before, keep, mid, s.users);
  }

  /** Registering an email no user has succeeds: it appends one user, whose
      id is the decimal text of the new table length, behind the earlier ones. */
  method RegisterFresh(s: Store, body: Record, token: string, now: string) returns (reg: Response)
    requires !Any(s.users, EmailIs(Get(body, "email")))
    modifies s
    ensures reg.status == 200
    ensures |s.users| == |old(s.users)| + 1 && s.users == old(s.users) + [s.users[|old(s.users)|]]
    ensures Get(s.users[|old(s.users)|], "id") == Str(NatToDecimal(|s.users|))
    ensures Get(s.users[|old(s.users)|], "email") == Get(body, "email")
    ensures s.tokens == old(s.tokens) + [TokenRec(Str(NatToDecimal(|s.users|)), Str(token))]
  {
    reg := s.Register(body, token, now);
    assert "email" in RegisterFields;
  }

  /** Dropping one user other than the last, whose id is the table length,
      and then appending a user whose id is the new table length, leaves two
      neighbouring users with the same id. */
  lemma RemovalThenAppendRepeatsId(users: seq<Record>, keep: Record -> bool,
                                   kept: seq<Record>, grown: seq<Record>)
    requires |users| >= 1 && keep(users[|users| - 1])
    requires Get(users[|users| - 1], "id") == Str(NatToDecimal(|users|))
    requires kept == Filter(users, keep) && |kept| == |users| - 1
    requires |grown| == |kept| + 1 && grown == kept + [grown[|kept|]]
    requires Get(grown[|kept|], "id") == Str(NatToDecimal(|grown|))
    ensures |grown| == |users| >= 2
    ensures Get(grown[|grown| - 2], "id") == Get(grown[|grown| - 1], "id")
  {
    FilterKeepsLast(users, keep);
    assert grown[|kept| - 1] == kept[|kept| - 1];
  }
}
