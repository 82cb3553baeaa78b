/**
 * The authentication middleware (middlewares/auth.middleware.ts): the Authorization
 * header is stripped of "Bearer ", decoded without checking its signature, and the `id`
 * claim is looked up; the request goes on only for an existing user.
 */
module AuthGate {
  import opened Wrappers
  import opened Tables
  import opened Entities
  import opened Http
  import opened Jwt
  import opened Strings

  /** `s.replace(pat, "")` with a string pattern: the first occurrence of `pat`, wherever
      it is, is removed (RemoveFirstAt); `s` is unchanged when `pat` does not occur. */
  function RemoveFirst(s: string, pat: string): (r: string)
    ensures |pat| <= |s| && s[..|pat|] == pat ==> r == s[|pat|..]
    ensures !Occurs(pat, s) ==> r == s
    ensures |r| == |s| || |r| == |s| - |pat|
    decreases |s|
  {
    if |pat| > |s| then s
    else if s[..|pat|] == pat then
      assert OccursAt(pat, s, 0);
      s[|pat|..]
    else
      OccursShift(pat, s);
      assert s == [s[0]] + s[1..];
      [s[0]] + RemoveFirst(s[1..], pat)
  }

  /** `i` is where `pat` first occurs in `s`. */
  ghost predicate FirstAt(pat: string, s: string, i: int) {
    OccursAt(pat, s, i) && forall j :: 0 <= j < i ==> !OccursAt(pat, s, j)
  }

  /** A first occurrence past the start is a first occurrence in the tail, one earlier. */
  lemma FirstAtTail(pat: string, s: string, i: int)
    requires FirstAt(pat, s, i) && i > 0
    ensures |pat| <= |s| && s[..|pat|] != pat
    ensures FirstAt(pat, s[1..], i - 1)
  {
    assert !OccursAt(pat, s, 0);
    assert s[1..][i - 1..i - 1 + |pat|] == s[i..i + |pat|];
    forall j | 0 <= j < i - 1 ensures !OccursAt(pat, s[1..], j) {
      assert !OccursAt(pat, s, j + 1);
      assert s[1..][j..j + |pat|] == s[j + 1..j + 1 + |pat|];
    }
  }

  /** Past a position where `pat` does not start, RemoveFirst keeps the head character. */
  lemma RemoveFirstTail(s: string, pat: string)
    requires |pat| <= |s| && s[..|pat|] != pat
    ensures RemoveFirst(s, pat) == [s[0]] + RemoveFirst(s[1..], pat)
  {
  }

  /** Cutting `k` characters at `i` out of the tail, with the head put back, is cutting
      them at `i` out of the whole. */
  lemma CutInTail(s: string, i: int, k: nat)
    requires 0 < i && i + k <= |s|
    ensures [s[0]] + (s[1..][..i - 1] + s[1..][i - 1 + k..]) == s[..i] + s[i + k..]
  {
    assert s[..i] == [s[0]] + s[1..][..i - 1];
    assert s[i + k..] == s[1..][i - 1 + k..];
  }

  /** RemoveFirst cuts out exactly the first occurrence. */
  lemma {:induction false} RemoveFirstAt(s: string, pat: string, i: int)
    requires FirstAt(pat, s, i)
    ensures RemoveFirst(s, pat) == s[..i] + s[i + |pat|..]
    decreases |s|
  {
    if i == 0 {
      assert s[..|pat|] == pat;
    } else {
      FirstAtTail(pat, s, i);
      calc {
        RemoveFirst(s, pat);
        == { RemoveFirstTail(s, pat); }
        [s[0]] + RemoveFirst(s[1..], pat);
        == { RemoveFirstAt(s[1..], pat, i - 1); }
        [s[0]] + (s[1..][..i - 1] + s[1..][i - 1 + |pat|..]);
        == { CutInTail(s, i, |pat|); }
        s[..i] + s[i + |pat|..];
      }
    }
  }

  const BEARER: string := "Bearer "

  /** A header "Bearer <token>" yields the token. */
  lemma BearerStripped(token: string)
    ensures RemoveFirst(BEARER + token, BEARER) == token
  {
    assert (BEARER + token)[..|BEARER|] == BEARER;
    assert (BEARER + token)[|BEARER|..] == token;
  }

  /** What the middleware decides: let the request on as `user`, or answer `status`. */
  datatype Decision = Admit(user: User) | Deny(status: int)

  /** The token text of a header. */
  function TokenOf(header: string): string { RemoveFirst(header, BEARER) }

  /**
   * The decision.  No (or an empty) header, a token that does not decode, and an `id` that
   * names no user are all 401; `findByPk` of a token without an `id` finds nothing without
   * asking the database.  When the lookup itself fails (`lookupFails`, a database error)
   * the answer is 500.
   */
  function Decide(header: Option<string>, users: seq<User>, parse: string -> Option<Token>,
                  lookupFails: bool): (d: Decision)
    ensures header.None? || header.value == "" ==> d == Deny(401)
    ensures header.Some? && JustDecode(TokenOf(header.value), parse).None? ==> d == Deny(401)
    ensures d.Admit? ==> (d.user in users && header.Some? &&
      JustDecode(TokenOf(header.value), parse) == Some(Claims(Some(d.user.id), JustDecode(TokenOf(header.value), parse).value.email)))
    ensures d == Deny(401) || d == Deny(500) || d.Admit?
    ensures header.Some? && header.value != "" && JustDecode(TokenOf(header.value), parse).Some? ==>
      var id := JustDecode(TokenOf(header.value), parse).value.id;
      (id.None? ==> d == Deny(401)) &&
      (id.Some? && lookupFails ==> d == Deny(500)) &&
      (id.Some? && !lookupFails && (forall u :: u in users ==> u.id != id.value) ==> d == Deny(401))
  {
    if header.None? || header.value == "" then Deny(401)
    else match JustDecode(TokenOf(header.value), parse)
      case None => Deny(401)
      case Some(claims) =>
        match claims.id
        case None => Deny(401)
        case Some(id) =>
          if lookupFails then Deny(500)
          else match FindFirst(users, UserWithId(id))
            case Some(u) => Admit(u)
            case None => Deny(401)
  }

  /** An existing user named by a decodable token is let on, and an id no user has is
      refused with 401. */
  lemma DecideByLookup(header: string, users: seq<User>, parse: string -> Option<Token>, id: int)
    requires header != "" && JustDecode(TokenOf(header), parse).Some?
    requires JustDecode(TokenOf(header), parse).value.id == Some(id)
    ensures (exists u :: u in users && u.id == id) <==> Decide(Some(header), users, parse, false).Admit?
    ensures !(exists u :: u in users && u.id == id) ==> Decide(Some(header), users, parse, false) == Deny(401)
    ensures Decide(Some(header), users, parse, true) == Deny(500)
  {
  }

  /** A header sent without "Bearer " is decoded as it stands: a bare token naming an
      existing user admits that user. */
  lemma BareTokenAdmitted(users: seq<User>, u: User, key: string, wire: string,
                          parse: string -> Option<Token>)
    requires u in users && DistinctBy(users, UserId)
    requires wire != "" && !Occurs(BEARER, wire)
    requires parse(wire) == Some(Token(Claims(Some(u.id), None), key))
    ensures Decide(Some(wire), users, parse, false) == Admit(u)
  {
    var found := FindFirst(users, UserWithId(u.id));
    DistinctByMembers(users, UserId, u, found.value);
  }

  /**
   * auth (auth.middleware.ts:8-31) on a request: for an admitted user `req.user` is set
   * and `next()` is called once; otherwise one response with the status is written and
   * `next` is not called.
   */
  method Auth(ex: Exchange, header: Option<string>, users: seq<User>,
              parse: string -> Option<Token>, lookupFails: bool)
    modifies ex`user, ex`nextCalls, ex`responses
    ensures var d := Decide(header, users, parse, lookupFails);
      (d.Admit? ==> ex.user == Some(d.user) && ex.nextCalls == old(ex.nextCalls) + 1 &&
                    ex.responses == old(ex.responses)) &&
      (d.Deny? ==> ex.user == old(ex.user) && ex.nextCalls == old(ex.nextCalls) &&
                   ex.responses == old(ex.responses) +
                     [Response(d.status, Some(if d.status == 401 then "Unauthorized" else "Internal Server Error"))])
  {
    var d := Decide(header, users, parse, lookupFails);
    match d
    case Admit(u) =>
      ex.user := Some(u);
      ex.Next();
    case Deny(status) =>
      ex.Send(status, Some(if status == 401 then "Unauthorized" else "Internal Server Error"));
  }

  /** As written, a token signed with any key, not only the server's, admits the user its
      `id` names: the signature is never checked. */
  lemma ForgedTokenAdmitted(users: seq<User>, u: User, key: string, secret: string,
                            wire: string, parse: string -> Option<Token>)
    requires u in users && DistinctBy(users, UserId)
    requires key != SigningKey(secret)
    requires wire != "" && parse(wire) == Some(Token(Claims(Some(u.id), None), key))
    ensures Decide(Some(BEARER + wire), users, parse, false) == Admit(u)
  {
    BearerStripped(wire);
    var found := FindFirst(users, UserWithId(u.id));
    DistinctByMembers(users, UserId, u, found.value);
  }

  /** The gate with the signature checked against the key tokens are issued with. */
  function DecideVerified(header: Option<string>, users: seq<User>, parse: string -> Option<Token>,
                          secret: string, lookupFails: bool): (d: Decision)
    ensures d.Admit? ==> (d.user in users && header.Some? &&
      parse(TokenOf(header.value)).Some? && parse(TokenOf(header.value)).value.key == SigningKey(secret) &&
      parse(TokenOf(header.value)).value.claims.id == Some(d.user.id))
  {
    if header.None? || header.value == "" then Deny(401)
    else match DecodeVersioned(TokenOf(header.value), parse, secret)
      case None => Deny(401)
      case Some(claims) =>
        match claims.id
        case None => Deny(401)
        case Some(id) =>
          if lookupFails then Deny(500)
          else match FindFirst(users, UserWithId(id))
            case Some(u) => Admit(u)
            case None => Deny(401)
  }

  /** With the check, a token signed with any other key is refused... */
  lemma ForgedTokenRefused(users: seq<User>, claims: Claims, key: string, secret: string,
                           header: string, parse: string -> Option<Token>, lookupFails: bool)
    requires parse(TokenOf(header)) == Some(Token(claims, key)) && key != SigningKey(secret)
    ensures DecideVerified(Some(header), users, parse, secret, lookupFails) == Deny(401)
  {
  }

  /** ...and a token the server issued to an existing user still admits that user. */
  lemma IssuedTokenAdmitted(users: seq<User>, u: User, secret: string, wire: string,
                            parse: string -> Option<Token>)
    requires u in users && DistinctBy(users, UserId)
    requires wire != "" && parse(wire) == Some(Encode(Claims(Some(u.id), None), secret))
    ensures DecideVerified(Some(BEARER + wire), users, parse, secret, false) == Admit(u)
  {
    BearerStripped(wire);
    var found := FindFirst(users, UserWithId(u.id));
    DistinctByMembers(users, UserId, u, found.value);
  }
}
