/**
 * The authentication gate of middleware/authentication.ts: takes the bearer
 * token out of the `authorization` header, refuses a missing token (401), a
 * revoked one (403) and one the verifier rejects (403), and otherwise stores
 * the decoded claims on the request.
 */
module Authentication {
  import opened Wrappers
  import RevokeToken

  /** The claims the core reads from a verified token; absent fields are `None`. */
  datatype Claims = Claims(id: Option<int>, email: Option<string>, role: Option<string>)

  /** What `verify` returns: `JwtPayload | string`. */
  datatype Decoded = TextPayload(text: string) | ClaimsPayload(claims: Claims)

  /** The request: its `authorization` header, and `user`, set by the gate. */
  class Request {
    const header: Option<string>
    var user: Option<Decoded>

    constructor (header: Option<string>)
      ensures this.header == header && user == None
    {
      this.header := header;
      user := None;
    }
  }

  /** The response: its status code and the body `end` wrote, if it was called. */
  class Response {
    var statusCode: int
    var body: Option<string>

    constructor ()
      ensures statusCode == 200 && body == None
    {
      statusCode := 200;
      body := None;
    }
  }

  const UnauthorizedBody: string := "{\"error\":\"Unauthorized\"}"
  const ForbiddenBody: string := "{\"error\":\"Forbidden\"}"

  const Space: char := ' '

  /** JavaScript's `s.split(" ")`: the pieces between spaces, empty ones included. */
  function Split(s: string): (parts: seq<string>)
    ensures |parts| >= 1
    ensures forall i :: 0 <= i < |parts| ==> Space !in parts[i]
    decreases |s|
  {
    if s == [] then [[]]
    else
      var rest := Split(s[1..]);
      if s[0] == Space then [[]] + rest
      else [[s[0]] + rest[0]] + rest[1..]
  }

  /** The pieces glued back together with one space between neighbours. */
  function Join(parts: seq<string>): string
    requires |parts| >= 1
    decreases |parts|
  {
    if |parts| == 1 then parts[0] else parts[0] + [Space] + Join(parts[1..])
  }

  /** Splitting loses nothing: rejoining the pieces gives the string back. */
  lemma {:induction false} JoinSplit(s: string)
    ensures Join(Split(s)) == s
    decreases |s|
  {
    if s != [] {
      JoinSplit(s[1..]);
      var rest := Split(s[1..]);
      if s[0] == Space {
        assert ([[]] + rest)[1..] == rest;
      } else {
        var parts := Split(s);
        assert parts[0] == [s[0]] + rest[0];
        if |rest| == 1 {
          assert s == [s[0]] + s[1..];
        } else {
          assert parts[1..] == rest[1..];
          assert Join(rest) == rest[0] + [Space] + Join(rest[1..]);
        }
      }
    }
  }

  /** A piece of text without spaces splits into itself alone. */
  lemma {:induction false} SplitNoSpace(s: string)
    requires Space !in s
    ensures Split(s) == [s]
    decreases |s|
  {
    if s != [] {
      SplitNoSpace(s[1..]);
      assert [s[0]] + s[1..] == s;
    }
  }

  /** A space ends the first piece: what follows is split on its own. */
  lemma {:induction false} SplitAtSpace(a: string, b: string)
    requires Space !in a
    ensures Split(a + [Space] + b) == [a] + Split(b)
    decreases |a|
  {
    if a == [] {
      assert a + [Space] + b == [Space] + b;
      assert ([Space] + b)[1..] == b;
    } else {
      SplitAtSpace(a[1..], b);
      assert (a + [Space] + b)[1..] == a[1..] + [Space] + b;
      assert [a[0]] + a[1..] == a;
    }
  }

  /** A string with a space in it splits into at least two pieces. */
  lemma SplitWithSpace(s: string)
    requires Space in s
    ensures |Split(s)| >= 2
  {
  }

  /**
   * `authHeader && authHeader.split(" ")[1]`: no header gives no token; the
   * empty header short-circuits to the empty token; otherwise the second piece,
   * if there is one.
   */
  function ExtractToken(header: Option<string>): Option<string>
  {
    match header
    case None => None
    case Some(h) =>
      if h == [] then Some([])
      else
        var parts := Split(h);
        if |parts| >= 2 then Some(parts[1]) else None
  }

  /** The token is missing exactly when the header is, or is a non-empty string without a space. */
  lemma ExtractTokenMissing(header: Option<string>)
    ensures ExtractToken(header).None? <==> header.None? || (header.value != [] && Space !in header.value)
  {
    if header.Some? && header.value != [] {
      if Space in header.value {
        SplitWithSpace(header.value);
      } else {
        SplitNoSpace(header.value);
      }
    }
  }

  /** `Bearer <t>` (and any scheme followed by a space and a space-free token) gives back `t`. */
  lemma ExtractBearer(scheme: string, t: string, tail: string)
    requires Space !in scheme && Space !in t
    requires tail == [] || tail[0] == Space
    ensures ExtractToken(Some(scheme + [Space] + t + tail)) == Some(t)
  {
    var h := scheme + [Space] + t + tail;
    assert h == scheme + [Space] + (t + tail);
    SplitAtSpace(scheme, t + tail);
    if tail == [] {
      assert t + tail == t;
      SplitNoSpace(t);
    } else {
      assert t + tail == t + [Space] + tail[1..];
      SplitAtSpace(t, tail[1..]);
    }
  }

  /** The empty header and `"Bearer "` both yield the empty token, which is not a missing one. */
  lemma EmptyTokenIsPresent()
    ensures ExtractToken(Some("")) == Some("")
    ensures ExtractToken(Some("Bearer ")) == Some("")
  {
  }

  /** The outcome of the gate: proceed with the claims, or reject with a status and a body. */
  datatype AuthOutcome = Authenticated(claims: Decoded) | Rejected(status: int, body: string)

  /**
   * The decision `authenticateToken` takes, in its order: token present, not
   * revoked, then verified. `verify` is the token library's check, `None` on failure.
   */
  function Authenticate(header: Option<string>, revoked: set<string>, verify: string -> Option<Decoded>): AuthOutcome
  {
    match ExtractToken(header)
    case None => Rejected(401, UnauthorizedBody)
    case Some(t) =>
      if t in revoked then Rejected(403, ForbiddenBody)
      else match verify(t)
        case None => Rejected(403, ForbiddenBody)
        case Some(d) => Authenticated(d)
  }

  /** Success exactly when the token is present, not revoked and verifies; the claims are the verifier's. */
  lemma AuthenticatedExactly(header: Option<string>, revoked: set<string>, verify: string -> Option<Decoded>)
    ensures Authenticate(header, revoked, verify).Authenticated? <==>
      ExtractToken(header).Some? && ExtractToken(header).value !in revoked && verify(ExtractToken(header).value).Some?
    ensures Authenticate(header, revoked, verify).Authenticated? ==>
      Authenticate(header, revoked, verify).claims == verify(ExtractToken(header).value).value
    ensures Authenticate(header, revoked, verify).Rejected? ==>
      Authenticate(header, revoked, verify).status in {401, 403}
  {
  }

  /** A missing header, or a non-empty one without a space, is refused with 401. */
  lemma MissingTokenIsUnauthorized(header: Option<string>, revoked: set<string>, verify: string -> Option<Decoded>)
    requires header.None? || (header.value != [] && Space !in header.value)
    ensures Authenticate(header, revoked, verify) == Rejected(401, UnauthorizedBody)
  {
    ExtractTokenMissing(header);
  }

  /** 401 is given for a missing token and for nothing else. */
  lemma UnauthorizedOnlyForMissingToken(header: Option<string>, revoked: set<string>, verify: string -> Option<Decoded>)
    ensures Authenticate(header, revoked, verify) == Rejected(401, UnauthorizedBody) <==>
      header.None? || (header.value != [] && Space !in header.value)
  {
    ExtractTokenMissing(header);
  }

  /**
   * Revocation is checked first: a revoked token is refused with 403 whatever
   * the verifier would say about it.
   */
  lemma RevokedIgnoresVerifier(header: Option<string>, revoked: set<string>, v1: string -> Option<Decoded>, v2: string -> Option<Decoded>)
    requires ExtractToken(header).Some? && ExtractToken(header).value in revoked
    ensures Authenticate(header, revoked, v1) == Rejected(403, ForbiddenBody)
    ensures Authenticate(header, revoked, v1) == Authenticate(header, revoked, v2)
  {
  }

  /** A present, unrevoked token the verifier rejects is refused with 403. */
  lemma UnverifiedIsForbidden(header: Option<string>, revoked: set<string>, verify: string -> Option<Decoded>)
    requires ExtractToken(header).Some? && ExtractToken(header).value !in revoked
    requires verify(ExtractToken(header).value).None?
    ensures Authenticate(header, revoked, verify) == Rejected(403, ForbiddenBody)
  {
  }

  /** After logout revokes `t`, presenting `Bearer t` is refused with 403, even if `t` still verifies. */
  lemma LoggedOutTokenIsForbidden(t: string, revoked: set<string>, verify: string -> Option<Decoded>)
    requires Space !in t
    ensures Authenticate(Some("Bearer " + t), revoked + {t}, verify) == Rejected(403, ForbiddenBody)
  {
    ExtractBearer("Bearer", t, "");
    assert "Bearer" + [Space] + t + "" == "Bearer " + t;
  }

  /** Revoking more tokens never lets a request through that was refused, and never changes an accepted one's claims. */
  lemma MoreRevocationOnlyRefuses(header: Option<string>, r1: set<string>, r2: set<string>, verify: string -> Option<Decoded>)
    requires r1 <= r2
    ensures Authenticate(header, r2, verify).Authenticated? ==> Authenticate(header, r1, verify) == Authenticate(header, r2, verify)
  {
  }

  /**
   * `authenticateToken(req, res)`: returns whether the request may proceed;
   * on success only `req.user` changes, on refusal only the response.
   */
  method AuthenticateToken(req: Request, res: Response, registry: RevokeToken.RevocationRegistry, verify: string -> Option<Decoded>)
    returns (ok: bool)
    modifies req, res
    ensures var outcome := Authenticate(req.header, registry.revoked, verify);
      && (ok <==> outcome.Authenticated?)
      && (ok ==> req.user == Some(outcome.claims) && res.statusCode == old(res.statusCode) && res.body == old(res.body))
      && (!ok ==> req.user == old(req.user) && res.statusCode == outcome.status && res.body == Some(outcome.body))
  {
    var token := ExtractToken(req.header);
    if token.None? {
      res.statusCode := 401;
      res.body := Some(UnauthorizedBody);
      return false;
    }
    var isRevoked := registry.IsTokenRevoked(token.value);
    if isRevoked {
      res.statusCode := 403;
      res.body := Some(ForbiddenBody);
      return false;
    }
    var decoded := verify(token.value);
    if decoded.None? {
      res.statusCode := 403;
      res.body := Some(ForbiddenBody);
      return false;
    }
    req.user := Some(decoded.value);
    ok := true;
  }
}
