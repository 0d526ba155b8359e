/**
  The admin login check and the bearer-token gate in front of the mutating
  article routes (auth.js).  Signing and verifying a JSON Web Token
  (RFC 7519, done by the jsonwebtoken library) are not modelled: they are
  passed in as functions, `sign` from the claims to the token text (None when
  the library throws, as it does without a secret) and `verify` from a token
  to the claims it carries (None when the signature is wrong or the token has
  expired at the time of the call).
 */
module Auth {
  import opened JsBuiltins

  /** A field of the JSON login body: left out, a string, or any other JSON value. */
  datatype Field = Missing | Str(s: string) | NonString

  /** The two credentials read from the environment; an unset variable is None. */
  datatype Config = Config(adminUsername: Option<string>, adminPassword: Option<string>)

  /** The payload jsonwebtoken signs: the username (left out when undefined), issue time and expiry, in seconds. */
  datatype Claims = Claims(username: Option<string>, iat: int, exp: int)

  /** expiresIn: '8h'. */
  const TokenLifetime: int := 8 * 60 * 60

  const InvalidCredentialsMessage: string := "Invalid credentials"
  const NoTokenMessage: string := "No token provided"
  const InvalidTokenMessage: string := "Invalid or expired token"

  /** JavaScript `===` between a body field and an environment value (a string or undefined). */
  predicate StrictEquals(f: Field, v: Option<string>) {
    match f
    case Missing => v.None?
    case Str(s) => v == Some(s)
    case NonString => false
  }

  /** What `{ username: username }` puts in the payload. */
  function ClaimedName(f: Field): Option<string> {
    if f.Str? then Some(f.s) else None
  }

  datatype LoginReply =
    | TokenIssued(token: string)  // 200 {token}
    | InvalidCredentials          // 401 {message: 'Invalid credentials'}
    | SignFailed                  // the library threw: Express answers 500

  function LoginStatus(r: LoginReply): int {
    match r
    case TokenIssued(_) => 200
    case InvalidCredentials => 401
    case SignFailed => 500
  }

  /** The claims a successful login at time `now` signs. */
  function IssuedClaims(username: Field, now: int): (c: Claims)
    ensures c.exp - c.iat == TokenLifetime
  {
    Claims(ClaimedName(username), now, now + TokenLifetime)
  }

  /**
    POST /login: a token only when both body fields are strictly equal to the
    configured pair; every other combination gets the same 401.
   */
  function Login(username: Field, password: Field, config: Config, now: int,
                 sign: Claims -> Option<string>): (r: LoginReply)
    ensures r.InvalidCredentials? <==>
      !(StrictEquals(username, config.adminUsername) && StrictEquals(password, config.adminPassword))
    ensures r.TokenIssued? ==> sign(IssuedClaims(username, now)) == Some(r.token)
    ensures !r.InvalidCredentials? ==> IssuedClaims(username, now).username == config.adminUsername
    ensures r.SignFailed? ==> sign(IssuedClaims(username, now)).None?
  {
    if StrictEquals(username, config.adminUsername) && StrictEquals(password, config.adminPassword) then
      match sign(IssuedClaims(username, now))
      case Some(token) => TokenIssued(token)
      case None => SignFailed
    else
      InvalidCredentials
  }

  // ---------------------------------------------------------------------
  // verifyToken
  // ---------------------------------------------------------------------

  datatype Gate =
    | NoToken               // 401 {message: 'No token provided'}, next() not called
    | Rejected              // 403 {message: 'Invalid or expired token'}, next() not called
    | Proceed(user: Claims) // req.user = user; next() called once

  function GateStatus(g: Gate): Option<int> {
    match g
    case NoToken => Some(401)
    case Rejected => Some(403)
    case Proceed(_) => None
  }

  /**
    `authHeader && authHeader.split(' ')[1]`: the second space-separated field,
    whatever the first one says.  An empty header is falsy and is itself the result.
   */
  function TokenOf(header: Option<string>): (t: Option<string>)
    ensures t.Some? ==> ' ' !in t.value
    ensures header.None? ==> t.None?
    ensures header == Some("") ==> t == Some("")
  {
    match header
    case None => None
    case Some(h) =>
      if h == "" then Some("")
      else
        var fields := Split(h, ' ');
        if |fields| >= 2 then Some(fields[1]) else None
  }

  /**
    The gate: no token is 401; an empty token (jsonwebtoken refuses it before
    looking at it) or one the verifier rejects is 403; otherwise the request
    proceeds with the decoded payload as req.user.
   */
  function VerifyToken(header: Option<string>, verify: string -> Option<Claims>): (g: Gate)
    ensures g.NoToken? <==> TokenOf(header).None?
    ensures g.Rejected? <==> TokenOf(header).Some? && (TokenOf(header).value == "" || verify(TokenOf(header).value).None?)
    ensures g.Proceed? ==> TokenOf(header).Some? && verify(TokenOf(header).value) == Some(g.user)
  {
    match TokenOf(header)
    case None => NoToken
    case Some(token) =>
      if token == "" then Rejected
      else
        match verify(token)
        case None => Rejected
        case Some(user) => Proceed(user)
  }

  /** The token is the text after the first space, up to the next one. */
  lemma {:induction false} TokenIsSecondField(word: string, token: string, more: string)
    requires word != [] && ' ' !in word && ' ' !in token
    ensures TokenOf(Some(word + " " + token + more)) == Some(token) <==> more == [] || more[0] == ' '
  {
    var h := word + " " + token + more;
    assert h == word + [' '] + (token + more);
    SplitFirstWord(word, token + more, ' ');
    var rest := Split(token + more, ' ');
    if more == [] {
      assert token + more == token;
      SplitNoSep(token, ' ');
    } else if more[0] == ' ' {
      assert token + more == token + [' '] + more[1..];
      SplitFirstWord(token, more[1..], ' ');
    } else {
      SplitHeadLonger(token, more, ' ');
    }
  }

  /** The first word is never looked at: "Bearer", "Basic" or anything else gives the same outcome. */
  lemma FirstWordIgnored(w1: string, w2: string, rest: string, verify: string -> Option<Claims>)
    requires w1 != [] && w2 != [] && ' ' !in w1 && ' ' !in w2
    ensures VerifyToken(Some(w1 + " " + rest), verify) == VerifyToken(Some(w2 + " " + rest), verify)
  {
    assert w1 + " " + rest == w1 + [' '] + rest;
    assert w2 + " " + rest == w2 + [' '] + rest;
    SplitFirstWord(w1, rest, ' ');
    SplitFirstWord(w2, rest, ' ');
  }

  /** A header with no space in it has no second field: 401, not 403. */
  lemma OneWordHeader(h: string, verify: string -> Option<Claims>)
    requires h != [] && ' ' !in h
    ensures VerifyToken(Some(h), verify) == NoToken
  {
    SplitNoSep(h, ' ');
  }

  /**
    A logged-in admin gets through the gate: if the verifier accepts what the
    signer produced (a valid signature within the 8 hours), the token sent as
    "Bearer <token>" lets the request proceed as the configured user.
   */
  lemma LoginThenVerify(username: Field, password: Field, config: Config, now: int,
                        sign: Claims -> Option<string>, verify: string -> Option<Claims>)
    requires forall c :: sign(c).Some? ==> sign(c).value != "" && ' ' !in sign(c).value && verify(sign(c).value) == Some(c)
    requires Login(username, password, config, now, sign).TokenIssued?
    ensures var token := Login(username, password, config, now, sign).token;
      var g := VerifyToken(Some("Bearer " + token), verify);
      g.Proceed? && g.user.username == config.adminUsername && g.user.exp == now + TokenLifetime
  {
    var token := Login(username, password, config, now, sign).token;
    var c := IssuedClaims(username, now);
    assert sign(c) == Some(token);
    TokenIsSecondField("Bearer", token, []);
    assert "Bearer " + token == "Bearer" + " " + token + [];
  }
}
