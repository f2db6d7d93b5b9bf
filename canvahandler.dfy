/** The request handler of api/canva.js: prefix routing, the authorization
    redirect of the PKCE flow (RFC 7636) with its verifier and state cookies,
    and the anti-CSRF guard on the callback (section 10.12 of RFC 6749).
    Random bytes, SHA-256 and the percent codec are parameters. */
module CanvaHandler {
  import opened Wrappers
  import opened JsString
  import opened Base64Url
  import opened Cookies

  // ---- Routing ----

  const AuthPrefix := "/api/canva/auth"
  const CallbackPrefix := "/api/canva/callback"

  datatype Route = Auth | Callback | Elsewhere

  /** The route a request URL takes; both tests are `startsWith`, tried in
      the order the handler tries them. */
  function RouteOf(url: string): Route {
    if AuthPrefix <= url then Auth
    else if CallbackPrefix <= url then Callback
    else Elsewhere
  }

  /** No URL starts with both prefixes (they part at position 11, `a`
      against `c`), so the order of the two tests does not matter: each
      route is taken exactly when its own prefix matches. */
  lemma RouteOfPrefix(url: string)
    ensures RouteOf(url) == Auth <==> AuthPrefix <= url
    ensures RouteOf(url) == Callback <==> CallbackPrefix <= url
    ensures RouteOf(url) == Elsewhere <==> !(AuthPrefix <= url) && !(CallbackPrefix <= url)
  {
    assert AuthPrefix <= url ==> |url| > 11 && url[11] == 'a';
    assert CallbackPrefix <= url ==> |url| > 11 && url[11] == 'c';
  }

  /** `startsWith` accepts any continuation: a longer path under a prefix
      takes that prefix's route. */
  lemma RouteOfExtension(prefix: string, rest: string)
    requires prefix == AuthPrefix || prefix == CallbackPrefix
    ensures RouteOf(prefix + rest) == (if prefix == AuthPrefix then Auth else Callback)
  {
    RouteOfPrefix(prefix + rest);
    assert (prefix + rest)[..|prefix|] == prefix;
  }

  // ---- The authorization request ----

  /** The `process.env` values the handler reads; `None` for an unset one. */
  datatype Env = Env(
    clientId: Option<string>,       // CANVA_CLIENT_ID
    redirectUri: Option<string>,    // REDIRECT_URI
    scopes: Option<string>,         // SCOPES
    authEndpoint: Option<string>)   // CANVA_AUTH_ENDPOINT

  /** How an environment value renders in `URLSearchParams` and in a template
      literal: an unset variable becomes the text `undefined`. */
  function EnvString(v: Option<string>): string {
    v.GetOr("undefined")
  }

  /** The object handed to `URLSearchParams`, as its ordered key/value list. */
  function AuthParams(env: Env, state: string, challenge: string): seq<(string, string)> {
    [ ("response_type", "code"),
      ("client_id", EnvString(env.clientId)),
      ("redirect_uri", EnvString(env.redirectUri)),
      ("scope", EnvString(env.scopes)),
      ("state", state),
      ("code_challenge", challenge),
      ("code_challenge_method", "S256") ]
  }

  /** `URLSearchParams.get`: the value of the first pair with that key. */
  function ParamValue(ps: seq<(string, string)>, key: string): (r: Option<string>)
    ensures r.None? <==> forall i :: 0 <= i < |ps| ==> ps[i].0 != key
    ensures r.Some? ==> exists i :: 0 <= i < |ps| && ps[i] == (key, r.value)
                                    && forall j :: 0 <= j < i ==> ps[j].0 != key
    decreases |ps|
  {
    if |ps| == 0 then None
    else if ps[0].0 == key then Some(ps[0].1)
    else
      var r := ParamValue(ps[1..], key);
      assert r.Some? ==> exists i :: 0 <= i < |ps| && ps[i] == (key, r.value)
                                     && forall j :: 0 <= j < i ==> ps[j].0 != key by {
        if r.Some? {
          var i :| 0 <= i < |ps[1..]| && ps[1..][i] == (key, r.value)
                   && forall j :: 0 <= j < i ==> ps[1..][j].0 != key;
          assert ps[i + 1] == (key, r.value);
        }
      }
      r
  }

  function Keys(ps: seq<(string, string)>): seq<string> {
    seq(|ps|, i requires 0 <= i < |ps| => ps[i].0)
  }

  /** The first pair with a key is the one `get` finds. */
  lemma ParamValueAt(ps: seq<(string, string)>, i: nat)
    requires i < |ps| && forall j :: 0 <= j < i ==> ps[j].0 != ps[i].0
    ensures ParamValue(ps, ps[i].0) == Some(ps[i].1)
  {
    var r := ParamValue(ps, ps[i].0);
    assert r.Some?;
    var k :| 0 <= k < |ps| && ps[k] == (ps[i].0, r.value) && forall j :: 0 <= j < k ==> ps[j].0 != ps[i].0;
    assert !(k < i) && !(i < k);
  }

  /** The request carries each of the seven parameters once, in the order
      they are written. */
  lemma AuthParamsKeys(env: Env, state: string, challenge: string)
    ensures var ps := AuthParams(env, state, challenge);
      && Keys(ps) == ["response_type", "client_id", "redirect_uri", "scope", "state",
                      "code_challenge", "code_challenge_method"]
      && (forall i, j :: 0 <= i < j < |ps| ==> ps[i].0 != ps[j].0)
  {
    assert "scope"[1] != "state"[1];
  }

  /** `get` on the request finds the authorization-code response type, the
      state, the challenge and the `S256` method. */
  lemma AuthParamsFlow(env: Env, state: string, challenge: string)
    ensures var ps := AuthParams(env, state, challenge);
      && ParamValue(ps, "response_type") == Some("code")
      && ParamValue(ps, "state") == Some(state)
      && ParamValue(ps, "code_challenge") == Some(challenge)
      && ParamValue(ps, "code_challenge_method") == Some("S256")
  {
    var ps := AuthParams(env, state, challenge);
    AuthParamsKeys(env, state, challenge);
    assert ParamValue(ps, "response_type") == Some("code") by { ParamValueAt(ps, 0); }
    assert ParamValue(ps, "state") == Some(state) by { ParamValueAt(ps, 4); }
    assert ParamValue(ps, "code_challenge") == Some(challenge) by { ParamValueAt(ps, 5); }
    assert ParamValue(ps, "code_challenge_method") == Some("S256") by { ParamValueAt(ps, 6); }
  }

  /** `get` on the request finds the client id, the redirect URI and the
      scopes as the environment values render. */
  lemma AuthParamsConfig(env: Env, state: string, challenge: string)
    ensures var ps := AuthParams(env, state, challenge);
      && ParamValue(ps, "client_id") == Some(EnvString(env.clientId))
      && ParamValue(ps, "redirect_uri") == Some(EnvString(env.redirectUri))
      && ParamValue(ps, "scope") == Some(EnvString(env.scopes))
  {
    var ps := AuthParams(env, state, challenge);
    AuthParamsKeys(env, state, challenge);
    assert ParamValue(ps, "client_id") == Some(EnvString(env.clientId)) by { ParamValueAt(ps, 1); }
    assert ParamValue(ps, "redirect_uri") == Some(EnvString(env.redirectUri)) by { ParamValueAt(ps, 2); }
    assert ParamValue(ps, "scope") == Some(EnvString(env.scopes)) by { ParamValueAt(ps, 3); }
  }

  // ---- PKCE ----

  /** The UTF-8 encoding of one Unicode scalar value (section 3 of RFC 3629):
      one byte below U+0080, otherwise a lead byte carrying the high bits
      followed by one to three continuation bytes `10xxxxxx` of six bits each. */
  function Utf8Char(c: char): (b: seq<byte>)
    ensures 1 <= |b| <= 4
    ensures |b| == 1 <==> c as int < 0x80
  {
    var n := c as int;
    if n < 0x80 then [n]
    else if n < 0x800 then [0xC0 + n / 0x40, 0x80 + n % 0x40]
    else if n < 0x1_0000 then [0xE0 + n / 0x1000, 0x80 + n / 0x40 % 0x40, 0x80 + n % 0x40]
    else [0xF0 + n / 0x4_0000, 0x80 + n / 0x1000 % 0x40, 0x80 + n / 0x40 % 0x40, 0x80 + n % 0x40]
  }

  /** The lead byte announces the length of the sequence (the table of
      section 3 of RFC 3629). */
  predicate LeadOf(x: byte, len: nat) {
    if len == 1 then x < 0x80
    else if len == 2 then 0xC0 <= x < 0xE0
    else if len == 3 then 0xE0 <= x < 0xF0
    else len == 4 && 0xF0 <= x < 0xF8
  }

  predicate IsContinuation(x: byte) {
    0x80 <= x < 0xC0
  }

  /** The scalar value a well-formed sequence of 1 to 4 bytes carries. */
  function Utf8Value(b: seq<byte>): int
    requires 1 <= |b| <= 4
  {
    var x0: int := b[0];
    if |b| == 1 then x0
    else if |b| == 2 then (x0 - 0xC0) * 0x40 + (b[1] as int - 0x80)
    else if |b| == 3 then (x0 - 0xE0) * 0x1000 + (b[1] as int - 0x80) * 0x40 + (b[2] as int - 0x80)
    else (x0 - 0xF0) * 0x4_0000 + (b[1] as int - 0x80) * 0x1000 + (b[2] as int - 0x80) * 0x40 + (b[3] as int - 0x80)
  }

  /** The encoding of a character is well formed, as short as possible, and
      decodes back to that character. */
  lemma Utf8CharDecodes(c: char)
    ensures var b := Utf8Char(c);
      && LeadOf(b[0], |b|)
      && (forall k :: 1 <= k < |b| ==> IsContinuation(b[k]))
      && Utf8Value(b) == c as int
      && (|b| == 2 ==> 0x80 <= c as int)
      && (|b| == 3 ==> 0x800 <= c as int)
      && (|b| == 4 ==> 0x1_0000 <= c as int)
  {
    var n := c as int;
    if n < 0x80 {
    } else if n < 0x800 {
      SplitSix(n);
    } else if n < 0x1_0000 {
      SplitSix(n);
      SplitSix(n / 0x40);
      assert n / 0x40 / 0x40 == n / 0x1000;
    } else {
      SplitSix(n);
      SplitSix(n / 0x40);
      SplitSix(n / 0x1000);
      assert n / 0x40 / 0x40 == n / 0x1000;
      assert n / 0x1000 / 0x40 == n / 0x4_0000;
    }
  }

  /** Six low bits split off a number. */
  lemma SplitSix(n: nat)
    ensures n == n / 0x40 * 0x40 + n % 0x40
  {
  }

  /** The bytes `hash.update` takes from a string: its UTF-8 encoding. */
  function Utf8(s: string): (b: seq<byte>)
    ensures |s| <= |b| <= 4 * |s|
    decreases |s|
  {
    if |s| == 0 then [] else Utf8Char(s[0]) + Utf8(s[1..])
  }

  predicate IsAscii(s: string) {
    forall i :: 0 <= i < |s| ==> s[i] as int < 128
  }

  /** ASCII text is encoded one byte per character, each byte the
      character's code. */
  lemma {:induction false} Utf8OfAscii(s: string)
    requires IsAscii(s)
    ensures |Utf8(s)| == |s|
    ensures forall i :: 0 <= i < |s| ==> Utf8(s)[i] == s[i] as int
    decreases |s|
  {
    if |s| > 0 {
      Utf8OfAscii(s[1..]);
      assert Utf8(s) == [s[0] as int] + Utf8(s[1..]);
    }
  }

  /** A base64url text is ASCII. */
  lemma B64UrlAscii(buf: seq<byte>)
    ensures IsAscii(B64Url(buf))
  {
    B64UrlAlphabet(buf);
  }

  /** `b64url(sha256(code_verifier))`, the `S256` method of section 4.2 of
      RFC 7636, with SHA-256 as a parameter. */
  function CodeChallenge(verifier: seq<byte>, sha256: seq<byte> -> seq<byte>): string {
    B64Url(sha256(Utf8(B64Url(verifier))))
  }

  /** The unreserved characters of section 4.1 of RFC 7636. */
  predicate IsUnreserved(c: char) {
    ('A' <= c <= 'Z') || ('a' <= c <= 'z') || ('0' <= c <= '9')
    || c == '-' || c == '.' || c == '_' || c == '~'
  }

  /** From 64 random bytes the verifier has 86 unreserved characters, inside
      the 43 to 128 that section 4.1 of RFC 7636 allows, hashed as 86 UTF-8
      bytes; a 32-byte digest gives a 43-character challenge; 16 bytes of
      state give 22 characters. */
  lemma PkceShapes(verifier: seq<byte>, stateBytes: seq<byte>, sha256: seq<byte> -> seq<byte>)
    requires |verifier| == 64 && |stateBytes| == 16
    requires forall m :: |sha256(m)| == 32
    ensures var v := B64Url(verifier);
      && |v| == 86 && 43 <= |v| <= 128
      && (forall i :: 0 <= i < |v| ==> IsUnreserved(v[i]))
    ensures |Utf8(B64Url(verifier))| == 86
    ensures |CodeChallenge(verifier, sha256)| == 43
    ensures AllUrlSymbols(CodeChallenge(verifier, sha256))
    ensures |B64Url(stateBytes)| == 22
  {
    B64UrlLength(verifier);
    B64UrlAlphabet(verifier);
    B64UrlLength(stateBytes);
    B64UrlAscii(verifier);
    Utf8OfAscii(B64Url(verifier));
    var digest := sha256(Utf8(B64Url(verifier)));
    B64UrlLength(digest);
    B64UrlAlphabet(digest);
  }

  // ---- The callback guard ----

  /** JavaScript truthiness of a query value or a cookie: present and not
      the empty string. */
  predicate Truthy(v: Option<string>) {
    v.Some? && v.value != ""
  }

  /** `cookies[name]`: the entry of the dictionary, `undefined` when absent. */
  function Lookup(jar: map<string, string>, name: string): Option<string> {
    if name in jar then Some(jar[name]) else None
  }

  datatype Decision = Reject | Accept(code: string, verifier: string)

  /** The test at line 62: reject (status 400) unless the code, the state,
      the `st` cookie and the `cv` cookie are all truthy and the state is
      exactly the `st` cookie. */
  function CallbackGuard(code: Option<string>, state: Option<string>, jar: map<string, string>): Decision {
    var stateCookie := Lookup(jar, "st");
    var codeVerifier := Lookup(jar, "cv");
    if !Truthy(code) || !Truthy(state) || !Truthy(stateCookie) || !Truthy(codeVerifier)
       || state.value != stateCookie.value
    then Reject
    else Accept(code.value, codeVerifier.value)
  }

  /** The guard accepts exactly when all four values are present and
      non-empty and the state matches the `st` cookie, and then hands on the
      code and the `cv` cookie. */
  lemma CallbackGuardAccepts(code: Option<string>, state: Option<string>, jar: map<string, string>)
    ensures var d := CallbackGuard(code, state, jar);
      d.Accept? <==> && code.Some? && code.value != ""
                     && state.Some? && state.value != ""
                     && "st" in jar && "cv" in jar && jar["cv"] != ""
                     && jar["st"] == state.value
    ensures var d := CallbackGuard(code, state, jar);
      d.Accept? ==> d.code == code.value && d.verifier == jar["cv"]
  {
  }

  /** A state for which no `st` cookie was issued is refused, and so is one
      that differs from the cookie. */
  lemma CallbackGuardRejects(code: Option<string>, state: Option<string>, jar: map<string, string>)
    ensures "st" !in jar ==> CallbackGuard(code, state, jar) == Reject
    ensures "cv" !in jar ==> CallbackGuard(code, state, jar) == Reject
    ensures state.Some? && "st" in jar && state.value != jar["st"] ==> CallbackGuard(code, state, jar) == Reject
    ensures state.None? || code.None? ==> CallbackGuard(code, state, jar) == Reject
  {
  }

  // ---- The handler ----

  /** What the handler needs of a request: its URL, its `Cookie:` header, and
      the `code` and `state` query values (`URL` parsing is not modelled). */
  datatype Request = Request(url: string, cookie: Option<string>, code: Option<string>, state: Option<string>)

  datatype Outcome =
    | Redirect(endpoint: string, params: seq<(string, string)>)  // 302 to endpoint?params
    | BadRequest                                              // 400 from the guard
    | Exchange(code: string, verifier: string)                // on to the token exchange
    | DecodeFailed                                            // getCookies threw
    | Unrouted                                                // neither prefix

  /** The cookie lines the handler appends, in order. */
  function IssuedCookies(req: Request, verifier: seq<byte>, stateBytes: seq<byte>, encode: string -> string): seq<string> {
    if RouteOf(req.url) == Auth then
      [ SetCookieLine("cv", B64Url(verifier), encode, DefaultMaxAge),
        SetCookieLine("st", B64Url(stateBytes), encode, DefaultMaxAge) ]
    else []
  }

  /** What the handler answers. */
  function Respond(req: Request, env: Env, verifier: seq<byte>, stateBytes: seq<byte>,
                   sha256: seq<byte> -> seq<byte>, decode: string -> Option<string>): Outcome
  {
    match RouteOf(req.url)
    case Auth =>
      Redirect(EnvString(env.authEndpoint),
               AuthParams(env, B64Url(stateBytes), CodeChallenge(verifier, sha256)))
    case Callback =>
      (match CookieJar(req.cookie, decode)
       case None => DecodeFailed
       case Some(jar) =>
         match CallbackGuard(req.code, req.state, jar)
         case Reject => BadRequest
         case Accept(c, v) => Exchange(c, v))
    case Elsewhere => Unrouted
  }

  /** `handler(req, res)` up to line 64: `verifier` and `stateBytes` are the
      results of the two `crypto.randomBytes` calls. */
  method Handle(req: Request, res: Response, env: Env, verifier: seq<byte>, stateBytes: seq<byte>,
                sha256: seq<byte> -> seq<byte>, codec: UriCodec)
    returns (out: Outcome)
    modifies res
    ensures out == Respond(req, env, verifier, stateBytes, sha256, codec.decode)
    ensures res.setCookieHeader == old(res.setCookieHeader) + IssuedCookies(req, verifier, stateBytes, codec.encode)
  {
    var url := req.url;
    if AuthPrefix <= url {
      var codeVerifier := B64Url(verifier);
      var codeChallenge := CodeChallenge(verifier, sha256);
      var state := B64Url(stateBytes);
      res.SetCookie("cv", codeVerifier, codec);
      res.SetCookie("st", state, codec);
      var params := AuthParams(env, state, codeChallenge);
      return Redirect(EnvString(env.authEndpoint), params);
    }
    if CallbackPrefix <= url {
      var cookies := GetCookies(req.cookie, codec.decode);
      if cookies.None? {
        return DecodeFailed;
      }
      var stateCookie := Lookup(cookies.value, "st");
      var codeVerifier := Lookup(cookies.value, "cv");
      if !Truthy(req.code) || !Truthy(req.state) || !Truthy(stateCookie) || !Truthy(codeVerifier)
         || req.state.value != stateCookie.value {
        return BadRequest;
      }
      return Exchange(req.code.value, codeVerifier.value);
    }
    return Unrouted;
  }

  // ---- The round trip through the user agent ----

  /** The `Cookie:` header a user agent sends back after the authorization
      step stored the `cv` and `st` cookies. */
  function EchoOfAuth(verifier: seq<byte>, stateBytes: seq<byte>, encode: string -> string): string {
    EchoHeader([("cv", B64Url(verifier)), ("st", B64Url(stateBytes))], encode)
  }

  /** The echoed header parses to the two issued values. */
  lemma CookieJarOfAuth(verifier: seq<byte>, stateBytes: seq<byte>, codec: UriCodec)
    requires SoundCodec(codec)
    ensures CookieJar(Some(EchoOfAuth(verifier, stateBytes, codec.encode)), codec.decode)
         == Some(map["cv" := B64Url(verifier), "st" := B64Url(stateBytes)])
  {
    var pairs := [("cv", B64Url(verifier)), ("st", B64Url(stateBytes))];
    LetterNameIsCookieName("cv");
    LetterNameIsCookieName("st");
    CookieJarOfEcho(pairs, codec);
    assert pairs[..1] == [pairs[0]];
    assert pairs[..1][..0] == [];
  }

  /** The guard on the two issued cookies accepts exactly the issued state. */
  lemma GuardOfIssued(v: string, st: string, code: string, state: string)
    requires v != "" && st != "" && code != ""
    ensures CallbackGuard(Some(code), Some(state), map["cv" := v, "st" := st])
         == if state == st then Accept(code, v) else Reject
  {
  }

  /** A callback that brings back the issued cookies, the issued state and a
      code reaches the token exchange with the issued verifier; one that
      brings back any other state is refused with 400. */
  lemma CallbackAfterAuth(url: string, verifier: seq<byte>, stateBytes: seq<byte>,
                          code: string, state: string, env: Env,
                          sha256: seq<byte> -> seq<byte>, codec: UriCodec)
    requires SoundCodec(codec) && CallbackPrefix <= url
    requires |verifier| >= 1 && |stateBytes| >= 1 && code != ""
    ensures var req := Request(url, Some(EchoOfAuth(verifier, stateBytes, codec.encode)), Some(code), Some(state));
      Respond(req, env, verifier, stateBytes, sha256, codec.decode)
        == if state == B64Url(stateBytes) then Exchange(code, B64Url(verifier)) else BadRequest
  {
    var v, st := B64Url(verifier), B64Url(stateBytes);
    B64UrlLength(verifier);
    B64UrlLength(stateBytes);
    CookieJarOfAuth(verifier, stateBytes, codec);
    GuardOfIssued(v, st, code, state);
    RouteOfPrefix(url);
  }
}
