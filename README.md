# canva-oauth: a Dafny model of the OAuth handler's core

`api/canva.js` is a serverless handler for an OAuth 2.0 authorization-code flow with PKCE
(RFC 7636). It answers two routes:

- `/api/canva/auth` makes a random code verifier and its `S256` challenge, plus a random
  state. It stores the verifier and the state in two cookies (`cv`, `st`) and redirects to
  the provider with the seven authorization parameters.
- `/api/canva/callback` reads the cookies back and refuses the request with 400 unless the
  returned `state` matches the `st` cookie. This is the anti-CSRF check of section 10.12 of
  RFC 6749.

This project models the pieces of logic inside the handler and proves what they promise:

- `b64url`, an unpadded base64url encoder;
- `setCookie`, which serialises a `Set-Cookie` line and appends it to the response's list;
- `getCookies`, a `Cookie:` header parser;
- prefix routing;
- the authorization parameter list;
- the callback guard;
- the handler itself, up to where the source file ends (line 64).

Modules:

- `Wrappers`: `Option`.
- `JsString`: the JavaScript string built-ins the handler uses, on `seq<char>`:
  - `indexOf` of one character;
  - `split` on one character;
  - `trim`, with the ECMAScript whitespace set;
  - the decimal rendering of an integer in a template literal.
- `Base64Url`:
  - `b64url` as the source writes it: standard padded base64 (RFC 4648 section 4), two global
    replacements, and padding stripped with `/=+$/`;
  - an independent reference encoder for the URL-safe alphabet of RFC 4648 section 5 without
    padding;
  - its decoder.
- `Cookies`:
  - the `reduce` callback and the `getCookies` loop, proved against a fold (`Collect`);
  - a `Response` class whose `Set-Cookie` list `setCookie` extends;
  - the lemmas that connect what `setCookie` writes to what `getCookies` reads back.
- `CanvaHandler`:
  - routing;
  - the `URLSearchParams` input list and `get`;
  - the UTF-8 encoding (RFC 3629) that `hash.update` applies to the verifier text;
  - the PKCE lengths;
  - the guard;
  - the `Handle` method, specified by the pure function `Respond`;
  - the end-to-end lemma: a callback carrying the cookies and the state issued by the
    authorization step reaches the token exchange with the issued verifier, and one with any
    other state gets 400.

Inputs that cannot be seen are parameters. The proofs assume about them only what "## Left out" lists:

- the two `crypto.randomBytes` buffers;
- SHA-256;
- the pair `encodeURIComponent`/`decodeURIComponent`, as a `UriCodec` value. `decode` returns
  `None` where `decodeURIComponent` throws.
- the `process.env` values, as `Option<string>`.

Where the flow's design description and the code differ, the model follows the code:

- Unset configuration. The design calls for a fatal configuration error. The code puts the
  text `undefined` into the query and into the redirect target (`EnvString`).
- Where flow state lives. The design calls for a server-side session store with expiry and
  exactly-once consumption of a `state`. The code keeps the verifier and the state in two
  cookies with `Max-Age=600`, and in the lines shown it never consumes or expires them.
  Replay and expiry are therefore not properties of this code, and none is claimed.
- A failed decode. `decodeURIComponent` throws on a malformed escape, and that throw escapes
  `getCookies` and the handler. The model gives this path its own outcome (`DecodeFailed`),
  not a 400.

## Model

| member | source | states |
|---|---|---|
| Base64Url.StripTrailing | api/canva.js:5 | `replace(/=+$/, "")` keeps a prefix of its input. Everything it drops is `=`. What it keeps does not end in `=`, so the whole trailing run goes. |
| Base64Url.BytesOfSextets | api/canva.js:5 | Cutting a quantum of 1 to 3 bytes into 6-bit groups loses nothing: the groups give the bytes back. |
| Base64Url.SextetsOfBytes | api/canva.js:5 | The groups that carry a byte quantum are the ones the encoder produces for it; unused low bits must be zero. |
| Base64Url.UrlAlphabetOfStdBase64 | api/canva.js:5 | Replacing `+` by `-` and `/` by `_` in standard base64 gives the unpadded URL-safe encoding followed by the standard padding. |
| Base64Url.UrlEncodeAlphabet | api/canva.js:4-5 | Every symbol of the unpadded encoding is in `A-Z a-z 0-9 - _`. |
| Base64Url.UrlEncodeLength | api/canva.js:4-5 | The unpadded encoding of n bytes has exactly ⌈4n/3⌉ symbols. |
| Base64Url.StripPadding | api/canva.js:5 | `/=+$/` removes a run of padding and nothing more when the text before it does not end in `=`. |
| Base64Url.B64UrlIsUrlEncode | api/canva.js:4-5 | `b64url` equals the reference unpadded base64url encoder. Standard base64 with the alphabet changed is `b64url` plus the padding. |
| Base64Url.B64UrlAlphabet | api/canva.js:4-5 | `b64url` output uses only the URL-safe alphabet, so it never holds `+`, `/` or `=`. |
| Base64Url.B64UrlLength | api/canva.js:4-5 | `b64url` output is ⌈4n/3⌉ characters: 86 for the 64-byte verifier, 43 for a 32-byte digest, 22 for the 16-byte state. |
| Base64Url.UrlDecodeEncode | api/canva.js:4-5 | The unpadded decoder of RFC 4648 section 5 inverts the reference encoder. |
| Base64Url.UrlEncodeDecode | api/canva.js:4-5 | Whatever the decoder accepts is exactly the encoding of what it returns, so it accepts only canonical text. |
| Base64Url.B64UrlRoundTrip | api/canva.js:4-5 | `b64url` round-trips with the decoder, and a text decodes to a buffer exactly when it is that buffer's `b64url`. |
| Base64Url.B64UrlInjective | api/canva.js:4-5 | Distinct buffers have distinct `b64url` texts. |
| JsString.IndexOf | api/canva.js:16 | `indexOf` returns -1 exactly when the character is absent. Otherwise it returns a position holding it, with no earlier occurrence. |
| JsString.Split | api/canva.js:15 | `split(";")` yields at least one part, and no part holds `;`. |
| JsString.JoinSplit | api/canva.js:15 | Joining the parts of a split with the separator gives the header back: `split` loses nothing. |
| JsString.SplitJoin | api/canva.js:15 | Splitting a join of separator-free parts yields exactly those parts, in order. |
| JsString.TrimBounds | api/canva.js:18-19 | `trim` keeps one slice `s[lo..hi]`. Everything before and after it is ECMAScript whitespace, and the slice neither starts nor ends with whitespace. |
| JsString.TrimIdempotent | api/canva.js:18-19 | Trimming a trimmed key or value changes nothing. |
| JsString.TrimNoWhitespace | api/canva.js:18-19 | A key or value without whitespace is its own trim. |
| JsString.DecimalRoundTrip | api/canva.js:9 | The `Max-Age` number the template literal renders reads back as the same integer (section 5.2.2 of RFC 6265). |
| Cookies.CookiePair | api/canva.js:16-19 | A part yields a key/value pair exactly when it holds an `=`. |
| Cookies.CookiePairFirstEquals | api/canva.js:16-18 | A part is cut at its first `=`, so the value keeps any later `=`. The key and the value are each trimmed. |
| Cookies.ReducePart | api/canva.js:15-22 | The `reduce` callback returns the accumulator with the part's pair added. A part without `=` leaves it unchanged, a `__proto__` key is ignored, and a value that fails to decode aborts. |
| Cookies.GetCookies | api/canva.js:13-24 | The loop over the `;`-separated parts of `req.headers.cookie \|\| ""` returns exactly the fold `CookieJar` of the header. |
| Cookies.CollectThrows | api/canva.js:19 | The parse fails exactly when some part with `=` has a value that `decodeURIComponent` rejects. |
| Cookies.CollectNames | api/canva.js:16-20 | The keys of the result are exactly the trimmed names of the parts that hold `=`, except `__proto__`. A part without `=` contributes no key. |
| Cookies.CollectLastWins | api/canva.js:20 | A key's value is the decoded value of the last part that carries that key. |
| Cookies.CookieJarOfNothing | api/canva.js:14 | A missing or empty `Cookie:` header gives the empty dictionary. |
| Cookies.Response.constructor | api/canva.js:10 | The `Set-Cookie` list of a fresh response is empty (the `\|\| []` case). |
| Cookies.Response.SetCookie | api/canva.js:8-11 | `setCookie` appends exactly one line, `SetCookieLine(name, value, maxAgeSec)` with `maxAgeSec` defaulting to 600, and keeps every earlier line in order. |
| Cookies.SetCookieLineAttributes | api/canva.js:9 | The line splits on `;` into the cookie pair, then ` Path=/`, ` HttpOnly`, ` Secure`, ` SameSite=Lax` and ` Max-Age=<n>`, in that order. |
| Cookies.SetCookieLineReadsBack | api/canva.js:9 | Read back, the line's pair parses to the name and the encoded value, the value decodes to what was set, and `Max-Age` reads as the given lifetime. |
| Cookies.CookieJarOfEcho | api/canva.js:8-24 | For the `Cookie:` header that a user agent builds from cookies set by `setCookie` (section 5.4 of RFC 6265), `getCookies` yields exactly the names mapped to their original values, the last one winning. |
| CanvaHandler.RouteOfPrefix | api/canva.js:28-53 | The auth route is taken exactly when the URL starts with `/api/canva/auth`, and the callback route exactly when it starts with `/api/canva/callback`. Otherwise neither is taken. No URL has both prefixes. |
| CanvaHandler.RouteOfExtension | api/canva.js:28-53 | Any path that continues a route's prefix takes that route. |
| CanvaHandler.ParamValue | api/canva.js:55-56 | `URLSearchParams.get` returns nothing exactly when no pair has the key. Otherwise it returns the value of the first pair with it. The model uses it to read back the authorization parameter list; the callback URL itself is not parsed. |
| CanvaHandler.AuthParamsKeys | api/canva.js:37-45 | The request carries `response_type`, `client_id`, `redirect_uri`, `scope`, `state`, `code_challenge` and `code_challenge_method`, each once, in that order. |
| CanvaHandler.AuthParamsFlow | api/canva.js:37-45 | The request asks for `response_type=code` and carries the generated state and challenge, with `code_challenge_method=S256`. |
| CanvaHandler.AuthParamsConfig | api/canva.js:39-41 | `client_id`, `redirect_uri` and `scope` are the environment values as they render, `undefined` when unset. |
| CanvaHandler.Utf8CharDecodes | api/canva.js:6 | The UTF-8 bytes of a character (section 3 of RFC 3629) are well formed: a lead byte announcing the length, then continuation bytes. The encoding is the shortest possible, and the bytes decode back to the character. |
| CanvaHandler.Utf8OfAscii | api/canva.js:30 | The verifier's UTF-8 bytes, which `sha256` hashes, are one byte per character: the character's code. |
| CanvaHandler.PkceShapes | api/canva.js:29-31 | The verifier has 86 unreserved characters, within the 43 to 128 that section 4.1 of RFC 7636 allows. The challenge hashes the verifier's 86 UTF-8 bytes, and a 32-byte digest gives a 43-character URL-safe challenge. The state has 22 characters. |
| CanvaHandler.CallbackGuardAccepts | api/canva.js:62 | The guard lets the callback through exactly when `code`, `state`, the `st` cookie and the `cv` cookie are present and non-empty and `state` equals the `st` cookie. It then passes on the code and the `cv` cookie. |
| CanvaHandler.CallbackGuardRejects | api/canva.js:62-63 | The guard answers 400 when no `st` cookie was issued, when there is no `cv` cookie, when the state differs from the cookie, or when the code or the state is missing. |
| CanvaHandler.Handle | api/canva.js:26-64 | The handler's outcome is `Respond`, which redirects on the auth route and guards on the callback route. `Unrouted` marks a URL with neither prefix; what the handler then does is not modelled. On the auth route the `Set-Cookie` list gains the `cv` line and then the `st` line; on other routes it is unchanged. |
| CanvaHandler.CookieJarOfAuth | api/canva.js:29-60 | The `Cookie:` header echoing the two issued cookies parses to exactly `{cv: verifier, st: state}`. |
| CanvaHandler.GuardOfIssued | api/canva.js:59-62 | On the two issued cookies the guard accepts exactly the issued state. |
| CanvaHandler.CallbackAfterAuth | api/canva.js:28-63 | A callback that returns the issued cookies, a code and the issued state reaches the token exchange with the issued verifier. With any other state it gets 400. |

## Left out

- `crypto.randomBytes` (api/canva.js:29, 31): the two buffers are parameters. Entropy cannot be expressed.
- `sha256` (api/canva.js:6): a function parameter. `PkceShapes` assumes only that its outputs are 32 bytes. Collision resistance cannot be expressed.
- `encodeURIComponent` and `decodeURIComponent` (api/canva.js:9, 19): an abstract `UriCodec`.
  - The round-trip lemmas assume that decoding undoes encoding and that encoded text uses only the characters `encodeURIComponent` emits (`SoundCodec`).
  - The percent-encoding tables themselves are not modelled.
- `URL` and `URLSearchParams` (api/canva.js:37, 47, 54-56):
  - query parsing is not modelled; `code` and `state` are inputs of the request, with `None` for a `null` from `get`;
  - the query is not serialised; the redirect is the endpoint plus the ordered parameter list.
- `res.writeHead`, `res.end` and `res.statusCode` (api/canva.js:47-48, 63-64): the response is the `Outcome` value `Handle` returns. Only the `Set-Cookie` list is kept as state.
- `setHeader`/`getHeader` (api/canva.js:10): only their effect on the `Set-Cookie` list. Other headers and the header object are not modelled.
- Cookies.Response.SetCookie: `maxAgeSec` is an exact integer rendered as plain decimal digits. The template literal renders the JavaScript number, so the line differs for a fractional or non-finite number, for an integer beyond ±(2^53−1) (rounded to the shortest digits that read back as the same double), and for magnitudes of 10^21 or more (exponent form such as `1e+21`). The handler only uses the default, 600.
- CanvaHandler.Utf8: Dafny strings hold Unicode scalar values. A JavaScript string with a lone surrogate, which `hash.update` encodes as U+FFFD, is not modelled. `b64url` output is ASCII in any case.
- Prototype look-ups on the cookie dictionary: only `cookies["st"]` and `cookies["cv"]` are read, and neither is inherited from `Object.prototype`. The `__proto__` key, which assignment ignores, is modelled.
- The token exchange and everything after line 64: the file ends there. That includes what the handler answers for a URL with neither prefix, which the model only marks as `Unrouted`.
- `async`: the handler has no concurrency the model could state.
