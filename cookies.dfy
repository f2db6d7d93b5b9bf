/** `getCookies` and `setCookie` (api/canva.js): reading the `Cookie:`
    request header into a name-to-value dictionary, and appending one
    `Set-Cookie` line to the response. The percent codec
    (`encodeURIComponent` / `decodeURIComponent`) is a parameter. */
module Cookies {
  import opened Wrappers
  import opened JsString

  /** `encodeURIComponent` and `decodeURIComponent`. `decode` yields `None`
      where `decodeURIComponent` throws a URIError (a malformed escape). */
  datatype UriCodec = UriCodec(encode: string -> string, decode: string -> Option<string>)

  /** The characters `encodeURIComponent` can emit: the unreserved marks it
      leaves alone, and `%` with hexadecimal digits for everything else. */
  predicate IsUriComponentChar(c: char) {
    ('A' <= c <= 'Z') || ('a' <= c <= 'z') || ('0' <= c <= '9')
    || c == '-' || c == '_' || c == '.' || c == '!' || c == '~' || c == '*'
    || c == '\'' || c == '(' || c == ')' || c == '%'
  }

  predicate IsUriComponent(s: string) {
    forall i :: 0 <= i < |s| ==> IsUriComponentChar(s[i])
  }

  /** What the model takes for granted about the two library functions:
      decoding undoes encoding, and encoded text uses only the characters
      above (so never `;`, `=`, or whitespace). */
  ghost predicate SoundCodec(codec: UriCodec) {
    && (forall s :: codec.decode(codec.encode(s)) == Some(s))
    && (forall s :: IsUriComponent(codec.encode(s)))
  }

  lemma UriComponentShape(s: string)
    requires IsUriComponent(s)
    ensures ';' !in s && '=' !in s && NoWhitespace(s)
  {
  }

  // ---- getCookies ----

  /** Assigning a string to `acc["__proto__"]` on a plain object goes to the
      inherited `__proto__` setter, which ignores non-objects: such a part
      adds no key. */
  const ProtoKey := "__proto__"

  /** One `;`-separated part, cut at its FIRST `=`: the trimmed name and the
      trimmed, still encoded value; `None` for a part without `=`. */
  function CookiePair(part: string): (r: Option<(string, string)>)
    ensures r.None? <==> '=' !in part
  {
    var i := IndexOf(part, '=');
    if i > -1 then Some((Trim(part[..i]), Trim(part[i + 1..]))) else None
  }

  /** What each part contributes, before any decoding. */
  type Entry = Option<(string, string)>

  function Entries(parts: seq<string>): (es: seq<Entry>)
    ensures |es| == |parts|
    ensures forall j :: 0 <= j < |parts| ==> es[j] == CookiePair(parts[j])
  {
    seq(|parts|, j requires 0 <= j < |parts| => CookiePair(parts[j]))
  }

  /** The body of the `reduce` callback: the accumulator after one part,
      or `None` if `decodeURIComponent` throws on the part's value. */
  function AddEntry(acc: map<string, string>, e: Entry, decode: string -> Option<string>)
    : Option<map<string, string>>
  {
    match e
    case None => Some(acc)
    case Some((k, raw)) =>
      match decode(raw)
      case None => None
      case Some(v) => Some(if k == ProtoKey then acc else acc[k := v])
  }

  /** The `reduce` over the parts, from `{}`; a throw aborts it. */
  function Collect(es: seq<Entry>, decode: string -> Option<string>): Option<map<string, string>>
    decreases |es|
  {
    if |es| == 0 then Some(map[])
    else
      match Collect(es[..|es| - 1], decode)
      case None => None
      case Some(acc) => AddEntry(acc, es[|es| - 1], decode)
  }

  /** What `getCookies` returns for the raw header (`None` when the request
      has no `Cookie:` header), or `None` when it throws. */
  function CookieJar(header: Option<string>, decode: string -> Option<string>): Option<map<string, string>> {
    Collect(Entries(Split(header.GetOr(""), ';')), decode)
  }

  /** The `reduce` callback on one part: `None` when `decodeURIComponent`
      throws, else the accumulator with the part's pair added. */
  method ReducePart(acc: map<string, string>, part: string, decode: string -> Option<string>)
    returns (next: Option<map<string, string>>)
    ensures next == AddEntry(acc, CookiePair(part), decode)
  {
    var i := IndexOf(part, '=');
    next := Some(acc);
    if i > -1 {
      var k := Trim(part[..i]);
      var v := decode(Trim(part[i + 1..]));
      CookiePairAt(part, i);
      if v.None? {
        return None;
      }
      if k != ProtoKey {
        next := Some(acc[k := v.value]);
      }
    }
  }

  /** `getCookies`: the `reduce` loop over the `;`-separated parts, threading
      the accumulator through the callback. */
  method GetCookies(header: Option<string>, decode: string -> Option<string>)
    returns (jar: Option<map<string, string>>)
    ensures jar == CookieJar(header, decode)
  {
    var parts := Split(header.GetOr(""), ';');
    ghost var es := Entries(parts);
    var acc: map<string, string> := map[];
    var n := 0;
    while n < |parts|
      invariant 0 <= n <= |parts|
      invariant Collect(es[..n], decode) == Some(acc)
    {
      var next := ReducePart(acc, parts[n], decode);
      ReduceStep(es, n, acc, next, decode);
      if next.None? {
        return None;
      }
      acc := next.value;
      n := n + 1;
    }
    assert es[..n] == es;
    return Some(acc);
  }

  lemma CookiePairAt(part: string, i: int)
    requires i == IndexOf(part, '=') && i > -1
    ensures CookiePair(part) == Some((Trim(part[..i]), Trim(part[i + 1..])))
  {
  }

  /** What one call of the callback does to the fold over all the parts. */
  lemma {:induction false} ReduceStep(es: seq<Entry>, n: nat, acc: map<string, string>,
                   next: Option<map<string, string>>, decode: string -> Option<string>)
    requires n < |es| && Collect(es[..n], decode) == Some(acc)
    requires next == AddEntry(acc, es[n], decode)
    ensures next.None? ==> Collect(es, decode).None?
    ensures next.Some? ==> Collect(es[..n + 1], decode) == next
  {
    CollectStep(es, n, acc, decode);
    if next.None? {
      CollectStopsAtThrow(es, n + 1, decode);
    }
  }

  /** One more step of the fold. */
  lemma CollectStep(es: seq<Entry>, n: nat, acc: map<string, string>, decode: string -> Option<string>)
    requires n < |es| && Collect(es[..n], decode) == Some(acc)
    ensures Collect(es[..n + 1], decode) == AddEntry(acc, es[n], decode)
  {
    assert es[..n + 1][..n] == es[..n];
  }

  /** Once the fold has thrown, the parts after it do not matter. */
  lemma {:induction false} CollectStopsAtThrow(es: seq<Entry>, n: nat, decode: string -> Option<string>)
    requires n <= |es| && Collect(es[..n], decode).None?
    ensures Collect(es, decode).None?
    decreases |es| - n
  {
    if n < |es| {
      assert es[..n + 1][..n] == es[..n];
      CollectStopsAtThrow(es, n + 1, decode);
    } else {
      assert es[..n] == es;
    }
  }

  // ---- What the fold computes, stated without the fold ----

  /** The part has an `=` and its value makes `decodeURIComponent` throw. */
  ghost predicate Throws(e: Entry, decode: string -> Option<string>) {
    e.Some? && decode(e.value.1).None?
  }

  /** The part has an `=` and its trimmed name is `k`. */
  ghost predicate Names(e: Entry, k: string) {
    e.Some? && e.value.0 == k
  }

  /** The header is refused exactly when some part's value fails to decode. */
  lemma {:induction false} CollectThrows(es: seq<Entry>, decode: string -> Option<string>)
    ensures Collect(es, decode).None? <==> exists j :: 0 <= j < |es| && Throws(es[j], decode)
    decreases |es|
  {
    if |es| > 0 {
      var init := es[..|es| - 1];
      CollectThrows(init, decode);
      if exists j :: 0 <= j < |init| && Throws(init[j], decode) {
        var j :| 0 <= j < |init| && Throws(init[j], decode);
        assert Throws(es[j], decode);
      }
      if exists j :: 0 <= j < |es| && Throws(es[j], decode) {
        var j :| 0 <= j < |es| && Throws(es[j], decode);
        if j < |init| {
          assert Throws(init[j], decode);
        }
      }
    }
  }

  /** The names in the dictionary are exactly the trimmed names of the parts
      that have an `=`, except `__proto__`; a part without `=` adds nothing. */
  lemma {:induction false} CollectNames(es: seq<Entry>, decode: string -> Option<string>, k: string)
    requires Collect(es, decode).Some?
    ensures k in Collect(es, decode).value
        <==> k != ProtoKey && exists j :: 0 <= j < |es| && Names(es[j], k)
    decreases |es|
  {
    if |es| > 0 {
      var init := es[..|es| - 1];
      CollectNames(init, decode, k);
      if exists j :: 0 <= j < |init| && Names(init[j], k) {
        var j :| 0 <= j < |init| && Names(init[j], k);
        assert Names(es[j], k);
      }
      if exists j :: 0 <= j < |es| && Names(es[j], k) {
        var j :| 0 <= j < |es| && Names(es[j], k);
        if j < |init| {
          assert Names(init[j], k);
        }
      }
    }
  }

  /** Later parts overwrite earlier ones: a name's value is the decoded value
      of the LAST part that carries that name. */
  lemma {:induction false} CollectLastWins(es: seq<Entry>, decode: string -> Option<string>, j: nat)
    requires Collect(es, decode).Some?
    requires j < |es| && es[j].Some? && es[j].value.0 != ProtoKey
    requires forall j' :: j < j' < |es| ==> !Names(es[j'], es[j].value.0)
    ensures decode(es[j].value.1).Some?
    ensures es[j].value.0 in Collect(es, decode).value
    ensures Collect(es, decode).value[es[j].value.0] == decode(es[j].value.1).value
    decreases |es|
  {
    var init := es[..|es| - 1];
    if j < |init| {
      assert !Names(es[|es| - 1], es[j].value.0);
      CollectLastWins(init, decode, j);
    }
  }

  /** A missing or empty `Cookie:` header gives the empty dictionary. */
  lemma CookieJarOfNothing(decode: string -> Option<string>)
    ensures CookieJar(None, decode) == Some(map[])
    ensures CookieJar(Some(""), decode) == Some(map[])
  {
    var parts: seq<string> := [""];
    assert Split("", ';') == parts;
    assert parts[..0] == [];
  }

  /** A part is cut at its first `=`, so the value keeps any later `=`. */
  lemma CookiePairFirstEquals(name: string, value: string)
    requires '=' !in name
    ensures CookiePair(name + "=" + value) == Some((Trim(name), Trim(value)))
  {
    IndexOfFirst(name, '=', value);
    var part := name + "=" + value;
    assert part[..|name|] == name && part[|name| + 1..] == value;
  }

  // ---- setCookie ----

  /** The `Set-Cookie` line `setCookie` builds: the cookie pair with the
      value percent-encoded, then the attributes of section 4.1 of RFC 6265. */
  function SetCookieLine(name: string, value: string, encode: string -> string, maxAgeSec: int): string {
    name + "=" + encode(value) + "; Path=/" + "; HttpOnly" + "; Secure" + "; SameSite=Lax"
    + "; Max-Age=" + Decimal(maxAgeSec)
  }

  /** The lifetime `setCookie` gives a cookie unless told otherwise. */
  const DefaultMaxAge := 600

  /** The response object, reduced to its `Set-Cookie` header list. */
  class Response {
    /** The header's current value; `[]` while it is unset (`|| []`). */
    var setCookieHeader: seq<string>

    constructor ()
      ensures setCookieHeader == []
    {
      setCookieHeader := [];
    }

    /** `setCookie(res, name, value, maxAgeSec = 600)`: appends one line and
        keeps every earlier line, in order. */
    method SetCookie(name: string, value: string, codec: UriCodec, maxAgeSec: int := DefaultMaxAge)
      modifies this
      ensures setCookieHeader == old(setCookieHeader) + [SetCookieLine(name, value, codec.encode, maxAgeSec)]
    {
      var cookie := SetCookieLine(name, value, codec.encode, maxAgeSec);
      setCookieHeader := setCookieHeader + [cookie];
    }
  }

  /** A name a `Cookie:` header can carry back unchanged. */
  predicate IsCookieName(name: string) {
    '=' !in name && ';' !in name && NoWhitespace(name)
  }

  /** A name of lower-case letters, such as `cv` and `st`, is one. */
  lemma LetterNameIsCookieName(n: string)
    requires forall i :: 0 <= i < |n| ==> 'a' <= n[i] <= 'z'
    ensures IsCookieName(n)
  {
  }

  /** A decimal rendering never holds `;`. */
  lemma DecimalHasNoSemicolon(n: int)
    ensures ';' !in Decimal(n)
  {
  }

  /** The shape of the line, on plain strings. */
  lemma AttributeJoin(pair: string, age: string)
    ensures pair + "; Path=/" + "; HttpOnly" + "; Secure" + "; SameSite=Lax" + "; Max-Age=" + age
         == Join([pair, " Path=/", " HttpOnly", " Secure", " SameSite=Lax", " Max-Age=" + age], ';')
  {
    var last := " Max-Age=" + age;
    JoinSix(pair, " Path=/", " HttpOnly", " Secure", " SameSite=Lax", last, ';');
    assert "; Path=/" == [';'] + " Path=/";
    assert "; HttpOnly" == [';'] + " HttpOnly";
    assert "; Secure" == [';'] + " Secure";
    assert "; SameSite=Lax" == [';'] + " SameSite=Lax";
    assert "; Max-Age=" + age == [';'] + last;
  }

  /** The line is the cookie pair and the five attributes, joined by `;`. */
  lemma SetCookieLineJoin(name: string, value: string, encode: string -> string, maxAgeSec: int)
    ensures SetCookieLine(name, value, encode, maxAgeSec)
         == Join([name + "=" + encode(value), " Path=/", " HttpOnly", " Secure", " SameSite=Lax",
                  " Max-Age=" + Decimal(maxAgeSec)], ';')
  {
    AttributeJoin(name + "=" + encode(value), Decimal(maxAgeSec));
  }

  /** The line splits into the cookie pair and the five attributes, in the
      order `setCookie` writes them. */
  lemma SetCookieLineAttributes(name: string, value: string, encode: string -> string, maxAgeSec: int)
    requires ';' !in name && ';' !in encode(value)
    ensures Split(SetCookieLine(name, value, encode, maxAgeSec), ';')
         == [name + "=" + encode(value), " Path=/", " HttpOnly", " Secure", " SameSite=Lax",
             " Max-Age=" + Decimal(maxAgeSec)]
  {
    var parts := [name + "=" + encode(value), " Path=/", " HttpOnly", " Secure", " SameSite=Lax",
                  " Max-Age=" + Decimal(maxAgeSec)];
    SetCookieLineJoin(name, value, encode, maxAgeSec);
    DecimalHasNoSemicolon(maxAgeSec);
    assert forall k :: 0 <= k < |parts| ==> ';' !in parts[k];
    SplitJoin(parts, ';');
  }

  /** A cookie pair whose name part trims to `n` and whose value has no
      whitespace parses to exactly `(n, e)`. */
  lemma CookiePairExact(lead: string, n: string, e: string)
    requires '=' !in lead && Trim(lead) == n && NoWhitespace(e)
    ensures CookiePair(lead + "=" + e) == Some((n, e))
  {
    CookiePairFirstEquals(lead, e);
    TrimNoWhitespace(e);
  }

  /** What a user agent stores from the line reads back: the pair parses to
      the name and the encoded value, the value decodes to what was set, and
      the Max-Age attribute reads as `maxAgeSec`. */
  lemma SetCookieLineReadsBack(name: string, value: string, codec: UriCodec, maxAgeSec: int)
    requires SoundCodec(codec) && IsCookieName(name)
    ensures var parts := Split(SetCookieLine(name, value, codec.encode, maxAgeSec), ';');
      && |parts| == 6
      && CookiePair(parts[0]) == Some((name, codec.encode(value)))
      && codec.decode(codec.encode(value)) == Some(value)
      && |parts[5]| >= 9 && parts[5][..9] == " Max-Age=" && ParseDecimal(parts[5][9..]) == Some(maxAgeSec)
  {
    var e := codec.encode(value);
    assert IsUriComponent(e);
    UriComponentShape(e);
    SetCookieLineAttributes(name, value, codec.encode, maxAgeSec);
    TrimNoWhitespace(name);
    CookiePairExact(name, name, e);
    DecimalRoundTrip(maxAgeSec);
    assert (" Max-Age=" + Decimal(maxAgeSec))[9..] == Decimal(maxAgeSec);
  }

  // ---- Set, then get: the header a user agent sends back ----

  /** The i-th pair of a `Cookie:` header (section 5.4 of RFC 6265), with the
      value encoded as `setCookie` encodes it: pairs after the first follow
      a `"; "` separator, so they carry a leading space. */
  function EchoPart(pairs: seq<(string, string)>, i: nat, encode: string -> string): string
    requires i < |pairs|
  {
    (if i == 0 then "" else " ") + pairs[i].0 + "=" + encode(pairs[i].1)
  }

  /** The `Cookie:` header carrying the given cookies, in order. */
  function EchoHeader(pairs: seq<(string, string)>, encode: string -> string): string {
    Join(seq(|pairs|, i requires 0 <= i < |pairs| => EchoPart(pairs, i, encode)), ';')
  }

  /** The dictionary the cookies describe, a later name replacing an earlier one. */
  function PairsMap(pairs: seq<(string, string)>): map<string, string>
    decreases |pairs|
  {
    if |pairs| == 0 then map[]
    else PairsMap(pairs[..|pairs| - 1])[pairs[|pairs| - 1].0 := pairs[|pairs| - 1].1]
  }

  lemma {:induction false} CollectEncoded(es: seq<Entry>, pairs: seq<(string, string)>, codec: UriCodec)
    requires SoundCodec(codec) && |es| == |pairs|
    requires forall i :: 0 <= i < |pairs| ==> pairs[i].0 != ProtoKey
    requires forall i :: 0 <= i < |es| ==> es[i] == Some((pairs[i].0, codec.encode(pairs[i].1)))
    ensures Collect(es, codec.decode) == Some(PairsMap(pairs))
    decreases |es|
  {
    if |es| > 0 {
      CollectEncoded(es[..|es| - 1], pairs[..|pairs| - 1], codec);
    }
  }

  /** A pair with an empty or one-space lead parses back to its name and
      encoded value. */
  lemma LeadPairParses(lead: string, n: string, e: string)
    requires lead == "" || lead == " "
    requires IsCookieName(n) && IsUriComponent(e)
    ensures ';' !in lead + n + "=" + e
    ensures CookiePair(lead + n + "=" + e) == Some((n, e))
  {
    UriComponentShape(e);
    assert '=' !in lead + n;
    if lead == "" {
      assert lead + n == n;
      TrimNoWhitespace(n);
    } else {
      TrimLeadingSpace(n);
    }
    CookiePairExact(lead + n, n, e);
  }

  lemma EchoPartPair(pairs: seq<(string, string)>, i: nat, encode: string -> string)
    requires i < |pairs| && IsCookieName(pairs[i].0) && IsUriComponent(encode(pairs[i].1))
    ensures ';' !in EchoPart(pairs, i, encode)
    ensures CookiePair(EchoPart(pairs, i, encode)) == Some((pairs[i].0, encode(pairs[i].1)))
  {
    LeadPairParses(if i == 0 then "" else " ", pairs[i].0, encode(pairs[i].1));
  }

  /** `getCookies` reads back what `setCookie` wrote: for the header that
      carries the cookies' encoded values, it yields exactly the dictionary
      of names to the original values. */
  lemma {:induction false} CookieJarOfEcho(pairs: seq<(string, string)>, codec: UriCodec)
    requires SoundCodec(codec)
    requires forall i :: 0 <= i < |pairs| ==> IsCookieName(pairs[i].0) && pairs[i].0 != ProtoKey
    ensures CookieJar(Some(EchoHeader(pairs, codec.encode)), codec.decode) == Some(PairsMap(pairs))
  {
    if |pairs| == 0 {
      assert EchoHeader(pairs, codec.encode) == "";
      CookieJarOfNothing(codec.decode);
    } else {
      var parts := seq(|pairs|, i requires 0 <= i < |pairs| => EchoPart(pairs, i, codec.encode));
      forall i | 0 <= i < |pairs|
        ensures ';' !in parts[i] && CookiePair(parts[i]) == Some((pairs[i].0, codec.encode(pairs[i].1)))
      {
        assert IsUriComponent(codec.encode(pairs[i].1));
        EchoPartPair(pairs, i, codec.encode);
      }
      SplitJoin(parts, ';');
      CollectEncoded(Entries(parts), pairs, codec);
    }
  }
}
