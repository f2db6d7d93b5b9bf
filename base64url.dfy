/** `b64url` (api/canva.js): standard base64 text of a byte buffer, with `+`
    turned into `-`, `/` turned into `_` and the trailing `=` run removed.
    Beside it sits a reference: the base64url encoding of section 5 of
    RFC 4648 without padding (as Appendix A of RFC 7636 asks for PKCE), and
    its decoder. */
module Base64Url {
  import opened Wrappers

  type byte = x: int | 0 <= x < 256
  type sextet = x: int | 0 <= x < 64

  // ---- Bits: a quantum of 1 to 3 bytes and its 6-bit groups ----

  /** The 6-bit groups of a final or full quantum (section 4 of RFC 4648):
      1, 2 or 3 bytes give 2, 3 or 4 groups, missing bits read as zero. */
  function Sextets(q: seq<byte>): (v: seq<sextet>)
    requires 1 <= |q| <= 3
    ensures |v| == |q| + 1
  {
    var b0 := q[0];
    var b1: byte := if |q| > 1 then q[1] else 0;
    var b2: byte := if |q| > 2 then q[2] else 0;
    [b0 / 4, (b0 % 4) * 16 + b1 / 16]
    + (if |q| > 1 then [(b1 % 16) * 4 + b2 / 64] else [])
    + (if |q| > 2 then [b2 % 64] else [])
  }

  /** The bytes that 2, 3 or 4 groups carry; a short quantum whose unused
      low bits are not zero is refused (section 3.5 of RFC 4648). */
  function BytesOf(v: seq<sextet>): Option<seq<byte>>
    requires 2 <= |v| <= 4
  {
    var a: int, b: int := v[0], v[1];
    var c: int := if |v| > 2 then v[2] else 0;
    var d: int := if |v| > 3 then v[3] else 0;
    if |v| == 2 then
      if b % 16 != 0 then None else Some([a * 4 + b / 16])
    else if |v| == 3 then
      if c % 4 != 0 then None else Some([a * 4 + b / 16, (b % 16) * 16 + c / 4])
    else Some([a * 4 + b / 16, (b % 16) * 16 + c / 4, (c % 4) * 64 + d])
  }

  /** Cutting the bytes into groups loses nothing. */
  lemma BytesOfSextets(q: seq<byte>)
    requires 1 <= |q| <= 3
    ensures BytesOf(Sextets(q)) == Some(q)
  {
    var b0: int := q[0];
    var b1: int := if |q| > 1 then q[1] else 0;
    var b2: int := if |q| > 2 then q[2] else 0;
    assert ((b0 % 4) * 16 + b1 / 16) / 16 == b0 % 4;
    assert ((b0 % 4) * 16 + b1 / 16) % 16 == b1 / 16;
    assert ((b1 % 16) * 4 + b2 / 64) / 4 == b1 % 16;
    assert ((b1 % 16) * 4 + b2 / 64) % 4 == b2 / 64;
    assert (b0 / 4) * 4 + b0 % 4 == b0;
    assert (b1 / 16) * 16 + b1 % 16 == b1;
    assert (b2 / 64) * 64 + b2 % 64 == b2;
    var v := Sextets(q);
    if |q| == 1 {
      assert BytesOf(v) == Some([b0]) && q == [q[0]];
    } else if |q| == 2 {
      assert BytesOf(v) == Some([b0, b1]) && q == [q[0], q[1]];
    } else {
      assert BytesOf(v) == Some([b0, b1, b2]) && q == [q[0], q[1], q[2]];
    }
  }

  /** The groups are determined by the bytes they carry. */
  lemma SextetsOfBytes(v: seq<sextet>, q: seq<byte>)
    requires 2 <= |v| <= 4 && BytesOf(v) == Some(q)
    ensures 1 <= |q| <= 3 && Sextets(q) == v
  {
    var a: int, b: int := v[0], v[1];
    var c: int := if |v| > 2 then v[2] else 0;
    var d: int := if |v| > 3 then v[3] else 0;
    var q0, q1, q2 := a * 4 + b / 16, (b % 16) * 16 + c / 4, (c % 4) * 64 + d;
    assert q0 / 4 == a && q0 % 4 == b / 16;
    assert q1 / 16 == b % 16 && q1 % 16 == c / 4;
    assert q2 / 64 == c % 4 && q2 % 64 == d;
    assert (b / 16) * 16 + b % 16 == b;
    assert (c / 4) * 4 + c % 4 == c;
    if |v| == 2 {
      assert q == [q0] && v == [a, b];
    } else if |v| == 3 {
      assert q == [q0, q1] && v == [a, b, c];
    } else {
      assert q == [q0, q1, q2] && v == [a, b, c, d];
    }
  }

  // ---- What Node's `buf.toString("base64")` produces ----

  /** The symbol of a 6-bit value in the standard alphabet of RFC 4648 section 4. */
  function StdSymbol(v: sextet): char {
    if v < 26 then ('A' as int + v) as char
    else if v < 52 then ('a' as int + (v - 26)) as char
    else if v < 62 then ('0' as int + (v - 52)) as char
    else if v == 62 then '+'
    else '/'
  }

  function StdSymbols(v: seq<sextet>): (r: string)
    ensures |r| == |v|
  {
    seq(|v|, i requires 0 <= i < |v| => StdSymbol(v[i]))
  }

  /** The padding that standard base64 appends for `n` input bytes. */
  function Padding(n: nat): string {
    if n % 3 == 1 then "==" else if n % 3 == 2 then "=" else ""
  }

  /** Standard, padded base64 (section 4 of RFC 4648): every 3-byte quantum
      becomes four symbols, and a final quantum of 1 or 2 bytes becomes 2 or 3
      symbols followed by `==` or `=`. */
  function StdBase64(b: seq<byte>): string
    decreases |b|
  {
    if |b| == 0 then ""
    else if |b| <= 3 then StdSymbols(Sextets(b)) + Padding(|b|)
    else StdSymbols(Sextets(b[..3])) + StdBase64(b[3..])
  }

  // ---- The string operations of the `.replace` chain ----

  /** `s.replace(/x/g, y)` for one literal character `x` and a one-character
      replacement `y`. */
  function ReplaceAll(s: string, from: char, to: char): (r: string)
    ensures |r| == |s|
    ensures forall i :: 0 <= i < |s| ==> r[i] == if s[i] == from then to else s[i]
  {
    seq(|s|, i requires 0 <= i < |s| => if s[i] == from then to else s[i])
  }

  /** `s.replace(/c+$/, "")`: removes the longest run of `c` at the end. */
  function StripTrailing(s: string, c: char): (r: string)
    ensures r <= s
    ensures r == [] || r[|r| - 1] != c
    ensures forall i :: |r| <= i < |s| ==> s[i] == c
    decreases |s|
  {
    if |s| > 0 && s[|s| - 1] == c then StripTrailing(s[..|s| - 1], c) else s
  }

  /** The two global replacements of `b64url`, in the source's order. */
  function ToUrlAlphabet(s: string): string {
    ReplaceAll(ReplaceAll(s, '+', '-'), '/', '_')
  }

  /** The model of `b64url`. */
  function B64Url(buf: seq<byte>): string {
    StripTrailing(ToUrlAlphabet(StdBase64(buf)), '=')
  }

  // ---- The reference: unpadded base64url of RFC 4648 section 5 ----

  /** The symbol of a 6-bit value in the URL- and filename-safe alphabet. */
  function UrlSymbol(v: sextet): char {
    if v < 26 then ('A' as int + v) as char
    else if v < 52 then ('a' as int + (v - 26)) as char
    else if v < 62 then ('0' as int + (v - 52)) as char
    else if v == 62 then '-'
    else '_'
  }

  predicate IsUrlSymbol(c: char) {
    ('A' <= c <= 'Z') || ('a' <= c <= 'z') || ('0' <= c <= '9') || c == '-' || c == '_'
  }

  /** The 6-bit value of a URL-safe symbol. */
  function UrlValue(c: char): (v: sextet)
    requires IsUrlSymbol(c)
    ensures UrlSymbol(v) == c
  {
    if 'A' <= c <= 'Z' then c as int - 'A' as int
    else if 'a' <= c <= 'z' then c as int - 'a' as int + 26
    else if '0' <= c <= '9' then c as int - '0' as int + 52
    else if c == '-' then 62
    else 63
  }

  lemma UrlSymbolValue(v: sextet)
    ensures IsUrlSymbol(UrlSymbol(v)) && UrlValue(UrlSymbol(v)) == v
  {
  }

  function UrlSymbols(v: seq<sextet>): (r: string)
    ensures |r| == |v|
  {
    seq(|v|, i requires 0 <= i < |v| => UrlSymbol(v[i]))
  }

  predicate AllUrlSymbols(s: string) {
    forall i :: 0 <= i < |s| ==> IsUrlSymbol(s[i])
  }

  function UrlValues(s: string): (v: seq<sextet>)
    requires AllUrlSymbols(s)
    ensures |v| == |s|
  {
    seq(|s|, i requires 0 <= i < |s| && IsUrlSymbol(s[i]) => UrlValue(s[i]))
  }

  /** Unpadded base64url (RFC 4648 section 5 with the padding omitted): no
      `=` is ever written. */
  function UrlEncode(b: seq<byte>): string
    decreases |b|
  {
    if |b| == 0 then ""
    else if |b| <= 3 then UrlSymbols(Sextets(b))
    else UrlSymbols(Sextets(b[..3])) + UrlEncode(b[3..])
  }

  /** Decodes one quantum of 2 to 4 symbols; a symbol outside the alphabet is
      refused. */
  function DecodeQuantum(s: string): Option<seq<byte>>
    requires 2 <= |s| <= 4
  {
    if AllUrlSymbols(s) then BytesOf(UrlValues(s)) else None
  }

  /** Unpadded base64url decoding: full quanta of four symbols, then a final
      quantum of 2, 3 or 4; a length of 1 mod 4 is refused. */
  function UrlDecode(s: string): Option<seq<byte>>
    decreases |s|
  {
    if |s| == 0 then Some([])
    else if |s| == 1 then None
    else if |s| <= 4 then DecodeQuantum(s)
    else
      match DecodeQuantum(s[..4])
      case None => None
      case Some(head) =>
        match UrlDecode(s[4..])
        case None => None
        case Some(tail) => Some(head + tail)
  }

  // ---- Lemmas: b64url is the unpadded base64url encoding ----

  lemma ToUrlAlphabetAppend(x: string, y: string)
    ensures ToUrlAlphabet(x + y) == ToUrlAlphabet(x) + ToUrlAlphabet(y)
  {
    assert ToUrlAlphabet(x + y) == ToUrlAlphabet(x) + ToUrlAlphabet(y);
  }

  /** The `.replace` pair maps the standard alphabet onto the URL-safe one,
      symbol by symbol, and leaves `=` alone. */
  lemma SymbolsToUrlAlphabet(v: seq<sextet>, pad: string)
    requires forall i :: 0 <= i < |pad| ==> pad[i] == '='
    ensures ToUrlAlphabet(StdSymbols(v) + pad) == UrlSymbols(v) + pad
  {
  }

  /** With the alphabet changed, standard base64 is unpadded base64url
      followed by exactly the padding: the `=` run is the only difference. */
  lemma {:induction false} UrlAlphabetOfStdBase64(b: seq<byte>)
    ensures ToUrlAlphabet(StdBase64(b)) == UrlEncode(b) + Padding(|b|)
    decreases |b|
  {
    if 1 <= |b| <= 3 {
      SymbolsToUrlAlphabet(Sextets(b), Padding(|b|));
    } else if |b| > 3 {
      UrlAlphabetOfStdBase64(b[3..]);
      UrlAlphabetStep(b);
    }
  }

  /** A full quantum in front: its symbols map on their own, and it does not
      change the padding. */
  lemma UrlAlphabetStep(b: seq<byte>)
    requires |b| > 3
    requires ToUrlAlphabet(StdBase64(b[3..])) == UrlEncode(b[3..]) + Padding(|b| - 3)
    ensures ToUrlAlphabet(StdBase64(b)) == UrlEncode(b) + Padding(|b|)
  {
    var head, tail := StdSymbols(Sextets(b[..3])), StdBase64(b[3..]);
    var u := UrlSymbols(Sextets(b[..3]));
    SymbolsToUrl(Sextets(b[..3]));
    ToUrlAlphabetAppend(head, tail);
    PaddingShift(|b|);
    AppendAssoc(u, UrlEncode(b[3..]), Padding(|b|));
  }

  lemma SymbolsToUrl(v: seq<sextet>)
    ensures ToUrlAlphabet(StdSymbols(v)) == UrlSymbols(v)
  {
  }

  lemma AppendAssoc(x: string, y: string, z: string)
    ensures x + (y + z) == x + y + z
  {
  }

  lemma PaddingShift(n: int)
    requires n >= 3
    ensures Padding(n - 3) == Padding(n)
  {
    assert (n - 3) % 3 == n % 3;
  }

  /** Every symbol of the unpadded encoding is in the URL-safe alphabet. */
  lemma {:induction false} UrlEncodeAlphabet(b: seq<byte>)
    ensures AllUrlSymbols(UrlEncode(b))
    decreases |b|
  {
    if |b| > 3 {
      UrlEncodeAlphabet(b[3..]);
    }
  }

  /** The unpadded encoding of `n` bytes has ceil(4n/3) symbols. */
  lemma {:induction false} UrlEncodeLength(b: seq<byte>)
    ensures |UrlEncode(b)| == (4 * |b| + 2) / 3
    decreases |b|
  {
    if |b| > 3 {
      UrlEncodeLength(b[3..]);
    }
  }

  /** `/=+$/` removes a padding run and nothing else when what precedes it
      does not end in `=`. */
  lemma {:induction false} StripPadding(x: string, pad: string)
    requires x == [] || x[|x| - 1] != '='
    requires forall i :: 0 <= i < |pad| ==> pad[i] == '='
    ensures StripTrailing(x + pad, '=') == x
    decreases |pad|
  {
    if |pad| == 0 {
      assert x + pad == x;
    } else {
      assert (x + pad)[..|x + pad| - 1] == x + pad[..|pad| - 1];
      StripPadding(x, pad[..|pad| - 1]);
    }
  }

  lemma UrlEncodeLastNotPad(buf: seq<byte>)
    ensures UrlEncode(buf) == [] || UrlEncode(buf)[|UrlEncode(buf)| - 1] != '='
  {
    var e := UrlEncode(buf);
    if e != [] {
      UrlEncodeAlphabet(buf);
      assert IsUrlSymbol(e[|e| - 1]);
    }
  }

  lemma PaddingIsPad(n: nat)
    ensures forall i :: 0 <= i < |Padding(n)| ==> Padding(n)[i] == '='
  {
  }

  /** `b64url` is exactly the unpadded base64url encoding of RFC 4648
      section 5, and it differs from standard base64 (after the alphabet
      change) only by the padding removed. */
  lemma B64UrlIsUrlEncode(buf: seq<byte>)
    ensures B64Url(buf) == UrlEncode(buf)
    ensures ToUrlAlphabet(StdBase64(buf)) == B64Url(buf) + Padding(|buf|)
  {
    UrlAlphabetOfStdBase64(buf);
    UrlEncodeLastNotPad(buf);
    PaddingIsPad(|buf|);
    StripPadding(UrlEncode(buf), Padding(|buf|));
  }

  /** The output alphabet of `b64url`: only `A-Z a-z 0-9 - _`, so never
      `+`, `/` or `=`. */
  lemma B64UrlAlphabet(buf: seq<byte>)
    ensures AllUrlSymbols(B64Url(buf))
    ensures '+' !in B64Url(buf) && '/' !in B64Url(buf) && '=' !in B64Url(buf)
  {
    B64UrlIsUrlEncode(buf);
    UrlEncodeAlphabet(buf);
  }

  /** The length of `b64url` output: ceil(4n/3) for n bytes. */
  lemma B64UrlLength(buf: seq<byte>)
    ensures |B64Url(buf)| == (4 * |buf| + 2) / 3
    ensures |buf| == 64 ==> |B64Url(buf)| == 86
    ensures |buf| == 32 ==> |B64Url(buf)| == 43
    ensures |buf| == 16 ==> |B64Url(buf)| == 22
  {
    B64UrlIsUrlEncode(buf);
    UrlEncodeLength(buf);
  }

  // ---- Lemmas: the decoder inverts the encoder ----

  lemma UrlValuesOfSymbols(v: seq<sextet>)
    ensures AllUrlSymbols(UrlSymbols(v)) && UrlValues(UrlSymbols(v)) == v
  {
    forall i | 0 <= i < |v| ensures IsUrlSymbol(UrlSymbols(v)[i]) && UrlValue(UrlSymbols(v)[i]) == v[i] {
      UrlSymbolValue(v[i]);
    }
  }

  lemma UrlSymbolsOfValues(s: string)
    requires AllUrlSymbols(s)
    ensures UrlSymbols(UrlValues(s)) == s
  {
  }

  lemma {:induction false} UrlDecodeEncode(b: seq<byte>)
    ensures UrlDecode(UrlEncode(b)) == Some(b)
    decreases |b|
  {
    if 1 <= |b| <= 3 {
      UrlValuesOfSymbols(Sextets(b));
      BytesOfSextets(b);
    } else if |b| > 3 {
      var e := UrlEncode(b);
      UrlValuesOfSymbols(Sextets(b[..3]));
      BytesOfSextets(b[..3]);
      assert e[..4] == UrlSymbols(Sextets(b[..3])) && e[4..] == UrlEncode(b[3..]);
      UrlDecodeEncode(b[3..]);
      assert b == b[..3] + b[3..];
    }
  }

  /** A quantum the decoder accepts is the encoding of what it decodes to. */
  lemma DecodeQuantumCanonical(s: string, q: seq<byte>)
    requires 2 <= |s| <= 4 && DecodeQuantum(s) == Some(q)
    ensures 1 <= |q| <= 3 && UrlSymbols(Sextets(q)) == s
  {
    SextetsOfBytes(UrlValues(s), q);
    UrlSymbolsOfValues(s);
  }

  lemma {:induction false} UrlEncodeDecode(s: string, b: seq<byte>)
    requires UrlDecode(s) == Some(b)
    ensures UrlEncode(b) == s
    decreases |s|
  {
    if 2 <= |s| <= 4 {
      DecodeQuantumCanonical(s, b);
    } else if |s| > 4 {
      var head, tail := DecodeQuantum(s[..4]).value, UrlDecode(s[4..]).value;
      DecodeQuantumCanonical(s[..4], head);
      UrlEncodeDecode(s[4..], tail);
      assert b[..3] == head && b[3..] == tail;
      assert s == s[..4] + s[4..];
    }
  }

  /** `b64url` round-trips with the unpadded base64url decoder, and the
      decoder accepts a string exactly when it is the `b64url` of the bytes
      it returns. */
  lemma B64UrlRoundTrip(buf: seq<byte>, s: string)
    ensures UrlDecode(B64Url(buf)) == Some(buf)
    ensures UrlDecode(s) == Some(buf) <==> B64Url(buf) == s
  {
    B64UrlIsUrlEncode(buf);
    UrlDecodeEncode(buf);
    if UrlDecode(s) == Some(buf) {
      UrlEncodeDecode(s, buf);
    }
  }

  /** Distinct buffers have distinct `b64url` texts. */
  lemma B64UrlInjective(b1: seq<byte>, b2: seq<byte>)
    ensures B64Url(b1) == B64Url(b2) ==> b1 == b2
  {
    B64UrlRoundTrip(b1, B64Url(b1));
    B64UrlRoundTrip(b2, B64Url(b2));
  }
}
