/** The JavaScript string built-ins that the handler relies on, stated on
    `seq<char>`: `indexOf` of one character, `split` on a one-character
    separator, `trim`, and the decimal rendering of an integer inside a
    template literal. */
module JsString {
  import opened Wrappers

  /** True of the characters that `String.prototype.trim` removes: the
      ECMAScript WhiteSpace code points (TAB, VT, FF, ZWNBSP and the Zs
      category) and the LineTerminator code points (LF, CR, LS, PS). */
  predicate IsJsWhitespace(c: char) {
    var n := c as int;
    n == 0x09 || n == 0x0B || n == 0x0C || n == 0x20 || n == 0xA0 || n == 0xFEFF
    || n == 0x1680 || (0x2000 <= n <= 0x200A) || n == 0x202F || n == 0x205F || n == 0x3000
    || n == 0x0A || n == 0x0D || n == 0x2028 || n == 0x2029
  }

  predicate AllWhitespace(s: string) {
    forall i :: 0 <= i < |s| ==> IsJsWhitespace(s[i])
  }

  predicate NoWhitespace(s: string) {
    forall i :: 0 <= i < |s| ==> !IsJsWhitespace(s[i])
  }

  /** `s.indexOf(c)`: the first position of `c` in `s`, or -1. */
  function IndexOf(s: string, c: char): (i: int)
    ensures -1 <= i < |s|
    ensures i == -1 <==> c !in s
    ensures 0 <= i ==> s[i] == c && c !in s[..i]
    decreases |s|
  {
    if |s| == 0 then -1
    else if s[0] == c then 0
    else
      var j := IndexOf(s[1..], c);
      assert s[1..][..j + 1] == s[1..j + 2];
      if j == -1 then -1 else j + 1
  }

  /** The inverse of `split`: the parts glued back together with `sep`. */
  function Join(parts: seq<string>, sep: char): string
    decreases |parts|
  {
    if |parts| == 0 then ""
    else if |parts| == 1 then parts[0]
    else parts[0] + [sep] + Join(parts[1..], sep)
  }

  /** `s.split(sep)` for a one-character separator: always at least one part
      (the empty string splits into `[""]`) and no part holds the separator;
      `JoinSplit` shows that joining the parts gives `s` back. */
  function Split(s: string, sep: char): (parts: seq<string>)
    ensures |parts| >= 1
    ensures forall k :: 0 <= k < |parts| ==> sep !in parts[k]
    decreases |s|
  {
    var i := IndexOf(s, sep);
    if i == -1 then [s] else [s[..i]] + Split(s[i + 1..], sep)
  }

  /** Joining the parts of a split gives the string back. */
  lemma {:induction false} JoinSplit(s: string, sep: char)
    ensures Join(Split(s, sep), sep) == s
    decreases |s|
  {
    var i := IndexOf(s, sep);
    if i != -1 {
      var rest := Split(s[i + 1..], sep);
      JoinSplit(s[i + 1..], sep);
      assert Split(s, sep) == [s[..i]] + rest;
      assert ([s[..i]] + rest)[1..] == rest;
      assert Join(Split(s, sep), sep) == s[..i] + [sep] + Join(rest, sep);
      assert s == s[..i] + [sep] + s[i + 1..];
    }
  }

  /** The first position at or after `k` that is not whitespace (or `|s|`). */
  function SkipWhitespace(s: string, k: nat): (n: nat)
    requires k <= |s|
    ensures k <= n <= |s|
    ensures forall i :: k <= i < n ==> IsJsWhitespace(s[i])
    ensures n == |s| || !IsJsWhitespace(s[n])
    decreases |s| - k
  {
    if k < |s| && IsJsWhitespace(s[k]) then SkipWhitespace(s, k + 1) else k
  }

  /** One past the last position before `k` and not before `lo` that is not
      whitespace (or `lo`). */
  function BackWhitespace(s: string, lo: nat, k: nat): (n: nat)
    requires lo <= k <= |s|
    ensures lo <= n <= k
    ensures forall i :: n <= i < k ==> IsJsWhitespace(s[i])
    ensures n == lo || !IsJsWhitespace(s[n - 1])
    decreases k
  {
    if k > lo && IsJsWhitespace(s[k - 1]) then BackWhitespace(s, lo, k - 1) else k
  }

  /** Where `String.prototype.trim` cuts `s`: it keeps `s[lo..hi]`, drops
      only whitespace before and after, and what it keeps neither starts nor
      ends with whitespace. */
  function TrimBounds(s: string): (b: (nat, nat))
    ensures b.0 <= b.1 <= |s|
    ensures forall i :: 0 <= i < b.0 ==> IsJsWhitespace(s[i])
    ensures forall i :: b.1 <= i < |s| ==> IsJsWhitespace(s[i])
    ensures b.0 < b.1 ==> !IsJsWhitespace(s[b.0]) && !IsJsWhitespace(s[b.1 - 1])
    ensures b.0 == b.1 ==> b.1 == |s|
  {
    var lo := SkipWhitespace(s, 0);
    (lo, BackWhitespace(s, lo, |s|))
  }

  /** `String.prototype.trim`. */
  function Trim(s: string): string {
    var b := TrimBounds(s);
    s[b.0..b.1]
  }

  /** What trim keeps neither starts nor ends with whitespace. */
  lemma TrimEnds(s: string)
    ensures var r := Trim(s); r == [] || (!IsJsWhitespace(r[0]) && !IsJsWhitespace(r[|r| - 1]))
  {
  }

  /** Trimming twice trims no more than trimming once. */
  lemma TrimIdempotent(s: string)
    ensures Trim(Trim(s)) == Trim(s)
  {
    TrimEnds(s);
    var r := Trim(s);
    if r != [] {
      assert SkipWhitespace(r, 0) == 0;
      assert BackWhitespace(r, 0, |r|) == |r|;
    }
  }

  /** A string free of whitespace is its own trim. */
  lemma TrimNoWhitespace(s: string)
    requires NoWhitespace(s)
    ensures Trim(s) == s
  {
    if s != [] {
      assert SkipWhitespace(s, 0) == 0;
      assert BackWhitespace(s, 0, |s|) == |s|;
    }
  }

  /** The first occurrence of `c` in `k + [c] + v` is right after `k` when `k`
      does not hold `c`, whatever `v` holds. */
  lemma IndexOfFirst(k: string, c: char, v: string)
    requires c !in k
    ensures IndexOf(k + [c] + v, c) == |k|
  {
    var s := k + [c] + v;
    assert s[|k|] == c;
  }

  /** A separator-free prefix becomes the first part. */
  lemma SplitAppend(a: string, sep: char, b: string)
    requires sep !in a
    ensures Split(a + [sep] + b, sep) == [a] + Split(b, sep)
  {
    IndexOfFirst(a, sep, b);
    var s := a + [sep] + b;
    assert s[..|a|] == a && s[|a| + 1..] == b;
  }

  /** Splitting undoes joining, for parts free of the separator: `split`
      yields exactly the parts, in order. */
  lemma {:induction false} SplitJoin(parts: seq<string>, sep: char)
    requires |parts| >= 1
    requires forall k :: 0 <= k < |parts| ==> sep !in parts[k]
    ensures Split(Join(parts, sep), sep) == parts
    decreases |parts|
  {
    if |parts| == 1 {
      assert Split(parts[0], sep) == [parts[0]];
    } else {
      var rest := Join(parts[1..], sep);
      assert Join(parts, sep) == parts[0] + [sep] + rest;
      SplitAppend(parts[0], sep, rest);
      SplitJoin(parts[1..], sep);
      assert parts == [parts[0]] + parts[1..];
    }
  }

  /** Joining six parts, written out. */
  lemma JoinSix(x0: string, x1: string, x2: string, x3: string, x4: string, x5: string, sep: char)
    ensures Join([x0, x1, x2, x3, x4, x5], sep)
         == x0 + ([sep] + x1) + ([sep] + x2) + ([sep] + x3) + ([sep] + x4) + ([sep] + x5)
  {
    var ps := [x0, x1, x2, x3, x4, x5];
    assert ps[5..] == [x5];
    assert ps[4..][1..] == ps[5..];
    assert ps[3..][1..] == ps[4..];
    assert ps[2..][1..] == ps[3..];
    assert ps[1..][1..] == ps[2..];
    assert Join(ps[4..], sep) == x4 + [sep] + x5;
    assert Join(ps[3..], sep) == x3 + [sep] + (x4 + [sep] + x5);
    assert Join(ps[2..], sep) == x2 + [sep] + (x3 + [sep] + (x4 + [sep] + x5));
    assert Join(ps[1..], sep) == x1 + [sep] + (x2 + [sep] + (x3 + [sep] + (x4 + [sep] + x5)));
  }

  /** A one-space prefix is trimmed away from a string free of whitespace. */
  lemma TrimLeadingSpace(s: string)
    requires NoWhitespace(s)
    ensures Trim(" " + s) == s
  {
    var t := " " + s;
    assert IsJsWhitespace(t[0]);
    assert SkipWhitespace(t, 1) == 1 by {
      if s != [] { assert t[1] == s[0]; }
    }
    assert SkipWhitespace(t, 0) == 1;
    assert BackWhitespace(t, 1, |t|) == |t| by {
      if s != [] { assert t[|t| - 1] == s[|s| - 1]; }
    }
    assert t[1..] == s;
  }

  predicate IsDigit(c: char) {
    '0' <= c <= '9'
  }

  predicate AllDigits(s: string) {
    forall i :: 0 <= i < |s| ==> IsDigit(s[i])
  }

  function DigitChar(d: int): char
    requires 0 <= d < 10
  {
    ('0' as int + d) as char
  }

  /** The decimal digits of a natural number, most significant first. */
  function NatDecimal(n: nat): (r: string)
    ensures |r| >= 1 && AllDigits(r)
    decreases n
  {
    if n < 10 then [DigitChar(n)] else NatDecimal(n / 10) + [DigitChar(n % 10)]
  }

  /** How a template literal renders an integral number: `${n}`. */
  function Decimal(n: int): string {
    if n < 0 then "-" + NatDecimal(-n) else NatDecimal(n)
  }

  /** The value of a string of decimal digits. */
  function DigitsValue(s: string): nat
    requires AllDigits(s)
    decreases |s|
  {
    if |s| == 0 then 0
    else DigitsValue(s[..|s| - 1]) * 10 + (s[|s| - 1] as int - '0' as int)
  }

  /** Reads an optionally negative decimal integer, as a cookie's Max-Age
      attribute is read (section 5.2.2 of RFC 6265). */
  function ParseDecimal(s: string): Option<int> {
    if |s| > 1 && s[0] == '-' && AllDigits(s[1..]) then Some(-(DigitsValue(s[1..]) as int))
    else if |s| > 0 && AllDigits(s) then Some(DigitsValue(s))
    else None
  }

  lemma {:induction false} NatDecimalValue(n: nat)
    ensures DigitsValue(NatDecimal(n)) == n
    decreases n
  {
    if n >= 10 {
      NatDecimalValue(n / 10);
      var r := NatDecimal(n);
      assert r[..|r| - 1] == NatDecimal(n / 10);
    }
  }

  /** Reading back the rendered number gives the number. */
  lemma DecimalRoundTrip(n: int)
    ensures ParseDecimal(Decimal(n)) == Some(n)
  {
    if n < 0 {
      NatDecimalValue(-n);
      ParseNegative(NatDecimal(-n));
    } else {
      NatDecimalValue(n);
      ParseDigits(NatDecimal(n));
    }
  }

  lemma ParseNegative(d: string)
    requires |d| >= 1 && AllDigits(d)
    ensures ParseDecimal("-" + d) == Some(-(DigitsValue(d) as int))
  {
    assert ("-" + d)[0] == '-' && ("-" + d)[1..] == d;
  }

  lemma ParseDigits(d: string)
    requires |d| >= 1 && AllDigits(d)
    ensures ParseDecimal(d) == Some(DigitsValue(d))
  {
    assert IsDigit(d[0]);
  }
}
