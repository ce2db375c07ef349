/** JavaScript's `encodeURIComponent` and `decodeURIComponent` (the Encode
    and Decode operations of section 19.2.6 of ECMA-262), on strings of
    Unicode scalar values.

    Both are split in two layers.  The character layer turns each character
    into either itself (an unescaped character) or the octets of its UTF-8
    encoding (section 3 of RFC 3629); the escape layer writes each octet as
    `%` followed by two upper-case hexadecimal digits (section 2.1 of
    RFC 3986).  Decoding runs the layers backwards and fails, as the
    JavaScript function throws `URIError`, on a malformed escape or an
    invalid UTF-8 sequence. */
module UriComponent {
  import opened Wrappers

  type Byte = x: int | 0 <= x < 256

  /** The characters `encodeURIComponent` leaves as they are: letters,
      digits and `- _ . ! ~ * ' ( )`. */
  predicate Unescaped(c: char) {
    || 'A' <= c <= 'Z'
    || 'a' <= c <= 'z'
    || '0' <= c <= '9'
    || c == '-' || c == '_' || c == '.' || c == '!'
    || c == '~' || c == '*' || c == '\'' || c == '(' || c == ')'
  }

  predicate IsUpperHex(c: char) {
    '0' <= c <= '9' || 'A' <= c <= 'F'
  }

  /** A character of an encoded string: unescaped, or part of an escape. */
  predicate EncodedChar(c: char) {
    Unescaped(c) || c == '%' || IsUpperHex(c)
  }

  // ---------------------------------------------------------------------
  // The escape layer
  // ---------------------------------------------------------------------

  /** A piece of an escaped string: a character standing for itself, or an
      octet written as `%XX`. */
  datatype Token = Lit(c: char) | Octet(b: Byte)

  function HexDigit(n: int): (c: char)
    requires 0 <= n < 16
    ensures IsUpperHex(c)
  {
    if n < 10 then ('0' as int + n) as char else ('A' as int + n - 10) as char
  }

  /** The value of a hexadecimal digit of either case. */
  function HexValue(c: char): (r: Option<int>)
    ensures r.Some? ==> 0 <= r.value < 16
  {
    if '0' <= c <= '9' then Some(c as int - '0' as int)
    else if 'A' <= c <= 'F' then Some(c as int - 'A' as int + 10)
    else if 'a' <= c <= 'f' then Some(c as int - 'a' as int + 10)
    else None
  }

  lemma HexDigitValue(n: int)
    requires 0 <= n < 16
    ensures HexValue(HexDigit(n)) == Some(n)
  {
  }

  function RenderToken(t: Token): (r: string)
    ensures t.Lit? ==> r == [t.c]
    ensures t.Octet? ==> |r| == 3 && r[0] == '%' && IsUpperHex(r[1]) && IsUpperHex(r[2])
  {
    match t
    case Lit(c) => [c]
    case Octet(b) => ['%', HexDigit(b / 16), HexDigit(b % 16)]
  }

  /** Writes the tokens out; every character of the result is `%`, an
      upper-case hexadecimal digit, or a character one of the tokens
      stands for. */
  function Render(ts: seq<Token>): (r: string)
    ensures forall c :: c in r ==> c == '%' || IsUpperHex(c) || Lit(c) in ts
  {
    if ts == [] then [] else RenderToken(ts[0]) + Render(ts[1..])
  }

  /** Reads an escaped string back into tokens; a `%` not followed by two
      hexadecimal digits makes it fail. */
  function Tokens(s: string): (r: Option<seq<Token>>)
    decreases |s|
  {
    if s == [] then Some([])
    else if s[0] != '%' then
      match Tokens(s[1..])
      case Some(rest) => Some([Lit(s[0])] + rest)
      case None => None
    else if |s| < 3 then None
    else match (HexValue(s[1]), HexValue(s[2]))
      case (Some(hi), Some(lo)) =>
        (match Tokens(s[3..])
         case Some(rest) => Some([Octet(hi * 16 + lo)] + rest)
         case None => None)
      case _ => None
  }

  /** Reading back what was written gives the same tokens, provided no
      literal token is itself a `%`. */
  lemma {:induction false} TokensOfRender(ts: seq<Token>)
    requires forall t :: t in ts && t.Lit? ==> t.c != '%'
    ensures Tokens(Render(ts)) == Some(ts)
  {
    if ts != [] {
      TokensOfRender(ts[1..]);
      var s := Render(ts);
      var head := RenderToken(ts[0]);
      assert s == head + Render(ts[1..]);
      assert ts == [ts[0]] + ts[1..];
      match ts[0]
      case Lit(c) =>
        assert s[1..] == Render(ts[1..]);
      case Octet(b) =>
        assert s[3..] == Render(ts[1..]);
        assert s[1] == HexDigit(b / 16) && s[2] == HexDigit(b % 16);
        HexDigitValue(b / 16);
        HexDigitValue(b % 16);
    }
  }

  // ---------------------------------------------------------------------
  // The character layer: UTF-8
  // ---------------------------------------------------------------------

  /** The UTF-8 encoding of a scalar value: one to four octets. */
  function Utf8Bytes(c: char): (bs: seq<Byte>)
    ensures 1 <= |bs| <= 4
    ensures (|bs| == 1) <==> c as int < 0x80
  {
    var cp := c as int;
    if cp < 0x80 then [cp]
    else if cp < 0x800 then [0xC0 + cp / 64, 0x80 + cp % 64]
    else if cp < 0x10000 then [0xE0 + cp / 4096, 0x80 + (cp / 64) % 64, 0x80 + cp % 64]
    else [0xF0 + cp / 262144, 0x80 + (cp / 4096) % 64, 0x80 + (cp / 64) % 64, 0x80 + cp % 64]
  }

  function Octets(bs: seq<Byte>): (ts: seq<Token>)
    ensures |ts| == |bs|
    ensures forall i :: 0 <= i < |bs| ==> ts[i] == Octet(bs[i])
  {
    if bs == [] then [] else [Octet(bs[0])] + Octets(bs[1..])
  }

  /** The tokens one character becomes. */
  function CharTokens(c: char): (ts: seq<Token>)
    ensures Unescaped(c) ==> ts == [Lit(c)]
    ensures !Unescaped(c) ==> ts == Octets(Utf8Bytes(c))
  {
    if Unescaped(c) then [Lit(c)] else Octets(Utf8Bytes(c))
  }

  function EncodeTokens(s: string): (ts: seq<Token>)
    ensures forall t :: t in ts && t.Lit? ==> Unescaped(t.c)
  {
    if s == [] then [] else CharTokens(s[0]) + EncodeTokens(s[1..])
  }

  /** The six low bits of the token at `i`, if it is a continuation octet
      (10xxxxxx). */
  function Continuation(ts: seq<Token>, i: nat): (r: Option<int>)
    ensures r.Some? ==> 0 <= r.value < 64
  {
    if i < |ts| && ts[i].Octet? && 0x80 <= ts[i].b < 0xC0 then Some(ts[i].b - 0x80) else None
  }

  predicate IsScalar(cp: int) {
    0 <= cp < 0xD800 || 0xE000 <= cp <= 0x10FFFF
  }

  /** Decodes the UTF-8 sequence that starts at the first token, an octet:
      the character and the number of tokens it used.  A stray continuation
      octet, a lead octet of five or more bits, a missing or literal
      continuation, an overlong form, a surrogate or a value past U+10FFFF
      is an error. */
  function DecodeChar(ts: seq<Token>): (r: Option<(char, nat)>)
    requires ts != [] && ts[0].Octet?
    ensures r.Some? ==> 1 <= r.value.1 <= |ts|
  {
    var b0 := ts[0].b;
    if b0 < 0x80 then Some((b0 as char, 1))
    else if b0 < 0xC0 then None
    else if b0 < 0xE0 then
      match Continuation(ts, 1)
      case Some(v1) =>
        var cp := (b0 - 0xC0) * 64 + v1;
        if cp < 0x80 then None else Some((cp as char, 2))
      case None => None
    else if b0 < 0xF0 then
      match (Continuation(ts, 1), Continuation(ts, 2))
      case (Some(v1), Some(v2)) =>
        var cp := (b0 - 0xE0) * 4096 + v1 * 64 + v2;
        if cp < 0x800 || !IsScalar(cp) then None else Some((cp as char, 3))
      case _ => None
    else if b0 < 0xF8 then
      match (Continuation(ts, 1), Continuation(ts, 2), Continuation(ts, 3))
      case (Some(v1), Some(v2), Some(v3)) =>
        var cp := (b0 - 0xF0) * 262144 + v1 * 4096 + v2 * 64 + v3;
        if cp < 0x10000 || !IsScalar(cp) then None else Some((cp as char, 4))
      case _ => None
    else None
  }

  function Prepend(c: char, o: Option<string>): Option<string> {
    match o
    case Some(t) => Some([c] + t)
    case None => None
  }

  /** Turns tokens back into characters. */
  function DecodeTokens(ts: seq<Token>): (r: Option<string>)
    decreases |ts|
  {
    if ts == [] then Some([])
    else match ts[0]
      case Lit(c) => Prepend(c, DecodeTokens(ts[1..]))
      case Octet(_) =>
        match DecodeChar(ts)
        case Some((c, k)) => Prepend(c, DecodeTokens(ts[k..]))
        case None => None
  }

  /** Splitting a value into its high and low parts base 64. */
  lemma Base64Digits(cp: int)
    requires cp >= 0
    ensures cp == (cp / 64) * 64 + cp % 64
    ensures cp / 64 == (cp / 4096) * 64 + (cp / 64) % 64
    ensures cp / 4096 == (cp / 262144) * 64 + (cp / 4096) % 64
  {
  }

  lemma TwoOctetRoundTrip(c: char, rest: seq<Token>)
    requires 0x80 <= c as int < 0x800
    ensures DecodeChar(Octets(Utf8Bytes(c)) + rest) == Some((c, 2))
  {
    var cp := c as int;
    var ts := Octets(Utf8Bytes(c)) + rest;
    assert ts[0] == Octet(0xC0 + cp / 64) && ts[1] == Octet(0x80 + cp % 64);
    Base64Digits(cp);
    assert Continuation(ts, 1) == Some(cp % 64);
  }

  lemma ThreeOctetRoundTrip(c: char, rest: seq<Token>)
    requires 0x800 <= c as int < 0x10000
    ensures DecodeChar(Octets(Utf8Bytes(c)) + rest) == Some((c, 3))
  {
    var cp := c as int;
    var ts := Octets(Utf8Bytes(c)) + rest;
    assert ts[0] == Octet(0xE0 + cp / 4096);
    assert ts[1] == Octet(0x80 + (cp / 64) % 64) && ts[2] == Octet(0x80 + cp % 64);
    Base64Digits(cp);
    assert Continuation(ts, 1) == Some((cp / 64) % 64);
    assert Continuation(ts, 2) == Some(cp % 64);
    assert (cp / 4096) * 4096 + ((cp / 64) % 64) * 64 + cp % 64 == cp;
  }

  lemma FourOctetRoundTrip(c: char, rest: seq<Token>)
    requires 0x10000 <= c as int
    ensures DecodeChar(Octets(Utf8Bytes(c)) + rest) == Some((c, 4))
  {
    var cp := c as int;
    var ts := Octets(Utf8Bytes(c)) + rest;
    assert ts[0] == Octet(0xF0 + cp / 262144);
    assert ts[1] == Octet(0x80 + (cp / 4096) % 64);
    assert ts[2] == Octet(0x80 + (cp / 64) % 64) && ts[3] == Octet(0x80 + cp % 64);
    Base64Digits(cp);
    assert Continuation(ts, 1) == Some((cp / 4096) % 64);
    assert Continuation(ts, 2) == Some((cp / 64) % 64);
    assert Continuation(ts, 3) == Some(cp % 64);
    assert (cp / 262144) * 262144 + ((cp / 4096) % 64) * 4096 + ((cp / 64) % 64) * 64 + cp % 64 == cp;
  }

  /** The octets of a character decode to that character. */
  lemma Utf8RoundTrip(c: char, rest: seq<Token>)
    ensures DecodeChar(Octets(Utf8Bytes(c)) + rest) == Some((c, |Utf8Bytes(c)|))
  {
    if c as int < 0x80 {
      assert (Octets(Utf8Bytes(c)) + rest)[0] == Octet(c as int);
    } else if c as int < 0x800 {
      TwoOctetRoundTrip(c, rest);
    } else if c as int < 0x10000 {
      ThreeOctetRoundTrip(c, rest);
    } else {
      FourOctetRoundTrip(c, rest);
    }
  }

  /** Decoding one character's tokens in front of anything else yields that
      character in front of what the rest decodes to. */
  lemma DecodeCharTokens(c: char, rest: seq<Token>)
    ensures DecodeTokens(CharTokens(c) + rest) == Prepend(c, DecodeTokens(rest))
  {
    var ts := CharTokens(c) + rest;
    if Unescaped(c) {
      assert ts[1..] == rest;
    } else {
      Utf8RoundTrip(c, rest);
      assert ts[0] == Octet(Utf8Bytes(c)[0]);
      assert ts[|Utf8Bytes(c)|..] == rest;
    }
  }

  lemma {:induction false} DecodeEncodeTokens(s: string)
    ensures DecodeTokens(EncodeTokens(s)) == Some(s)
  {
    if s != [] {
      var rest := EncodeTokens(s[1..]);
      assert EncodeTokens(s) == CharTokens(s[0]) + rest;
      DecodeEncodeTokens(s[1..]);
      DecodeCharTokens(s[0], rest);
      assert [s[0]] + s[1..] == s;
    }
  }

  // ---------------------------------------------------------------------
  // The two functions
  // ---------------------------------------------------------------------

  /** `encodeURIComponent(s)`: only unescaped characters, `%` and
      upper-case hexadecimal digits appear in the result, so in particular
      no `&` and no `=`. */
  function EncodeUriComponent(s: string): (r: string)
    ensures forall c :: c in r ==> EncodedChar(c)
    ensures '&' !in r && '=' !in r
  {
    Render(EncodeTokens(s))
  }

  /** `decodeURIComponent(s)`, with `None` where JavaScript throws. */
  function DecodeUriComponent(s: string): Option<string> {
    match Tokens(s)
    case Some(ts) => DecodeTokens(ts)
    case None => None
  }

  /** Decoding undoes encoding, for every string. */
  lemma DecodeEncode(s: string)
    ensures DecodeUriComponent(EncodeUriComponent(s)) == Some(s)
  {
    var ts := EncodeTokens(s);
    TokensOfRender(ts);
    DecodeEncodeTokens(s);
  }

  /** Encoding is injective: different strings never encode alike. */
  lemma EncodeInjective(s: string, t: string)
    requires EncodeUriComponent(s) == EncodeUriComponent(t)
    ensures s == t
  {
    DecodeEncode(s);
    DecodeEncode(t);
  }

  /** Encoding works character by character. */
  lemma {:induction false} EncodeAppend(s: string, t: string)
    ensures EncodeUriComponent(s + t) == EncodeUriComponent(s) + EncodeUriComponent(t)
  {
    EncodeTokensAppend(s, t);
    RenderAppend(EncodeTokens(s), EncodeTokens(t));
  }

  lemma {:induction false} EncodeTokensAppend(s: string, t: string)
    ensures EncodeTokens(s + t) == EncodeTokens(s) + EncodeTokens(t)
  {
    if s == [] {
      assert s + t == t;
    } else {
      assert (s + t)[0] == s[0] && (s + t)[1..] == s[1..] + t;
      EncodeTokensAppend(s[1..], t);
    }
  }

  lemma {:induction false} RenderAppend(a: seq<Token>, b: seq<Token>)
    ensures Render(a + b) == Render(a) + Render(b)
  {
    if a == [] {
      assert a + b == b;
    } else {
      assert (a + b)[0] == a[0] && (a + b)[1..] == a[1..] + b;
      RenderAppend(a[1..], b);
    }
  }

  /** A string of unescaped characters encodes to itself. */
  lemma {:induction false} EncodeUnescaped(s: string)
    requires forall i :: 0 <= i < |s| ==> Unescaped(s[i])
    ensures EncodeUriComponent(s) == s
  {
    if s != [] {
      EncodeUnescaped(s[1..]);
      assert s == [s[0]] + s[1..];
    }
  }

  /** A space and an ampersand are escaped as one octet each. */
  lemma EncodeAsciiExamples()
    ensures EncodeUriComponent(" ") == "%20"
    ensures EncodeUriComponent("&") == "%26"
  {
  }

  /** A two-octet character is escaped octet by octet. */
  lemma EncodeTwoOctetExample()
    ensures EncodeUriComponent("é") == "%C3%A9"
  {
    assert Utf8Bytes('é') == [0xC3, 0xA9];
  }

  /** A four-octet character, outside the Basic Multilingual Plane, becomes
      four octets. */
  lemma FourOctetExample()
    ensures CharTokens('😀') == [Octet(0xF0), Octet(0x9F), Octet(0x98), Octet(0x80)]
  {
    assert Utf8Bytes('😀') == [0xF0, 0x9F, 0x98, 0x80];
  }

  /** A truncated escape is rejected. */
  lemma DecodeRejectsTruncated()
    ensures DecodeUriComponent("%") == None
    ensures DecodeUriComponent("%4") == None
  {
  }

  /** An overlong encoding of U+0000 is rejected. */
  lemma DecodeRejectsOverlong()
    ensures DecodeUriComponent("%C0%80") == None
  {
  }

  /** An encoded surrogate is rejected. */
  lemma DecodeRejectsSurrogate()
    ensures DecodeUriComponent("%ED%A0%80") == None
  {
  }
}
