/** Byte encodings used by the password hashes: UTF-8 (`Buffer.from(s)`,
    `str.encode()`), Base64 as in section 4 of RFC 4648 (`toString("base64")`)
    and lower-case hexadecimal (`hexdigest()`, `token_hex`). Each comes with a
    decoder and a round-trip lemma, from which injectivity follows. */
module Encoding {
  import opened Common

  newtype byte = x: int | 0 <= x < 256

  // ---------------------------------------------------------------------------
  // UTF-8 (section 3 of RFC 3629). Dafny characters are Unicode scalar values,
  // so every character has an encoding.

  function EncodeChar(c: char): (r: seq<byte>)
    ensures 1 <= |r| <= 4
  {
    var n := c as int;
    if n < 0x80 then [n as byte]
    else if n < 0x800 then [(0xC0 + n / 64) as byte, (0x80 + n % 64) as byte]
    else if n < 0x10000 then
      [(0xE0 + n / 4096) as byte, (0x80 + (n / 64) % 64) as byte, (0x80 + n % 64) as byte]
    else
      [(0xF0 + n / 262144) as byte, (0x80 + (n / 4096) % 64) as byte,
       (0x80 + (n / 64) % 64) as byte, (0x80 + n % 64) as byte]
  }

  function Utf8(s: string): (r: seq<byte>)
    ensures |r| >= |s|
    decreases |s|
  {
    if s == [] then [] else EncodeChar(s[0]) + Utf8(s[1..])
  }

  lemma {:induction false} Utf8Append(a: string, b: string)
    ensures Utf8(a + b) == Utf8(a) + Utf8(b)
    decreases |a|
  {
    if a == [] {
      assert a + b == b;
    } else {
      assert (a + b)[1..] == a[1..] + b;
      Utf8Append(a[1..], b);
    }
  }

  predicate IsCont(b: byte) {
    0x80 <= b < 0xC0
  }

  /** Number of bytes announced by a lead byte, or 0 for a byte that cannot lead. */
  function SeqLength(b: byte): (k: nat)
    ensures k <= 4
  {
    if b < 0x80 then 1
    else if 0xC0 <= b < 0xE0 then 2
    else if 0xE0 <= b < 0xF0 then 3
    else if 0xF0 <= b < 0xF8 then 4
    else 0
  }

  /** The scalar value carried by one well-announced sequence, if it is one. */
  function DecodeOne(bs: seq<byte>): (r: Option<char>)
    requires 1 <= |bs| <= 4 && |bs| == SeqLength(bs[0])
  {
    var n :=
      if |bs| == 1 then bs[0] as int
      else if |bs| == 2 then (bs[0] as int - 0xC0) * 64 + (bs[1] as int - 0x80)
      else if |bs| == 3 then
        (bs[0] as int - 0xE0) * 4096 + (bs[1] as int - 0x80) * 64 + (bs[2] as int - 0x80)
      else
        (bs[0] as int - 0xF0) * 262144 + (bs[1] as int - 0x80) * 4096
        + (bs[2] as int - 0x80) * 64 + (bs[3] as int - 0x80);
    if (forall i :: 1 <= i < |bs| ==> IsCont(bs[i]))
       && (0 <= n < 0xD800 || 0xE000 <= n < 0x11_0000)
    then Some(n as char)
    else None
  }

  /** A UTF-8 decoder: `None` for a malformed byte sequence. */
  function DecodeUtf8(bs: seq<byte>): (r: Option<string>)
    decreases |bs|
  {
    if bs == [] then Some([])
    else
      var k := SeqLength(bs[0]);
      if k == 0 || |bs| < k then None
      else match DecodeOne(bs[..k])
        case None => None
        case Some(c) =>
          match DecodeUtf8(bs[k..])
          case None => None
          case Some(rest) => Some([c] + rest)
  }

  lemma Split64(n: int)
    requires 0 <= n
    ensures n == (n / 64) * 64 + n % 64 && 0 <= n % 64 < 64
  {
  }

  lemma TwoByteDecodes(c: char)
    requires 0x80 <= c as int < 0x800
    ensures SeqLength(EncodeChar(c)[0]) == 2 && DecodeOne(EncodeChar(c)) == Some(c)
  {
    var n := c as int;
    var e := EncodeChar(c);
    Split64(n);
    assert (e[0] as int - 0xC0) * 64 + (e[1] as int - 0x80) == n;
  }

  lemma ThreeByteDecodes(c: char)
    requires 0x800 <= c as int < 0x10000
    ensures SeqLength(EncodeChar(c)[0]) == 3 && DecodeOne(EncodeChar(c)) == Some(c)
  {
    var n := c as int;
    var e := EncodeChar(c);
    Split64(n);
    Split64(n / 64);
    assert n / 4096 == (n / 64) / 64;
    assert (e[0] as int - 0xE0) * 4096 + (e[1] as int - 0x80) * 64 + (e[2] as int - 0x80) == n;
  }

  lemma FourByteDecodes(c: char)
    requires 0x10000 <= c as int
    ensures SeqLength(EncodeChar(c)[0]) == 4 && DecodeOne(EncodeChar(c)) == Some(c)
  {
    var n := c as int;
    var e := EncodeChar(c);
    Split64(n);
    Split64(n / 64);
    Split64(n / 4096);
    assert n / 4096 == (n / 64) / 64;
    assert n / 262144 == (n / 4096) / 64;
    assert (e[0] as int - 0xF0) * 262144 + (e[1] as int - 0x80) * 4096
      + (e[2] as int - 0x80) * 64 + (e[3] as int - 0x80) == n;
  }

  lemma EncodeCharDecodes(c: char)
    ensures SeqLength(EncodeChar(c)[0]) == |EncodeChar(c)|
    ensures DecodeOne(EncodeChar(c)) == Some(c)
  {
    var n := c as int;
    if n < 0x80 {
    } else if n < 0x800 {
      TwoByteDecodes(c);
    } else if n < 0x10000 {
      ThreeByteDecodes(c);
    } else {
      FourByteDecodes(c);
    }
  }

  /** Decoding the UTF-8 encoding of a string gives the string back. */
  lemma {:induction false} Utf8RoundTrip(s: string)
    ensures DecodeUtf8(Utf8(s)) == Some(s)
    decreases |s|
  {
    if s != [] {
      var e := EncodeChar(s[0]);
      var bs := Utf8(s);
      EncodeCharDecodes(s[0]);
      assert bs[..|e|] == e;
      assert bs[|e|..] == Utf8(s[1..]);
      Utf8RoundTrip(s[1..]);
      assert s == [s[0]] + s[1..];
    }
  }

  lemma Utf8Injective(s: string, t: string)
    requires Utf8(s) == Utf8(t)
    ensures s == t
  {
    Utf8RoundTrip(s);
    Utf8RoundTrip(t);
  }

  // ---------------------------------------------------------------------------
  // Base64, section 4 of RFC 4648: the standard alphabet with `=` padding.
  // Bytes are first cut into 6-bit symbols (64 standing for the pad `=`),
  // then each symbol becomes one character.

  const PAD: int := 64

  /** The character of a symbol: the 64-letter alphabet, or `=` for the pad. */
  function SymbolChar(x: int): (c: char)
    requires 0 <= x <= PAD
  {
    if x < 26 then ('A' as int + x) as char
    else if x < 52 then ('a' as int + x - 26) as char
    else if x < 62 then ('0' as int + x - 52) as char
    else if x == 62 then '+'
    else if x == 63 then '/'
    else '='
  }

  /** The symbol of a character, or -1 outside the alphabet. */
  function SymbolValue(c: char): (v: int)
    ensures -1 <= v <= PAD
  {
    if 'A' <= c <= 'Z' then c as int - 'A' as int
    else if 'a' <= c <= 'z' then c as int - 'a' as int + 26
    else if '0' <= c <= '9' then c as int - '0' as int + 52
    else if c == '+' then 62
    else if c == '/' then 63
    else if c == '=' then PAD
    else -1
  }

  lemma SymbolRoundTrip(x: int)
    requires 0 <= x <= PAD
    ensures SymbolValue(SymbolChar(x)) == x
  {
  }

  predicate IsSymbols(q: seq<int>) {
    forall i :: 0 <= i < |q| ==> 0 <= q[i] <= PAD
  }

  predicate IsSextet(v: int) {
    0 <= v < PAD
  }

  /** Three bytes as four 6-bit symbols. */
  function Encode3(a: byte, b: byte, c: byte): (g: seq<int>)
    ensures |g| == 4 && IsSextet(g[0]) && IsSextet(g[1]) && IsSextet(g[2]) && IsSextet(g[3])
  {
    [a as int / 4, (a as int % 4) * 16 + b as int / 16, (b as int % 16) * 4 + c as int / 64, c as int % 64]
  }

  /** Two bytes as three symbols and one pad. */
  function Encode2(a: byte, b: byte): (g: seq<int>)
    ensures |g| == 4 && IsSextet(g[0]) && IsSextet(g[1]) && IsSextet(g[2]) && g[3] == PAD
  {
    [a as int / 4, (a as int % 4) * 16 + b as int / 16, (b as int % 16) * 4, PAD]
  }

  /** One byte as two symbols and two pads. */
  function Encode1(a: byte): (g: seq<int>)
    ensures |g| == 4 && IsSextet(g[0]) && IsSextet(g[1]) && g[2] == PAD && g[3] == PAD
  {
    [a as int / 4, (a as int % 4) * 16, PAD, PAD]
  }

  function Decode3(v0: int, v1: int, v2: int, v3: int): seq<byte>
    requires IsSextet(v0) && IsSextet(v1) && IsSextet(v2) && IsSextet(v3)
  {
    [(v0 * 4 + v1 / 16) as byte, ((v1 % 16) * 16 + v2 / 4) as byte, ((v2 % 4) * 64 + v3) as byte]
  }

  function Decode2(v0: int, v1: int, v2: int): seq<byte>
    requires IsSextet(v0) && IsSextet(v1) && IsSextet(v2)
  {
    [(v0 * 4 + v1 / 16) as byte, ((v1 % 16) * 16 + v2 / 4) as byte]
  }

  function Decode1(v0: int, v1: int): seq<byte>
    requires IsSextet(v0) && IsSextet(v1)
  {
    [(v0 * 4 + v1 / 16) as byte]
  }

  lemma Decode3Encode3(a: byte, b: byte, c: byte)
    ensures var g := Encode3(a, b, c); Decode3(g[0], g[1], g[2], g[3]) == [a, b, c]
  {
  }

  lemma Decode2Encode2(a: byte, b: byte)
    ensures var g := Encode2(a, b); Decode2(g[0], g[1], g[2]) == [a, b]
  {
  }

  lemma Decode1Encode1(a: byte)
    ensures var g := Encode1(a); Decode1(g[0], g[1]) == [a]
  {
  }

  /** The 6-bit symbols of a byte string: four per group of three bytes, the
      last group padded. */
  function Sextets(bs: seq<byte>): (q: seq<int>)
    ensures |q| % 4 == 0 && IsSymbols(q)
    decreases |bs|
  {
    if |bs| == 0 then []
    else if |bs| == 1 then Encode1(bs[0])
    else if |bs| == 2 then Encode2(bs[0], bs[1])
    else Encode3(bs[0], bs[1], bs[2]) + Sextets(bs[3..])
  }

  /** `Buffer.toString("base64")`. */
  function Base64(bs: seq<byte>): (r: string)
    ensures |r| % 4 == 0
  {
    var q := Sextets(bs);
    seq(|q|, i requires 0 <= i < |q| => SymbolChar(q[i]))
  }

  /** Bytes of a symbol sequence: groups of four, where only the last group
      may end in one or two pads. */
  function DecodeSextets(q: seq<int>): (r: Option<seq<byte>>)
    decreases |q|
  {
    if q == [] then Some([])
    else if |q| < 4 then None
    else if IsSextet(q[0]) && IsSextet(q[1]) && IsSextet(q[2]) && IsSextet(q[3]) then
      match DecodeSextets(q[4..])
      case None => None
      case Some(rest) => Some(Decode3(q[0], q[1], q[2], q[3]) + rest)
    else if |q| == 4 && IsSextet(q[0]) && IsSextet(q[1]) && IsSextet(q[2]) && q[3] == PAD then
      Some(Decode2(q[0], q[1], q[2]))
    else if |q| == 4 && IsSextet(q[0]) && IsSextet(q[1]) && q[2] == PAD && q[3] == PAD then
      Some(Decode1(q[0], q[1]))
    else None
  }

  /** A Base64 decoder: `None` for text outside the alphabet or badly padded. */
  function DecodeBase64(s: string): (r: Option<seq<byte>>)
  {
    var q := seq(|s|, i requires 0 <= i < |s| => SymbolValue(s[i]));
    DecodeSextets(q)
  }

  lemma {:induction false} SextetsRoundTrip(bs: seq<byte>)
    ensures DecodeSextets(Sextets(bs)) == Some(bs)
    decreases |bs|
  {
    if |bs| == 1 {
      Decode1Encode1(bs[0]);
      assert bs == [bs[0]];
    } else if |bs| == 2 {
      Decode2Encode2(bs[0], bs[1]);
      assert bs == [bs[0], bs[1]];
    } else if |bs| >= 3 {
      var g := Encode3(bs[0], bs[1], bs[2]);
      var q := Sextets(bs);
      Decode3Encode3(bs[0], bs[1], bs[2]);
      assert q[..4] == g;
      assert q[4..] == Sextets(bs[3..]);
      SextetsRoundTrip(bs[3..]);
      assert bs == [bs[0], bs[1], bs[2]] + bs[3..];
    }
  }

  /** Decoding the Base64 text of a byte string gives the bytes back. */
  lemma Base64RoundTrip(bs: seq<byte>)
    ensures DecodeBase64(Base64(bs)) == Some(bs)
  {
    var q := Sextets(bs);
    var s := Base64(bs);
    var back := seq(|s|, i requires 0 <= i < |s| => SymbolValue(s[i]));
    forall i | 0 <= i < |q| ensures back[i] == q[i] {
      SymbolRoundTrip(q[i]);
    }
    assert back == q;
    SextetsRoundTrip(bs);
  }

  lemma Base64Injective(a: seq<byte>, b: seq<byte>)
    requires Base64(a) == Base64(b)
    ensures a == b
  {
    Base64RoundTrip(a);
    Base64RoundTrip(b);
  }

  // ---------------------------------------------------------------------------
  // Lower-case hexadecimal, two characters per byte.

  function HexDigit(x: int): (c: char)
    requires 0 <= x < 16
    ensures c != '$'
  {
    if x < 10 then ('0' as int + x) as char else ('a' as int + x - 10) as char
  }

  function HexValue(c: char): (v: int)
    ensures -1 <= v < 16
  {
    if '0' <= c <= '9' then c as int - '0' as int
    else if 'a' <= c <= 'f' then c as int - 'a' as int + 10
    else -1
  }

  function Hex(bs: seq<byte>): (r: string)
    ensures |r| == 2 * |bs|
    ensures '$' !in r
    decreases |bs|
  {
    if bs == [] then []
    else [HexDigit(bs[0] as int / 16), HexDigit(bs[0] as int % 16)] + Hex(bs[1..])
  }

  function Unhex(s: string): (r: Option<seq<byte>>)
    decreases |s|
  {
    if s == [] then Some([])
    else if |s| == 1 then None
    else
      var hi, lo := HexValue(s[0]), HexValue(s[1]);
      if hi < 0 || lo < 0 then None
      else match Unhex(s[2..])
        case None => None
        case Some(rest) => Some([(hi * 16 + lo) as byte] + rest)
  }

  lemma {:induction false} HexRoundTrip(bs: seq<byte>)
    ensures Unhex(Hex(bs)) == Some(bs)
    decreases |bs|
  {
    if bs != [] {
      var s := Hex(bs);
      assert s[2..] == Hex(bs[1..]);
      HexRoundTrip(bs[1..]);
      assert bs == [bs[0]] + bs[1..];
    }
  }

  lemma HexInjective(a: seq<byte>, b: seq<byte>)
    requires Hex(a) == Hex(b)
    ensures a == b
  {
    HexRoundTrip(a);
    HexRoundTrip(b);
  }
}
