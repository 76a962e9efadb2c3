/** ECMAScript `encodeURIComponent` and `decodeURIComponent` (sections 19.2.6.4 and 19.2.6.2 of
    ECMA-262): percent-encoding in the sense of section 2.1 of RFC 3986 over the UTF-8 bytes of
    each character (RFC 3629). Strings here are sequences of Unicode scalar values, so the lone
    surrogates that make the JavaScript encoder throw cannot occur. */
module UriCodec {
  import opened Wrappers

  type Byte = b: nat | b < 256

  /** The characters `encodeURIComponent` leaves as they are: letters, digits and `-_.!~*'()`. */
  predicate Unreserved(c: char) {
    ('A' <= c <= 'Z') || ('a' <= c <= 'z') || ('0' <= c <= '9')
    || c == '-' || c == '_' || c == '.' || c == '!' || c == '~' || c == '*' || c == '\'' || c == '(' || c == ')'
  }

  const HexDigits: string := "0123456789ABCDEF"

  /** Value of a hexadecimal digit of either case, -1 for any other character. */
  function HexValue(c: char): (v: int)
    ensures -1 <= v < 16
  {
    if '0' <= c <= '9' then c as int - '0' as int
    else if 'A' <= c <= 'F' then c as int - 'A' as int + 10
    else if 'a' <= c <= 'f' then c as int - 'a' as int + 10
    else -1
  }

  predicate IsHexDigit(c: char) {
    HexValue(c) >= 0
  }

  function HexByte(hi: char, lo: char): Byte
    requires IsHexDigit(hi) && IsHexDigit(lo)
  {
    HexValue(hi) * 16 + HexValue(lo)
  }

  /** `%XX` with upper-case hexadecimal digits, as the encoder writes each byte. */
  function Escape(b: Byte): (r: string)
    ensures |r| == 3 && r[0] == '%' && Unreserved(r[1]) && Unreserved(r[2])
    ensures IsHexDigit(r[1]) && IsHexDigit(r[2]) && HexByte(r[1], r[2]) == b
  {
    var r := ['%', HexDigits[b / 16], HexDigits[b % 16]];
    HexDigitValue(b / 16);
    HexDigitValue(b % 16);
    r
  }

  lemma HexDigitValue(d: nat)
    requires d < 16
    ensures HexValue(HexDigits[d]) == d && Unreserved(HexDigits[d])
  {
  }

  /** The UTF-8 encoding of one scalar value (section 3 of RFC 3629). */
  function Utf8(c: char): (bs: seq<Byte>)
    ensures 1 <= |bs| <= 4
    ensures (|bs| == 1) == (c as int < 0x80)
  {
    var cp := c as int;
    if cp < 0x80 then [cp]
    else if cp < 0x800 then [0xC0 + cp / 64, 0x80 + cp % 64]
    else if cp < 0x10000 then [0xE0 + cp / 64 / 64, 0x80 + cp / 64 % 64, 0x80 + cp % 64]
    else [0xF0 + cp / 64 / 64 / 64, 0x80 + cp / 64 / 64 % 64, 0x80 + cp / 64 % 64, 0x80 + cp % 64]
  }

  predicate IsContinuation(b: Byte) {
    0x80 <= b < 0xC0
  }

  /** The number of bytes a UTF-8 sequence starting with `b` claims: the count of leading one bits,
      with 1 for a stray continuation byte and 5 for anything from 0xF8 up. */
  function LeadLength(b: Byte): (n: nat)
    ensures 1 <= n <= 5
  {
    if b < 0x80 then 1
    else if b < 0xC0 then 1
    else if b < 0xE0 then 2
    else if b < 0xF0 then 3
    else if b < 0xF8 then 4
    else 5
  }

  /** The code point bits a two-to-four byte sequence carries, read from its lead and
      continuation bytes. */
  function Payload(bs: seq<Byte>): int
    requires 2 <= |bs| <= 4
  {
    var last := bs[|bs| - 1] as int % 64;
    if |bs| == 2 then (bs[0] as int % 32) * 64 + last
    else if |bs| == 3 then ((bs[0] as int % 16) * 64 + bs[1] as int % 64) * 64 + last
    else (((bs[0] as int % 8) * 64 + bs[1] as int % 64) * 64 + bs[2] as int % 64) * 64 + last
  }

  /** Decodes one multi-byte UTF-8 sequence; `None` unless it is the shortest encoding of a scalar
      value (no overlong form, no surrogate, nothing above U+10FFFF). */
  function Utf8Decode(bs: seq<Byte>): Option<char> {
    if |bs| < 2 || |bs| > 4 || bs[0] < 0x80 || LeadLength(bs[0]) != |bs| then None
    else if exists i | 1 <= i < |bs| :: !IsContinuation(bs[i]) then None
    else
      var cp := Payload(bs);
      if |bs| == 2 && cp < 0x80 then None
      else if |bs| == 3 && (cp < 0x800 || 0xD800 <= cp < 0xE000) then None
      else if |bs| == 4 && (cp < 0x10000 || cp > 0x10FFFF) then None
      else Some(cp as char)
  }

  lemma DivMod64(q: int, r: int)
    requires 0 <= r < 64
    ensures (q * 64 + r) / 64 == q && (q * 64 + r) % 64 == r
  {
  }

  /** The low six bits of a continuation byte. */
  lemma ContinuationBits(b: int)
    requires 0x80 <= b < 0xC0
    ensures b % 64 == b - 0x80
  {
  }

  /** The payload bits of a two-, three- and four-byte lead. */
  lemma LeadBits(b: int)
    requires 0xC0 <= b < 0xF8
    ensures 0xC0 <= b < 0xE0 ==> b % 32 == b - 0xC0
    ensures 0xE0 <= b < 0xF0 ==> b % 16 == b - 0xE0
    ensures 0xF0 <= b < 0xF8 ==> b % 8 == b - 0xF0
  {
  }

  lemma PayloadOfUtf8(c: char)
    requires c as int >= 0x80
    ensures Payload(Utf8(c)) == c as int
  {
    var cp := c as int;
    var bs := Utf8(c);
    var r0, q0 := cp % 64, cp / 64;
    ContinuationBits(0x80 + r0);
    assert bs[|bs| - 1] as int % 64 == r0;
    if cp < 0x800 {
      LeadBits(0xC0 + q0);
      assert Payload(bs) == q0 * 64 + r0;
    } else {
      var r1, q1 := q0 % 64, q0 / 64;
      ContinuationBits(0x80 + r1);
      if cp < 0x10000 {
        LeadBits(0xE0 + q1);
        assert Payload(bs) == (q1 * 64 + r1) * 64 + r0;
      } else {
        var r2, q2 := q1 % 64, q1 / 64;
        LeadBits(0xF0 + q2);
        ContinuationBits(0x80 + r2);
        assert Payload(bs) == ((q2 * 64 + r2) * 64 + r1) * 64 + r0;
      }
    }
  }

  lemma Utf8DecodeOfUtf8(c: char)
    requires c as int >= 0x80
    ensures Utf8Decode(Utf8(c)) == Some(c)
  {
    var bs := Utf8(c);
    PayloadOfUtf8(c);
    assert forall i | 1 <= i < |bs| :: IsContinuation(bs[i]);
  }

  lemma Utf8OfUtf8Decode(bs: seq<Byte>, c: char)
    requires Utf8Decode(bs) == Some(c)
    ensures bs == Utf8(c)
  {
    assert forall i | 1 <= i < |bs| :: IsContinuation(bs[i]);
    var n := |bs|;
    var z := bs[n - 1] as int - 0x80;
    ContinuationBits(bs[n - 1] as int);
    LeadBits(bs[0] as int);
    if n == 2 {
      Utf8OfTwo(bs, c, bs[0] as int - 0xC0, z);
    } else if n == 3 {
      ContinuationBits(bs[1] as int);
      Utf8OfThree(bs, c, bs[0] as int - 0xE0, bs[1] as int - 0x80, z);
    } else {
      ContinuationBits(bs[1] as int);
      ContinuationBits(bs[2] as int);
      Utf8OfFour(bs, c, bs[0] as int - 0xF0, bs[1] as int - 0x80, bs[2] as int - 0x80, z);
    }
  }

  lemma Utf8OfTwo(bs: seq<Byte>, c: char, x: int, z: int)
    requires |bs| == 2 && 0 <= z < 64 && 0 <= x
    requires bs[0] as int == 0xC0 + x && bs[1] as int == 0x80 + z
    requires 0x80 <= c as int < 0x800 && c as int == x * 64 + z
    ensures bs == Utf8(c)
  {
    DivMod64(x, z);
  }

  lemma Utf8OfThree(bs: seq<Byte>, c: char, x: int, y: int, z: int)
    requires |bs| == 3 && 0 <= y < 64 && 0 <= z < 64 && 0 <= x
    requires bs[0] as int == 0xE0 + x && bs[1] as int == 0x80 + y && bs[2] as int == 0x80 + z
    requires 0x800 <= c as int < 0x10000 && c as int == (x * 64 + y) * 64 + z
    ensures bs == Utf8(c)
  {
    DivMod64(x * 64 + y, z);
    DivMod64(x, y);
  }

  lemma Utf8OfFour(bs: seq<Byte>, c: char, w: int, x: int, y: int, z: int)
    requires |bs| == 4 && 0 <= x < 64 && 0 <= y < 64 && 0 <= z < 64 && 0 <= w
    requires bs[0] as int == 0xF0 + w && bs[1] as int == 0x80 + x && bs[2] as int == 0x80 + y && bs[3] as int == 0x80 + z
    requires 0x10000 <= c as int && c as int == ((w * 64 + x) * 64 + y) * 64 + z
    ensures bs == Utf8(c)
  {
    DivMod64((w * 64 + x) * 64 + y, z);
    DivMod64(w * 64 + x, y);
    DivMod64(w, x);
  }

  /** A multi-byte sequence decodes to `c` exactly when it is the UTF-8 encoding of `c`. */
  lemma Utf8DecodeIsInverse(bs: seq<Byte>, c: char)
    requires |bs| >= 2
    ensures Utf8Decode(bs) == Some(c) <==> bs == Utf8(c)
  {
    if bs == Utf8(c) {
      Utf8DecodeOfUtf8(c);
    }
    if Utf8Decode(bs) == Some(c) {
      Utf8OfUtf8Decode(bs, c);
    }
  }

  function EscapeAll(bs: seq<Byte>): (r: string)
    ensures |r| == 3 * |bs|
    ensures forall i :: 0 <= i < |r| ==> Unreserved(r[i]) || r[i] == '%'
  {
    if bs == [] then [] else Escape(bs[0]) + EscapeAll(bs[1..])
  }

  function EncodeChar(c: char): string {
    if Unreserved(c) then [c] else EscapeAll(Utf8(c))
  }

  /** `encodeURIComponent`. Every character outside the unreserved set leaves only `%` and
      unreserved hexadecimal digits behind, so the result never holds `/`, `%`-free text is
      returned untouched exactly when it was unreserved throughout, and nothing gets shorter. */
  function Encode(s: string): (r: string)
    ensures |r| >= |s|
    ensures forall i :: 0 <= i < |r| ==> Unreserved(r[i]) || r[i] == '%'
    ensures r == s <==> forall i :: 0 <= i < |s| ==> Unreserved(s[i])
  {
    if s == [] then []
    else
      var head := EncodeChar(s[0]);
      var tail := Encode(s[1..]);
      assert Unreserved(s[0]) ==> head == [s[0]];
      assert !Unreserved(s[0]) ==> |head| >= 3;
      assert (forall i :: 0 <= i < |s| ==> Unreserved(s[i])) <==>
             Unreserved(s[0]) && forall i :: 0 <= i < |s[1..]| ==> Unreserved(s[1..][i]);
      if Unreserved(s[0]) && tail == s[1..] then
        assert head + tail == s;
        head + tail
      else
        head + tail
  }

  /** Encoding works character by character: an unreserved character stays as it is, any other
      becomes the escapes of its UTF-8 bytes. */
  lemma EncodeSingle(c: char)
    ensures Unreserved(c) ==> Encode([c]) == [c]
    ensures !Unreserved(c) ==> Encode([c]) == EscapeAll(Utf8(c))
  {
    assert [c][1..] == [];
  }

  /** The encoding of a concatenation is the concatenation of the encodings. */
  lemma {:induction false} EncodeAppend(a: string, b: string)
    ensures Encode(a + b) == Encode(a) + Encode(b)
    decreases |a|
  {
    if a == [] {
      assert a + b == b;
    } else {
      assert (a + b)[0] == a[0] && (a + b)[1..] == a[1..] + b;
      EncodeAppend(a[1..], b);
    }
  }

  function Prepend(c: char, rest: Option<string>): Option<string> {
    match rest
    case None => None
    case Some(t) => Some([c] + t)
  }

  /** Reads `m` escapes `%XX` from the start of `u`, each of which must be a UTF-8 continuation
      byte. */
  function ContinuationBytes(u: string, m: nat): (r: Option<seq<Byte>>)
    requires |u| >= 3 * m
    ensures r.Some? ==> |r.value| == m
  {
    if m == 0 then Some([])
    else if u[0] != '%' || !IsHexDigit(u[1]) || !IsHexDigit(u[2]) then None
    else
      var b := HexByte(u[1], u[2]);
      if !IsContinuation(b) then None
      else match ContinuationBytes(u[3..], m - 1)
        case None => None
        case Some(rest) => Some([b] + rest)
  }

  /** `decodeURIComponent`; `None` where the JavaScript function throws `URIError`. An escape below
      0x80 becomes that character; a longer one needs its full run of continuation escapes and
      must be valid UTF-8. */
  function Decode(t: string): (r: Option<string>)
    ensures r.Some? ==> |r.value| <= |t|
    decreases |t|
  {
    if |t| == 0 then Some([])
    else if t[0] != '%' then Prepend(t[0], Decode(t[1..]))
    else if |t| < 3 || !IsHexDigit(t[1]) || !IsHexDigit(t[2]) then None
    else
      var b := HexByte(t[1], t[2]);
      if b < 0x80 then Prepend(b as char, Decode(t[3..]))
      else
        var n := LeadLength(b);
        if n == 1 || n > 4 || |t| < 3 * n then None
        else match ContinuationBytes(t[3..], n - 1)
          case None => None
          case Some(more) =>
            match Utf8Decode([b] + more)
            case None => None
            case Some(c) => Prepend(c, Decode(t[3 * n..]))
  }

  /** The first three characters of an escape followed by anything read back as its byte. */
  lemma EscapeThenRest(b: Byte, rest: string)
    ensures var u := Escape(b) + rest;
      u[0] == '%' && IsHexDigit(u[1]) && IsHexDigit(u[2]) && HexByte(u[1], u[2]) == b && u[3..] == rest
  {
    var u := Escape(b) + rest;
    assert u[..3] == Escape(b);
  }

  lemma {:induction false} ContinuationBytesOfEscapes(bs: seq<Byte>, rest: string)
    requires forall i :: 0 <= i < |bs| ==> IsContinuation(bs[i])
    ensures ContinuationBytes(EscapeAll(bs) + rest, |bs|) == Some(bs)
  {
    if bs != [] {
      EscapeAllHead(bs, rest);
      ContinuationBytesOfEscapes(bs[1..], rest);
      ContinuationBytesStep(EscapeAll(bs) + rest, |bs|, bs[0], bs[1..]);
      assert [bs[0]] + bs[1..] == bs;
    }
  }

  /** One continuation escape followed by the remaining ones. */
  lemma ContinuationBytesStep(u: string, m: nat, b: Byte, more: seq<Byte>)
    requires m >= 1 && |u| >= 3 * m
    requires u[0] == '%' && IsHexDigit(u[1]) && IsHexDigit(u[2]) && HexByte(u[1], u[2]) == b
    requires IsContinuation(b) && ContinuationBytes(u[3..], m - 1) == Some(more)
    ensures ContinuationBytes(u, m) == Some([b] + more)
  {
  }

  /** One step of the decoder over a complete multi-byte escape run. */
  lemma DecodeMultiByteStep(t: string, b: Byte, more: seq<Byte>, c: char)
    requires 1 <= |more| <= 3 && |t| >= 3 * (|more| + 1)
    requires t[0] == '%' && IsHexDigit(t[1]) && IsHexDigit(t[2]) && HexByte(t[1], t[2]) == b
    requires b >= 0x80 && LeadLength(b) == |more| + 1
    requires ContinuationBytes(t[3..], |more|) == Some(more)
    requires Utf8Decode([b] + more) == Some(c)
    ensures Decode(t) == Prepend(c, Decode(t[3 * (|more| + 1)..]))
  {
  }

  lemma Utf8LeadLength(c: char)
    ensures Utf8(c)[0] >= 0x80 <==> |Utf8(c)| >= 2
    ensures |Utf8(c)| >= 2 ==> LeadLength(Utf8(c)[0]) == |Utf8(c)|
    ensures forall i | 1 <= i < |Utf8(c)| :: IsContinuation(Utf8(c)[i])
  {
  }

  lemma DecodeEscapedChar(c: char, rest: string)
    requires !Unreserved(c)
    ensures Decode(EscapeAll(Utf8(c)) + rest) == Prepend(c, Decode(rest))
  {
    if c as int < 0x80 {
      DecodeEscapedAscii(c, rest);
    } else {
      DecodeEscapedMultiByte(c, rest);
    }
  }

  lemma DecodeEscapedAscii(c: char, rest: string)
    requires c as int < 0x80
    ensures Decode(EscapeAll(Utf8(c)) + rest) == Prepend(c, Decode(rest))
  {
    var b: Byte := c as int;
    assert Utf8(c) == [b];
    assert EscapeAll([b]) == Escape(b) + EscapeAll([]);
    EscapeThenRest(b, rest);
  }

  lemma DecodeEscapedMultiByte(c: char, rest: string)
    requires c as int >= 0x80
    ensures Decode(EscapeAll(Utf8(c)) + rest) == Prepend(c, Decode(rest))
  {
    Utf8DecodeOfUtf8(c);
    DecodeEscapedRun(Utf8(c), c, rest);
  }

  /** The escapes of a valid multi-byte sequence decode to its character. */
  lemma DecodeEscapedRun(bs: seq<Byte>, c: char, rest: string)
    requires |bs| >= 2 && Utf8Decode(bs) == Some(c)
    ensures Decode(EscapeAll(bs) + rest) == Prepend(c, Decode(rest))
  {
    RunShape(bs, c);
    var more := bs[1..];
    EscapeAllHead(bs, rest);
    ContinuationBytesOfEscapes(more, rest);
    assert [bs[0]] + more == bs;
    DecodeMultiByteStep(EscapeAll(bs) + rest, bs[0], more, c);
  }

  /** What a valid multi-byte sequence looks like: a lead byte announcing its length, then
      continuation bytes. */
  lemma RunShape(bs: seq<Byte>, c: char)
    requires |bs| >= 2 && Utf8Decode(bs) == Some(c)
    ensures |bs| <= 4 && bs[0] >= 0x80 && LeadLength(bs[0]) == |bs|
    ensures forall i :: 0 <= i < |bs[1..]| ==> IsContinuation(bs[1..][i])
  {
    assert forall i | 1 <= i < |bs| :: IsContinuation(bs[i]);
  }

  /** The escapes of a non-empty byte sequence start with the escape of its first byte and end
      where the text after them begins. */
  lemma EscapeAllHead(bs: seq<Byte>, rest: string)
    requires |bs| >= 1
    ensures var t := EscapeAll(bs) + rest;
      && t[0] == '%' && IsHexDigit(t[1]) && IsHexDigit(t[2]) && HexByte(t[1], t[2]) == bs[0]
      && t[3..] == EscapeAll(bs[1..]) + rest && t[3 * |bs|..] == rest
  {
    EscapeAllUnfold(bs, rest);
    EscapeThenRest(bs[0], EscapeAll(bs[1..]) + rest);
    EscapeAllDrop(bs, rest);
  }

  lemma EscapeAllUnfold(bs: seq<Byte>, rest: string)
    requires |bs| >= 1
    ensures EscapeAll(bs) + rest == Escape(bs[0]) + (EscapeAll(bs[1..]) + rest)
  {
  }

  lemma EscapeAllDrop(bs: seq<Byte>, rest: string)
    ensures (EscapeAll(bs) + rest)[3 * |bs|..] == rest
  {
  }

  /** Decoding the encoding of one character consumes exactly that encoding. */
  lemma DecodeEncodedChar(c: char, rest: string)
    ensures Decode(EncodeChar(c) + rest) == Prepend(c, Decode(rest))
  {
    if Unreserved(c) {
      assert (EncodeChar(c) + rest)[1..] == rest;
    } else {
      DecodeEscapedChar(c, rest);
    }
  }

  /** `decodeURIComponent(encodeURIComponent(s)) === s` for every string: the encoder never
      produces anything the decoder rejects, and the decoder restores every character. */
  lemma {:induction false} DecodeEncode(s: string)
    ensures Decode(Encode(s)) == Some(s)
  {
    if s != [] {
      DecodeEncode(s[1..]);
      DecodeEncodedChar(s[0], Encode(s[1..]));
      assert [s[0]] + s[1..] == s;
    }
  }

  /** Text without `%` decodes to itself. */
  lemma {:induction false} DecodePlain(t: string)
    requires forall i :: 0 <= i < |t| ==> t[i] != '%'
    ensures Decode(t) == Some(t)
  {
    if t != [] {
      DecodePlain(t[1..]);
      assert [t[0]] + t[1..] == t;
    }
  }

  /** Encoding is injective: distinct strings have distinct encodings. */
  lemma EncodeInjective(s: string, s': string)
    requires Encode(s) == Encode(s')
    ensures s == s'
  {
    DecodeEncode(s);
    DecodeEncode(s');
  }
}
