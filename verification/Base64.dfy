/** The URL-safe base64 alphabet of section 5 of RFC 4648, and UTF-8. */
module Base64 {
  import opened Ecosystems

  type byte = n: nat | n < 256

  type bytes = seq<byte>

  // ----- base64

  function Char64(v: nat): (c: char)
    requires v < 64
    ensures UrlSafe(c) && c != '='
  {
    if v < 26 then 'A' + v as char
    else if v < 52 then 'a' + (v - 26) as char
    else if v < 62 then '0' + (v - 52) as char
    else if v == 62 then '-'
    else '_'
  }

  predicate UrlSafe(c: char) {
    'A' <= c <= 'Z' || 'a' <= c <= 'z' || '0' <= c <= '9' || c == '-' || c == '_' || c == '='
  }

  /** The decoder's table; both alphabets are accepted. */
  function Value64(c: char): (v: Option<nat>)
    ensures v.Some? ==> v.value < 64
  {
    if 'A' <= c <= 'Z' then Some(c as nat - 'A' as nat)
    else if 'a' <= c <= 'z' then Some(c as nat - 'a' as nat + 26)
    else if '0' <= c <= '9' then Some(c as nat - '0' as nat + 52)
    else if c == '-' || c == '+' then Some(62)
    else if c == '_' || c == '/' then Some(63)
    else None
  }

  /** urlsafe_b64encode. */
  function Encode64(b: bytes): (s: string)
    ensures forall i :: 0 <= i < |s| ==> UrlSafe(s[i])
    ensures b == [] <==> s == ""
  {
    if b == [] then ""
    else if |b| == 1 then [Char64(b[0] / 4), Char64(b[0] % 4 * 16), '=', '=']
    else if |b| == 2 then [Char64(b[0] / 4), Char64(b[0] % 4 * 16 + b[1] / 16), Char64(b[1] % 16 * 4), '=']
    else
      [Char64(b[0] / 4), Char64(b[0] % 4 * 16 + b[1] / 16), Char64(b[1] % 16 * 4 + b[2] / 64), Char64(b[2] % 64)]
      + Encode64(b[3..])
  }

  function Prepend(b: byte, rest: Option<bytes>): Option<bytes> {
    match rest case None => None case Some(r) => Some([b] + r)
  }

  /** The decoder in the middle of a group: `quad` characters of it seen, the bits `left` not yet
      used, `pads` padding characters just seen. Characters outside the alphabet are skipped. */
  function DecodeFrom(s: string, quad: nat, left: nat, pads: nat): Option<bytes>
    requires quad < 4 && (quad == 1 ==> left < 64) && (quad == 2 ==> left < 16) && (quad == 3 ==> left < 4)
  {
    if s == "" then if quad == 0 then Some([]) else None
    else if s[0] == '=' then
      if quad >= 2 && quad + pads + 1 >= 4 then Some([])
      else DecodeFrom(s[1..], quad, left, if quad >= 2 then pads + 1 else pads)
    else match Value64(s[0])
      case None => DecodeFrom(s[1..], quad, left, pads)
      case Some(v) =>
        if quad == 0 then DecodeFrom(s[1..], 1, v, 0)
        else if quad == 1 then Prepend(left * 4 + v / 16, DecodeFrom(s[1..], 2, v % 16, 0))
        else if quad == 2 then Prepend(left * 16 + v / 4, DecodeFrom(s[1..], 3, v % 4, 0))
        else Prepend(left * 64 + v, DecodeFrom(s[1..], 0, 0, 0))
  }

  /** urlsafe_b64decode on a string: None for its ValueError. */
  function Decode64(s: string): Option<bytes> {
    if exists i :: 0 <= i < |s| && s[i] as int >= 128 then None else DecodeFrom(s, 0, 0, 0)
  }

  lemma {:induction false} ValueOfChar64(v: nat)
    requires v < 64
    ensures Value64(Char64(v)) == Some(v)
  {
  }

  // One character of the alphabet at each place of a group.

  lemma {:induction false} DecodeFirst(v: nat, rest: string)
    requires v < 64
    ensures DecodeFrom([Char64(v)] + rest, 0, 0, 0) == DecodeFrom(rest, 1, v, 0)
  {
    ValueOfChar64(v);
    assert ([Char64(v)] + rest)[1..] == rest;
  }

  lemma {:induction false} DecodeSecond(v: nat, rest: string, left: nat)
    requires v < 64 && left < 64
    ensures DecodeFrom([Char64(v)] + rest, 1, left, 0) == Prepend(left * 4 + v / 16, DecodeFrom(rest, 2, v % 16, 0))
  {
    ValueOfChar64(v);
    assert ([Char64(v)] + rest)[1..] == rest;
  }

  lemma {:induction false} DecodeThird(v: nat, rest: string, left: nat)
    requires v < 64 && left < 16
    ensures DecodeFrom([Char64(v)] + rest, 2, left, 0) == Prepend(left * 16 + v / 4, DecodeFrom(rest, 3, v % 4, 0))
  {
    ValueOfChar64(v);
    assert ([Char64(v)] + rest)[1..] == rest;
  }

  lemma {:induction false} DecodeFourth(v: nat, rest: string, left: nat)
    requires v < 64 && left < 4
    ensures DecodeFrom([Char64(v)] + rest, 3, left, 0) == Prepend(left * 64 + v, DecodeFrom(rest, 0, 0, 0))
  {
    ValueOfChar64(v);
    assert ([Char64(v)] + rest)[1..] == rest;
  }

  lemma {:induction false} Bits(x: nat, y: nat, z: nat)
    requires x < 256 && y < 256 && z < 256
    ensures x / 4 * 4 + (x % 4 * 16 + y / 16) / 16 == x
    ensures (x % 4 * 16 + y / 16) % 16 * 16 + (y % 16 * 4 + z / 64) / 4 == y
    ensures (y % 16 * 4 + z / 64) % 4 * 64 + z % 64 == z
  {
  }

  lemma {:induction false} DecodePadding(left: nat)
    requires left < 4
    ensures DecodeFrom("=", 3, left, 0) == Some([]) && DecodeFrom("==", 2, left, 0) == Some([])
  {
    assert "=="[1..] == "=";
  }

  /** The first two characters of a group. */
  lemma {:induction false} DecodeTwo(t: nat, u: nat, rest: string)
    requires t < 64 && u < 64
    ensures DecodeFrom([Char64(t)] + ([Char64(u)] + rest), 0, 0, 0) ==
            Prepend(t * 4 + u / 16, DecodeFrom(rest, 2, u % 16, 0))
  {
    DecodeFirst(t, [Char64(u)] + rest);
    DecodeSecond(u, rest, t);
  }

  lemma {:induction false} DecodeTwoMore(v: nat, w: nat, rest: string, left: nat)
    requires v < 64 && w < 64 && left < 16
    ensures DecodeFrom([Char64(v)] + ([Char64(w)] + rest), 2, left, 0) ==
            Prepend(left * 16 + v / 4, Prepend(v % 4 * 64 + w, DecodeFrom(rest, 0, 0, 0)))
  {
    DecodeThird(v, [Char64(w)] + rest, left);
    DecodeFourth(w, rest, v % 4);
  }

  lemma {:induction false} DecodeOneByte(b: bytes)
    requires |b| == 1
    ensures DecodeFrom(Encode64(b), 0, 0, 0) == Some(b)
  {
    var t, u := b[0] / 4, b[0] % 4 * 16;
    Bits(b[0], 0, 0);
    DecodeTwo(t, u, "==");
    DecodePadding(0);
    assert Encode64(b) == [Char64(t)] + ([Char64(u)] + "==") && [b[0]] + [] == b;
  }

  lemma {:induction false} DecodeTwoBytes(b: bytes)
    requires |b| == 2
    ensures DecodeFrom(Encode64(b), 0, 0, 0) == Some(b)
  {
    var t, u, v := b[0] / 4, b[0] % 4 * 16 + b[1] / 16, b[1] % 16 * 4;
    Bits(b[0], b[1], 0);
    DecodeTwo(t, u, [Char64(v)] + "=");
    DecodeThird(v, "=", u % 16);
    DecodePadding(v % 4);
    assert Encode64(b) == [Char64(t)] + ([Char64(u)] + ([Char64(v)] + "=")) && [b[0]] + ([b[1]] + []) == b;
  }

  lemma {:induction false} DecodeGroup(t: nat, u: nat, v: nat, w: nat, rest: string)
    requires t < 64 && u < 64 && v < 64 && w < 64
    ensures DecodeFrom([Char64(t)] + ([Char64(u)] + ([Char64(v)] + ([Char64(w)] + rest))), 0, 0, 0) ==
            Prepend(t * 4 + u / 16, Prepend(u % 16 * 16 + v / 4, Prepend(v % 4 * 64 + w, DecodeFrom(rest, 0, 0, 0))))
  {
    DecodeTwo(t, u, [Char64(v)] + ([Char64(w)] + rest));
    DecodeTwoMore(v, w, rest, u % 16);
  }

  lemma {:induction false} ThreeBytes(b: bytes, x: byte, y: byte, z: byte, decoded: Option<bytes>)
    requires |b| >= 3 && b[0] == x && b[1] == y && b[2] == z && decoded == Some(b[3..])
    ensures Prepend(x, Prepend(y, Prepend(z, decoded))) == Some(b)
  {
    assert [b[0]] + ([b[1]] + ([b[2]] + b[3..])) == b;
  }

  lemma {:induction false} EncodeThree(b: bytes, x: byte, y: byte, z: byte, rest: string)
    requires |b| >= 3 && b[0] == x && b[1] == y && b[2] == z && Encode64(b[3..]) == rest
    ensures Encode64(b) == [Char64(x / 4)] +
            ([Char64(x % 4 * 16 + y / 16)] + ([Char64(y % 16 * 4 + z / 64)] + ([Char64(z % 64)] + rest)))
  {
  }

  /** The four characters of three bytes read back. */
  lemma {:induction false} DecodeFour(x: byte, y: byte, z: byte, rest: string, encoded: string, decoded: Option<bytes>)
    requires encoded == [Char64(x / 4)] +
             ([Char64(x % 4 * 16 + y / 16)] + ([Char64(y % 16 * 4 + z / 64)] + ([Char64(z % 64)] + rest)))
    requires DecodeFrom(rest, 0, 0, 0) == decoded
    ensures DecodeFrom(encoded, 0, 0, 0) == Prepend(x, Prepend(y, Prepend(z, decoded)))
  {
    Bits(x, y, z);
    DecodeGroup(x / 4, x % 4 * 16 + y / 16, y % 16 * 4 + z / 64, z % 64, rest);
  }

  lemma {:induction false} DecodeThreeBytes(b: bytes, x: byte, y: byte, z: byte, rest: string)
    requires |b| >= 3 && b[0] == x && b[1] == y && b[2] == z
    requires Encode64(b[3..]) == rest && DecodeFrom(rest, 0, 0, 0) == Some(b[3..])
    ensures DecodeFrom(Encode64(b), 0, 0, 0) == Some(b)
  {
    EncodeThree(b, x, y, z, rest);
    DecodeFour(x, y, z, rest, Encode64(b), Some(b[3..]));
    ThreeBytes(b, x, y, z, Some(b[3..]));
  }

  /** Section 5 of RFC 4648 read back: decoding undoes encoding. */
  lemma {:induction false} DecodeUndoesEncode(b: bytes)
    ensures DecodeFrom(Encode64(b), 0, 0, 0) == Some(b)
  {
    if |b| == 1 {
      DecodeOneByte(b);
    } else if |b| == 2 {
      DecodeTwoBytes(b);
    } else if |b| >= 3 {
      DecodeUndoesEncode(b[3..]);
      DecodeThreeBytes(b, b[0], b[1], b[2], Encode64(b[3..]));
    }
  }

  lemma {:induction false} RoundTrip64(b: bytes)
    ensures Decode64(Encode64(b)) == Some(b)
  {
    DecodeUndoesEncode(b);
    var s := Encode64(b);
    forall i | 0 <= i < |s| ensures s[i] as int < 128 { assert UrlSafe(s[i]); }
  }

  // ----- UTF-8

  function EncodeChar(c: char): bytes {
    var n := c as int;
    if n < 0x80 then [n]
    else if n < 0x800 then [0xC0 + n / 64, 0x80 + n % 64]
    else if n < 0x10000 then [0xE0 + n / 4096, 0x80 + n / 64 % 64, 0x80 + n % 64]
    else [0xF0 + n / 262144, 0x80 + n / 4096 % 64, 0x80 + n / 64 % 64, 0x80 + n % 64]
  }

  /** str.encode(). */
  function EncodeUtf8(s: string): bytes {
    if s == "" then [] else EncodeChar(s[0]) + EncodeUtf8(s[1..])
  }

  predicate Tail(b: bytes, i: nat) { i < |b| && 0x80 <= b[i] < 0xC0 }

  /** The length of the well-formed character at the start of the bytes, 0 if there is none. */
  function CharLength(b: bytes): nat {
    if b == [] then 0
    else if b[0] < 0x80 then 1
    else if 0xC2 <= b[0] < 0xE0 && Tail(b, 1) then 2
    else if 0xE0 <= b[0] < 0xF0 && Tail(b, 1) && Tail(b, 2) && ThreeByte(b[0], b[1]) then 3
    else if 0xF0 <= b[0] < 0xF5 && Tail(b, 1) && Tail(b, 2) && Tail(b, 3) && FourByte(b[0], b[1]) then 4
    else 0
  }

  predicate ThreeByte(x: byte, y: byte) { (x == 0xE0 ==> y >= 0xA0) && (x == 0xED ==> y < 0xA0) }

  predicate FourByte(x: byte, y: byte) { (x == 0xF0 ==> y >= 0x90) && (x == 0xF4 ==> y < 0x90) }

  function DecodeChar(b: bytes): char
    requires CharLength(b) > 0
  {
    var n, x: int := CharLength(b), b[0];
    if n == 1 then x as char
    else if n == 2 then MoreBits(x - 0xC0, b[1]) as char
    else if n == 3 then MoreBits(MoreBits(x - 0xE0, b[1]), b[2]) as char
    else MoreBits(MoreBits(MoreBits(x - 0xF0, b[1]), b[2]), b[3]) as char
  }

  /** Six more bits. */
  function MoreBits(high: int, tail: int): int { high * 64 + (tail - 0x80) }

  /** bytes.decode(errors='ignore'): bytes that start no character are dropped. */
  function DecodeUtf8(b: bytes): string {
    if b == [] then ""
    else if CharLength(b) == 0 then DecodeUtf8(b[1..])
    else [DecodeChar(b)] + DecodeUtf8(b[CharLength(b)..])
  }

  lemma {:induction false} DecodeEncodedChar(c: char, rest: bytes)
    ensures CharLength(EncodeChar(c) + rest) == |EncodeChar(c)|
    ensures DecodeChar(EncodeChar(c) + rest) == c
  {
    var n := c as int;
    if n < 0x80 {
    } else if n < 0x800 {
      DecodeTwoByteChar(c, rest);
    } else if n < 0x10000 {
      DecodeThreeByteChar(c, rest);
    } else {
      DecodeFourByteChar(c, rest);
    }
  }

  lemma {:induction false} DecodeTwoByteChar(c: char, rest: bytes)
    requires 0x80 <= c as int < 0x800
    ensures CharLength(EncodeChar(c) + rest) == |EncodeChar(c)| && DecodeChar(EncodeChar(c) + rest) == c
  {
    var n, b := c as int, EncodeChar(c) + rest;
    assert b[0] == 0xC0 + n / 64 && b[1] == 0x80 + n % 64;
  }

  lemma {:induction false} DecodeThreeByteChar(c: char, rest: bytes)
    requires 0x800 <= c as int < 0x10000
    ensures CharLength(EncodeChar(c) + rest) == |EncodeChar(c)| && DecodeChar(EncodeChar(c) + rest) == c
  {
    var n, b := c as int, EncodeChar(c) + rest;
    assert b[0] == 0xE0 + n / 4096 && b[1] == 0x80 + n / 64 % 64 && b[2] == 0x80 + n % 64;
    assert n / 64 == n / 4096 * 64 + n / 64 % 64;
  }

  lemma {:induction false} DecodeFourByteChar(c: char, rest: bytes)
    requires 0x10000 <= c as int
    ensures CharLength(EncodeChar(c) + rest) == |EncodeChar(c)| && DecodeChar(EncodeChar(c) + rest) == c
  {
    var n, b := c as int, EncodeChar(c) + rest;
    assert b[0] == 0xF0 + n / 262144 && b[1] == 0x80 + n / 4096 % 64 && b[2] == 0x80 + n / 64 % 64
      && b[3] == 0x80 + n % 64;
    assert n / 4096 == n / 262144 * 64 + n / 4096 % 64;
    assert n / 64 == n / 4096 * 64 + n / 64 % 64;
  }

  lemma {:induction false} RoundTripUtf8(s: string)
    ensures DecodeUtf8(EncodeUtf8(s)) == s
  {
    if s != "" {
      var first, rest := EncodeChar(s[0]), EncodeUtf8(s[1..]);
      RoundTripUtf8(s[1..]);
      DecodeEncodedChar(s[0], rest);
      assert (first + rest)[|first|..] == rest;
      assert s == [s[0]] + s[1..];
    }
  }
}
