/** Base64 ("base64", section 4 of RFC 4648, standard alphabet with `=` padding)
    and the UTF-8 byte form of a string (what Go's `[]byte(str)` yields). */
module Encoding {
  import opened Wrappers

  type uint8 = x: int | 0 <= x < 256

  /** The character for a 6-bit value, Table 1 of RFC 4648. */
  function Sextet(v: int): (c: char)
    requires 0 <= v < 64
    ensures c != '='
  {
    if v < 26 then ('A' as int + v) as char
    else if v < 52 then ('a' as int + (v - 26)) as char
    else if v < 62 then ('0' as int + (v - 52)) as char
    else if v == 62 then '+'
    else '/'
  }

  /** The inverse of Sextet; `None` for a character outside the alphabet. */
  function SextetValue(c: char): (r: Option<int>)
    ensures r.Some? ==> 0 <= r.value < 64 && Sextet(r.value) == c
  {
    if 'A' <= c <= 'Z' then Some(c as int - 'A' as int)
    else if 'a' <= c <= 'z' then Some(c as int - 'a' as int + 26)
    else if '0' <= c <= '9' then Some(c as int - '0' as int + 52)
    else if c == '+' then Some(62)
    else if c == '/' then Some(63)
    else None
  }

  lemma SextetRoundTrip(v: int)
    requires 0 <= v < 64
    ensures SextetValue(Sextet(v)) == Some(v)
  {
  }

  /** The 4 characters for a final group of one byte. */
  function EncodeSingle(b0: uint8): (q: string)
    ensures |q| == 4
  {
    [Sextet(b0 / 4), Sextet((b0 % 4) * 16), '=', '=']
  }

  /** The 4 characters for a final group of two bytes. */
  function EncodePair(b0: uint8, b1: uint8): (q: string)
    ensures |q| == 4
  {
    [Sextet(b0 / 4), Sextet((b0 % 4) * 16 + b1 / 16), Sextet((b1 % 16) * 4), '=']
  }

  /** The 4 characters that encode one full 3-byte group. */
  function EncodeGroup(b0: uint8, b1: uint8, b2: uint8): (q: string)
    ensures |q| == 4
  {
    [Sextet(b0 / 4), Sextet((b0 % 4) * 16 + b1 / 16), Sextet((b1 % 16) * 4 + b2 / 64), Sextet(b2 % 64)]
  }

  /** Base64 encoding: every 3 bytes become 4 characters; a final group of 1
      or 2 bytes is zero-extended and padded with `=` (section 4 of RFC 4648). */
  function Base64Encode(b: seq<uint8>): (r: string)
    ensures |r| == (|b| + 2) / 3 * 4
    decreases |b|
  {
    if |b| == 0 then ""
    else if |b| == 1 then EncodeSingle(b[0])
    else if |b| == 2 then EncodePair(b[0], b[1])
    else EncodeGroup(b[0], b[1], b[2]) + Base64Encode(b[3..])
  }

  /** Decodes one 4-character group; `None` if it is not well formed. */
  function DecodeQuad(q: string): (r: Option<seq<uint8>>)
    requires |q| == 4
  {
    match (SextetValue(q[0]), SextetValue(q[1]))
    case (Some(c0), Some(c1)) =>
      if q[2] == '=' && q[3] == '=' then
        Some([c0 * 4 + c1 / 16])
      else if q[3] == '=' then
        (match SextetValue(q[2])
         case Some(c2) => Some([c0 * 4 + c1 / 16, (c1 % 16) * 16 + c2 / 4])
         case None => None)
      else
        (match (SextetValue(q[2]), SextetValue(q[3]))
         case (Some(c2), Some(c3)) =>
           Some([c0 * 4 + c1 / 16, (c1 % 16) * 16 + c2 / 4, (c2 % 4) * 64 + c3])
         case _ => None)
    case _ => None
  }

  /** Base64 decoding of a padded string (length a multiple of 4). */
  function Base64Decode(s: string): (r: Option<seq<uint8>>)
    ensures r.Some? ==> |s| % 4 == 0
    decreases |s|
  {
    if |s| == 0 then Some([])
    else if |s| < 4 then None
    else match DecodeQuad(s[..4])
      case None => None
      case Some(g) =>
        if |s| > 4 && |g| < 3 then None  // padding only in the last group
        else match Base64Decode(s[4..])
          case None => None
          case Some(rest) => Some(g + rest)
  }

  lemma GroupRoundTrip(b0: uint8, b1: uint8, b2: uint8)
    ensures DecodeQuad(EncodeGroup(b0, b1, b2)) == Some([b0, b1, b2])
  {
    var c0, c1, c2, c3 := b0 / 4, (b0 % 4) * 16 + b1 / 16, (b1 % 16) * 4 + b2 / 64, b2 % 64;
    SextetRoundTrip(c0);
    SextetRoundTrip(c1);
    SextetRoundTrip(c2);
    SextetRoundTrip(c3);
    assert c1 / 16 == b0 % 4 && c1 % 16 == b1 / 16;
    assert c2 / 4 == b1 % 16 && c2 % 4 == b2 / 64;
  }

  lemma PairRoundTrip(b0: uint8, b1: uint8)
    ensures DecodeQuad(EncodePair(b0, b1)) == Some([b0, b1])
  {
    var c0, c1, c2 := b0 / 4, (b0 % 4) * 16 + b1 / 16, (b1 % 16) * 4;
    SextetRoundTrip(c0);
    SextetRoundTrip(c1);
    SextetRoundTrip(c2);
    assert c1 / 16 == b0 % 4 && c1 % 16 == b1 / 16;
  }

  lemma SingleRoundTrip(b0: uint8)
    ensures DecodeQuad(EncodeSingle(b0)) == Some([b0])
  {
    SextetRoundTrip(b0 / 4);
    SextetRoundTrip((b0 % 4) * 16);
  }

  lemma DecodeLastGroup(q: string, g: seq<uint8>)
    requires |q| == 4 && DecodeQuad(q) == Some(g)
    ensures Base64Decode(q) == Some(g)
  {
    assert q[..4] == q && q[4..] == [];
    assert g + [] == g;
  }

  lemma DecodeFullGroup(q: string, rest: string, g: seq<uint8>, r: seq<uint8>)
    requires |q| == 4 && DecodeQuad(q) == Some(g) && |g| == 3
    requires Base64Decode(rest) == Some(r)
    ensures Base64Decode(q + rest) == Some(g + r)
  {
    var s := q + rest;
    assert s[..4] == q && s[4..] == rest;
  }

  lemma SingleCase(b: seq<uint8>)
    requires |b| == 1
    ensures Base64Decode(Base64Encode(b)) == Some(b)
  {
    SingleRoundTrip(b[0]);
    DecodeLastGroup(EncodeSingle(b[0]), [b[0]]);
    assert [b[0]] == b;
  }

  lemma PairCase(b: seq<uint8>)
    requires |b| == 2
    ensures Base64Decode(Base64Encode(b)) == Some(b)
  {
    PairRoundTrip(b[0], b[1]);
    DecodeLastGroup(EncodePair(b[0], b[1]), [b[0], b[1]]);
    assert [b[0], b[1]] == b;
  }

  lemma SplitThree<T>(b: seq<T>)
    requires |b| >= 3
    ensures [b[0], b[1], b[2]] + b[3..] == b
  {
  }

  lemma GroupCase(b: seq<uint8>)
    requires |b| >= 3
    requires Base64Decode(Base64Encode(b[3..])) == Some(b[3..])
    ensures Base64Decode(Base64Encode(b)) == Some(b)
  {
    var q, rest, g := EncodeGroup(b[0], b[1], b[2]), Base64Encode(b[3..]), [b[0], b[1], b[2]];
    assert Base64Encode(b) == q + rest;
    SplitThree(b);
    GroupRoundTrip(b[0], b[1], b[2]);
    DecodeFullGroup(q, rest, g, b[3..]);
  }

  /** Decoding undoes encoding. */
  lemma {:induction false} Base64RoundTrip(b: seq<uint8>)
    ensures Base64Decode(Base64Encode(b)) == Some(b)
    decreases |b|
  {
    if |b| == 1 {
      SingleCase(b);
    } else if |b| == 2 {
      PairCase(b);
    } else if |b| >= 3 {
      Base64RoundTrip(b[3..]);
      GroupCase(b);
    }
  }

  /** UTF-8 bytes of one Unicode scalar value (section 3 of RFC 3629). */
  function Utf8Char(c: char): (r: seq<uint8>)
    ensures 1 <= |r| <= 4
  {
    var cp := c as int;
    if cp < 0x80 then [cp]
    else if cp < 0x800 then [0xC0 + cp / 64, 0x80 + cp % 64]
    else if cp < 0x10000 then [0xE0 + cp / 4096, 0x80 + (cp / 64) % 64, 0x80 + cp % 64]
    else [0xF0 + cp / 262144, 0x80 + (cp / 4096) % 64, 0x80 + (cp / 64) % 64, 0x80 + cp % 64]
  }

  /** UTF-8 bytes of a string, as Go's `[]byte(str)` gives them. */
  function Utf8(s: string): (r: seq<uint8>)
    ensures |r| >= |s|
    decreases |s|
  {
    if |s| == 0 then [] else Utf8Char(s[0]) + Utf8(s[1..])
  }

  lemma {:induction false} Utf8Concat(a: string, b: string)
    ensures Utf8(a + b) == Utf8(a) + Utf8(b)
    decreases |a|
  {
    if |a| == 0 {
      assert a + b == b;
    } else {
      assert (a + b)[1..] == a[1..] + b;
      Utf8Concat(a[1..], b);
    }
  }

  /** An ASCII character is one byte, its code. */
  lemma Utf8Ascii(c: char)
    requires c as int < 0x80
    ensures Utf8([c]) == [c as int]
  {
  }

  /** The `Basic` authorization header value for a user and password
      (section 2 of RFC 7617): the scheme name, a space, then the Base64 of
      the UTF-8 bytes of `user:password`. */
  function BasicAuth(user: string, password: string): string
  {
    "Basic " + Base64Encode(Utf8(user + ":" + password))
  }

  /** A receiver of the header recovers exactly the user-id, a colon and the
      password. */
  lemma BasicAuthDecodes(user: string, password: string)
    ensures |BasicAuth(user, password)| >= 6
    ensures BasicAuth(user, password)[..6] == "Basic "
    ensures Base64Decode(BasicAuth(user, password)[6..]) == Some(Utf8(user) + [0x3A] + Utf8(password))
  {
    var h := BasicAuth(user, password);
    assert h[6..] == Base64Encode(Utf8(user + ":" + password));
    Utf8Concat(user + ":", password);
    Utf8Concat(user, ":");
    Utf8Ascii(':');
    Base64RoundTrip(Utf8(user + ":" + password));
  }
}
