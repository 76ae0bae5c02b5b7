/** UTF-8 (section 3 of RFC 3629): the bytes of a Rust `str`, and the strict check that
    decoding a `String` performs. A `char` is a Unicode scalar value, as in Rust. */
module Utf8 {
  import opened Basics
  import opened Scale

  function EncodeChar(c: char): (b: Bytes)
    ensures 1 <= |b| <= 4
  {
    var n := c as int;
    if n < 0x80 then [n]
    else if n < 0x800 then [0xC0 + n / 64, 0x80 + n % 64]
    else if n < 0x1_0000 then [0xE0 + n / 4096, 0x80 + n / 64 % 64, 0x80 + n % 64]
    else [0xF0 + n / 0x4_0000, 0x80 + n / 4096 % 64, 0x80 + n / 64 % 64, 0x80 + n % 64]
  }

  predicate Continues(x: byte) { 0x80 <= x < 0xC0 }

  predicate IsScalar(n: int) { 0 <= n < 0xD800 || 0xE000 <= n < 0x11_0000 }

  function DecodeChar(b: Bytes): Option<(char, Bytes)> {
    if b == [] then None
    else if b[0] < 0x80 then Some((b[0] as char, b[1..]))
    else if b[0] < 0xC0 then None
    else if b[0] < 0xE0 then
      if |b| < 2 || !Continues(b[1]) then None else
      var n := (b[0] as int - 0xC0) * 64 + (b[1] as int - 0x80);
      if 0x80 <= n then Some((n as char, b[2..])) else None
    else if b[0] < 0xF0 then
      if |b| < 3 || !Continues(b[1]) || !Continues(b[2]) then None else
      var n := (b[0] as int - 0xE0) * 4096 + (b[1] as int - 0x80) * 64 + (b[2] as int - 0x80);
      if 0x800 <= n && IsScalar(n) then Some((n as char, b[3..])) else None
    else
      if |b| < 4 || !Continues(b[1]) || !Continues(b[2]) || !Continues(b[3]) then None else
      var n := (b[0] as int - 0xF0) * 0x4_0000 + (b[1] as int - 0x80) * 4096 + (b[2] as int - 0x80) * 64 +
          (b[3] as int - 0x80);
      if 0x1_0000 <= n && IsScalar(n) then Some((n as char, b[4..])) else None
  }

  function Char(): Codec<char> { Codec(_ => true, EncodeChar, DecodeChar) }

  lemma CharRoundTrip(c: char, rest: Bytes)
    ensures DecodeChar(EncodeChar(c) + rest) == Some((c, rest))
  {
    var n := c as int;
    var b := EncodeChar(c) + rest;
    assert b[|EncodeChar(c)|..] == rest;
    Digits64(n);
  }

  lemma Digits64(n: nat)
    ensures n == n / 64 * 64 + n % 64
    ensures n / 64 == n / 4096 * 64 + n / 64 % 64
    ensures n / 4096 == n / 0x4_0000 * 64 + n / 4096 % 64
  {
    assert n / 64 / 64 == n / 4096;
    assert n / 4096 / 64 == n / 0x4_0000;
  }

  lemma Undigits64(a: nat, x: nat, y: nat, z: nat)
    requires x < 64 && y < 64 && z < 64
    ensures (a * 64 + z) / 64 == a && (a * 64 + z) % 64 == z
    ensures var n := a * 4096 + y * 64 + z;
            n / 4096 == a && n / 64 % 64 == y && n % 64 == z
    ensures var n := a * 0x4_0000 + x * 4096 + y * 64 + z;
            n / 0x4_0000 == a && n / 4096 % 64 == x && n / 64 % 64 == y && n % 64 == z
  {
    var m := a * 4096 + y * 64 + z;
    assert m / 64 == a * 64 + y;
    var n := a * 0x4_0000 + x * 4096 + y * 64 + z;
    assert n / 64 == a * 4096 + x * 64 + y;
    assert n / 4096 == a * 64 + x;
  }

  lemma CharExact(b: Bytes)
    requires DecodeChar(b).Some?
    ensures b == EncodeChar(DecodeChar(b).value.0) + DecodeChar(b).value.1
  {
    if b[0] < 0x80 {
      assert b == [b[0]] + b[1..];
    } else if b[0] < 0xE0 {
      Undigits64(b[0] - 0xC0, 0, 0, b[1] - 0x80);
      assert b == [b[0], b[1]] + b[2..];
    } else if b[0] < 0xF0 {
      Undigits64(b[0] - 0xE0, 0, b[1] - 0x80, b[2] - 0x80);
      assert b == [b[0], b[1], b[2]] + b[3..];
    } else {
      Undigits64(b[0] - 0xF0, b[1] - 0x80, b[2] - 0x80, b[3] - 0x80);
      assert b == [b[0], b[1], b[2], b[3]] + b[4..];
    }
  }

  /** `as_bytes` */
  function Encode(s: string): Bytes { EncodeAll(Char(), s) }

  /** `String::from_utf8` */
  function Decode(b: Bytes): Option<string>
    decreases |b|
  {
    if b == [] then Some("")
    else
      var (c, rest) :- DecodeChar(b);
      var s :- Decode(rest);
      Some([c] + s)
  }

  /** Decoding inverts encoding on every string. */
  lemma {:induction false} RoundTrip(s: string)
    ensures Decode(Encode(s)) == Some(s)
  {
    if s != "" {
      CharRoundTrip(s[0], Encode(s[1..]));
      RoundTrip(s[1..]);
      assert s == [s[0]] + s[1..];
    }
  }

  /** A byte string decodes only if it is exactly the encoding of the result: overlong
      forms, surrogates and stray continuation bytes are refused. */
  lemma {:induction false} DecodeExact(b: Bytes)
    requires Decode(b).Some?
    ensures Encode(Decode(b).value) == b
    decreases |b|
  {
    if b != [] {
      CharExact(b);
      var (c, rest) := DecodeChar(b).value;
      DecodeExact(rest);
      var s := Decode(rest).value;
      assert ([c] + s)[1..] == s;
    }
  }

  /** The first and the third example of section 7 of RFC 3629, which between them have
      characters of one, two, three and four bytes. */
  lemma Examples()
    ensures Encode("A\U{2262}\U{0391}.") == [0x41, 0xE2, 0x89, 0xA2, 0xCE, 0x91, 0x2E]
    ensures Encode("\U{233B4}") == [0xF0, 0xA3, 0x8E, 0xB4]
  {
    var s := "A\U{2262}\U{0391}.";
    assert s[1..] == "\U{2262}\U{0391}." && s[1..][1..] == "\U{0391}.";
    assert "\U{0391}."[1..] == "." && "."[1..] == "" && "\U{233B4}"[1..] == "";
  }

  /** Two strings with the same bytes are the same string. */
  lemma Injective(s: string, t: string)
    requires Encode(s) == Encode(t)
    ensures s == t
  {
    RoundTrip(s);
    RoundTrip(t);
  }

  /** A SCALE `String`: its bytes as a `Vec<u8>`, refused unless they are UTF-8. */
  function Text(): Codec<string> { Via(Blob(), Decode, Encode, _ => true) }

  lemma TextLawful()
    ensures Lawful(Text())
  {
    BlobLawful();
    forall s: string ensures Decode(Encode(s)) == Some(s) { RoundTrip(s); }
    forall b: Bytes | Decode(b).Some? ensures Encode(Decode(b).value) == b { DecodeExact(b); }
    ViaLawful(Blob(), Decode, Encode, _ => true);
  }
}
