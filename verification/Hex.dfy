/** Base 16 (section 8 of RFC 4648): written in lower case, read in either case. */
module Hex {
  import opened Basics

  function Digit(n: nat): (c: byte)
    requires n < 16
  {
    if n < 10 then 48 + n else 87 + n
  }

  function Value(c: byte): Option<nat> {
    if 48 <= c <= 57 then Some(c - 48)
    else if 65 <= c <= 70 then Some(c - 55)
    else if 97 <= c <= 102 then Some(c - 87)
    else None
  }

  function Lower(c: byte): byte { if 65 <= c <= 90 then c + 32 else c }

  function LowerAll(s: Bytes): Bytes { seq(|s|, i requires 0 <= i < |s| => Lower(s[i])) }

  function Encode(b: Bytes): Bytes {
    if b == [] then [] else [Digit(b[0] / 16), Digit(b[0] % 16)] + Encode(b[1..])
  }

  /** Fails on an odd length or a character that is not a hexadecimal digit. */
  function Decode(s: Bytes): Option<Bytes> {
    if s == [] then Some([])
    else if |s| == 1 then None
    else
      var hi :- Value(s[0]);
      var lo :- Value(s[1]);
      var tail :- Decode(s[2..]);
      Some([hi * 16 + lo] + tail)
  }

  lemma {:induction false} RoundTrip(b: Bytes)
    ensures Decode(Encode(b)) == Some(b)
  {
    if b != [] {
      RoundTrip(b[1..]);
      assert Encode(b)[2..] == Encode(b[1..]);
      assert b == [b[0]] + b[1..];
    }
  }

  /** Byte k is written as its high and then its low digit, in lower case. */
  lemma {:induction false} EncodeAt(b: Bytes, k: nat)
    requires k < |b|
    ensures |Encode(b)| == 2 * |b|
    ensures var digits := "0123456789abcdef";
            && Encode(b)[2 * k] == digits[b[k] / 16] as int && Encode(b)[2 * k + 1] == digits[b[k] % 16] as int
  {
    if k > 0 {
      EncodeAt(b[1..], k - 1);
    } else if |b| > 1 {
      EncodeAt(b[1..], 0);
    }
  }

  lemma DigitsOfPair(hi: byte, lo: byte)
    requires Value(hi).Some? && Value(lo).Some?
    ensures var x := Value(hi).value * 16 + Value(lo).value;
            x < 256 && Digit(x / 16) == Lower(hi) && Digit(x % 16) == Lower(lo)
  {
  }

  lemma LowerPair(s: Bytes)
    requires |s| >= 2
    ensures LowerAll(s) == [Lower(s[0]), Lower(s[1])] + LowerAll(s[2..])
  {
  }

  lemma {:induction false} DecodedIsLower(s: Bytes)
    requires Decode(s).Some?
    ensures LowerAll(s) == Encode(Decode(s).value)
  {
    if s != [] {
      DecodedIsLower(s[2..]);
      LowerPair(s);
      DigitsOfPair(s[0], s[1]);
      assert Decode(s).value[1..] == Decode(s[2..]).value;
    }
  }

  lemma {:induction false} LowerDecodes(s: Bytes)
    ensures Decode(LowerAll(s)) == Decode(s)
  {
    if |s| > 1 {
      LowerDecodes(s[2..]);
      LowerPair(s);
      assert LowerAll(s)[2..] == LowerAll(s[2..]);
    }
  }

  /** Exactly the case variants of an encoding decode to what was encoded. */
  lemma DecodesIff(s: Bytes, b: Bytes)
    ensures Decode(s) == Some(b) <==> LowerAll(s) == Encode(b)
  {
    if Decode(s) == Some(b) {
      DecodedIsLower(s);
    }
    if LowerAll(s) == Encode(b) {
      LowerDecodes(s);
      RoundTrip(b);
    }
  }
}
