/** The SCALE codec (appendix A.2.2 of the Polkadot Protocol Specification), built from
    small codecs whose laws compose. */
module Scale {
  import opened Basics

  /** A codec: the values it can encode, its encoder, and its decoder, which reads a
      value off the front of a buffer and returns what it did not read. */
  datatype Codec<!T> = Codec(ok: T -> bool, enc: T -> Bytes, dec: Bytes -> Option<(T, Bytes)>)

  /** Decoding an encoding returns the value and leaves any trailing bytes untouched. */
  ghost predicate RoundTrips<T(!new)>(c: Codec<T>) {
    forall x: T, rest: Bytes | c.ok(x) :: c.dec(c.enc(x) + rest) == Some((x, rest))
  }

  /** Whatever decodes is the encoding of the decoded value followed by the rest. */
  ghost predicate Exact<T(!new)>(c: Codec<T>) {
    forall b: Bytes :: c.dec(b).Some? ==>
                         c.ok(c.dec(b).value.0) && b == c.enc(c.dec(b).value.0) + c.dec(b).value.1
  }

  ghost predicate Lawful<T(!new)>(c: Codec<T>) { RoundTrips(c) && Exact(c) }

  lemma Decodes<T(!new)>(c: Codec<T>, x: T, rest: Bytes)
    requires Lawful(c) && c.ok(x)
    ensures c.dec(c.enc(x) + rest) == Some((x, rest))
    ensures c.dec(c.enc(x)) == Some((x, []))
  {
    assert c.enc(x) + [] == c.enc(x);
    assert c.dec(c.enc(x) + []) == Some((x, []));
  }

  lemma Decoded<T(!new)>(c: Codec<T>, b: Bytes)
    requires Lawful(c) && c.dec(b).Some?
    ensures var (x, rest) := c.dec(b).value; c.ok(x) && c.enc(x) <= b && b == c.enc(x) + rest
  {
  }

  /** A lawful codec is injective, and no encoding is a proper prefix of another. */
  lemma PrefixFree<T(!new)>(c: Codec<T>, x: T, y: T, u: Bytes, v: Bytes)
    requires Lawful(c) && c.ok(x) && c.ok(y)
    requires c.enc(x) + u == c.enc(y) + v
    ensures x == y && u == v
  {
    assert c.dec(c.enc(x) + u) == Some((x, u));
    assert c.dec(c.enc(y) + v) == Some((y, v));
  }

  lemma Injective<T(!new)>(c: Codec<T>, x: T, y: T)
    requires Lawful(c) && c.ok(x) && c.ok(y) && c.enc(x) == c.enc(y)
    ensures x == y
  {
    PrefixFree(c, x, y, [], []);
  }

  // ---- Fixed-width integers ----

  /** `k` bytes, little endian. */
  function Fixed(k: nat): Codec<nat> {
    Codec(n => n < Pow256(k),
          n => ToLE(n, k),
          b => if |b| < k then None else Some((FromLE(b[..k]), b[k..])))
  }

  lemma FixedLawful(k: nat)
    ensures Lawful(Fixed(k))
  {
    var c := Fixed(k);
    forall n: nat, rest: Bytes | c.ok(n) ensures c.dec(c.enc(n) + rest) == Some((n, rest)) {
      LERoundTrip(n, k);
      assert (ToLE(n, k) + rest)[..k] == ToLE(n, k) && (ToLE(n, k) + rest)[k..] == rest;
    }
    forall b: Bytes | c.dec(b).Some?
      ensures c.ok(c.dec(b).value.0) && b == c.enc(c.dec(b).value.0) + c.dec(b).value.1
    {
      LEExact(b[..k]);
    }
  }

  function U8(): Codec<byte> {
    Codec(_ => true, x => [x], b => if b == [] then None else Some((b[0], b[1..])))
  }

  lemma U8Lawful()
    ensures Lawful(U8())
  {
    var c := U8();
    forall x: byte, rest: Bytes ensures c.dec(c.enc(x) + rest) == Some((x, rest)) {
      assert ([x] + rest)[1..] == rest;
    }
    forall b: Bytes | c.dec(b).Some?
      ensures c.ok(c.dec(b).value.0) && b == c.enc(c.dec(b).value.0) + c.dec(b).value.1
    {
      assert b == [b[0]] + b[1..];
    }
  }

  // ---- Compact lengths, four modes ----

  function EncodeCompact(n: nat): Bytes {
    if n < 0x40 then [4 * n]
    else if n < 0x4000 then ToLE(4 * n + 1, 2)
    else if n < 0x4000_0000 then ToLE(4 * n + 2, 4)
    else [3] + ToLE(n, 4)
  }

  /** A length written in a longer mode than it needs is refused. */
  function DecodeCompact(b: Bytes): Option<(nat, Bytes)> {
    if b == [] then None
    else if b[0] % 4 == 0 then Some((b[0] / 4, b[1..]))
    else if b[0] % 4 == 1 then
      if |b| < 2 then None else
      var n := FromLE(b[..2]) / 4;
      if 0x40 <= n then Some((n, b[2..])) else None
    else if b[0] % 4 == 2 then
      if |b| < 4 then None else
      var n := FromLE(b[..4]) / 4;
      if 0x4000 <= n then Some((n, b[4..])) else None
    else
      if b[0] != 3 || |b| < 5 then None else
      var n := FromLE(b[1..5]);
      if 0x4000_0000 <= n then Some((n, b[5..])) else None
  }

  lemma TagBits(n: nat, mode: nat)
    requires mode < 4
    ensures (4 * n + mode) % 256 % 4 == mode && (4 * n + mode) / 4 == n
  {
    var q, r := (4 * n + mode) / 256, (4 * n + mode) % 256;
    assert r == 4 * (n - 64 * q) + mode;
  }

  /** The two- and four-byte modes: the mode sits in the two low bits. */
  lemma TaggedRoundTrip(n: nat, mode: nat, k: nat, rest: Bytes)
    requires mode < 4 && k > 0 && 4 * n + mode < Pow256(k)
    ensures var b := ToLE(4 * n + mode, k) + rest;
            b[0] % 4 == mode && FromLE(b[..k]) / 4 == n && b[k..] == rest
  {
    var e := ToLE(4 * n + mode, k);
    LERoundTrip(4 * n + mode, k);
    TagBits(n, mode);
    assert e[0] == (4 * n + mode) % 256;
    assert (e + rest)[..k] == e;
  }

  lemma CompactRoundTrip(n: nat, rest: Bytes)
    requires n <= U32_MAX
    ensures DecodeCompact(EncodeCompact(n) + rest) == Some((n, rest))
  {
    Pow256Values();
    var b := EncodeCompact(n) + rest;
    if n < 0x40 {
      assert b[1..] == rest;
    } else if n < 0x4000 {
      TaggedRoundTrip(n, 1, 2, rest);
    } else if n < 0x4000_0000 {
      TaggedRoundTrip(n, 2, 4, rest);
    } else {
      LERoundTrip(n, 4);
      assert b[1..5] == ToLE(n, 4) && b[5..] == rest;
    }
  }

  /** What the two low bits of a number say, read off its first byte. */
  lemma TagOf(b: Bytes)
    requires b != []
    ensures FromLE(b) % 4 == b[0] % 4
  {
    var q := FromLE(b[1..]);
    assert FromLE(b) == b[0] + 4 * (64 * q);
  }

  lemma CompactExact(b: Bytes)
    requires DecodeCompact(b).Some?
    ensures var (n, rest) := DecodeCompact(b).value; n <= U32_MAX && b == EncodeCompact(n) + rest
  {
    var (n, rest) := DecodeCompact(b).value;
    Pow256Values();
    if b[0] % 4 == 0 {
      assert b == [b[0]] + b[1..];
    } else if b[0] % 4 == 1 {
      LEExact(b[..2]);
      TagOf(b[..2]);
      assert FromLE(b[..2]) == 4 * n + 1;
      assert b == b[..2] + b[2..];
    } else if b[0] % 4 == 2 {
      LEExact(b[..4]);
      TagOf(b[..4]);
      assert FromLE(b[..4]) == 4 * n + 2;
      assert b == b[..4] + b[4..];
    } else {
      LEExact(b[1..5]);
      assert b == [3] + b[1..5] + b[5..];
    }
  }

  /** The encoding read as one number: the mode in its two low bits, the length above them, in
      one, two or four bytes; lengths too long for that follow a byte 3. */
  lemma CompactLayout(n: nat)
    requires n <= U32_MAX
    ensures var b := EncodeCompact(n);
            if n >= 0x4000_0000 then |b| == 5 && b[0] == 3 && FromLE(b[1..]) == n
            else
              var mode := if n < 0x40 then 0 else if n < 0x4000 then 1 else 2;
              |b| == (if mode == 0 then 1 else 2 * mode) && FromLE(b) == 4 * n + mode
  {
    Pow256Values();
    var b := EncodeCompact(n);
    if n < 0x40 {
      assert b[1..] == [];
    } else if n < 0x4000 {
      LERoundTrip(4 * n + 1, 2);
    } else if n < 0x4000_0000 {
      LERoundTrip(4 * n + 2, 4);
    } else {
      LERoundTrip(n, 4);
      assert b[1..] == ToLE(n, 4);
    }
  }

  // ---- Structures ----

  function Pair<S, T>(c: Codec<S>, d: Codec<T>): Codec<(S, T)> {
    Codec((p: (S, T)) => c.ok(p.0) && d.ok(p.1),
          (p: (S, T)) => c.enc(p.0) + d.enc(p.1),
          b => DecodePair(c, d, b))
  }

  function DecodePair<S, T>(c: Codec<S>, d: Codec<T>, b: Bytes): Option<((S, T), Bytes)> {
    var (x, r) :- c.dec(b);
    var (y, rest) :- d.dec(r);
    Some(((x, y), rest))
  }

  lemma PairLawful<S(!new), T(!new)>(c: Codec<S>, d: Codec<T>)
    requires Lawful(c) && Lawful(d)
    ensures Lawful(Pair(c, d))
  {
    var p := Pair(c, d);
    forall x: (S, T), rest: Bytes | p.ok(x) ensures p.dec(p.enc(x) + rest) == Some((x, rest)) {
      assert p.enc(x) + rest == c.enc(x.0) + (d.enc(x.1) + rest);
    }
    forall b: Bytes | p.dec(b).Some?
      ensures p.ok(p.dec(b).value.0) && b == p.enc(p.dec(b).value.0) + p.dec(b).value.1
    {
      var x := p.dec(b).value.0;
      var r := c.dec(b).value.1;
      assert b == c.enc(x.0) + (d.enc(x.1) + d.dec(r).value.1);
    }
  }

  /** Re-reads the values of one codec as another type; `to` may refuse a value. */
  function Via<S, T>(c: Codec<S>, to: S -> Option<T>, from: T -> S, fits: T -> bool): Codec<T> {
    Codec(x => fits(x) && c.ok(from(x)), x => c.enc(from(x)), b => DecodeVia(c, to, b))
  }

  function DecodeVia<S, T>(c: Codec<S>, to: S -> Option<T>, b: Bytes): Option<(T, Bytes)> {
    var (s, rest) :- c.dec(b);
    var x :- to(s);
    Some((x, rest))
  }

  lemma ViaLawful<S(!new), T(!new)>(c: Codec<S>, to: S -> Option<T>, from: T -> S, fits: T -> bool)
    requires Lawful(c)
    requires forall x: T | fits(x) && c.ok(from(x)) :: to(from(x)) == Some(x)
    requires forall s: S | c.ok(s) && to(s).Some? :: fits(to(s).value) && from(to(s).value) == s
    ensures Lawful(Via(c, to, from, fits))
  {
    var v := Via(c, to, from, fits);
    forall x: T, rest: Bytes | v.ok(x) ensures v.dec(v.enc(x) + rest) == Some((x, rest)) {
      assert c.dec(c.enc(from(x)) + rest) == Some((from(x), rest));
    }
    forall b: Bytes | v.dec(b).Some?
      ensures v.ok(v.dec(b).value.0) && b == v.enc(v.dec(b).value.0) + v.dec(b).value.1
    {
      var s := c.dec(b).value.0;
      assert c.ok(s) && to(s).Some?;
    }
  }

  function EncodeOpt<T>(c: Codec<T>, x: Option<T>): Bytes {
    if x.None? then [0] else [1] + c.enc(x.value)
  }

  function DecodeOpt<T>(c: Codec<T>, b: Bytes): Option<(Option<T>, Bytes)> {
    if b == [] then None
    else if b[0] == 0 then Some((None, b[1..]))
    else if b[0] == 1 then
      var (x, rest) :- c.dec(b[1..]);
      Some((Some(x), rest))
    else None
  }

  function Opt<T>(c: Codec<T>): Codec<Option<T>> {
    Codec((x: Option<T>) => x.Some? ==> c.ok(x.value), x => EncodeOpt(c, x), b => DecodeOpt(c, b))
  }

  lemma OptLawful<T(!new)>(c: Codec<T>)
    requires Lawful(c)
    ensures Lawful(Opt(c))
  {
    var o := Opt(c);
    forall x: Option<T>, rest: Bytes | o.ok(x) ensures o.dec(o.enc(x) + rest) == Some((x, rest)) {
      var b := o.enc(x) + rest;
      if x.Some? {
        assert b[1..] == c.enc(x.value) + rest;
      } else {
        assert b[1..] == rest;
      }
    }
    forall b: Bytes | o.dec(b).Some?
      ensures o.ok(o.dec(b).value.0) && b == o.enc(o.dec(b).value.0) + o.dec(b).value.1
    {
      assert b == [b[0]] + b[1..];
      if b[0] == 1 {
        var x := c.dec(b[1..]).value;
        assert b == [1] + c.enc(x.0) + x.1;
      }
    }
  }

  // ---- Vectors ----

  function EncodeAll<T>(c: Codec<T>, xs: seq<T>): Bytes {
    if xs == [] then [] else c.enc(xs[0]) + EncodeAll(c, xs[1..])
  }

  function DecodeMany<T>(c: Codec<T>, n: nat, b: Bytes): Option<(seq<T>, Bytes)> {
    if n == 0 then Some(([], b))
    else
      var (x, r) :- c.dec(b);
      var (xs, rest) :- DecodeMany(c, n - 1, r);
      Some(([x] + xs, rest))
  }

  function DecodeVec<T>(c: Codec<T>, b: Bytes): Option<(seq<T>, Bytes)> {
    var (n, r) :- DecodeCompact(b);
    DecodeMany(c, n, r)
  }

  ghost predicate AllOk<T>(c: Codec<T>, xs: seq<T>) { forall i | 0 <= i < |xs| :: c.ok(xs[i]) }

  /** A length-prefixed vector. Encoding one of 2^32 or more elements panics. */
  function Vec<T>(c: Codec<T>): Codec<seq<T>> {
    Codec((xs: seq<T>) => |xs| <= U32_MAX && forall i | 0 <= i < |xs| :: c.ok(xs[i]),
          (xs: seq<T>) => EncodeCompact(|xs|) + EncodeAll(c, xs),
          b => DecodeVec(c, b))
  }

  lemma {:induction false} ManyRoundTrip<T(!new)>(c: Codec<T>, xs: seq<T>, rest: Bytes)
    requires Lawful(c) && AllOk(c, xs)
    ensures DecodeMany(c, |xs|, EncodeAll(c, xs) + rest) == Some((xs, rest))
  {
    if xs == [] {
      assert EncodeAll(c, xs) + rest == rest;
    } else {
      ManyRoundTrip(c, xs[1..], rest);
      var tail := EncodeAll(c, xs[1..]) + rest;
      assert EncodeAll(c, xs) + rest == c.enc(xs[0]) + tail;
      assert c.dec(c.enc(xs[0]) + tail) == Some((xs[0], tail));
      assert xs == [xs[0]] + xs[1..];
    }
  }

  lemma {:induction false} ManyExact<T(!new)>(c: Codec<T>, n: nat, b: Bytes)
    requires Lawful(c) && DecodeMany(c, n, b).Some?
    ensures var (xs, rest) := DecodeMany(c, n, b).value;
            |xs| == n && AllOk(c, xs) && b == EncodeAll(c, xs) + rest
  {
    if n > 0 {
      var (x, r) := c.dec(b).value;
      ManyExact(c, n - 1, r);
      var (xs, rest) := DecodeMany(c, n - 1, r).value;
      assert ([x] + xs)[1..] == xs;
      assert b == c.enc(x) + r;
      assert b == EncodeAll(c, [x] + xs) + rest;
    }
  }

  lemma VecLawful<T(!new)>(c: Codec<T>)
    requires Lawful(c)
    ensures Lawful(Vec(c))
  {
    var v := Vec(c);
    forall xs: seq<T>, rest: Bytes | v.ok(xs) ensures v.dec(v.enc(xs) + rest) == Some((xs, rest)) {
      var tail := EncodeAll(c, xs) + rest;
      assert v.enc(xs) + rest == EncodeCompact(|xs|) + tail;
      CompactRoundTrip(|xs|, tail);
      ManyRoundTrip(c, xs, rest);
    }
    forall b: Bytes | v.dec(b).Some?
      ensures v.ok(v.dec(b).value.0) && b == v.enc(v.dec(b).value.0) + v.dec(b).value.1
    {
      CompactExact(b);
      var (n, r) := DecodeCompact(b).value;
      ManyExact(c, n, r);
      var (xs, rest) := v.dec(b).value;
      assert b == EncodeCompact(n) + (EncodeAll(c, xs) + rest);
    }
  }

  lemma VecOk<T>(c: Codec<T>, xs: seq<T>)
    ensures Vec(c).ok(xs) <==> |xs| <= U32_MAX && AllOk(c, xs)
  {
  }

  /** `Vec<u8>` and the newtypes around it. */
  function Blob(): Codec<Bytes> { Vec(U8()) }

  lemma BlobLawful()
    ensures Lawful(Blob())
    ensures forall b: Bytes :: Blob().ok(b) <==> |b| <= U32_MAX
  {
    U8Lawful();
    VecLawful(U8());
  }

  /** A byte vector is its compact length and its bytes. */
  lemma {:induction false} BytesEncoded(b: Bytes)
    ensures EncodeAll(U8(), b) == b
    ensures Blob().enc(b) == EncodeCompact(|b|) + b
  {
    if b != [] {
      BytesEncoded(b[1..]);
      assert b == [b[0]] + b[1..];
    }
  }

  // ---- Lengths ----

  lemma {:induction false} EncodeAllLength<T>(c: Codec<T>, xs: seq<T>, bound: nat)
    requires forall k | 0 <= k < |xs| :: |c.enc(xs[k])| <= bound
    ensures |EncodeAll(c, xs)| <= |xs| * bound
  {
    if xs != [] { EncodeAllLength(c, xs[1..], bound); }
  }

  /** A byte vector takes at most five bytes more than it has. */
  lemma BlobLength(b: Bytes)
    ensures |Blob().enc(b)| <= |b| + 5
  {
    EncodeAllLength(U8(), b, 1);
  }
}
