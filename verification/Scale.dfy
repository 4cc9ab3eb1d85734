/** Leaf encodings of the SCALE codec: section A.2.2 of the Polkadot Protocol Specification
    (fixed-width little-endian integers) and A.2.2.1 (length and compact encoding), as the
    parity-scale-codec crate decodes them: every decoder accepts only the canonical encoding. */
module Scale {

  type byte = x: int | 0 <= x < 256

  /** What reading one value off the front of an input yields. */
  datatype Parsed<+T> = Read(value: T, rest: seq<byte>) | Malformed

  // ------------------------------------------------------------ little-endian integers

  function Pow256(n: nat): (p: nat)
    ensures p >= 1
  {
    if n == 0 then 1 else 256 * Pow256(n - 1)
  }

  function LittleEndian(n: nat, v: nat): (s: seq<byte>)
    ensures |s| == n
  {
    if n == 0 then [] else [v % 256] + LittleEndian(n - 1, v / 256)
  }

  function FromLittleEndian(s: seq<byte>): (v: nat)
    ensures v < Pow256(|s|)
  {
    if s == [] then 0 else s[0] + 256 * FromLittleEndian(s[1..])
  }

  lemma {:induction false} LittleEndianReads(n: nat, v: nat)
    requires v < Pow256(n)
    ensures FromLittleEndian(LittleEndian(n, v)) == v
  {
    if n > 0 {
      LittleEndianReads(n - 1, v / 256);
      assert LittleEndian(n, v)[1..] == LittleEndian(n - 1, v / 256);
    }
  }

  lemma {:induction false} LittleEndianWrites(s: seq<byte>)
    ensures LittleEndian(|s|, FromLittleEndian(s)) == s
  {
    if s != [] {
      LittleEndianWrites(s[1..]);
      var v := FromLittleEndian(s);
      assert v % 256 == s[0] && v / 256 == FromLittleEndian(s[1..]);
    }
  }

  lemma PowLiterals()
    ensures Pow256(1) == 0x100 && Pow256(2) == 0x1_0000 && Pow256(3) == 0x100_0000 && Pow256(4) == 0x1_0000_0000
  {
    assert Pow256(2) == 256 * Pow256(1);
    assert Pow256(3) == 256 * Pow256(2);
    assert Pow256(4) == 256 * Pow256(3);
  }

  lemma WidePowLiterals()
    ensures Pow256(8) == 0x1_0000_0000_0000_0000
    ensures Pow256(16) == 0x1_0000_0000_0000_0000_0000_0000_0000_0000
  {
    PowLiterals();
    PowSum(4, 4);
    PowSum(8, 8);
  }

  lemma {:induction false} PowSum(m: nat, n: nat)
    ensures Pow256(m + n) == Pow256(m) * Pow256(n)
  {
    if m > 0 {
      PowSum(m - 1, n);
      assert Pow256(m) * Pow256(n) == 256 * (Pow256(m - 1) * Pow256(n));
    }
  }

  /** Later bytes weigh more: each byte counts 256 times the one before it. */
  lemma {:induction false} LittleEndianWeights(a: seq<byte>, b: seq<byte>)
    ensures FromLittleEndian(a + b) == FromLittleEndian(a) + Pow256(|a|) * FromLittleEndian(b)
    ensures |a| == 1 ==> FromLittleEndian(a) == a[0]
  {
    if a == [] {
      assert a + b == b;
    } else {
      assert (a + b)[1..] == a[1..] + b;
      LittleEndianWeights(a[1..], b);
      Shifted(FromLittleEndian(a[1..]), Pow256(|a| - 1), FromLittleEndian(b));
    }
  }

  lemma Shifted(x: nat, p: nat, y: nat)
    ensures 256 * (x + p * y) == 256 * x + (256 * p) * y
  {
  }

  lemma {:induction false} PowMonotone(m: nat, n: nat)
    requires m <= n
    ensures Pow256(m) <= Pow256(n)
  {
    if m < n {
      PowMonotone(m, n - 1);
    }
  }

  /** A fixed-width integer; `signed` selects two's complement. */
  function DecodeInt(w: nat, signed: bool, s: seq<byte>): (r: Parsed<int>)
  {
    if |s| < w then Malformed else
    var u := FromLittleEndian(s[..w]);
    Read(if signed && 2 * u >= Pow256(w) then u - Pow256(w) else u, s[w..])
  }

  predicate InRange(w: nat, signed: bool, n: int)
  {
    if signed then 0 <= 2 * n + Pow256(w) < 2 * Pow256(w) else 0 <= n < Pow256(w)
  }

  function EncodeInt(w: nat, n: int): (s: seq<byte>)
    ensures |s| == w
  {
    LittleEndian(w, n % Pow256(w))
  }

  lemma IntRoundTrip(w: nat, signed: bool, n: int, r: seq<byte>)
    requires InRange(w, signed, n)
    ensures DecodeInt(w, signed, EncodeInt(w, n) + r) == Read(n, r)
  {
    var p := Pow256(w);
    var u := if n < 0 then n + p else n;
    Residue(n, p, u);
    LittleEndianReads(w, u);
    assert (EncodeInt(w, n) + r)[..w] == EncodeInt(w, n);
    assert (EncodeInt(w, n) + r)[w..] == r;
  }

  lemma IntCanonical(w: nat, signed: bool, s: seq<byte>)
    requires DecodeInt(w, signed, s).Read?
    ensures var d := DecodeInt(w, signed, s);
            InRange(w, signed, d.value) && s == EncodeInt(w, d.value) + d.rest
  {
    var n := DecodeInt(w, signed, s).value;
    Residue(n, Pow256(w), FromLittleEndian(s[..w]));
    LittleEndianWrites(s[..w]);
  }

  /** What the bytes of an integer say: the value itself, or its two's complement. */
  lemma IntLayout(w: nat, signed: bool, n: int)
    requires InRange(w, signed, n)
    ensures FromLittleEndian(EncodeInt(w, n)) == if n < 0 then n + Pow256(w) else n
  {
    var u := if n < 0 then n + Pow256(w) else n;
    Residue(n, Pow256(w), u);
    LittleEndianReads(w, u);
  }

  lemma Residue(n: int, p: nat, u: nat)
    requires u < p && (n == u || n == u - p)
    ensures n % p == u
  {
    if n == u - p {
      assert n == -1 * p + u;
      assert (-1 * p + u) % p == u;
    }
  }

  // ------------------------------------------------------------ compact integers

  /** How many bytes `v` needs. */
  function ByteLength(v: nat): (n: nat)
  {
    if v == 0 then 0 else 1 + ByteLength(v / 256)
  }

  lemma {:induction false} ByteLengthExact(v: nat, n: nat)
    requires n > 0
    ensures ByteLength(v) == n <==> Pow256(n - 1) <= v < Pow256(n)
  {
    if v > 0 && n > 1 {
      ByteLengthExact(v / 256, n - 1);
    }
  }

  lemma ByteLengthBound(v: nat, w: nat)
    requires v < Pow256(w)
    ensures ByteLength(v) <= w
  {
    if v > 0 {
      var n := ByteLength(v);
      ByteLengthExact(v, n);
      if w < n { PowMonotone(w, n - 1); }
    }
  }

  /** Compact encoding in its four modes; the byte count of the big mode is cast to `u8`. */
  function EncodeCompact(v: nat): (s: seq<byte>)
    ensures |s| >= 1
  {
    if v < 0x40 then [4 * v]
    else if v < 0x4000 then LittleEndian(2, 4 * v + 1)
    else if v < 0x4000_0000 then LittleEndian(4, 4 * v + 2)
    else [(4 * (ByteLength(v) - 4) + 3) % 256] + LittleEndian(ByteLength(v), v)
  }

  /** `Compact<uN>::decode` for an N of `w` bytes: a value that a shorter mode could hold, or that
      does not fit the type, is refused. */
  function DecodeCompact(w: nat, s: seq<byte>): (r: Parsed<nat>)
  {
    if s == [] then Malformed
    else if s[0] % 4 == 0 then Accept(w, 0, s[0] / 4, s[1..])
    else if s[0] % 4 == 1 then
      if |s| < 2 then Malformed else Accept(w, 0x40, FromLittleEndian(s[..2]) / 4, s[2..])
    else if s[0] % 4 == 2 then
      if |s| < 4 then Malformed else Accept(w, 0x4000, FromLittleEndian(s[..4]) / 4, s[4..])
    else
      var n := s[0] / 4 + 4;
      if n > w || |s| < 1 + n then Malformed else
      Accept(w, if n == 4 then 0x4000_0000 else Pow256(n - 1), FromLittleEndian(s[1..1 + n]), s[1 + n..])
  }

  function Accept(w: nat, least: nat, v: nat, rest: seq<byte>): (r: Parsed<nat>)
  {
    if least <= v < Pow256(w) then Read(v, rest) else Malformed
  }

  /** The four modes as numbers: up to 2^30 the little-endian reading is four times the value plus the
      mode, in 1, 2 or 4 bytes; beyond, a byte count follows the mode and the value uses no more bytes
      than it needs. */
  lemma CompactLayout(v: nat)
    ensures v < 0x40 ==> |EncodeCompact(v)| == 1 && FromLittleEndian(EncodeCompact(v)) == 4 * v
    ensures 0x40 <= v < 0x4000 ==> |EncodeCompact(v)| == 2 && FromLittleEndian(EncodeCompact(v)) == 4 * v + 1
    ensures 0x4000 <= v < 0x4000_0000 ==> |EncodeCompact(v)| == 4 && FromLittleEndian(EncodeCompact(v)) == 4 * v + 2
    ensures 0x4000_0000 <= v < Pow256(16) ==>
              var s := EncodeCompact(v);
              && |s| >= 5 && s[0] == 4 * (|s| - 5) + 3 && FromLittleEndian(s[1..]) == v
              && (|s| > 5 ==> s[|s| - 1] != 0)
  {
    PowLiterals();
    if v < 0x40 {
    } else if v < 0x4000 {
      LittleEndianReads(2, 4 * v + 1);
    } else if v < 0x4000_0000 {
      LittleEndianReads(4, 4 * v + 2);
    } else if v < Pow256(16) {
      BigLayout(v);
    }
  }

  lemma BigLayout(v: nat)
    requires 0x4000_0000 <= v < Pow256(16)
    ensures var s := EncodeCompact(v);
            && |s| >= 5 && s[0] == 4 * (|s| - 5) + 3 && FromLittleEndian(s[1..]) == v
            && (|s| > 5 ==> s[|s| - 1] != 0)
  {
    hide LittleEndian, FromLittleEndian, ByteLength, Pow256;
    var n := ByteLength(v);
    BigMode(16, v);
    ByteLengthExact(v, n);
    LittleEndianReads(n, v);
    var s := EncodeCompact(v);
    assert s[1..] == LittleEndian(n, v);
    assert s[|s| - 1] == LittleEndian(n, v)[n - 1];
    TopByte(n, v);
  }

  /** The last little-endian byte of a value that needs all its bytes is not zero. */
  lemma {:induction false} TopByte(n: nat, v: nat)
    requires n > 0 && Pow256(n - 1) <= v < Pow256(n)
    ensures LittleEndian(n, v)[n - 1] != 0
  {
    if n > 1 {
      TopByte(n - 1, v / 256);
    }
  }

  lemma CompactRoundTrip(w: nat, v: nat, r: seq<byte>)
    requires 1 <= w <= 16 && v < Pow256(w)
    ensures DecodeCompact(w, EncodeCompact(v) + r) == Read(v, r)
  {
    hide LittleEndian, FromLittleEndian, ByteLength;
    if v < 0x40 {
      assert (EncodeCompact(v) + r)[1..] == r;
    } else if v < 0x4000 {
      ShiftedRoundTrip(2, v, 1, r);
    } else if v < 0x4000_0000 {
      ShiftedRoundTrip(4, v, 2, r);
    } else {
      BigRoundTrip(w, v, r);
    }
  }

  /** Of everything the encoder writes without wrapping its byte count, a decoder reads exactly the values
      that fit its type. */
  lemma CompactReadIff(w: nat, v: nat, r: seq<byte>)
    requires 1 <= w <= 16 && v < Pow256(67)
    ensures DecodeCompact(w, EncodeCompact(v) + r) == if v < Pow256(w) then Read(v, r) else Malformed
  {
    hide LittleEndian, FromLittleEndian, ByteLength, Pow256;
    PowLiterals();
    if v < Pow256(w) {
      CompactRoundTrip(w, v, r);
    } else if v < 0x4000 {
      PowMonotone(1, w);
      ShiftedRoundTrip(2, v, 1, r);
    } else if v < 0x4000_0000 {
      ShiftedRoundTrip(4, v, 2, r);
    } else {
      TooManyBytes(w, v, r);
    }
  }

  lemma TooManyBytes(w: nat, v: nat, r: seq<byte>)
    requires 1 <= w <= 16 && v >= 0x4000_0000 && Pow256(w) <= v < Pow256(67)
    ensures DecodeCompact(w, EncodeCompact(v) + r) == Malformed
  {
    hide LittleEndian, FromLittleEndian, ByteLength, Pow256;
    var n := ByteLength(v);
    BigMode(67, v);
    ByteLengthExact(v, n);
    if n <= w { PowMonotone(n, w); }
    assert (EncodeCompact(v) + r)[0] == 4 * (n - 4) + 3;
  }

  lemma LowBits(s: seq<byte>)
    requires s != []
    ensures FromLittleEndian(s) % 4 == s[0] % 4
  {
    var rest := FromLittleEndian(s[1..]);
    assert FromLittleEndian(s) == s[0] + 4 * (64 * rest);
  }

  /** The two- and four-byte modes shift the value left over its mode bits. */
  lemma ShiftedRoundTrip(n: nat, v: nat, mode: nat, r: seq<byte>)
    requires n > 0 && mode < 4 && 4 * v + mode < Pow256(n)
    ensures var s := LittleEndian(n, 4 * v + mode) + r;
            s[0] % 4 == mode && FromLittleEndian(s[..n]) / 4 == v && s[n..] == r
    ensures n == 2 ==> Pow256(n) == 0x1_0000
    ensures n == 4 ==> Pow256(n) == 0x1_0000_0000
  {
    hide LittleEndian, FromLittleEndian, Pow256;
    PowLiterals();
    var u := 4 * v + mode;
    var e := LittleEndian(n, u);
    LittleEndianReads(n, u);
    assert (e + r)[..n] == e && (e + r)[n..] == r;
    LowBits(e);
    assert (e + r)[0] == e[0];
  }

  lemma BigRoundTrip(w: nat, v: nat, r: seq<byte>)
    requires 1 <= w <= 16 && 0x4000_0000 <= v < Pow256(w)
    ensures DecodeCompact(w, EncodeCompact(v) + r) == Read(v, r)
  {
    hide LittleEndian, FromLittleEndian, ByteLength, Pow256;
    var n := ByteLength(v);
    BigMode(w, v);
    ByteLengthExact(v, n);
    LittleEndianReads(n, v);
    var s := EncodeCompact(v) + r;
    assert s[0] == 4 * (n - 4) + 3;
    assert s[1..1 + n] == LittleEndian(n, v);
    assert s[1 + n..] == r;
  }

  lemma BigMode(w: nat, v: nat)
    requires 0x4000_0000 <= v < Pow256(w)
    ensures 4 <= ByteLength(v) <= w
  {
    ByteLengthBound(v, w);
    PowLiterals();
    var n := ByteLength(v);
    ByteLengthExact(v, n);
    if n < 4 {
      PowMonotone(n, 3);
    }
  }

  lemma CompactCanonical(w: nat, s: seq<byte>)
    requires w <= 16 && DecodeCompact(w, s).Read?
    ensures var d := DecodeCompact(w, s); d.value < Pow256(w) && s == EncodeCompact(d.value) + d.rest
  {
    hide LittleEndian, FromLittleEndian, ByteLength;
    if s[0] % 4 == 0 {
      assert s == [s[0]] + s[1..];
    } else if s[0] % 4 == 1 {
      TwoByteCanonical(s[..2]);
      assert s == s[..2] + s[2..];
    } else if s[0] % 4 == 2 {
      FourByteCanonical(s[..4]);
      assert s == s[..4] + s[4..];
    } else {
      BigCanonical(w, s);
    }
  }

  lemma TwoByteCanonical(s: seq<byte>)
    requires |s| == 2 && s[0] % 4 == 1 && FromLittleEndian(s) / 4 >= 0x40
    ensures EncodeCompact(FromLittleEndian(s) / 4) == s
  {
    hide LittleEndian, FromLittleEndian, Pow256;
    PowLiterals();
    LowBits(s);
    LittleEndianWrites(s);
  }

  lemma FourByteCanonical(s: seq<byte>)
    requires |s| == 4 && s[0] % 4 == 2 && FromLittleEndian(s) / 4 >= 0x4000
    ensures EncodeCompact(FromLittleEndian(s) / 4) == s
  {
    hide LittleEndian, FromLittleEndian, Pow256;
    PowLiterals();
    LowBits(s);
    LittleEndianWrites(s);
  }

  lemma BigCanonical(w: nat, s: seq<byte>)
    requires w <= 16 && DecodeCompact(w, s).Read? && s[0] % 4 == 3
    ensures var d := DecodeCompact(w, s); s == EncodeCompact(d.value) + d.rest
  {
    hide LittleEndian, FromLittleEndian, ByteLength, Pow256;
    var v, n := DecodeCompact(w, s).value, s[0] / 4 + 4;
    PowLiterals();
    PowMonotone(3, n - 1);
    if n > 4 { PowMonotone(4, n - 1); }
    LittleEndianWrites(s[1..1 + n]);
    ByteLengthExact(v, n);
    assert s == [s[0]] + s[1..1 + n] + s[1 + n..];
  }

  // ------------------------------------------------------------ codecs of foreign types

  /** A type whose `Encode` and `Decode` live in another crate; `wf` marks its well-formed values. */
  datatype Codec<!T> = Codec(wf: T -> bool, enc: T -> seq<byte>, dec: seq<byte> -> Parsed<T>)

  /** The codec is canonical and self-delimiting: decoding reads back exactly what encoding wrote,
      whatever follows, and accepts nothing else. */
  ghost predicate Lawful<T(!new)>(c: Codec<T>)
  {
    && (forall v: T, r: seq<byte> :: c.wf(v) ==> c.dec(c.enc(v) + r) == Read(v, r))
    && (forall s: seq<byte> :: c.dec(s).Read? ==>
          c.wf(c.dec(s).value) && s == c.enc(c.dec(s).value) + c.dec(s).rest)
  }

  lemma PrefixFree<T(!new)>(c: Codec<T>, v: T, r: seq<byte>, v': T, r': seq<byte>)
    requires Lawful(c) && c.wf(v) && c.wf(v') && c.enc(v) + r == c.enc(v') + r'
    ensures v == v' && r == r'
  {
    assert c.dec(c.enc(v) + r) == Read(v, r);
    assert c.dec(c.enc(v') + r') == Read(v', r');
  }
}
