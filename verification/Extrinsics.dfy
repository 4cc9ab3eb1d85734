/** The V4 extrinsic codec with its length prefix and hex framing, and the payload that is signed. */
module Extrinsics {
  import opened Scale
  import opened Registry
  import opened Cursors
  import opened Hex

  // ------------------------------------------------------------ codecs of structs

  function DecodeBoth<X, Y>(c: Codec<X>, d: Codec<Y>, s: seq<byte>): (r: Parsed<(X, Y)>)
  {
    var x := c.dec(s);
    if x.Malformed? then Malformed else
    var y := d.dec(x.rest);
    if y.Malformed? then Malformed else Read((x.value, y.value), y.rest)
  }

  /** Two fields one after the other. */
  function Both<X, Y>(c: Codec<X>, d: Codec<Y>): (r: Codec<(X, Y)>)
  {
    Codec((p: (X, Y)) => c.wf(p.0) && d.wf(p.1),
          (p: (X, Y)) => c.enc(p.0) + d.enc(p.1),
          s => DecodeBoth(c, d, s))
  }

  lemma BothLawful<X(!new), Y(!new)>(c: Codec<X>, d: Codec<Y>)
    requires Lawful(c) && Lawful(d)
    ensures Lawful(Both(c, d))
  {
    var b := Both(c, d);
    forall v: (X, Y), r | b.wf(v)
      ensures b.dec(b.enc(v) + r) == Read(v, r)
    {
      assert b.enc(v) + r == c.enc(v.0) + (d.enc(v.1) + r);
      assert c.dec(c.enc(v.0) + (d.enc(v.1) + r)) == Read(v.0, d.enc(v.1) + r);
    }
    forall s | b.dec(s).Read?
      ensures b.wf(b.dec(s).value) && s == b.enc(b.dec(s).value) + b.dec(s).rest
    {
      var x := c.dec(s);
      var y := d.dec(x.rest);
      assert s == c.enc(x.value) + (d.enc(y.value) + y.rest) == (c.enc(x.value) + d.enc(y.value)) + y.rest;
    }
  }

  function CompactCodec(w: nat): (c: Codec<nat>)
  {
    Codec(n => n < Pow256(w), EncodeCompact, s => DecodeCompact(w, s))
  }

  lemma CompactLawful(w: nat)
    requires 1 <= w <= 16
    ensures Lawful(CompactCodec(w))
  {
    var c := CompactCodec(w);
    forall v: nat, r | c.wf(v)
      ensures c.dec(c.enc(v) + r) == Read(v, r)
    {
      CompactRoundTrip(w, v, r);
    }
    forall s | c.dec(s).Read?
      ensures c.wf(c.dec(s).value) && s == c.enc(c.dec(s).value) + c.dec(s).rest
    {
      CompactCanonical(w, s);
    }
  }

  function IntCodec(w: nat): (c: Codec<int>)
  {
    Codec(n => InRange(w, false, n), n => EncodeInt(w, n), s => DecodeInt(w, false, s))
  }

  lemma IntLawful(w: nat)
    ensures Lawful(IntCodec(w))
  {
    var c := IntCodec(w);
    forall v: int, r | c.wf(v)
      ensures c.dec(c.enc(v) + r) == Read(v, r)
    {
      IntRoundTrip(w, false, v, r);
    }
    forall s | c.dec(s).Read?
      ensures c.wf(c.dec(s).value) && s == c.enc(c.dec(s).value) + c.dec(s).rest
    {
      IntCanonical(w, false, s);
    }
  }

  /** A 32-byte hash. */
  function HashCodec(): (c: Codec<seq<byte>>)
  {
    Codec(h => |h| == 32, h => h, s => if |s| < 32 then Malformed else Read(s[..32], s[32..]))
  }

  lemma HashLawful()
    ensures Lawful(HashCodec())
  {
    var c := HashCodec();
    forall v: seq<byte>, r | c.wf(v)
      ensures c.dec(c.enc(v) + r) == Read(v, r)
    {
      assert (v + r)[..32] == v && (v + r)[32..] == r;
    }
    forall s | c.dec(s).Read?
      ensures c.wf(c.dec(s).value) && s == c.enc(c.dec(s).value) + c.dec(s).rest
    {
      assert s == s[..32] + s[32..];
    }
  }

  // ------------------------------------------------------------ the extrinsic

  /** `GenericExtra`: era, nonce, tip. */
  type Extra<E> = (E, (nat, nat))

  type Signed<E, A, S> = (A, (S, Extra<E>))

  datatype Extrinsic<E, A, S, C> = Extrinsic(signature: Option<Signed<E, A, S>>, call: C)

  /** Codecs of the types defined elsewhere: era, address, signature and call. */
  datatype Parts<!E, !A, !S, !C> = Parts(era: Codec<E>, address: Codec<A>, signature: Codec<S>, call: Codec<C>)

  ghost predicate LawfulParts<E(!new), A(!new), S(!new), C(!new)>(p: Parts<E, A, S, C>)
  {
    Lawful(p.era) && Lawful(p.address) && Lawful(p.signature) && Lawful(p.call)
  }

  function ExtraCodec<E>(era: Codec<E>): (c: Codec<Extra<E>>)
  {
    Both(era, Both(CompactCodec(4), CompactCodec(16)))
  }

  function NewExtra<E>(era: E, nonce: nat): (x: Extra<E>)
  {
    (era, (nonce, 0))
  }

  function SignedCodec<E, A, S, C>(p: Parts<E, A, S, C>): (c: Codec<Signed<E, A, S>>)
  {
    Both(p.address, Both(p.signature, ExtraCodec(p.era)))
  }

  lemma ExtraLawful<E(!new)>(era: Codec<E>)
    requires Lawful(era)
    ensures Lawful(ExtraCodec(era))
  {
    CompactLawful(4);
    CompactLawful(16);
    BothLawful(CompactCodec(4), CompactCodec(16));
    BothLawful(era, Both(CompactCodec(4), CompactCodec(16)));
  }

  lemma SignedLawful<E(!new), A(!new), S(!new), C(!new)>(p: Parts<E, A, S, C>)
    requires LawfulParts(p)
    ensures Lawful(SignedCodec(p))
  {
    ExtraLawful(p.era);
    BothLawful(p.signature, ExtraCodec(p.era));
    BothLawful(p.address, Both(p.signature, ExtraCodec(p.era)));
  }

  predicate WellFormed<E, A, S, C>(p: Parts<E, A, S, C>, xt: Extrinsic<E, A, S, C>)
  {
    (xt.signature.Some? ==> SignedCodec(p).wf(xt.signature.value)) && p.call.wf(xt.call)
  }

  function Body<E, A, S, C>(p: Parts<E, A, S, C>, xt: Extrinsic<E, A, S, C>): (s: seq<byte>)
  {
    (if xt.signature.Some? then [0x84] + SignedCodec(p).enc(xt.signature.value) else [0x04]) + p.call.enc(xt.call)
  }

  function EncodeXt<E, A, S, C>(p: Parts<E, A, S, C>, xt: Extrinsic<E, A, S, C>): (s: seq<byte>)
  {
    EncodeCompact(|Body(p, xt)|) + Body(p, xt)
  }

  function DecodeBody<E, A, S, C>(p: Parts<E, A, S, C>, s: seq<byte>): (r: Parsed<Extrinsic<E, A, S, C>>)
  {
    if s == [] || s[0] % 128 != 4 then Malformed
    else if s[0] >= 128 then
      var both := DecodeBoth(SignedCodec(p), p.call, s[1..]);
      if both.Malformed? then Malformed else Read(Extrinsic(Some(both.value.0), both.value.1), both.rest)
    else
      var call := p.call.dec(s[1..]);
      if call.Malformed? then Malformed else Read(Extrinsic(None, call.value), call.rest)
  }

  function DecodeXt<E, A, S, C>(p: Parts<E, A, S, C>, s: seq<byte>): (r: Parsed<Extrinsic<E, A, S, C>>)
  {
    var length := DecodeCompact(4, s);
    if length.Malformed? then Malformed else DecodeBody(p, length.rest)
  }

  /** `encode_with_vec_prefix`: room for the length is reserved according to the size of the type,
      then replaced by the length as it turns out. */
  method EncodeWithVecPrefix(size: nat, body: seq<byte>) returns (v: seq<byte>)
    ensures v == EncodeCompact(|body|) + body
  {
    var reserve := if size <= 0x3f then 1 else if size <= 0x3fff then 2 else 4;
    v := seq(reserve, _ => 0);
    v := v + body;
    var length := EncodeCompact(|v| - reserve);
    v := length + v[reserve..];
  }

  method EncodeExtrinsic<E, A, S, C>(p: Parts<E, A, S, C>, size: nat, xt: Extrinsic<E, A, S, C>) returns (v: seq<byte>)
    requires |Body(p, xt)| < 0x1_0000_0000
    ensures v == EncodeXt(p, xt)
  {
    var body: seq<byte> := [];
    match xt.signature {
      case Some(s) =>
        body := body + [0x84];
        body := body + SignedCodec(p).enc(s);
      case None =>
        body := body + [0x04];
    }
    body := body + p.call.enc(xt.call);
    assert body == Body(p, xt);
    v := EncodeWithVecPrefix(size, body);
  }

  /** `UncheckedExtrinsicV4::decode`: the length prefix is read and dropped. */
  method DecodeExtrinsic<E, A, S, C>(p: Parts<E, A, S, C>, input: Cursor) returns (r: Result<Extrinsic<E, A, S, C>>)
    modifies input
    ensures var spec := DecodeXt(p, old(input.rest));
            if spec.Read? then r == Ok(spec.value) && input.rest == spec.rest else r == Err(CodecError)
  {
    hide DecodeCompact;
    var length := input.Take(DecodeCompact(4, input.rest));
    if length.Err? { return Err(CodecError); }
    var version := input.ReadByte();
    if version.Err? { return Err(CodecError); }
    var isSigned := version.value >= 128;
    if version.value % 128 != 4 { return Err(CodecError); }
    var signature := None;
    if isSigned {
      var s := input.Take(SignedCodec(p).dec(input.rest));
      if s.Err? { return Err(CodecError); }
      signature := Some(s.value);
    }
    var call := input.Take(p.call.dec(input.rest));
    if call.Err? { return Err(CodecError); }
    r := Ok(Extrinsic(signature, call.value));
  }

  // ------------------------------------------------------------ round trip and length prefix

  lemma BodyRoundTrip<E(!new), A(!new), S(!new), C(!new)>(p: Parts<E, A, S, C>, xt: Extrinsic<E, A, S, C>, r: seq<byte>)
    requires LawfulParts(p) && WellFormed(p, xt)
    ensures DecodeBody(p, Body(p, xt) + r) == Read(xt, r)
  {
    hide SignedCodec;
    var s := Body(p, xt) + r;
    if xt.signature.Some? {
      SignedLawful(p);
      BothLawful(SignedCodec(p), p.call);
      var both := Both(SignedCodec(p), p.call);
      var v := (xt.signature.value, xt.call);
      assert s[1..] == both.enc(v) + r;
      assert both.dec(both.enc(v) + r) == Read(v, r);
    } else {
      assert s[1..] == p.call.enc(xt.call) + r;
    }
  }

  lemma BodyCanonical<E(!new), A(!new), S(!new), C(!new)>(p: Parts<E, A, S, C>, s: seq<byte>)
    requires LawfulParts(p) && DecodeBody(p, s).Read?
    ensures var d := DecodeBody(p, s); WellFormed(p, d.value) && s == Body(p, d.value) + d.rest
  {
    hide SignedCodec;
    assert s == [s[0]] + s[1..];
    if s[0] >= 128 {
      SignedLawful(p);
      BothLawful(SignedCodec(p), p.call);
      var both := Both(SignedCodec(p), p.call);
      var v := both.dec(s[1..]);
      assert s[1..] == both.enc(v.value) + v.rest;
      Reassociate([0x84], SignedCodec(p).enc(v.value.0), p.call.enc(v.value.1), v.rest);
    }
  }

  lemma Reassociate(a: seq<byte>, b: seq<byte>, c: seq<byte>, d: seq<byte>)
    ensures a + (b + c + d) == a + b + c + d
  {
  }

  /** Decoding an encoded extrinsic, followed by anything, gives it back. */
  lemma XtRoundTrip<E(!new), A(!new), S(!new), C(!new)>(p: Parts<E, A, S, C>, xt: Extrinsic<E, A, S, C>, r: seq<byte>)
    requires LawfulParts(p) && WellFormed(p, xt) && |Body(p, xt)| < 0x1_0000_0000
    ensures DecodeXt(p, EncodeXt(p, xt) + r) == Read(xt, r)
  {
    hide DecodeCompact, EncodeCompact, Body, DecodeBody, WellFormed;
    PowLiterals();
    var body := Body(p, xt);
    assert EncodeXt(p, xt) + r == EncodeCompact(|body|) + (body + r);
    CompactRoundTrip(4, |body|, body + r);
    BodyRoundTrip(p, xt, r);
  }

  /** A decoded extrinsic was preceded by some length; encoding it again reproduces the bytes read iff
      that length was the right one. */
  lemma ReencodesIffLengthRight<E(!new), A(!new), S(!new), C(!new)>(p: Parts<E, A, S, C>, s: seq<byte>)
    requires LawfulParts(p) && DecodeXt(p, s).Read?
    ensures var d := DecodeXt(p, s); var n := DecodeCompact(4, s).value;
            && WellFormed(p, d.value)
            && s == EncodeCompact(n) + Body(p, d.value) + d.rest
            && (s == EncodeXt(p, d.value) + d.rest <==> n == |Body(p, d.value)|)
  {
    hide DecodeCompact, EncodeCompact, Body, DecodeBody, WellFormed;
    CompactCanonical(4, s);
    var n, d := DecodeCompact(4, s), DecodeXt(p, s);
    BodyCanonical(p, n.rest);
    var body := Body(p, d.value);
    assert s == EncodeCompact(n.value) + (body + d.rest) == EncodeCompact(n.value) + body + d.rest;
    if s == EncodeXt(p, d.value) + d.rest {
      assert s == EncodeCompact(|body|) + (body + d.rest);
      SameTail(EncodeCompact(n.value), EncodeCompact(|body|), body + d.rest);
      SameCompact(n.value, |body|);
    }
  }

  lemma SameTail(a: seq<byte>, b: seq<byte>, t: seq<byte>)
    requires a + t == b + t
    ensures a == b
  {
    assert |a| == |b|;
    assert (a + t)[..|a|] == a && (b + t)[..|a|] == b;
  }

  /** A canonical compact integer of at most four bytes' worth is the encoding of nothing else. */
  lemma SameCompact(n: nat, k: nat)
    requires n < Pow256(4) && EncodeCompact(n) == EncodeCompact(k)
    ensures n == k
  {
    CompactRoundTrip(4, n, []);
    var e := EncodeCompact(k);
    assert e + [] == e;
    PowLiterals();
    if k >= 0x4000_0000 {
      var b := ByteLength(k);
      ByteLengthExact(k, b);
      if b < 4 { PowMonotone(b, 3); }
      assert |e| == 1 + b;
      NarrowCompact(n);
      assert b == 4;
      CompactRoundTrip(4, k, []);
    } else {
      CompactRoundTrip(4, k, []);
    }
  }

  lemma NarrowCompact(n: nat)
    requires n < Pow256(4)
    ensures |EncodeCompact(n)| <= 5
  {
    ByteLengthBound(n, 4);
  }

  // ------------------------------------------------------------ through text

  /** `hex_encode`. */
  function XtHex<E, A, S, C>(p: Parts<E, A, S, C>, xt: Extrinsic<E, A, S, C>): (s: string)
  {
    "0x" + HexEncode(EncodeXt(p, xt))
  }

  /** The text sent to the node, quoted or not, reads back as the encoded extrinsic and decodes to it
      with nothing left over. */
  lemma TextRoundTrip<E(!new), A(!new), S(!new), C(!new)>(p: Parts<E, A, S, C>, xt: Extrinsic<E, A, S, C>, left: nat, right: nat)
    requires LawfulParts(p) && WellFormed(p, xt) && |Body(p, xt)| < 0x1_0000_0000
    ensures FromHex(Quotes(left) + XtHex(p, xt) + Quotes(right)) == Some(EncodeXt(p, xt))
    ensures DecodeXt(p, EncodeXt(p, xt)) == Read(xt, [])
  {
    hide FromHex, HexEncode, EncodeXt, Body, DecodeXt, WellFormed;
    var h := HexEncode(EncodeXt(p, xt));
    assert Quotes(left) + ("0x" + h) + Quotes(right) == Quotes(left) + "0x" + h + Quotes(right);
    FramedHex(left, true, EncodeXt(p, xt), right);
    assert EncodeXt(p, xt) + [] == EncodeXt(p, xt);
    XtRoundTrip(p, xt, []);
  }

  /** The text is `0x` and two lower-case digits for each byte of the encoding. */
  lemma TextLayout<E, A, S, C>(p: Parts<E, A, S, C>, xt: Extrinsic<E, A, S, C>)
    ensures var s, bs := XtHex(p, xt), EncodeXt(p, xt);
            && |s| == 2 + 2 * |bs| && s[..2] == "0x"
            && forall i :: 0 <= i < |bs| ==>
                 s[2 + 2 * i] == "0123456789abcdef"[bs[i] / 16] && s[3 + 2 * i] == "0123456789abcdef"[bs[i] % 16]
  {
    hide EncodeXt, HexEncode;
    var bs := EncodeXt(p, xt);
    forall i | 0 <= i < |bs|
      ensures HexEncode(bs)[2 * i] == LOWER_DIGITS[bs[i] / 16] && HexEncode(bs)[2 * i + 1] == LOWER_DIGITS[bs[i] % 16]
    {
      HexText(bs, i);
    }
  }

  // ------------------------------------------------------------ what is signed

  /** Spec version, transaction version, genesis hash, mortality checkpoint hash. */
  type Additional = (int, (int, (seq<byte>, seq<byte>)))

  function AdditionalCodec(): (c: Codec<Additional>)
  {
    Both(IntCodec(4), Both(IntCodec(4), Both(HashCodec(), HashCodec())))
  }

  type Payload<E, C> = (C, (Extra<E>, Additional))

  function PayloadCodec<E, A, S, C>(p: Parts<E, A, S, C>): (c: Codec<Payload<E, C>>)
  {
    Both(p.call, Both(ExtraCodec(p.era), AdditionalCodec()))
  }

  lemma PayloadLawful<E(!new), A(!new), S(!new), C(!new)>(p: Parts<E, A, S, C>)
    requires LawfulParts(p)
    ensures Lawful(PayloadCodec(p))
  {
    IntLawful(4);
    HashLawful();
    BothLawful(HashCodec(), HashCodec());
    BothLawful(IntCodec(4), Both(HashCodec(), HashCodec()));
    BothLawful(IntCodec(4), Both(IntCodec(4), Both(HashCodec(), HashCodec())));
    ExtraLawful(p.era);
    BothLawful(ExtraCodec(p.era), AdditionalCodec());
    BothLawful(p.call, Both(ExtraCodec(p.era), AdditionalCodec()));
  }

  /** The signed payload, field by field. */
  lemma PayloadLayout<E, A, S, C>(p: Parts<E, A, S, C>, call: C, era: E, nonce: nat, tip: nat, spec: int, tx: int, genesis: seq<byte>, current: seq<byte>)
    ensures PayloadCodec(p).enc((call, ((era, (nonce, tip)), (spec, (tx, (genesis, current))))))
         == p.call.enc(call) + p.era.enc(era) + EncodeCompact(nonce) + EncodeCompact(tip)
            + EncodeInt(4, spec) + EncodeInt(4, tx) + genesis + current
  {
    hide EncodeCompact, EncodeInt;
    var hashes := genesis + current;
    var versions := EncodeInt(4, spec) + (EncodeInt(4, tx) + hashes);
    var extra := p.era.enc(era) + (EncodeCompact(nonce) + EncodeCompact(tip));
    assert AdditionalCodec().enc((spec, (tx, (genesis, current)))) == versions;
    assert ExtraCodec(p.era).enc((era, (nonce, tip))) == extra;
    Flat(p.call.enc(call), p.era.enc(era), EncodeCompact(nonce), EncodeCompact(tip), EncodeInt(4, spec), EncodeInt(4, tx), genesis, current);
  }

  lemma Flat(a: seq<byte>, b: seq<byte>, c: seq<byte>, d: seq<byte>, e: seq<byte>, f: seq<byte>, g: seq<byte>, h: seq<byte>)
    ensures a + ((b + (c + d)) + (e + (f + (g + h)))) == a + b + c + d + e + f + g + h
  {
    var x, y := b + c + d, e + f + g + h;
    assert b + (c + d) == x && e + (f + (g + h)) == y;
    assert a + (x + y) == a + x + y;
    assert a + x == a + b + c + d;
    var z := a + b + c + d;
    assert z + y == z + e + f + g + h;
  }

  /** The body of a signed extrinsic, field by field. */
  lemma SignedBodyLayout<E, A, S, C>(p: Parts<E, A, S, C>, address: A, signature: S, era: E, nonce: nat, tip: nat, call: C)
    ensures Body(p, Extrinsic(Some((address, (signature, (era, (nonce, tip))))), call))
         == [0x84] + p.address.enc(address) + p.signature.enc(signature)
            + p.era.enc(era) + EncodeCompact(nonce) + EncodeCompact(tip) + p.call.enc(call)
  {
    hide EncodeCompact;
    var extra := p.era.enc(era) + (EncodeCompact(nonce) + EncodeCompact(tip));
    assert ExtraCodec(p.era).enc((era, (nonce, tip))) == extra;
    assert SignedCodec(p).enc((address, (signature, (era, (nonce, tip))))) == p.address.enc(address) + (p.signature.enc(signature) + extra);
    Regroup([0x84], p.address.enc(address), p.signature.enc(signature), p.era.enc(era), EncodeCompact(nonce), EncodeCompact(tip), p.call.enc(call));
  }

  /** An unsigned extrinsic is a version byte and the call. */
  lemma UnsignedBodyLayout<E, A, S, C>(p: Parts<E, A, S, C>, call: C)
    ensures Body(p, Extrinsic(None, call)) == [0x04] + p.call.enc(call)
  {
  }

  /** The nonce is a u32, the tip a u128; the other parts are as their own types have it. */
  lemma WellFormedIff<E, A, S, C>(p: Parts<E, A, S, C>, address: A, signature: S, era: E, nonce: nat, tip: nat, call: C)
    ensures WellFormed(p, Extrinsic(Some((address, (signature, (era, (nonce, tip))))), call)) <==>
              && p.address.wf(address) && p.signature.wf(signature) && p.era.wf(era) && p.call.wf(call)
              && nonce < 0x1_0000_0000 && tip < 0x1_0000_0000_0000_0000_0000_0000_0000_0000
    ensures WellFormed(p, Extrinsic(None, call)) <==> p.call.wf(call)
  {
    hide Pow256, EncodeCompact, DecodeCompact;
    PowLiterals();
    WidePowLiterals();
  }

  lemma Regroup(a: seq<byte>, b: seq<byte>, c: seq<byte>, d: seq<byte>, e: seq<byte>, f: seq<byte>, g: seq<byte>)
    ensures (a + (b + (c + (d + (e + f))))) + g == a + b + c + d + e + f + g
  {
    assert d + (e + f) == d + e + f;
    assert b + (c + (d + e + f)) == b + c + d + e + f;
  }

  /** `SignedPayload::using_encoded`. */
  function SignedBytes(blake2_256: seq<byte> -> seq<byte>, raw: seq<byte>): (s: seq<byte>)
  {
    if |raw| > 256 then blake2_256(raw) else raw
  }

  datatype Signer<!A, !S> = Signer(address: A, sign: seq<byte> -> S)

  /** `compose_extrinsic_offline!`. */
  function Compose<E, A, S, C>(p: Parts<E, A, S, C>, blake2_256: seq<byte> -> seq<byte>, signer: Signer<A, S>,
                               call: C, nonce: nat, era: E, additional: Additional): (xt: Extrinsic<E, A, S, C>)
  {
    var extra := NewExtra(era, nonce);
    var signature := signer.sign(SignedBytes(blake2_256, PayloadCodec(p).enc((call, (extra, additional)))));
    Extrinsic(Some((signer.address, (signature, extra))), call)
  }

  /** Whoever decodes the emitted extrinsic and rebuilds the payload from what it says, with the same
      additional data, gets exactly the bytes that were signed. */
  lemma SignatureCoversWhatIsSent<E(!new), A(!new), S(!new), C(!new)>(
      p: Parts<E, A, S, C>, blake2_256: seq<byte> -> seq<byte>, signer: Signer<A, S>,
      call: C, nonce: nat, era: E, additional: Additional, xt: Extrinsic<E, A, S, C>, r: seq<byte>)
    requires LawfulParts(p) && forall s :: |blake2_256(s)| == 32
    requires xt == Compose(p, blake2_256, signer, call, nonce, era, additional)
    requires WellFormed(p, xt) && |Body(p, xt)| < 0x1_0000_0000
    ensures var d := DecodeXt(p, EncodeXt(p, xt) + r);
            && d.Read? && d.rest == r && d.value.signature.Some?
            && var (address, (signature, extra)) := d.value.signature.value;
            && var raw := PayloadCodec(p).enc((d.value.call, (extra, additional)));
            && var signed := if |raw| <= 256 then raw else blake2_256(raw);
            && address == signer.address && signature == signer.sign(signed)
            && extra == (era, (nonce, 0)) && d.value.call == call
            && |signed| <= 256 && (|raw| > 256 ==> |signed| == 32)
  {
    hide EncodeXt, DecodeXt, Body, WellFormed, PayloadCodec;
    XtRoundTrip(p, xt, r);
  }

  /** What is signed, byte for byte: call, era, nonce, no tip, versions, genesis and checkpoint hash, as they
      stand up to 256 bytes and hashed beyond. */
  lemma ComposedSignature<E, A, S, C>(
      p: Parts<E, A, S, C>, blake2_256: seq<byte> -> seq<byte>, signer: Signer<A, S>,
      call: C, nonce: nat, era: E, spec: int, tx: int, genesis: seq<byte>, current: seq<byte>)
    ensures var flat := p.call.enc(call) + p.era.enc(era) + EncodeCompact(nonce) + [0]
                        + EncodeInt(4, spec) + EncodeInt(4, tx) + genesis + current;
            var signature := signer.sign(if |flat| <= 256 then flat else blake2_256(flat));
            Compose(p, blake2_256, signer, call, nonce, era, (spec, (tx, (genesis, current))))
              == Extrinsic(Some((signer.address, (signature, (era, (nonce, 0))))), call)
  {
    hide PayloadCodec, EncodeInt;
    PayloadLayout(p, call, era, nonce, 0, spec, tx, genesis, current);
  }

  /** The signed bytes determine call, era, nonce, tip, versions and hashes, unless two payloads
      of more than 256 bytes collide under the hash: a hashed payload is never mistaken for a short
      one, because every payload is longer than a hash. */
  lemma SignedBytesDeterminePayload<E(!new), A(!new), S(!new), C(!new)>(
      p: Parts<E, A, S, C>, blake2_256: seq<byte> -> seq<byte>, v: Payload<E, C>, v': Payload<E, C>)
    requires LawfulParts(p) && forall s :: |blake2_256(s)| == 32
    requires PayloadCodec(p).wf(v) && PayloadCodec(p).wf(v')
    ensures var raw, raw' := PayloadCodec(p).enc(v), PayloadCodec(p).enc(v');
            SignedBytes(blake2_256, raw) == SignedBytes(blake2_256, raw') ==>
              v == v' || (|raw| > 256 && |raw'| > 256 && raw != raw' && blake2_256(raw) == blake2_256(raw'))
  {
    var c := PayloadCodec(p);
    PayloadLawful(p);
    PayloadLength(p, v);
    PayloadLength(p, v');
    if c.enc(v) == c.enc(v') {
      assert c.enc(v) + [] == c.enc(v') + [];
      PrefixFree(c, v, [], v', []);
    }
  }

  lemma PayloadLength<E, A, S, C>(p: Parts<E, A, S, C>, v: Payload<E, C>)
    requires PayloadCodec(p).wf(v)
    ensures |PayloadCodec(p).enc(v)| >= 72
  {
    hide ExtraCodec;
    assert |AdditionalCodec().enc(v.1.1)| == 72;
    assert |Both(ExtraCodec(p.era), AdditionalCodec()).enc(v.1)| >= 72;
  }
}
