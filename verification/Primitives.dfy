/** One level of `decode_type` in plain terms: in which order parts are decoded and which variant a tag
    selects; how many bytes each primitive takes, which bytes a string may hold, which integers a
    compact node takes. */
module Primitives {
  import opened Scale
  import opened Registry
  import opened Decoder

  // ------------------------------------------------------------ fixed-width integers

  /** What taking `n` bytes off the front gives. */
  function TakeBytes(n: nat, s: seq<byte>): (r: Outcome<seq<byte>>)
  {
    if |s| < n then Failed(CodecError) else Done(s[..n], s[n..])
  }

  /** Every integer type takes its own number of bytes, whatever they are, and reproduces them. */
  lemma IntegerRuns(fuel: nat, reg: Types, m: Mode, id: nat, s: seq<byte>)
    requires fuel > 0 && id < |reg| && reg[id].def.Primitive?
    ensures reg[id].def.prim in {U8, I8} ==> Transcode(fuel, reg, m, id, s) == TakeBytes(1, s)
    ensures reg[id].def.prim in {U16, I16} ==> Transcode(fuel, reg, m, id, s) == TakeBytes(2, s)
    ensures reg[id].def.prim in {U32, I32} ==> Transcode(fuel, reg, m, id, s) == TakeBytes(4, s)
    ensures reg[id].def.prim in {U64, I64} ==> Transcode(fuel, reg, m, id, s) == TakeBytes(8, s)
    ensures reg[id].def.prim in {U128, I128} ==> Transcode(fuel, reg, m, id, s) == TakeBytes(16, s)
  {
    hide EncodeInt, DecodeInt;
    var p := reg[id].def.prim;
    if IntWidth(p) > 0 { IntegerRun(IntWidth(p), IsSigned(p), s); }
  }

  lemma IntegerRun(w: nat, signed: bool, s: seq<byte>)
    ensures DecodeInt(w, signed, s).Read? <==> |s| >= w
    ensures |s| >= w ==> var d := DecodeInt(w, signed, s); EncodeInt(w, d.value) == s[..w] && d.rest == s[w..]
  {
    if |s| >= w {
      IntCanonical(w, signed, s);
      var d := DecodeInt(w, signed, s);
      assert (EncodeInt(w, d.value) + d.rest)[..w] == EncodeInt(w, d.value);
    }
  }

  /** The values of the integer types. */
  lemma IntegerValues(reg: Types, m: Mode, id: nat, v: Value)
    requires id < |reg| && reg[id].def.Primitive?
    ensures reg[id].def.prim == U8 ==> (HasType(reg, m, id, v) <==> v.VInt? && v.width == 1 && 0 <= v.n < 0x100)
    ensures reg[id].def.prim == I8 ==> (HasType(reg, m, id, v) <==> v.VInt? && v.width == 1 && -0x80 <= v.n < 0x80)
    ensures reg[id].def.prim == U16 ==> (HasType(reg, m, id, v) <==> v.VInt? && v.width == 2 && 0 <= v.n < 0x1_0000)
    ensures reg[id].def.prim == I16 ==> (HasType(reg, m, id, v) <==> v.VInt? && v.width == 2 && -0x8000 <= v.n < 0x8000)
    ensures reg[id].def.prim == U32 ==> (HasType(reg, m, id, v) <==> v.VInt? && v.width == 4 && 0 <= v.n < 0x1_0000_0000)
    ensures reg[id].def.prim == I32 ==> (HasType(reg, m, id, v) <==> v.VInt? && v.width == 4 && -0x8000_0000 <= v.n < 0x8000_0000)
    ensures reg[id].def.prim == U64 ==> (HasType(reg, m, id, v) <==> v.VInt? && v.width == 8 && 0 <= v.n < 0x1_0000_0000_0000_0000)
    ensures reg[id].def.prim == I64 ==>
              (HasType(reg, m, id, v) <==> v.VInt? && v.width == 8 && -0x8000_0000_0000_0000 <= v.n < 0x8000_0000_0000_0000)
    ensures reg[id].def.prim == U128 ==>
              (HasType(reg, m, id, v) <==> v.VInt? && v.width == 16 && 0 <= v.n < 0x1_0000_0000_0000_0000_0000_0000_0000_0000)
    ensures reg[id].def.prim == I128 ==>
              (HasType(reg, m, id, v) <==>
                 v.VInt? && v.width == 16
                 && -0x8000_0000_0000_0000_0000_0000_0000_0000 <= v.n < 0x8000_0000_0000_0000_0000_0000_0000_0000)
  {
    hide Pow256;
    PowLiterals();
    WidePowLiterals();
  }

  // ------------------------------------------------------------ booleans and unsupported primitives

  /** A boolean is one byte, zero or one. */
  lemma BoolRuns(fuel: nat, reg: Types, m: Mode, id: nat, s: seq<byte>)
    requires fuel > 0 && id < |reg| && reg[id].def == TypeDef.Primitive(Bool)
    ensures Transcode(fuel, reg, m, id, s)
         == if s != [] && (s[0] == 0 || s[0] == 1) then Done(s[..1], s[1..]) else Failed(CodecError)
  {
    if s != [] { assert s[..1] == [s[0]]; }
  }

  lemma UnsupportedRuns(fuel: nat, reg: Types, m: Mode, id: nat, s: seq<byte>)
    requires fuel > 0 && id < |reg| && reg[id].def.Primitive?
    ensures Transcode(fuel, reg, m, id, s) == Failed(UnsupportedPrimitive(reg[id].def.prim))
       <==> reg[id].def.prim in {Char, U256, I256}
  {
    hide EncodeInt, DecodeInt, Encode;
  }

  /** A missing type is an error of its own, a bit sequence a panic. */
  lemma OtherLeaves(fuel: nat, reg: Types, m: Mode, id: nat, s: seq<byte>)
    requires fuel > 0
    ensures Transcode(fuel, reg, m, id, s) == Failed(TypeNotFound(id)) <== id >= |reg|
    ensures id < |reg| && reg[id].def == BitSequence ==> Transcode(fuel, reg, m, id, s) == Failed(Unimplemented)
  {
  }

  // ------------------------------------------------------------ strings

  /** A Unicode scalar value: a code point that is not a surrogate. */
  type Scalar = c: int | 0 <= c < 0xD800 || 0xE000 <= c < 0x11_0000

  /** UTF-8, table 3-6 of the Unicode Standard. */
  function EncodeScalar(c: Scalar): (s: seq<byte>)
  {
    if c < 0x80 then [c]
    else if c < 0x800 then [0xC0 + c / 64, 0x80 + c % 64]
    else if c < 0x1_0000 then [0xE0 + c / 4096, 0x80 + c / 64 % 64, 0x80 + c % 64]
    else [0xF0 + c / 26_2144, 0x80 + c / 4096 % 64, 0x80 + c / 64 % 64, 0x80 + c % 64]
  }

  function EncodeText(cs: seq<Scalar>): (s: seq<byte>)
  {
    if cs == [] then [] else EncodeScalar(cs[0]) + EncodeText(cs[1..])
  }

  lemma ScalarAccepted(c: Scalar, r: seq<byte>)
    ensures Utf8(EncodeScalar(c) + r) <==> Utf8(r)
  {
    var s := EncodeScalar(c) + r;
    assert s[|EncodeScalar(c)|..] == r;
  }

  lemma SixBits(a: nat, b: nat)
    requires b < 64
    ensures (64 * a + b) / 64 == a && (64 * a + b) % 64 == b
  {
  }

  /** The scalar value in front of well-formed bytes. */
  lemma FirstScalar(s: seq<byte>) returns (c: Scalar, r: seq<byte>)
    requires Utf8(s) && s != []
    ensures s == EncodeScalar(c) + r
  {
    hide Utf8;
    var n := Lead(s);
    r := s[n..];
    if n == 1 {
      c := s[0];
    } else if n == 2 {
      c := TwoBytes(s[0], s[1]);
    } else if n == 3 {
      c := ThreeBytes(s[0], s[1], s[2]);
    } else {
      c := FourBytes(s[0], s[1], s[2], s[3]);
    }
    assert s == s[..n] + r;
  }

  /** How many bytes the first scalar value takes, and what is known of them. */
  lemma Lead(s: seq<byte>) returns (n: nat)
    requires Utf8(s) && s != []
    ensures 1 <= n <= 4 && n <= |s| && forall i :: 1 <= i < n ==> IsContinuation(s[i])
    ensures n == 1 ==> s[0] < 0x80
    ensures n == 2 ==> 0xC2 <= s[0] < 0xE0
    ensures n == 3 ==> 0xE0 <= s[0] < 0xF0 && (s[0] == 0xE0 ==> s[1] >= 0xA0) && (s[0] == 0xED ==> s[1] < 0xA0)
    ensures n == 4 ==> 0xF0 <= s[0] < 0xF5 && (s[0] == 0xF0 ==> s[1] >= 0x90) && (s[0] == 0xF4 ==> s[1] < 0x90)
  {
    n := if s[0] < 0x80 then 1 else if s[0] < 0xE0 then 2 else if s[0] < 0xF0 then 3 else 4;
  }

  lemma TwoBytes(a: byte, b: byte) returns (c: Scalar)
    requires 0xC2 <= a < 0xE0 && IsContinuation(b)
    ensures EncodeScalar(c) == [a, b]
  {
    var x: int, y: int := a - 0xC0, b - 0x80;
    c := 64 * x + y;
    SixBits(x, y);
  }

  lemma ThreeBytes(a: byte, b: byte, d: byte) returns (c: Scalar)
    requires 0xE0 <= a < 0xF0 && IsContinuation(b) && IsContinuation(d)
    requires (a == 0xE0 ==> b >= 0xA0) && (a == 0xED ==> b < 0xA0)
    ensures EncodeScalar(c) == [a, b, d]
  {
    var x: int, y: int, z: int := a - 0xE0, b - 0x80, d - 0x80;
    var top := 64 * x + y;
    c := 64 * top + z;
    SixBits(x, y);
    SixBits(top, z);
    assert c / 4096 == c / 64 / 64;
  }

  lemma FourBytes(a: byte, b: byte, d: byte, e: byte) returns (c: Scalar)
    requires 0xF0 <= a < 0xF5 && IsContinuation(b) && IsContinuation(d) && IsContinuation(e)
    requires (a == 0xF0 ==> b >= 0x90) && (a == 0xF4 ==> b < 0x90)
    ensures EncodeScalar(c) == [a, b, d, e]
  {
    var x: int, y: int, z: int, w: int := a - 0xF0, b - 0x80, d - 0x80, e - 0x80;
    var top := 64 * x + y;
    var mid := 64 * top + z;
    c := 64 * mid + w;
    SixBits(x, y);
    SixBits(top, z);
    SixBits(mid, w);
    assert c / 4096 == c / 64 / 64;
    assert c / 26_2144 == c / 64 / 64 / 64;
  }

  /** Exactly the encodings of sequences of scalar values are well-formed. */
  lemma Utf8Iff(s: seq<byte>)
    ensures Utf8(s) <==> exists cs :: EncodeText(cs) == s
  {
    if Utf8(s) { var cs := ReadText(s); }
    if cs :| EncodeText(cs) == s { TextAccepted(cs); }
  }

  lemma {:induction false} TextAccepted(cs: seq<Scalar>)
    ensures Utf8(EncodeText(cs))
  {
    if cs != [] {
      TextAccepted(cs[1..]);
      ScalarAccepted(cs[0], EncodeText(cs[1..]));
    }
  }

  lemma {:induction false} ReadText(s: seq<byte>) returns (cs: seq<Scalar>)
    requires Utf8(s)
    ensures EncodeText(cs) == s
    decreases |s|
  {
    if s == [] {
      cs := [];
    } else {
      var c, r := FirstScalar(s);
      ScalarAccepted(c, r);
      var rest := ReadText(r);
      cs := [c] + rest;
      assert cs[1..] == rest;
    }
  }

  /** `out` is the text `cs` behind its length in bytes. */
  predicate IsText(cs: seq<Scalar>, out: seq<byte>)
  {
    |EncodeText(cs)| < 0x1_0000_0000 && out == EncodeCompact(|EncodeText(cs)|) + EncodeText(cs)
  }

  /** A string is accepted iff it is the length and the UTF-8 of some text; it is reproduced. */
  lemma TextRuns(fuel: nat, reg: Types, m: Mode, id: nat, s: seq<byte>, out: seq<byte>, rest: seq<byte>)
    requires fuel > 0 && id < |reg| && reg[id].def == TypeDef.Primitive(Str)
    ensures Transcode(fuel, reg, m, id, s) == Done(out, rest) <==> s == out + rest && exists cs :: IsText(cs, out)
    ensures Transcode(fuel, reg, m, id, s).Done? || Transcode(fuel, reg, m, id, s) == Failed(CodecError)
  {
    hide EncodeCompact, DecodeCompact, Utf8, EncodeText;
    if Transcode(fuel, reg, m, id, s) == Done(out, rest) {
      PrimitiveCanonical(Str, s);
      var text := ParsePrimitive(Str, s).value.text;
      Utf8Iff(text);
      var cs :| EncodeText(cs) == text;
      assert IsText(cs, out);
    }
    if s == out + rest {
      if cs :| IsText(cs, out) {
        TextAccepted(cs);
        PrimitiveComplete(Str, VStr(EncodeText(cs)), rest);
      }
    }
  }

  // ------------------------------------------------------------ compact integers

  /** A compact over `inner` is one over this primitive: directly, or through a struct of one field. */
  predicate Unwraps(reg: Types, inner: nat, p: Primitive)
  {
    inner < |reg| &&
    (|| reg[inner].def == TypeDef.Primitive(p)
     || exists field :: 0 <= field < |reg| && reg[inner].def == Composite([field]) && reg[field].def == TypeDef.Primitive(p))
  }

  function ReadIf(ok: bool, n: nat, r: seq<byte>): (o: Outcome<seq<byte>>)
  {
    if ok then Done(EncodeCompact(n), r) else Failed(CodecError)
  }

  /** Unwrapping its type parameter, a compact node reads the integers that fit the unsigned type below it,
      out of all the encoder can write, and refuses any other primitive. */
  lemma CompactRuns(fuel: nat, reg: Types, tags: TagLookup, id: nat, inner: nat, p: Primitive, n: nat, r: seq<byte>)
    requires fuel > 0 && id < |reg| && reg[id].def == Compact(inner) && Unwraps(reg, inner, p) && n < Pow256(67)
    ensures var run := Transcode(fuel, reg, Mode(TypeParam, tags), id, EncodeCompact(n) + r);
            match p
            case U8 => run == ReadIf(n < 0x100, n, r)
            case U16 => run == ReadIf(n < 0x1_0000, n, r)
            case U32 => run == ReadIf(n < 0x1_0000_0000, n, r)
            case U64 => run == ReadIf(n < 0x1_0000_0000_0000_0000, n, r)
            case U128 => run == ReadIf(n < 0x1_0000_0000_0000_0000_0000_0000_0000_0000, n, r)
            case _ => run == Failed(InvalidCompactPrimitive(p))
  {
    hide EncodeCompact, DecodeCompact, Pow256;
    PowLiterals();
    WidePowLiterals();
    assert CompactWidth(reg, TypeParam, id, inner) == CompactPrimitive(p);
    if p in {U8, U16, U32, U64, U128} { CompactReadIff(IntWidth(p), n, r); }
  }

  /** Anything else below a compact node is an error of its own. */
  lemma CompactRefusals(fuel: nat, reg: Types, tags: TagLookup, id: nat, inner: nat, s: seq<byte>)
    requires fuel > 0 && id < |reg| && reg[id].def == Compact(inner) && forall p :: !Unwraps(reg, inner, p)
    ensures Transcode(fuel, reg, Mode(TypeParam, tags), id, s)
         == if inner >= |reg| then Failed(TypeNotFound(inner))
            else if reg[inner].def.Composite? && |reg[inner].def.fields| == 1 && reg[inner].def.fields[0] >= |reg|
            then Failed(TypeNotFound(reg[inner].def.fields[0]))
            else Failed(InvalidCompactType)
  {
    if inner < |reg| {
      var def := reg[inner].def;
      if def.Primitive? {
        assert Unwraps(reg, inner, def.prim);
      }
      if def.Composite? && |def.fields| == 1 && def.fields[0] < |reg| && reg[def.fields[0]].def.Primitive? {
        assert def == Composite([def.fields[0]]);
        assert Unwraps(reg, inner, reg[def.fields[0]].def.prim);
      }
    }
  }

  // ------------------------------------------------------------ parts

  lemma PrependNone(o: Outcome<seq<byte>>)
    ensures Prepend([], o) == o
  {
    if o.Done? { assert [] + o.value == o.value; }
  }

  /** Structs and tuples decode their fields in order, arrays their element so many times. */
  lemma PartsRuns(fuel: nat, reg: Types, m: Mode, id: nat, s: seq<byte>)
    requires id < |reg|
    ensures reg[id].def.Composite? || reg[id].def.Tuple? ==>
              Transcode(fuel + 1, reg, m, id, s) == TranscodeAll(fuel, reg, m, reg[id].def.fields, s)
    ensures reg[id].def.Array? ==>
              Transcode(fuel + 1, reg, m, id, s) == TranscodeAll(fuel, reg, m, Repeat(reg[id].def.elem, reg[id].def.len), s)
  {
    hide TranscodeAll;
    if reg[id].def.Composite? || reg[id].def.Tuple? {
      PrependNone(TranscodeAll(fuel, reg, m, reg[id].def.fields, s));
    } else if reg[id].def.Array? {
      PrependNone(TranscodeAll(fuel, reg, m, Repeat(reg[id].def.elem, reg[id].def.len), s));
    }
  }

  /** A sequence is a compact count and that many elements. */
  lemma SequenceRuns(fuel: nat, reg: Types, m: Mode, id: nat, n: nat, s: seq<byte>)
    requires id < |reg| && reg[id].def.Sequence? && n < 0x1_0000_0000
    ensures Transcode(fuel + 1, reg, m, id, EncodeCompact(n) + s)
         == Prepend(EncodeCompact(n), TranscodeAll(fuel, reg, m, Repeat(reg[id].def.elem, n), s))
  {
    hide TranscodeAll, EncodeCompact, DecodeCompact;
    PowLiterals();
    CompactRoundTrip(4, n, s);
  }

  /** As written, the tag of an enum is the position of a variant, whose fields follow in order. */
  lemma EnumRuns(fuel: nat, reg: Types, compact: CompactLookup, id: nat, s: seq<byte>)
    requires id < |reg| && reg[id].def.Variant?
    ensures var vs, m := reg[id].def.variants, Mode(compact, ByPosition);
            Transcode(fuel + 1, reg, m, id, s)
              == if s == [] then Failed(CodecError)
                 else if s[0] >= |vs| then Failed(VariantNotFound(s[0]))
                 else Prepend([s[0]], TranscodeAll(fuel, reg, m, vs[s[0]].fields, s[1..]))
  {
    hide TranscodeAll;
  }
}
