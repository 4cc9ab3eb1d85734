/** The portable type registry of V14 metadata, the values its types describe, and the reference
    SCALE encoding of those values. */
module Registry {
  import opened Scale

  datatype Option<+T> = None | Some(value: T)

  datatype Primitive =
    | Bool | Char | Str
    | U8 | U16 | U32 | U64 | U128 | U256
    | I8 | I16 | I32 | I64 | I128 | I256

  datatype VariantDef = VariantDef(name: string, index: byte, fields: seq<nat>)

  datatype TypeDef =
    | Composite(fields: seq<nat>)
    | Variant(variants: seq<VariantDef>)
    | Sequence(elem: nat)
    | Array(len: nat, elem: nat)
    | Tuple(fields: seq<nat>)
    | Primitive(prim: Primitive)
    | Compact(inner: nat)
    | BitSequence

  datatype Type = Type(path: seq<string>, def: TypeDef)

  /** Type ids are positions; they may refer to each other in cycles. */
  type Types = seq<Type>

  datatype Error =
    | CodecError
    | TypeNotFound(id: nat)
    | VariantNotFound(tag: byte)
    | UnsupportedPrimitive(prim: Primitive)
    | InvalidCompactPrimitive(prim: Primitive)
    | InvalidCompactType
    | EventNotFound(pallet: byte, index: byte)
    | ErrorNotFound(pallet: byte, index: byte)
    | CallableNotFound(pallet: byte, index: byte)
    | Unimplemented  // the `unimplemented!` panic on bit sequences

  datatype Result<+T> = Ok(value: T) | Err(error: Error)

  // ------------------------------------------------------------ two questionable lookups

  /** Which type a compact node unwraps: its own id again, as the code is written, or its type
      parameter, as SCALE means it. */
  datatype CompactLookup = OwnId | TypeParam

  /** Which variant a tag byte selects: the one at that position, as the code is written, or the
      one declaring that index, as SCALE means it. */
  datatype TagLookup = ByPosition | ByIndex

  datatype Mode = Mode(compact: CompactLookup, tags: TagLookup)

  const AS_WRITTEN := Mode(OwnId, ByPosition)
  const INTENDED := Mode(TypeParam, ByIndex)

  function FindVariant(tags: TagLookup, vs: seq<VariantDef>, tag: byte): (r: Option<VariantDef>)
  {
    match tags
    case ByPosition => if tag < |vs| then Some(vs[tag]) else None
    case ByIndex =>
      if vs == [] then None
      else if vs[0].index == tag then Some(vs[0])
      else FindVariant(tags, vs[1..], tag)
  }

  function IntWidth(p: Primitive): (w: nat)
  {
    match p
    case U8 | I8 => 1
    case U16 | I16 => 2
    case U32 | I32 => 4
    case U64 | I64 => 8
    case U128 | I128 => 16
    case _ => 0
  }

  predicate IsSigned(p: Primitive)
  {
    p.I8? || p.I16? || p.I32? || p.I64? || p.I128?
  }

  function CompactPrimitive(p: Primitive): (r: Result<nat>)
    ensures r.Ok? ==> r.value in {1, 2, 4, 8, 16}
  {
    if IntWidth(p) > 0 && !IsSigned(p) then Ok(IntWidth(p)) else Err(InvalidCompactPrimitive(p))
  }

  /** The byte width of the integer under the compact node `id` with type parameter `inner`. */
  function CompactWidth(reg: Types, how: CompactLookup, id: nat, inner: nat): (r: Result<nat>)
    ensures r.Ok? ==> r.value in {1, 2, 4, 8, 16}
  {
    var target := if how.OwnId? then id else inner;
    if target >= |reg| then Err(TypeNotFound(target)) else
    match reg[target].def
    case Primitive(p) => CompactPrimitive(p)
    case Composite(fields) =>
      if |fields| != 1 then Err(InvalidCompactType)
      else if fields[0] >= |reg| then Err(TypeNotFound(fields[0]))
      else if reg[fields[0]].def.Primitive? then CompactPrimitive(reg[fields[0]].def.prim)
      else Err(InvalidCompactType)
    case _ => Err(InvalidCompactType)
  }

  // ------------------------------------------------------------ values and their encoding

  datatype Value =
    | VBool(b: bool)
    | VStr(text: seq<byte>)
    | VInt(width: nat, n: int)
    | VCompact(v: nat)
    | VList(items: seq<Value>)             // composite, tuple, array
    | VSeq(items: seq<Value>)              // length-prefixed
    | VEnum(tag: byte, items: seq<Value>)

  function Encode(v: Value): (s: seq<byte>)
  {
    match v
    case VBool(b) => [if b then 1 else 0]
    case VStr(text) => EncodeCompact(|text|) + text
    case VInt(w, n) => EncodeInt(w, n)
    case VCompact(n) => EncodeCompact(n)
    case VList(items) => EncodeAll(items)
    case VSeq(items) => EncodeCompact(|items|) + EncodeAll(items)
    case VEnum(tag, items) => [tag] + EncodeAll(items)
  }

  function EncodeAll(vs: seq<Value>): (s: seq<byte>)
  {
    if vs == [] then [] else Encode(vs[0]) + EncodeAll(vs[1..])
  }

  predicate IsContinuation(b: byte) { 0x80 <= b < 0xC0 }

  /** Well-formed UTF-8 byte sequences. */
  predicate Utf8(s: seq<byte>)
  {
    s == [] || (
    if s[0] < 0x80 then Utf8(s[1..])
    else if 0xC2 <= s[0] < 0xE0 then |s| >= 2 && IsContinuation(s[1]) && Utf8(s[2..])
    else if 0xE0 <= s[0] < 0xF0 then
      && |s| >= 3 && IsContinuation(s[1]) && IsContinuation(s[2])
      && (s[0] == 0xE0 ==> s[1] >= 0xA0) && (s[0] == 0xED ==> s[1] < 0xA0)
      && Utf8(s[3..])
    else
      && 0xF0 <= s[0] < 0xF5 && |s| >= 4
      && IsContinuation(s[1]) && IsContinuation(s[2]) && IsContinuation(s[3])
      && (s[0] == 0xF0 ==> s[1] >= 0x90) && (s[0] == 0xF4 ==> s[1] < 0x90)
      && Utf8(s[4..]))
  }

  function Repeat(id: nat, n: nat): (ids: seq<nat>)
    ensures |ids| == n && forall i :: 0 <= i < n ==> ids[i] == id
  {
    seq(n, _ => id)
  }

  predicate PrimitiveValue(p: Primitive, v: Value)
  {
    if p.Bool? then v.VBool?
    else if p.Str? then v.VStr? && |v.text| < 0x1_0000_0000 && Utf8(v.text)
    else IntWidth(p) > 0 && v.VInt? && v.width == IntWidth(p) && InRange(v.width, IsSigned(p), v.n)
  }

  /** `v` is a value of type `id`. Values are finite, so an infinitely nested composite has none. */
  predicate HasType(reg: Types, m: Mode, id: nat, v: Value)
    decreases v, 1
  {
    id < |reg| &&
    match reg[id].def
    case Composite(fields) => v.VList? && HaveTypes(reg, m, fields, v.items)
    case Tuple(fields) => v.VList? && HaveTypes(reg, m, fields, v.items)
    case Array(len, elem) => v.VList? && HaveTypes(reg, m, Repeat(elem, len), v.items)
    case Sequence(elem) =>
      v.VSeq? && |v.items| < 0x1_0000_0000 && HaveTypes(reg, m, Repeat(elem, |v.items|), v.items)
    case Variant(vs) =>
      && v.VEnum?
      && var d := FindVariant(m.tags, vs, v.tag);
      && d.Some? && HaveTypes(reg, m, d.value.fields, v.items)
    case Primitive(p) => PrimitiveValue(p, v)
    case Compact(inner) =>
      && v.VCompact?
      && var w := CompactWidth(reg, m.compact, id, inner);
      && w.Ok? && v.v < Pow256(w.value)
    case BitSequence => false
  }

  predicate HaveTypes(reg: Types, m: Mode, ids: seq<nat>, vs: seq<Value>)
    decreases vs, 0
  {
    |ids| == |vs| &&
    (vs == [] || (HasType(reg, m, ids[0], vs[0]) && HaveTypes(reg, m, ids[1..], vs[1..])))
  }

  // ------------------------------------------------------------ unique decoding

  /** Both lookups select the same fields for this tag, or both select nothing. */
  predicate SameFields(t: TagLookup, t': TagLookup, vs: seq<VariantDef>, tag: byte)
  {
    var d, d' := FindVariant(t, vs, tag), FindVariant(t', vs, tag);
    if d.Some? then d'.Some? && d.value.fields == d'.value.fields else d'.None?
  }

  /** The lookups agree on the tags of the enums that `v`, as a value of type `id`, passes through. */
  predicate AgreeAlong(reg: Types, t: TagLookup, t': TagLookup, id: nat, v: Value)
    decreases v, 1
  {
    id < |reg| ==>
      match reg[id].def
      case Composite(fields) => v.VList? ==> AgreeAlongAll(reg, t, t', fields, v.items)
      case Tuple(fields) => v.VList? ==> AgreeAlongAll(reg, t, t', fields, v.items)
      case Array(len, elem) => v.VList? ==> AgreeAlongAll(reg, t, t', Repeat(elem, len), v.items)
      case Sequence(elem) => v.VSeq? ==> AgreeAlongAll(reg, t, t', Repeat(elem, |v.items|), v.items)
      case Variant(vs) =>
        v.VEnum? ==>
          && SameFields(t, t', vs, v.tag)
          && var d := FindVariant(t, vs, v.tag);
          d.Some? ==> AgreeAlongAll(reg, t, t', d.value.fields, v.items)
      case _ => true
  }

  predicate AgreeAlongAll(reg: Types, t: TagLookup, t': TagLookup, ids: seq<nat>, vs: seq<Value>)
    decreases vs, 0
  {
    ids == [] || vs == [] || (AgreeAlong(reg, t, t', ids[0], vs[0]) && AgreeAlongAll(reg, t, t', ids[1..], vs[1..]))
  }

  lemma {:induction false} AgreesWithItself(reg: Types, t: TagLookup, id: nat, v: Value)
    ensures AgreeAlong(reg, t, t, id, v)
    decreases v, 1
  {
    if id < |reg| {
      match reg[id].def
      case Composite(fields) => if v.VList? { AgreeWithThemselves(reg, t, fields, v.items); }
      case Tuple(fields) => if v.VList? { AgreeWithThemselves(reg, t, fields, v.items); }
      case Array(len, elem) => if v.VList? { AgreeWithThemselves(reg, t, Repeat(elem, len), v.items); }
      case Sequence(elem) => if v.VSeq? { AgreeWithThemselves(reg, t, Repeat(elem, |v.items|), v.items); }
      case Variant(vs) =>
        if v.VEnum? && FindVariant(t, vs, v.tag).Some? {
          AgreeWithThemselves(reg, t, FindVariant(t, vs, v.tag).value.fields, v.items);
        }
      case _ =>
    }
  }

  lemma {:induction false} AgreeWithThemselves(reg: Types, t: TagLookup, ids: seq<nat>, vs: seq<Value>)
    ensures AgreeAlongAll(reg, t, t, ids, vs)
    decreases vs, 0
  {
    if ids != [] && vs != [] {
      AgreesWithItself(reg, t, ids[0], vs[0]);
      AgreeWithThemselves(reg, t, ids[1..], vs[1..]);
    }
  }

  /** Within one type, encodings are injective and none is a proper prefix of another, even between
      the values of two lookup modes, as long as the lookups agree along one of them. */
  lemma {:induction false} UniqueAcross(reg: Types, m: Mode, m': Mode, id: nat, v: Value, r: seq<byte>, v': Value, r': seq<byte>)
    requires HasType(reg, m, id, v) && HasType(reg, m', id, v') && AgreeAlong(reg, m.tags, m'.tags, id, v)
    requires Encode(v) + r == Encode(v') + r'
    ensures v == v' && r == r'
    decreases v, 1
  {
    hide EncodeCompact, EncodeInt, CompactWidth, PrimitiveValue;
    match reg[id].def
    case Composite(fields) => UniqueAcrossAll(reg, m, m', fields, v.items, r, v'.items, r');
    case Tuple(fields) => UniqueAcrossAll(reg, m, m', fields, v.items, r, v'.items, r');
    case Array(len, elem) => UniqueAcrossAll(reg, m, m', Repeat(elem, len), v.items, r, v'.items, r');
    case Sequence(elem) =>
      UniqueCount(v.items, r, v'.items, r');
      UniqueAcrossAll(reg, m, m', Repeat(elem, |v.items|), v.items, r, v'.items, r');
    case Variant(vs) =>
      var t, t' := EncodeAll(v.items) + r, EncodeAll(v'.items) + r';
      assert Encode(v) + r == [v.tag] + t;
      assert Encode(v') + r' == [v'.tag] + t';
      UniqueByte(v.tag, t, v'.tag, t');
      UniqueAcrossAll(reg, m, m', FindVariant(m.tags, vs, v.tag).value.fields, v.items, r, v'.items, r');
    case Primitive(p) => UniquePrimitive(p, v, r, v', r');
    case Compact(inner) =>
      var w, w' := CompactWidth(reg, m.compact, id, inner).value, CompactWidth(reg, m'.compact, id, inner).value;
      PowMonotone(w, 16);
      PowMonotone(w', 16);
      CompactPrefixFree(16, v.v, r, v'.v, r');
  }

  lemma {:induction false} UniqueAcrossAll(reg: Types, m: Mode, m': Mode, ids: seq<nat>, vs: seq<Value>, r: seq<byte>, vs': seq<Value>, r': seq<byte>)
    requires HaveTypes(reg, m, ids, vs) && HaveTypes(reg, m', ids, vs') && AgreeAlongAll(reg, m.tags, m'.tags, ids, vs)
    requires EncodeAll(vs) + r == EncodeAll(vs') + r'
    ensures vs == vs' && r == r'
    decreases vs, 0
  {
    if vs == [] {
      assert [] + r == r && [] + r' == r';
    } else {
      var t, t' := EncodeAll(vs[1..]) + r, EncodeAll(vs'[1..]) + r';
      assert EncodeAll(vs) + r == Encode(vs[0]) + t;
      assert EncodeAll(vs') + r' == Encode(vs'[0]) + t';
      UniqueAcross(reg, m, m', ids[0], vs[0], t, vs'[0], t');
      UniqueAcrossAll(reg, m, m', ids[1..], vs[1..], r, vs'[1..], r');
      assert vs == [vs[0]] + vs[1..] && vs' == [vs'[0]] + vs'[1..];
    }
  }

  lemma UniqueCount(vs: seq<Value>, r: seq<byte>, vs': seq<Value>, r': seq<byte>)
    requires |vs| < 0x1_0000_0000 && |vs'| < 0x1_0000_0000
    requires EncodeCompact(|vs|) + EncodeAll(vs) + r == EncodeCompact(|vs'|) + EncodeAll(vs') + r'
    ensures |vs| == |vs'| && EncodeAll(vs) + r == EncodeAll(vs') + r'
  {
    hide *;
    UniqueCounted(|vs|, EncodeAll(vs), r, |vs'|, EncodeAll(vs'), r');
  }

  lemma UniqueCounted(n: nat, a: seq<byte>, r: seq<byte>, n': nat, a': seq<byte>, r': seq<byte>)
    requires n < 0x1_0000_0000 && n' < 0x1_0000_0000
    requires EncodeCompact(n) + a + r == EncodeCompact(n') + a' + r'
    ensures n == n' && a + r == a' + r'
  {
    hide *;
    PowLiterals();
    assert EncodeCompact(n) + a + r == EncodeCompact(n) + (a + r);
    assert EncodeCompact(n') + a' + r' == EncodeCompact(n') + (a' + r');
    CompactPrefixFree(4, n, a + r, n', a' + r');
  }

  /** Within one type and mode, encodings are injective and none is a proper prefix of another. */
  lemma UniqueEncoding(reg: Types, m: Mode, id: nat, v: Value, r: seq<byte>, v': Value, r': seq<byte>)
    requires HasType(reg, m, id, v) && HasType(reg, m, id, v')
    requires Encode(v) + r == Encode(v') + r'
    ensures v == v' && r == r'
  {
    AgreesWithItself(reg, m.tags, id, v);
    UniqueAcross(reg, m, m, id, v, r, v', r');
  }

  lemma CompactPrefixFree(w: nat, n: nat, r: seq<byte>, n': nat, r': seq<byte>)
    requires 1 <= w <= 16 && n < Pow256(w) && n' < Pow256(w)
    requires EncodeCompact(n) + r == EncodeCompact(n') + r'
    ensures n == n' && r == r'
  {
    CompactRoundTrip(w, n, r);
    CompactRoundTrip(w, n', r');
  }

  lemma UniquePrimitive(p: Primitive, v: Value, r: seq<byte>, v': Value, r': seq<byte>)
    requires PrimitiveValue(p, v) && PrimitiveValue(p, v')
    requires Encode(v) + r == Encode(v') + r'
    ensures v == v' && r == r'
  {
    if p.Bool? {
      UniqueByte(Encode(v)[0], r, Encode(v')[0], r');
    } else if p.Str? {
      UniqueText(v.text, r, v'.text, r');
    } else {
      IntRoundTrip(v.width, IsSigned(p), v.n, r);
      IntRoundTrip(v.width, IsSigned(p), v'.n, r');
    }
  }

  lemma UniqueByte(b: byte, r: seq<byte>, b': byte, r': seq<byte>)
    requires [b] + r == [b'] + r'
    ensures b == b' && r == r'
  {
    assert ([b] + r)[0] == b && ([b'] + r')[0] == b';
    assert ([b] + r)[1..] == r && ([b'] + r')[1..] == r';
  }

  lemma UniqueText(t: seq<byte>, r: seq<byte>, t': seq<byte>, r': seq<byte>)
    requires |t| < 0x1_0000_0000 && |t'| < 0x1_0000_0000
    requires EncodeCompact(|t|) + t + r == EncodeCompact(|t'|) + t' + r'
    ensures t == t' && r == r'
  {
    PowLiterals();
    assert EncodeCompact(|t|) + t + r == EncodeCompact(|t|) + (t + r);
    assert EncodeCompact(|t'|) + t' + r' == EncodeCompact(|t'|) + (t' + r');
    CompactPrefixFree(4, |t|, t + r, |t'|, t' + r');
    assert t == (t + r)[..|t|] && t' == (t' + r')[..|t|];
    assert r == (t + r)[|t|..] && r' == (t' + r')[|t|..];
  }
}
