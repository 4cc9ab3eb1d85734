/** The metadata-driven decoder: it walks a type id over an input cursor and re-emits, value by
    value, the bytes it has decoded. */
module Decoder {
  import opened Scale
  import opened Registry

  /** Result of a run bounded by `fuel` levels of recursion; `Exhausted` means the run is longer. */
  datatype Outcome<+T> = Done(value: T, rest: seq<byte>) | Failed(error: Error) | Exhausted

  function Prepend(out: seq<byte>, o: Outcome<seq<byte>>): (r: Outcome<seq<byte>>)
  {
    if o.Done? then Done(out + o.value, o.rest) else o
  }

  // ------------------------------------------------------------ one level of decode_type

  /** Decode a supported primitive. */
  function ParsePrimitive(p: Primitive, s: seq<byte>): (r: Parsed<Value>)
  {
    if p.Bool? then
      if s == [] || s[0] > 1 then Malformed else Read(VBool(s[0] == 1), s[1..])
    else if p.Str? then
      var n := DecodeCompact(4, s);
      if n.Malformed? || n.value > |n.rest| || !Utf8(n.rest[..n.value]) then Malformed
      else Read(VStr(n.rest[..n.value]), n.rest[n.value..])
    else
      var d := DecodeInt(IntWidth(p), IsSigned(p), s);
      if d.Malformed? then Malformed else Read(VInt(IntWidth(p), d.value), d.rest)
  }

  predicate Supported(p: Primitive)
  {
    p.Bool? || p.Str? || IntWidth(p) > 0
  }

  /** `decode_raw`: decode, then encode what was decoded. */
  function Reencode(r: Parsed<Value>): (o: Outcome<seq<byte>>)
  {
    if r.Malformed? then Failed(CodecError) else Done(Encode(r.value), r.rest)
  }

  function ParseCompact(w: nat, s: seq<byte>): (r: Parsed<Value>)
  {
    var n := DecodeCompact(w, s);
    if n.Malformed? then Malformed else Read(VCompact(n.value), n.rest)
  }

  /** What `decode_type` does before it recurses: finish, or emit `out` and visit `children`. */
  datatype Step =
    | Leaf(outcome: Outcome<seq<byte>>)
    | Node(out: seq<byte>, children: seq<nat>, rest: seq<byte>)

  function Visit(reg: Types, m: Mode, id: nat, s: seq<byte>): (r: Step)
    ensures r.Leaf? ==> !r.outcome.Exhausted?
  {
    if id >= |reg| then Leaf(Failed(TypeNotFound(id))) else
    match reg[id].def
    case Composite(fields) => Node([], fields, s)
    case Tuple(fields) => Node([], fields, s)
    case Array(len, elem) => Node([], Repeat(elem, len), s)
    case Sequence(elem) =>
      var n := DecodeCompact(4, s);
      if n.Malformed? then Leaf(Failed(CodecError))
      else Node(EncodeCompact(n.value), Repeat(elem, n.value), n.rest)
    case Variant(vs) =>
      if s == [] then Leaf(Failed(CodecError)) else
      var d := FindVariant(m.tags, vs, s[0]);
      if d.None? then Leaf(Failed(VariantNotFound(s[0]))) else Node([s[0]], d.value.fields, s[1..])
    case Primitive(p) =>
      Leaf(if Supported(p) then Reencode(ParsePrimitive(p, s)) else Failed(UnsupportedPrimitive(p)))
    case Compact(inner) =>
      var w := CompactWidth(reg, m.compact, id, inner);
      Leaf(if w.Err? then Failed(w.error) else Reencode(ParseCompact(w.value, s)))
    case BitSequence => Leaf(Failed(Unimplemented))
  }

  // ------------------------------------------------------------ the run

  /** What `decode_type` appends and leaves. */
  function Transcode(fuel: nat, reg: Types, m: Mode, id: nat, s: seq<byte>): (r: Outcome<seq<byte>>)
    decreases fuel, 0
  {
    if fuel == 0 then Exhausted else
    match Visit(reg, m, id, s)
    case Leaf(outcome) => outcome
    case Node(out, children, rest) => Prepend(out, TranscodeAll(fuel - 1, reg, m, children, rest))
  }

  function TranscodeAll(fuel: nat, reg: Types, m: Mode, ids: seq<nat>, s: seq<byte>): (r: Outcome<seq<byte>>)
    decreases fuel, 1 + |ids|
  {
    if ids == [] then Done([], s) else
    var head := Transcode(fuel, reg, m, ids[0], s);
    if !head.Done? then head else Prepend(head.value, TranscodeAll(fuel, reg, m, ids[1..], head.rest))
  }

  /** A longer bound never changes a finished run. */
  lemma {:induction false} MoreFuel(f: nat, g: nat, reg: Types, m: Mode, id: nat, s: seq<byte>)
    requires f <= g && !Transcode(f, reg, m, id, s).Exhausted?
    ensures Transcode(g, reg, m, id, s) == Transcode(f, reg, m, id, s)
    decreases f, 0
  {
    hide Visit;
    var v := Visit(reg, m, id, s);
    if v.Node? {
      MoreFuelAll(f - 1, g - 1, reg, m, v.children, v.rest);
    }
  }

  lemma {:induction false} MoreFuelAll(f: nat, g: nat, reg: Types, m: Mode, ids: seq<nat>, s: seq<byte>)
    requires f <= g && !TranscodeAll(f, reg, m, ids, s).Exhausted?
    ensures TranscodeAll(g, reg, m, ids, s) == TranscodeAll(f, reg, m, ids, s)
    decreases f, 1 + |ids|
  {
    if ids != [] {
      MoreFuel(f, g, reg, m, ids[0], s);
      var head := Transcode(f, reg, m, ids[0], s);
      if head.Done? { MoreFuelAll(f, g, reg, m, ids[1..], head.rest); }
    }
  }

  // ------------------------------------------------------------ soundness

  lemma PrimitiveCanonical(p: Primitive, s: seq<byte>)
    requires Supported(p) && ParsePrimitive(p, s).Read?
    ensures var d := ParsePrimitive(p, s); PrimitiveValue(p, d.value) && s == Encode(d.value) + d.rest
  {
    hide EncodeCompact, DecodeCompact, DecodeInt, EncodeInt, InRange, Utf8;
    if p.Bool? {
      assert s == [s[0]] + s[1..];
    } else if p.Str? {
      CompactCanonical(4, s);
      PowLiterals();
      var n := DecodeCompact(4, s);
      var text, rest := n.rest[..n.value], n.rest[n.value..];
      assert n.rest == text + rest;
      assert EncodeCompact(n.value) + (text + rest) == EncodeCompact(n.value) + text + rest;
    } else {
      IntCanonical(IntWidth(p), IsSigned(p), s);
    }
  }

  /** Whatever a successful run appended is exactly what it consumed, and is the reference encoding
      of a value of that type. */
  lemma {:induction false} Sound(fuel: nat, reg: Types, m: Mode, id: nat, s: seq<byte>) returns (v: Value)
    requires Transcode(fuel, reg, m, id, s).Done?
    ensures var o := Transcode(fuel, reg, m, id, s);
            s == o.value + o.rest && HasType(reg, m, id, v) && Encode(v) == o.value
    decreases fuel, 0
  {
    hide Visit, HasType, Encode;
    var step := Visit(reg, m, id, s);
    if step.Leaf? {
      v := SoundLeaf(reg, m, id, s);
    } else {
      var items := SoundAll(fuel - 1, reg, m, step.children, step.rest);
      v := SoundNode(reg, m, id, s, items);
      var o := TranscodeAll(fuel - 1, reg, m, step.children, step.rest);
      assert step.out + (o.value + o.rest) == (step.out + o.value) + o.rest;
    }
  }

  lemma SoundLeaf(reg: Types, m: Mode, id: nat, s: seq<byte>) returns (v: Value)
    requires Visit(reg, m, id, s).Leaf? && Visit(reg, m, id, s).outcome.Done?
    ensures var o := Visit(reg, m, id, s).outcome;
            s == o.value + o.rest && HasType(reg, m, id, v) && Encode(v) == o.value
  {
    match reg[id].def
    case Primitive(p) =>
      PrimitiveCanonical(p, s);
      v := ParsePrimitive(p, s).value;
    case Compact(inner) =>
      var w := CompactWidth(reg, m.compact, id, inner).value;
      CompactCanonical(w, s);
      v := ParseCompact(w, s).value;
  }

  lemma SoundNode(reg: Types, m: Mode, id: nat, s: seq<byte>, items: seq<Value>) returns (v: Value)
    requires Visit(reg, m, id, s).Node?
    requires HaveTypes(reg, m, Visit(reg, m, id, s).children, items)
    ensures var n := Visit(reg, m, id, s);
            s == n.out + n.rest && HasType(reg, m, id, v) && Encode(v) == n.out + EncodeAll(items)
  {
    if reg[id].def.Sequence? {
      v := VSeq(items);
      SoundSequence(reg, m, id, s, items);
    } else if reg[id].def.Variant? {
      assert s == [s[0]] + s[1..];
      v := VEnum(s[0], items);
    } else {
      assert [] + s == s && [] + EncodeAll(items) == EncodeAll(items);
      v := VList(items);
    }
  }

  lemma SoundSequence(reg: Types, m: Mode, id: nat, s: seq<byte>, items: seq<Value>)
    requires id < |reg| && reg[id].def.Sequence? && DecodeCompact(4, s).Read?
    requires HaveTypes(reg, m, Repeat(reg[id].def.elem, DecodeCompact(4, s).value), items)
    ensures var n := DecodeCompact(4, s);
            && s == EncodeCompact(n.value) + n.rest && HasType(reg, m, id, VSeq(items))
            && Encode(VSeq(items)) == EncodeCompact(n.value) + EncodeAll(items)
  {
    hide EncodeCompact, DecodeCompact;
    CompactCanonical(4, s);
    PowLiterals();
  }

  lemma {:induction false} SoundAll(fuel: nat, reg: Types, m: Mode, ids: seq<nat>, s: seq<byte>) returns (vs: seq<Value>)
    requires TranscodeAll(fuel, reg, m, ids, s).Done?
    ensures var o := TranscodeAll(fuel, reg, m, ids, s);
            s == o.value + o.rest && HaveTypes(reg, m, ids, vs) && EncodeAll(vs) == o.value
    decreases fuel, 1 + |ids|
  {
    if ids == [] {
      vs := [];
    } else {
      var v := Sound(fuel, reg, m, ids[0], s);
      var rest := Transcode(fuel, reg, m, ids[0], s).rest;
      var tail := SoundAll(fuel, reg, m, ids[1..], rest);
      vs := [v] + tail;
      assert vs[1..] == tail;
    }
  }

  // ------------------------------------------------------------ completeness

  lemma PrimitiveComplete(p: Primitive, v: Value, r: seq<byte>)
    requires PrimitiveValue(p, v)
    ensures Supported(p) && ParsePrimitive(p, Encode(v) + r) == Read(v, r)
  {
    if p.Bool? {
      assert (Encode(v) + r)[1..] == r;
    } else if p.Str? {
      PowLiterals();
      assert Encode(v) + r == EncodeCompact(|v.text|) + (v.text + r);
      CompactRoundTrip(4, |v.text|, v.text + r);
      assert (v.text + r)[..|v.text|] == v.text && (v.text + r)[|v.text|..] == r;
    } else {
      IntRoundTrip(v.width, IsSigned(p), v.n, r);
    }
  }

  /** Every value of a type, followed by anything, is transcoded; the depth of the value bounds the
      run. */
  lemma {:induction false} Complete(reg: Types, m: Mode, id: nat, v: Value, r: seq<byte>) returns (fuel: nat)
    requires HasType(reg, m, id, v)
    ensures Transcode(fuel, reg, m, id, Encode(v) + r) == Done(Encode(v), r)
    decreases v, 1
  {
    hide Visit, HasType, Encode;
    if v.VList? || v.VSeq? || v.VEnum? {
      var step := VisitEncoded(reg, m, id, v, r);
      var f := CompleteAll(reg, m, step.children, v.items, r);
      fuel := f + 1;
    } else {
      VisitEncodedLeaf(reg, m, id, v, r);
      fuel := 1;
    }
  }

  lemma VisitEncoded(reg: Types, m: Mode, id: nat, v: Value, r: seq<byte>) returns (step: Step)
    requires HasType(reg, m, id, v) && (v.VList? || v.VSeq? || v.VEnum?)
    ensures step == Visit(reg, m, id, Encode(v) + r) && step.Node?
    ensures step.rest == EncodeAll(v.items) + r && step.out + EncodeAll(v.items) == Encode(v)
    ensures HaveTypes(reg, m, step.children, v.items)
  {
    hide EncodeCompact, DecodeCompact;
    var tail := EncodeAll(v.items) + r;
    if v.VSeq? {
      PowLiterals();
      assert Encode(v) + r == EncodeCompact(|v.items|) + tail;
      CompactRoundTrip(4, |v.items|, tail);
    } else if v.VEnum? {
      assert Encode(v) + r == [v.tag] + tail;
    }
    step := Visit(reg, m, id, Encode(v) + r);
  }

  lemma VisitEncodedLeaf(reg: Types, m: Mode, id: nat, v: Value, r: seq<byte>)
    requires HasType(reg, m, id, v) && !v.VList? && !v.VSeq? && !v.VEnum?
    ensures Visit(reg, m, id, Encode(v) + r) == Leaf(Done(Encode(v), r))
  {
    hide EncodeCompact, DecodeCompact;
    if v.VCompact? {
      CompactRoundTrip(CompactWidth(reg, m.compact, id, reg[id].def.inner).value, v.v, r);
    } else {
      PrimitiveComplete(reg[id].def.prim, v, r);
    }
  }

  lemma {:induction false} CompleteAll(reg: Types, m: Mode, ids: seq<nat>, vs: seq<Value>, r: seq<byte>) returns (fuel: nat)
    requires HaveTypes(reg, m, ids, vs)
    ensures TranscodeAll(fuel, reg, m, ids, EncodeAll(vs) + r) == Done(EncodeAll(vs), r)
    decreases vs, 0
  {
    if vs == [] {
      fuel := 0;
      assert EncodeAll(vs) + r == r;
    } else {
      var t := EncodeAll(vs[1..]) + r;
      assert EncodeAll(vs) + r == Encode(vs[0]) + t;
      var f := Complete(reg, m, ids[0], vs[0], t);
      var g := CompleteAll(reg, m, ids[1..], vs[1..], r);
      fuel := if f < g then g else f;
      MoreFuel(f, fuel, reg, m, ids[0], Encode(vs[0]) + t);
      MoreFuelAll(g, fuel, reg, m, ids[1..], t);
    }
  }

  // ------------------------------------------------------------ consequences

  /** A run is decided by the bytes it consumes: replacing what follows replaces only the rest. */
  lemma NoLookahead(fuel: nat, reg: Types, m: Mode, id: nat, s: seq<byte>, r: seq<byte>)
    requires Transcode(fuel, reg, m, id, s).Done?
    ensures var out := Transcode(fuel, reg, m, id, s).value;
            exists g :: Transcode(g, reg, m, id, out + r) == Done(out, r)
  {
    var v := Sound(fuel, reg, m, id, s);
    var g := Complete(reg, m, id, v, r);
  }

  /** The decoder accepts, off the front of any input, exactly the encodings of the values of the
      type, and stops right behind them. */
  lemma AcceptsExactlyTheEncodings(reg: Types, m: Mode, id: nat, out: seq<byte>, r: seq<byte>)
    ensures (exists fuel :: Transcode(fuel, reg, m, id, out + r) == Done(out, r))
       <==> (exists v :: HasType(reg, m, id, v) && Encode(v) == out)
  {
    if fuel :| Transcode(fuel, reg, m, id, out + r) == Done(out, r) {
      var v := Sound(fuel, reg, m, id, out + r);
    }
    if v :| HasType(reg, m, id, v) && Encode(v) == out {
      var fuel := Complete(reg, m, id, v, r);
    }
  }
}
