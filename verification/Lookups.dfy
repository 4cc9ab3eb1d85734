/** What the two lookups of the code as written cost, against the lookups SCALE intends. */
module Lookups {
  import opened Scale
  import opened Registry
  import opened Decoder
  import opened Acceptance

  // ------------------------------------------------------------ compact nodes

  /** As written, a compact node unwraps its own id, finds a compact node there, and fails on every
      input. */
  lemma CompactNeverDecodes(fuel: nat, reg: Types, tags: TagLookup, id: nat, s: seq<byte>)
    requires id < |reg| && reg[id].def.Compact? && fuel > 0
    ensures Transcode(fuel, reg, Mode(OwnId, tags), id, s) == Failed(InvalidCompactType)
    ensures id !in Live(reg, Mode(OwnId, tags))
  {
    hide Live;
    AcceptedIffLive(reg, Mode(OwnId, tags), id);
  }

  /** Unwrapping the type parameter transcodes a canonical compact integer iff it fits the type. */
  lemma CompactParameterDecodes(reg: Types, tags: TagLookup, id: nat, n: nat, r: seq<byte>)
    requires id < |reg| && reg[id].def.Compact? && n < Pow256(16)
    requires CompactWidth(reg, TypeParam, id, reg[id].def.inner).Ok?
    ensures n < Pow256(CompactWidth(reg, TypeParam, id, reg[id].def.inner).value)
       <==> Transcode(1, reg, Mode(TypeParam, tags), id, EncodeCompact(n) + r) == Done(EncodeCompact(n), r)
  {
    hide EncodeCompact, DecodeCompact, CompactWidth, Pow256;
    var w := CompactWidth(reg, TypeParam, id, reg[id].def.inner).value;
    if n < Pow256(w) {
      VisitEncodedLeaf(reg, Mode(TypeParam, tags), id, VCompact(n), r);
    }
    var o := Transcode(1, reg, Mode(TypeParam, tags), id, EncodeCompact(n) + r);
    if o == Done(EncodeCompact(n), r) {
      var v := Sound(1, reg, Mode(TypeParam, tags), id, EncodeCompact(n) + r);
      PowMonotone(w, 16);
      CompactPrefixFree(16, n, [], v.v, []);
    }
  }

  // ------------------------------------------------------------ tags

  /** Looking a tag up by position or by index gives the same fields, or fails both ways, at every
      enum in `ids`. */
  ghost predicate TagsAgree(reg: Types, ids: iset<nat>)
  {
    forall id: nat, tag: byte :: id in ids && id < |reg| && reg[id].def.Variant? ==> SameFields(ByPosition, ByIndex, reg[id].def.variants, tag)
  }

  /** Every enum in `ids` declares its variants in index order without gaps. */
  ghost predicate IndexIsPosition(reg: Types, ids: iset<nat>)
  {
    forall id: nat, k :: id in ids && id < |reg| && reg[id].def.Variant? && 0 <= k < |reg[id].def.variants|
                    ==> reg[id].def.variants[k].index == k
  }

  /** By index, a tag selects the first variant that declares it, and none iff none declares it. */
  lemma {:induction false} IndexLookup(vs: seq<VariantDef>, tag: byte)
    ensures var d := FindVariant(ByIndex, vs, tag);
            && (d.None? <==> forall k :: 0 <= k < |vs| ==> vs[k].index != tag)
            && (d.Some? ==> exists k :: 0 <= k < |vs| && vs[k] == d.value && vs[k].index == tag
                                     && forall j :: 0 <= j < k ==> vs[j].index != tag)
  {
    if vs != [] && vs[0].index != tag {
      IndexLookup(vs[1..], tag);
      assert forall k :: 0 < k < |vs| ==> vs[k] == vs[1..][k - 1];
      var d := FindVariant(ByIndex, vs, tag);
      if d.Some? {
        var k :| 0 <= k < |vs[1..]| && vs[1..][k] == d.value && vs[1..][k].index == tag
                 && forall j :: 0 <= j < k ==> vs[1..][j].index != tag;
        assert vs[k + 1] == d.value;
      }
    }
  }

  lemma {:induction false} InOrder(vs: seq<VariantDef>, from: nat, tag: byte)
    requires from <= |vs| && from <= tag
    requires forall k :: 0 <= k < |vs| ==> vs[k].index == k
    ensures FindVariant(ByIndex, vs[from..], tag) == FindVariant(ByPosition, vs, tag)
    decreases |vs| - from
  {
    if from < |vs| && from != tag {
      assert vs[from..][1..] == vs[from + 1..];
      InOrder(vs, from + 1, tag);
    }
  }

  /** Declared index = position is one way for the lookups to agree. */
  lemma InOrderAgrees(reg: Types, ids: iset<nat>)
    requires IndexIsPosition(reg, ids)
    ensures TagsAgree(reg, ids)
  {
    forall id: nat, tag: byte | id in ids && id < |reg| && reg[id].def.Variant?
      ensures SameFields(ByPosition, ByIndex, reg[id].def.variants, tag)
    {
      var vs := reg[id].def.variants;
      InOrder(vs, 0, tag);
      assert vs[0..] == vs;
    }
  }

  /** At an enum the two lookups make the same step on every input iff they agree on every tag. */
  lemma SameVisitIff(reg: Types, compact: CompactLookup, id: nat)
    requires id < |reg| && reg[id].def.Variant?
    ensures (forall s :: Visit(reg, Mode(compact, ByPosition), id, s) == Visit(reg, Mode(compact, ByIndex), id, s))
       <==> (forall tag: byte :: SameFields(ByPosition, ByIndex, reg[id].def.variants, tag))
  {
    if forall s :: Visit(reg, Mode(compact, ByPosition), id, s) == Visit(reg, Mode(compact, ByIndex), id, s) {
      forall tag: byte
        ensures SameFields(ByPosition, ByIndex, reg[id].def.variants, tag)
      {
        var s: seq<byte> := [tag];
        assert Visit(reg, Mode(compact, ByPosition), id, s) == Visit(reg, Mode(compact, ByIndex), id, s);
      }
    }
    if forall tag: byte :: SameFields(ByPosition, ByIndex, reg[id].def.variants, tag) {
      forall s
        ensures Visit(reg, Mode(compact, ByPosition), id, s) == Visit(reg, Mode(compact, ByIndex), id, s)
      {
        if s != [] { assert SameFields(ByPosition, ByIndex, reg[id].def.variants, s[0]); }
      }
    }
  }

  ghost predicate NoCompact(reg: Types, ids: iset<nat>)
  {
    forall id: nat :: id in ids && id < |reg| ==> !reg[id].def.Compact?
  }

  lemma SameVisit(reg: Types, compact: CompactLookup, compact': CompactLookup, ids: iset<nat>, id: nat, s: seq<byte>)
    requires TagsAgree(reg, ids) && (compact == compact' || NoCompact(reg, ids)) && id in ids
    ensures Visit(reg, Mode(compact, ByPosition), id, s) == Visit(reg, Mode(compact', ByIndex), id, s)
  {
    if id < |reg| && reg[id].def.Variant? && s != [] {
      assert SameFields(ByPosition, ByIndex, reg[id].def.variants, s[0]);
    }
  }

  /** Where the tag lookups agree on what a run can visit they give the same runs, whichever way compact
      nodes are unwrapped, error for error; where it can visit no compact node either, the code as
      written is the intended decoder. */
  lemma {:induction false} SameRun(fuel: nat, reg: Types, compact: CompactLookup, compact': CompactLookup, ids: iset<nat>, id: nat, s: seq<byte>)
    requires Closed(reg, Mode(compact, ByPosition), ids) && id in ids
    requires TagsAgree(reg, ids) && (compact == compact' || NoCompact(reg, ids))
    ensures Transcode(fuel, reg, Mode(compact, ByPosition), id, s) == Transcode(fuel, reg, Mode(compact', ByIndex), id, s)
    decreases fuel, 0
  {
    hide Visit, TagsAgree, NoCompact;
    SameVisit(reg, compact, compact', ids, id, s);
    var v := Visit(reg, Mode(compact, ByPosition), id, s);
    if fuel > 0 && v.Node? {
      SameRuns(fuel - 1, reg, compact, compact', ids, v.children, v.rest);
    }
  }

  lemma {:induction false} SameRuns(fuel: nat, reg: Types, compact: CompactLookup, compact': CompactLookup, ids: iset<nat>, children: seq<nat>, s: seq<byte>)
    requires Closed(reg, Mode(compact, ByPosition), ids) && VisitedWithin(reg, Mode(compact, ByPosition), children, ids)
    requires TagsAgree(reg, ids) && (compact == compact' || NoCompact(reg, ids))
    ensures TranscodeAll(fuel, reg, Mode(compact, ByPosition), children, s) == TranscodeAll(fuel, reg, Mode(compact', ByIndex), children, s)
    decreases fuel, 1 + |children|
  {
    hide Closed, VisitedWithin, TagsAgree, NoCompact, Transcode, Live;
    if children != [] {
      var m := Mode(compact, ByPosition);
      VisitedTail(reg, m, children, ids);
      SameRun(fuel, reg, compact, compact', ids, children[0], s);
      var head := Transcode(fuel, reg, m, children[0], s);
      if head.Done? {
        AcceptedIffLive(reg, m, children[0]);
        SameRuns(fuel, reg, compact, compact', ids, children[1..], head.rest);
      }
    }
  }

  // ------------------------------------------------------------ the code against the standard, value by value

  predicate CompactFree(v: Value)
  {
    match v
    case VCompact(_) => false
    case VList(items) => AllCompactFree(items)
    case VSeq(items) => AllCompactFree(items)
    case VEnum(_, items) => AllCompactFree(items)
    case _ => true
  }

  predicate AllCompactFree(vs: seq<Value>)
  {
    vs == [] || (CompactFree(vs[0]) && AllCompactFree(vs[1..]))
  }

  /** What the code as written takes for a value of a type is, where the lookups agree along it, a
      reference value without compact parts. */
  lemma {:induction false} WrittenTypesIff(reg: Types, id: nat, v: Value)
    requires AgreeAlong(reg, ByIndex, ByPosition, id, v)
    ensures HasType(reg, AS_WRITTEN, id, v) <==> HasType(reg, INTENDED, id, v) && CompactFree(v)
    decreases v, 1
  {
    if id < |reg| {
      match reg[id].def
      case Composite(fields) => if v.VList? { WrittenTypesIffAll(reg, fields, v.items); }
      case Tuple(fields) => if v.VList? { WrittenTypesIffAll(reg, fields, v.items); }
      case Array(len, elem) => if v.VList? { WrittenTypesIffAll(reg, Repeat(elem, len), v.items); }
      case Sequence(elem) => if v.VSeq? { WrittenTypesIffAll(reg, Repeat(elem, |v.items|), v.items); }
      case Variant(vs) =>
        if v.VEnum? && FindVariant(ByIndex, vs, v.tag).Some? {
          WrittenTypesIffAll(reg, FindVariant(ByIndex, vs, v.tag).value.fields, v.items);
        }
      case _ =>
    }
  }

  lemma {:induction false} WrittenTypesIffAll(reg: Types, ids: seq<nat>, vs: seq<Value>)
    requires AgreeAlongAll(reg, ByIndex, ByPosition, ids, vs)
    ensures HaveTypes(reg, AS_WRITTEN, ids, vs) <==> HaveTypes(reg, INTENDED, ids, vs) && AllCompactFree(vs)
    decreases vs, 0
  {
    if ids != [] && vs != [] {
      WrittenTypesIff(reg, ids[0], vs[0]);
      WrittenTypesIffAll(reg, ids[1..], vs[1..]);
    }
  }

  /** What the code as written makes of any reference value along which the tag lookups agree, whatever
      follows it: it is transcoded, or refused at its first compact part. */
  lemma {:induction false} AsWrittenOutcome(reg: Types, id: nat, v: Value, r: seq<byte>) returns (fuel: nat)
    requires HasType(reg, INTENDED, id, v) && AgreeAlong(reg, ByIndex, ByPosition, id, v)
    ensures Transcode(fuel, reg, AS_WRITTEN, id, Encode(v) + r)
         == if CompactFree(v) then Done(Encode(v), r) else Failed(InvalidCompactType)
    decreases v, 1
  {
    hide Visit, HasType, Encode, AgreeAlong;
    if v.VList? || v.VSeq? || v.VEnum? {
      var step := VisitEncoded(reg, INTENDED, id, v, r);
      VisitedAlike(reg, id, v, r);
      var f := AsWrittenOutcomes(reg, step.children, v.items, r);
      fuel := f + 1;
    } else {
      LeafAsWritten(reg, id, v, r);
      fuel := 1;
    }
  }

  /** At the root of the value both lookups make the same step, and they agree along its parts. */
  lemma VisitedAlike(reg: Types, id: nat, v: Value, r: seq<byte>)
    requires HasType(reg, INTENDED, id, v) && AgreeAlong(reg, ByIndex, ByPosition, id, v) && (v.VList? || v.VSeq? || v.VEnum?)
    ensures Visit(reg, AS_WRITTEN, id, Encode(v) + r) == Visit(reg, INTENDED, id, Encode(v) + r)
    ensures Visit(reg, INTENDED, id, Encode(v) + r).Node?
    ensures AgreeAlongAll(reg, ByIndex, ByPosition, Visit(reg, INTENDED, id, Encode(v) + r).children, v.items)
  {
    hide EncodeCompact, DecodeCompact;
    if v.VSeq? {
      PowLiterals();
      assert Encode(v) + r == EncodeCompact(|v.items|) + (EncodeAll(v.items) + r);
      CompactRoundTrip(4, |v.items|, EncodeAll(v.items) + r);
    }
  }

  lemma LeafAsWritten(reg: Types, id: nat, v: Value, r: seq<byte>)
    requires HasType(reg, INTENDED, id, v) && !v.VList? && !v.VSeq? && !v.VEnum?
    ensures Visit(reg, AS_WRITTEN, id, Encode(v) + r)
         == Leaf(if CompactFree(v) then Done(Encode(v), r) else Failed(InvalidCompactType))
  {
    hide EncodeCompact, DecodeCompact;
    if !v.VCompact? { VisitEncodedLeaf(reg, AS_WRITTEN, id, v, r); }
  }

  lemma {:induction false} AsWrittenOutcomes(reg: Types, ids: seq<nat>, vs: seq<Value>, r: seq<byte>) returns (fuel: nat)
    requires HaveTypes(reg, INTENDED, ids, vs) && AgreeAlongAll(reg, ByIndex, ByPosition, ids, vs)
    ensures TranscodeAll(fuel, reg, AS_WRITTEN, ids, EncodeAll(vs) + r)
         == if AllCompactFree(vs) then Done(EncodeAll(vs), r) else Failed(InvalidCompactType)
    decreases vs, 0
  {
    hide Transcode, HasType, Encode, AgreeAlong, CompactFree;
    if vs == [] {
      fuel := 0;
      assert EncodeAll(vs) + r == r;
    } else {
      var t := EncodeAll(vs[1..]) + r;
      assert EncodeAll(vs) + r == Encode(vs[0]) + t;
      var f := AsWrittenOutcome(reg, ids[0], vs[0], t);
      var g := AsWrittenOutcomes(reg, ids[1..], vs[1..], r);
      fuel := if f < g then g else f;
      MoreFuel(f, fuel, reg, AS_WRITTEN, ids[0], Encode(vs[0]) + t);
      MoreFuelAll(g, fuel, reg, AS_WRITTEN, ids[1..], t);
    }
  }

  /** The exact round trip of the code as written, in any registry: some run succeeds iff the value has no
      compact part, and then it gives the value back and leaves what follows. */
  lemma AsWrittenRoundTripIff(reg: Types, id: nat, v: Value, r: seq<byte>)
    requires HasType(reg, INTENDED, id, v) && AgreeAlong(reg, ByIndex, ByPosition, id, v)
    ensures (exists fuel :: Transcode(fuel, reg, AS_WRITTEN, id, Encode(v) + r).Done?) <==> CompactFree(v)
    ensures forall fuel :: Transcode(fuel, reg, AS_WRITTEN, id, Encode(v) + r).Done?
                       ==> Transcode(fuel, reg, AS_WRITTEN, id, Encode(v) + r) == Done(Encode(v), r)
  {
    hide Transcode, HasType, Encode, AgreeAlong, CompactFree;
    var f := AsWrittenOutcome(reg, id, v, r);
    forall fuel | Transcode(fuel, reg, AS_WRITTEN, id, Encode(v) + r).Done?
      ensures Transcode(fuel, reg, AS_WRITTEN, id, Encode(v) + r) == Transcode(f, reg, AS_WRITTEN, id, Encode(v) + r)
    {
      MoreFuel(f, f + fuel, reg, AS_WRITTEN, id, Encode(v) + r);
      MoreFuel(fuel, f + fuel, reg, AS_WRITTEN, id, Encode(v) + r);
    }
  }

  // ------------------------------------------------------------ the code against the standard, type by type

  /** Where the tag lookups agree on what a run can visit, the code as written takes for values of a type
      exactly the reference values without compact parts. */
  lemma {:induction false} WrittenTypesWithin(reg: Types, ids: iset<nat>, id: nat, v: Value)
    requires Closed(reg, AS_WRITTEN, ids) && TagsAgree(reg, ids) && id in ids
    ensures HasType(reg, AS_WRITTEN, id, v) <==> HasType(reg, INTENDED, id, v) && CompactFree(v)
    decreases v, 1
  {
    hide Closed, TagsAgree;
    if id < |reg| {
      match reg[id].def
      case Composite(fields) =>
        if v.VList? { ChildrenWithin(reg, ids, id, []); AllWrittenWithin(reg, ids, fields, v.items); }
      case Tuple(fields) =>
        if v.VList? { ChildrenWithin(reg, ids, id, []); AllWrittenWithin(reg, ids, fields, v.items); }
      case Array(len, elem) =>
        if v.VList? { ChildrenWithin(reg, ids, id, []); AllWrittenWithin(reg, ids, Repeat(elem, len), v.items); }
      case Sequence(elem) =>
        if v.VSeq? && |v.items| < 0x1_0000_0000 {
          CountWithin(reg, ids, id, |v.items|);
          AllWrittenWithin(reg, ids, Repeat(elem, |v.items|), v.items);
        }
      case Variant(vs) =>
        if v.VEnum? { EnumWithin(reg, ids, id, v); }
      case _ =>
    }
  }

  lemma {:induction false} EnumWithin(reg: Types, ids: iset<nat>, id: nat, v: Value)
    requires Closed(reg, AS_WRITTEN, ids) && TagsAgree(reg, ids) && id in ids
    requires id < |reg| && reg[id].def.Variant? && v.VEnum?
    ensures HasType(reg, AS_WRITTEN, id, v) <==> HasType(reg, INTENDED, id, v) && CompactFree(v)
    decreases v, 0
  {
    hide Closed;
    var vs := reg[id].def.variants;
    assert SameFields(ByPosition, ByIndex, vs, v.tag);
    var d := FindVariant(ByPosition, vs, v.tag);
    if d.Some? {
      var s: seq<byte> := [v.tag];
      assert Visit(reg, AS_WRITTEN, id, s) == Node([v.tag], d.value.fields, s[1..]);
      ChildrenWithin(reg, ids, id, s);
      AllWrittenWithin(reg, ids, d.value.fields, v.items);
    }
  }

  lemma ChildrenWithin(reg: Types, ids: iset<nat>, id: nat, s: seq<byte>)
    requires Closed(reg, AS_WRITTEN, ids) && id in ids
    ensures var n := Visit(reg, AS_WRITTEN, id, s); n.Node? ==> VisitedWithin(reg, AS_WRITTEN, n.children, ids)
  {
  }

  lemma CountWithin(reg: Types, ids: iset<nat>, id: nat, n: nat)
    requires Closed(reg, AS_WRITTEN, ids) && id in ids && id < |reg| && reg[id].def.Sequence? && n < 0x1_0000_0000
    ensures VisitedWithin(reg, AS_WRITTEN, Repeat(reg[id].def.elem, n), ids)
  {
    hide EncodeCompact, DecodeCompact, VisitedWithin;
    PowLiterals();
    CompactRoundTrip(4, n, []);
    ChildrenWithin(reg, ids, id, EncodeCompact(n) + []);
  }

  lemma {:induction false} AllWrittenWithin(reg: Types, ids: iset<nat>, children: seq<nat>, vs: seq<Value>)
    requires Closed(reg, AS_WRITTEN, ids) && TagsAgree(reg, ids) && VisitedWithin(reg, AS_WRITTEN, children, ids)
    ensures HaveTypes(reg, AS_WRITTEN, children, vs) <==> HaveTypes(reg, INTENDED, children, vs) && AllCompactFree(vs)
    decreases vs, 0
  {
    hide Closed, TagsAgree, VisitedWithin, Live, HasType, CompactFree;
    if children != [] && vs != [] {
      VisitedTail(reg, AS_WRITTEN, children, ids);
      WrittenTypesWithin(reg, ids, children[0], vs[0]);
      if HasType(reg, AS_WRITTEN, children[0], vs[0]) {
        HasTypeIsLive(reg, AS_WRITTEN, children[0], vs[0]);
        AllWrittenWithin(reg, ids, children[1..], vs[1..]);
      }
    }
  }

  lemma HasTypeIsLive(reg: Types, m: Mode, id: nat, v: Value)
    requires HasType(reg, m, id, v)
    ensures id in Live(reg, m)
  {
    ValueReached(reg, m, true, id, v);
  }

  /** Where the tag lookups agree on what a run can visit, whatever the code as written accepts is the
      standard's encoding of a value of that type, without compact parts. */
  lemma AsWrittenSound(fuel: nat, reg: Types, ids: iset<nat>, id: nat, s: seq<byte>) returns (v: Value)
    requires Closed(reg, AS_WRITTEN, ids) && TagsAgree(reg, ids) && id in ids
    requires Transcode(fuel, reg, AS_WRITTEN, id, s).Done?
    ensures HasType(reg, INTENDED, id, v) && CompactFree(v)
    ensures var o := Transcode(fuel, reg, AS_WRITTEN, id, s); Encode(v) == o.value && s == o.value + o.rest
  {
    hide Closed, TagsAgree, Transcode;
    v := Sound(fuel, reg, AS_WRITTEN, id, s);
    WrittenTypesWithin(reg, ids, id, v);
  }

  /** The type has a reference value without compact parts. */
  ghost predicate HasCompactFreeValue(reg: Types, id: nat)
  {
    exists v :: HasType(reg, INTENDED, id, v) && CompactFree(v)
  }

  /** Where the tag lookups agree on what a run can visit, the code as written accepts some input at a type
      iff the type has a reference value without compact parts. */
  lemma LiveAsWrittenIff(reg: Types, ids: iset<nat>, id: nat)
    requires Closed(reg, AS_WRITTEN, ids) && TagsAgree(reg, ids) && id in ids
    ensures id in Live(reg, AS_WRITTEN) <==> HasCompactFreeValue(reg, id)
  {
    hide Closed, TagsAgree, HasType, CompactFree;
    if id in Live(reg, AS_WRITTEN) {
      var v := Inhabitant(reg, AS_WRITTEN, true, |reg|, id);
      WrittenTypesWithin(reg, ids, id, v);
    }
    if v :| HasType(reg, INTENDED, id, v) && CompactFree(v) {
      WrittenTypesWithin(reg, ids, id, v);
      ValueReached(reg, AS_WRITTEN, true, id, v);
    }
  }

  /** Where the lookups disagree the code stops in the middle of a value: the enum declares B, with a
      `u8`, at index 0 but at position 1. */
  lemma OutOfOrderStopsEarly()
    ensures var reg := [Type(["E"], Variant([VariantDef("A", 1, []), VariantDef("B", 0, [1])])), Type([], Primitive(U8))];
            var v := VEnum(0, [VInt(1, 7)]);
            && HasType(reg, INTENDED, 0, v) && Encode(v) == [0, 7]
            && forall fuel: nat :: fuel > 0 ==> Transcode(fuel, reg, AS_WRITTEN, 0, Encode(v)) == Done([0], [7])
  {
    var reg := [Type(["E"], Variant([VariantDef("A", 1, []), VariantDef("B", 0, [1])])), Type([], Primitive(U8))];
    var items := [VInt(1, 7)];
    PowLiterals();
    assert HasType(reg, INTENDED, 1, items[0]);
    assert HaveTypes(reg, INTENDED, [1][1..], items[1..]);
    assert HaveTypes(reg, INTENDED, [1], items);
    assert FindVariant(ByIndex, reg[0].def.variants, 0) == Some(reg[0].def.variants[1]) by {
      assert reg[0].def.variants[1..][0].index == 0;
    }
    assert Encode(items[0]) == [7] && EncodeAll(items[1..]) == [];
    assert Encode(VEnum(0, items)) == [0, 7];
    forall fuel: nat | fuel > 0
      ensures Transcode(fuel, reg, AS_WRITTEN, 0, [0, 7]) == Done([0], [7])
    {
      assert Visit(reg, AS_WRITTEN, 0, [0, 7]) == Node([0], [], [7]);
      assert [0] + [] == [0];
    }
  }

  ghost predicate Accepts(reg: Types, m: Mode, id: nat, s: seq<byte>)
  {
    exists fuel :: Transcode(fuel, reg, m, id, s).Done?
  }

  /** The tag selects a variant whose fields accept `s`. */
  ghost predicate AcceptsVariant(reg: Types, m: Mode, vs: seq<VariantDef>, tag: byte, s: seq<byte>)
  {
    var d := FindVariant(m.tags, vs, tag);
    d.Some? && exists fuel :: TranscodeAll(fuel, reg, m, d.value.fields, s).Done?
  }

  lemma AcceptsByTag(reg: Types, m: Mode, id: nat, tag: byte, s: seq<byte>)
    requires id < |reg| && reg[id].def.Variant?
    ensures Accepts(reg, m, id, [tag] + s) <==> AcceptsVariant(reg, m, reg[id].def.variants, tag, s)
  {
    hide TranscodeAll;
    var t := [tag] + s;
    assert t[0] == tag && t[1..] == s;
    var d := FindVariant(m.tags, reg[id].def.variants, tag);
    if fuel: nat :| Transcode(fuel, reg, m, id, t).Done? {
      assert TranscodeAll(fuel - 1, reg, m, d.value.fields, s).Done?;
    }
    if d.Some? {
      if f: nat :| TranscodeAll(f, reg, m, d.value.fields, s).Done? {
        assert Transcode(f + 1, reg, m, id, t).Done?;
      }
    }
  }

  /** Two decoders accept the same inputs at an enum iff every tag selects, for both, fields that accept
      the same inputs, or nothing that accepts any. */
  lemma SameAcceptanceIff(reg: Types, m: Mode, m': Mode, id: nat)
    requires id < |reg| && reg[id].def.Variant?
    ensures (forall s :: Accepts(reg, m, id, s) <==> Accepts(reg, m', id, s))
       <==> (forall tag: byte, s :: AcceptsVariant(reg, m, reg[id].def.variants, tag, s)
                                <==> AcceptsVariant(reg, m', reg[id].def.variants, tag, s))
  {
    hide AcceptsVariant;
    var vs := reg[id].def.variants;
    if forall s :: Accepts(reg, m, id, s) <==> Accepts(reg, m', id, s) {
      forall tag: byte, s
        ensures AcceptsVariant(reg, m, vs, tag, s) <==> AcceptsVariant(reg, m', vs, tag, s)
      {
        AcceptsByTag(reg, m, id, tag, s);
        AcceptsByTag(reg, m', id, tag, s);
      }
    }
    if forall tag: byte, s :: AcceptsVariant(reg, m, vs, tag, s) <==> AcceptsVariant(reg, m', vs, tag, s) {
      forall s
        ensures Accepts(reg, m, id, s) <==> Accepts(reg, m', id, s)
      {
        if s == [] {
          assert !Accepts(reg, m, id, s) && !Accepts(reg, m', id, s);
        } else {
          assert s == [s[0]] + s[1..];
          AcceptsByTag(reg, m, id, s[0], s[1..]);
          AcceptsByTag(reg, m', id, s[0], s[1..]);
        }
      }
    }
  }

  /** If whatever one decoder accepts at an enum the other accepts too, a tag that opens a variant for the
      first opens one for the second, with fields that accept all that the first's do. */
  lemma SameAcceptanceSameTags(reg: Types, m: Mode, m': Mode, id: nat, tag: byte)
    requires id < |reg| && reg[id].def.Variant?
    requires forall s :: Accepts(reg, m, id, s) ==> Accepts(reg, m', id, s)
    ensures OpensVariant(m.tags, reg[id].def.variants, Live(reg, m), tag)
        ==> OpensVariant(m'.tags, reg[id].def.variants, Live(reg, m'), tag)
    ensures forall s :: AcceptsVariant(reg, m, reg[id].def.variants, tag, s) ==> AcceptsVariant(reg, m', reg[id].def.variants, tag, s)
  {
    hide AcceptsVariant;
    var vs := reg[id].def.variants;
    forall s | AcceptsVariant(reg, m, vs, tag, s)
      ensures AcceptsVariant(reg, m', vs, tag, s)
    {
      AcceptsByTag(reg, m, id, tag, s);
      AcceptsByTag(reg, m', id, tag, s);
    }
    if OpensVariant(m.tags, vs, Live(reg, m), tag) {
      var items := Inhabitants(reg, m, true, |reg|, FindVariant(m.tags, vs, tag).value.fields);
      var v := VEnum(tag, items);
      var f := Complete(reg, m, id, v, []);
      var s := Encode(v) + [];
      assert Accepts(reg, m, id, s);
      var g :| Transcode(g, reg, m', id, s).Done?;
      var w := Sound(g, reg, m', id, s);
      assert w.tag == s[0] == tag;
      ValuesReached(reg, m', true, FindVariant(m'.tags, vs, tag).value.fields, w.items);
    }
  }
}
