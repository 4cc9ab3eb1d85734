/** Which type ids the decoder can accept at all, and which it can accept without consuming a
    byte. Both are least fixed points over the registry, reached after at most one round per type. */
module Acceptance {
  import opened Scale
  import opened Registry
  import opened Decoder

  predicate Within(ids: seq<nat>, known: set<nat>)
  {
    forall i :: 0 <= i < |ids| ==> ids[i] in known
  }

  /** `id` has a value built from types in `known`. With `consuming` false the value must encode to
      nothing, which rules out everything but composites, tuples and arrays. */
  predicate Opens(reg: Types, m: Mode, consuming: bool, known: set<nat>, id: nat)
    requires id < |reg|
  {
    match reg[id].def
    case Composite(fields) => Within(fields, known)
    case Tuple(fields) => Within(fields, known)
    case Array(len, elem) => len == 0 || elem in known
    case Sequence(_) => consuming
    case Variant(vs) => consuming && exists tag: byte :: OpensVariant(m.tags, vs, known, tag)
    case Primitive(p) => consuming && Supported(p)
    case Compact(inner) => consuming && CompactWidth(reg, m.compact, id, inner).Ok?
    case BitSequence => false
  }

  predicate OpensVariant(tags: TagLookup, vs: seq<VariantDef>, known: set<nat>, tag: byte)
  {
    var d := FindVariant(tags, vs, tag);
    d.Some? && Within(d.value.fields, known)
  }

  function Grow(reg: Types, m: Mode, consuming: bool, known: set<nat>): (r: set<nat>)
  {
    set id | 0 <= id < |reg| && Opens(reg, m, consuming, known, id)
  }

  function Round(reg: Types, m: Mode, consuming: bool, k: nat): (r: set<nat>)
  {
    if k == 0 then {} else Grow(reg, m, consuming, Round(reg, m, consuming, k - 1))
  }

  /** The ids that accept some input. */
  function Live(reg: Types, m: Mode): (r: set<nat>)
  {
    Round(reg, m, true, |reg|)
  }

  /** The ids that accept the empty input. */
  function Silent(reg: Types, m: Mode): (r: set<nat>)
  {
    Round(reg, m, false, |reg|)
  }

  // ------------------------------------------------------------ the rounds stabilise

  lemma GrowMonotone(reg: Types, m: Mode, c: bool, a: set<nat>, b: set<nat>)
    requires a <= b
    ensures Grow(reg, m, c, a) <= Grow(reg, m, c, b)
  {
    forall id | id in Grow(reg, m, c, a)
      ensures id in Grow(reg, m, c, b)
    {
      if reg[id].def.Variant? {
        var vs := reg[id].def.variants;
        var tag: byte :| OpensVariant(m.tags, vs, a, tag);
        assert OpensVariant(m.tags, vs, b, tag);
      }
    }
  }

  lemma {:induction false} RoundsGrow(reg: Types, m: Mode, c: bool, k: nat)
    ensures Round(reg, m, c, k) <= Round(reg, m, c, k + 1)
  {
    if k > 0 {
      RoundsGrow(reg, m, c, k - 1);
      GrowMonotone(reg, m, c, Round(reg, m, c, k - 1), Round(reg, m, c, k));
    }
  }

  /** Until it stabilises, every round adds an id. */
  lemma {:induction false} RoundSize(reg: Types, m: Mode, c: bool, k: nat)
    ensures |Round(reg, m, c, k)| >= k || Round(reg, m, c, k) == Round(reg, m, c, k + 1)
  {
    if k > 0 {
      RoundSize(reg, m, c, k - 1);
      RoundsGrow(reg, m, c, k - 1);
      var a, b := Round(reg, m, c, k - 1), Round(reg, m, c, k);
      if a != b {
        SmallerSubset(a, b);
      }
    }
  }

  lemma SmallerSubset(a: set<nat>, b: set<nat>)
    requires a <= b && a != b
    ensures |a| < |b|
  {
    var x :| x in b - a;
    assert |(b - a) + a| == |b - a| + |a|;
    assert (b - a) + a == b;
    assert |b - a| > 0;
  }

  ghost function Below(n: nat): (r: set<nat>)
    ensures |r| == n && forall i: nat :: i in r <==> i < n
  {
    if n == 0 then {} else Below(n - 1) + {n - 1}
  }

  /** After one round per type nothing is missing. */
  lemma Stable(reg: Types, m: Mode, c: bool)
    ensures Grow(reg, m, c, Round(reg, m, c, |reg|)) == Round(reg, m, c, |reg|)
  {
    var n := |reg|;
    var all := Below(n);
    RoundSize(reg, m, c, n);
    RoundsGrow(reg, m, c, n);
    var r, r' := Round(reg, m, c, n), Round(reg, m, c, n + 1);
    if r != r' {
      SmallerSubset(r, r');
      assert r' <= all;
      if r' != all { SmallerSubset(r', all); }
    }
  }

  /** And nothing is there that need not be: any set closed under a round contains every round. */
  lemma {:induction false} LeastRounds(reg: Types, m: Mode, c: bool, known: set<nat>, k: nat)
    requires Grow(reg, m, c, known) <= known
    ensures Round(reg, m, c, k) <= known
  {
    if k > 0 {
      LeastRounds(reg, m, c, known, k - 1);
      GrowMonotone(reg, m, c, Round(reg, m, c, k - 1), known);
    }
  }

  /** The accepting ids are the least fixed point. */
  lemma LiveIsLeastFixedPoint(reg: Types, m: Mode)
    ensures Grow(reg, m, true, Live(reg, m)) == Live(reg, m)
    ensures forall known: set<nat> :: Grow(reg, m, true, known) <= known ==> Live(reg, m) <= known
  {
    Stable(reg, m, true);
    forall known: set<nat> | Grow(reg, m, true, known) <= known
      ensures Live(reg, m) <= known
    {
      LeastRounds(reg, m, true, known, |reg|);
    }
  }

  // ------------------------------------------------------------ fixed point = having a value

  /** Every id of every round has a value, an empty one when `c` is false. */
  lemma {:induction false} Inhabitant(reg: Types, m: Mode, c: bool, k: nat, id: nat) returns (v: Value)
    requires id in Round(reg, m, c, k)
    ensures HasType(reg, m, id, v) && (!c ==> Encode(v) == [])
    decreases k, 0
  {
    var known := Round(reg, m, c, k - 1);
    match reg[id].def
    case Composite(fields) =>
      var items := Inhabitants(reg, m, c, k - 1, fields);
      v := VList(items);
    case Tuple(fields) =>
      var items := Inhabitants(reg, m, c, k - 1, fields);
      v := VList(items);
    case Array(len, elem) =>
      var items := Inhabitants(reg, m, c, k - 1, Repeat(elem, len));
      v := VList(items);
    case Sequence(_) => v := VSeq([]);
    case Variant(vs) =>
      var tag: byte :| OpensVariant(m.tags, vs, known, tag);
      var items := Inhabitants(reg, m, c, k - 1, FindVariant(m.tags, vs, tag).value.fields);
      v := VEnum(tag, items);
    case Primitive(p) =>
      v := if p.Bool? then VBool(false) else if p.Str? then VStr([]) else VInt(IntWidth(p), 0);
    case Compact(_) => v := VCompact(0);
  }

  lemma {:induction false} Inhabitants(reg: Types, m: Mode, c: bool, k: nat, ids: seq<nat>) returns (vs: seq<Value>)
    requires Within(ids, Round(reg, m, c, k))
    ensures HaveTypes(reg, m, ids, vs) && (!c ==> EncodeAll(vs) == [])
    decreases k, 1 + |ids|
  {
    if ids == [] {
      vs := [];
    } else {
      var v := Inhabitant(reg, m, c, k, ids[0]);
      var tail := Inhabitants(reg, m, c, k, ids[1..]);
      vs := [v] + tail;
      assert vs[1..] == tail;
    }
  }

  /** A type that has a value, or an empty value, is in the fixed point. */
  lemma {:induction false} ValueReached(reg: Types, m: Mode, c: bool, id: nat, v: Value)
    requires HasType(reg, m, id, v) && (c || Encode(v) == [])
    ensures id in Round(reg, m, c, |reg|)
    decreases v, 1
  {
    var lim := Round(reg, m, c, |reg|);
    assert Opens(reg, m, c, lim, id) by {
      match reg[id].def
      case Composite(fields) => ValuesReached(reg, m, c, fields, v.items);
      case Tuple(fields) => ValuesReached(reg, m, c, fields, v.items);
      case Array(len, elem) =>
        ValuesReached(reg, m, c, Repeat(elem, len), v.items);
        assert len > 0 ==> Repeat(elem, len)[0] in lim;
      case Variant(vs) =>
        ValuesReached(reg, m, c, FindVariant(m.tags, vs, v.tag).value.fields, v.items);
        assert OpensVariant(m.tags, vs, lim, v.tag);
      case _ =>
    }
    Stable(reg, m, c);
  }

  lemma {:induction false} ValuesReached(reg: Types, m: Mode, c: bool, ids: seq<nat>, vs: seq<Value>)
    requires HaveTypes(reg, m, ids, vs) && (c || EncodeAll(vs) == [])
    ensures Within(ids, Round(reg, m, c, |reg|))
    decreases vs, 0
  {
    if vs != [] {
      ValueReached(reg, m, c, ids[0], vs[0]);
      ValuesReached(reg, m, c, ids[1..], vs[1..]);
      assert ids == [ids[0]] + ids[1..];
    }
  }

  // ------------------------------------------------------------ exact acceptance

  /** Some input is accepted at `id` iff `id` is in the computed fixed point. */
  lemma AcceptedIffLive(reg: Types, m: Mode, id: nat)
    ensures (exists fuel, s :: Transcode(fuel, reg, m, id, s).Done?) <==> id in Live(reg, m)
  {
    if fuel, s :| Transcode(fuel, reg, m, id, s).Done? {
      var v := Sound(fuel, reg, m, id, s);
      ValueReached(reg, m, true, id, v);
    }
    if id in Live(reg, m) {
      var v := Inhabitant(reg, m, true, |reg|, id);
      var fuel := Complete(reg, m, id, v, []);
    }
  }

  /** A successful run consumes nothing only at silent ids. */
  lemma ConsumesNothingOnlyIfSilent(fuel: nat, reg: Types, m: Mode, id: nat, s: seq<byte>)
    requires Transcode(fuel, reg, m, id, s).Done? && |Transcode(fuel, reg, m, id, s).rest| == |s|
    ensures id in Silent(reg, m)
  {
    var v := Sound(fuel, reg, m, id, s);
    ValueReached(reg, m, false, id, v);
  }

  /** At a silent id the decoder succeeds on every input without consuming anything. */
  lemma SilentConsumesNothing(reg: Types, m: Mode, id: nat, s: seq<byte>) returns (fuel: nat)
    requires id in Silent(reg, m)
    ensures Transcode(fuel, reg, m, id, s) == Done([], s)
  {
    var v := Inhabitant(reg, m, false, |reg|, id);
    fuel := Complete(reg, m, id, v, s);
    assert [] + s == s;
  }

  // ------------------------------------------------------------ what a run visits

  /** `ids[i]` is visited if the earlier siblings are all of the given kind. */
  predicate Leftmost(ids: seq<nat>, kind: set<nat>, i: nat)
  {
    i < |ids| && Within(ids[..i], kind)
  }

  lemma LeftmostTail(ids: seq<nat>, kind: set<nat>)
    requires ids != [] && ids[0] in kind
    ensures forall i: nat :: Leftmost(ids[1..], kind, i) ==> Leftmost(ids, kind, i + 1) && ids[i + 1] == ids[1..][i]
  {
    forall i: nat | Leftmost(ids[1..], kind, i)
      ensures Leftmost(ids, kind, i + 1)
    {
      assert ids[..i + 1] == [ids[0]] + ids[1..][..i];
    }
  }

  /** The children that are ever visited, those whose earlier siblings can all be accepted, are in `ids`. */
  ghost predicate VisitedWithin(reg: Types, m: Mode, children: seq<nat>, ids: iset<nat>)
  {
    forall i: nat :: Leftmost(children, Live(reg, m), i) ==> children[i] in ids
  }

  lemma VisitedTail(reg: Types, m: Mode, children: seq<nat>, ids: iset<nat>)
    requires VisitedWithin(reg, m, children, ids) && children != []
    ensures children[0] in ids
    ensures children[0] in Live(reg, m) ==> VisitedWithin(reg, m, children[1..], ids)
  {
    hide Live;
    assert Leftmost(children, Live(reg, m), 0);
    if children[0] in Live(reg, m) { LeftmostTail(children, Live(reg, m)); }
  }

  /** A run started in `ids` stays in `ids`, on any input. */
  ghost predicate Closed(reg: Types, m: Mode, ids: iset<nat>)
  {
    forall id: nat, s :: id in ids && Visit(reg, m, id, s).Node? ==> VisitedWithin(reg, m, Visit(reg, m, id, s).children, ids)
  }

  ghost predicate AllIn(fields: seq<nat>, ids: iset<nat>)
  {
    forall i :: 0 <= i < |fields| ==> fields[i] in ids
  }

  /** `ids` holds the fields and elements of its types. */
  ghost predicate HoldsFields(reg: Types, ids: iset<nat>)
  {
    forall id: nat :: id in ids && id < |reg| ==>
      match reg[id].def
      case Composite(fields) => AllIn(fields, ids)
      case Tuple(fields) => AllIn(fields, ids)
      case Array(len, elem) => len > 0 ==> elem in ids
      case Sequence(elem) => elem in ids
      case Variant(vs) => forall k :: 0 <= k < |vs| ==> AllIn(vs[k].fields, ids)
      case _ => true
  }

  lemma {:induction false} FindsDeclared(tags: TagLookup, vs: seq<VariantDef>, tag: byte)
    ensures var d := FindVariant(tags, vs, tag); d.Some? ==> d.value in vs
  {
    if tags.ByIndex? && vs != [] { FindsDeclared(tags, vs[1..], tag); }
  }

  /** A set that holds the fields of its types is closed, whatever the lookups. */
  lemma FieldsClose(reg: Types, m: Mode, ids: iset<nat>)
    requires HoldsFields(reg, ids)
    ensures Closed(reg, m, ids)
  {
    forall id: nat, s | id in ids && Visit(reg, m, id, s).Node?
      ensures VisitedWithin(reg, m, Visit(reg, m, id, s).children, ids)
    {
      if reg[id].def.Variant? { FindsDeclared(m.tags, reg[id].def.variants, s[0]); }
    }
  }
}
