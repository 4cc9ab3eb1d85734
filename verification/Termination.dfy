/** When `decode_type` terminates. The registry may be cyclic, so the decoder may descend forever;
    it does so exactly when it can return to a type without having consumed a byte. */
module Termination {
  import opened Scale
  import opened Registry
  import opened Decoder
  import opened Acceptance

  ghost predicate Halts(reg: Types, m: Mode, id: nat, s: seq<byte>)
  {
    exists fuel :: !Transcode(fuel, reg, m, id, s).Exhausted?
  }

  /** The children visited on the very input the parent was given. */
  function Fields(reg: Types, id: nat): (ids: seq<nat>)
    requires id < |reg|
  {
    match reg[id].def
    case Composite(fields) => fields
    case Tuple(fields) => fields
    case Array(len, elem) => Repeat(elem, len)
    case _ => []
  }

  /** From every type in `ids`, `rank` strictly decreases to each child that can be reached without
      consuming input. */
  ghost predicate LeftRanked(reg: Types, m: Mode, ids: iset<nat>, rank: nat -> nat)
  {
    forall id: nat, i: nat :: id in ids && id < |reg| && Leftmost(Fields(reg, id), Silent(reg, m), i)
                    ==> rank(Fields(reg, id)[i]) < rank(id)
  }

  /** The simpler condition that ignores what siblings consume. */
  ghost predicate Ranked(reg: Types, ids: iset<nat>, rank: nat -> nat)
  {
    forall id: nat, i: nat :: id in ids && id < |reg| && i < |Fields(reg, id)| ==> rank(Fields(reg, id)[i]) < rank(id)
  }

  lemma VisitShrinks(reg: Types, m: Mode, id: nat, s: seq<byte>)
    requires Visit(reg, m, id, s).Node?
    ensures var n := Visit(reg, m, id, s);
            |n.rest| < |s| || (n == Node([], Fields(reg, id), s) && id < |reg|)
  {
    if reg[id].def.Sequence? {
      CompactCanonical(4, s);
    }
  }

  // ------------------------------------------------------------ sufficient

  lemma {:induction false} RankedHalts(reg: Types, m: Mode, ids: iset<nat>, rank: nat -> nat, id: nat, s: seq<byte>) returns (fuel: nat)
    requires Closed(reg, m, ids) && LeftRanked(reg, m, ids, rank) && id in ids
    ensures !Transcode(fuel, reg, m, id, s).Exhausted?
    decreases |s|, rank(id)
  {
    hide Visit, Live;
    var v := Visit(reg, m, id, s);
    if v.Leaf? {
      fuel := 1;
    } else {
      VisitShrinks(reg, m, id, s);
      var f := RankedHaltsAll(reg, m, ids, rank, v.children, v.rest, |s|, rank(id));
      fuel := f + 1;
    }
  }

  /** Children are visited with less input than `n` bytes, or with a rank below `k`. */
  lemma {:induction false} RankedHaltsAll(reg: Types, m: Mode, ids: iset<nat>, rank: nat -> nat, children: seq<nat>, s: seq<byte>, n: nat, k: nat)
    returns (fuel: nat)
    requires Closed(reg, m, ids) && LeftRanked(reg, m, ids, rank) && VisitedWithin(reg, m, children, ids)
    requires |s| <= n
    requires |s| == n ==> forall i: nat :: Leftmost(children, Silent(reg, m), i) ==> rank(children[i]) < k
    ensures !TranscodeAll(fuel, reg, m, children, s).Exhausted?
    decreases n, k, |children|
  {
    hide Closed, LeftRanked, VisitedWithin, Live, Silent, Transcode;
    if children == [] {
      fuel := 0;
    } else {
      assert |s| == n ==> Leftmost(children, Silent(reg, m), 0);
      VisitedTail(reg, m, children, ids);
      var f := RankedHalts(reg, m, ids, rank, children[0], s);
      var head := Transcode(f, reg, m, children[0], s);
      fuel := f;
      if head.Done? {
        AcceptedIffLive(reg, m, children[0]);
        var v := Sound(f, reg, m, children[0], s);
        if |head.rest| == n {
          ConsumesNothingOnlyIfSilent(f, reg, m, children[0], s);
          LeftmostTail(children, Silent(reg, m));
        }
        var g := RankedHaltsAll(reg, m, ids, rank, children[1..], head.rest, n, k);
        fuel := if f < g then g else f;
        MoreFuel(f, fuel, reg, m, children[0], s);
        MoreFuelAll(g, fuel, reg, m, children[1..], head.rest);
      }
    }
  }

  // ------------------------------------------------------------ necessary

  /** The least bound within which the run on the empty input finishes. */
  ghost function Cost(reg: Types, m: Mode, id: nat): (c: nat)
    requires Halts(reg, m, id, [])
    ensures !Transcode(c, reg, m, id, []).Exhausted?
    ensures forall f: nat :: !Transcode(f, reg, m, id, []).Exhausted? ==> c <= f
  {
    var f: nat :| !Transcode(f, reg, m, id, []).Exhausted?;
    LeastBound(reg, m, id, f)
  }

  ghost function LeastBound(reg: Types, m: Mode, id: nat, f: nat): (c: nat)
    requires !Transcode(f, reg, m, id, []).Exhausted?
    ensures !Transcode(c, reg, m, id, []).Exhausted?
    ensures forall g: nat :: !Transcode(g, reg, m, id, []).Exhausted? ==> c <= g
  {
    if f > 0 && !Transcode(f - 1, reg, m, id, []).Exhausted? then LeastBound(reg, m, id, f - 1)
    else
      BelowExhausted(reg, m, id, f);
      f
  }

  lemma BelowExhausted(reg: Types, m: Mode, id: nat, f: nat)
    requires f > 0 ==> Transcode(f - 1, reg, m, id, []).Exhausted?
    ensures forall g: nat :: !Transcode(g, reg, m, id, []).Exhausted? ==> f <= g
  {
    forall g: nat | !Transcode(g, reg, m, id, []).Exhausted?
      ensures f <= g
    {
      if g < f { MoreFuel(g, f - 1, reg, m, id, []); }
    }
  }

  /** A run over children reaches the one behind the values it is given. */
  lemma {:induction false} ReachesChild(fuel: nat, reg: Types, m: Mode, children: seq<nat>, vs: seq<Value>, i: nat, s: seq<byte>)
    requires i < |children| && HaveTypes(reg, m, children[..i], vs)
    requires !TranscodeAll(fuel, reg, m, children, EncodeAll(vs) + s).Exhausted?
    ensures !Transcode(fuel, reg, m, children[i], s).Exhausted?
    decreases i
  {
    hide Transcode, HasType, Encode;
    if i == 0 {
      assert EncodeAll(vs) + s == s;
    } else {
      var t := EncodeAll(vs[1..]) + s;
      assert EncodeAll(vs) + s == Encode(vs[0]) + t;
      var g := Complete(reg, m, children[0], vs[0], t);
      MoreFuel(g, fuel + g, reg, m, children[0], Encode(vs[0]) + t);
      MoreFuel(fuel, fuel + g, reg, m, children[0], Encode(vs[0]) + t);
      assert children[..i][1..] == children[1..][..i - 1];
      ReachesChild(fuel, reg, m, children[1..], vs[1..], i - 1, s);
    }
  }

  /** Running out on a child reached past silent siblings means running out altogether. */
  lemma LeftmostRuns(fuel: nat, reg: Types, m: Mode, ids: seq<nat>, i: nat)
    requires Leftmost(ids, Silent(reg, m), i) && !TranscodeAll(fuel, reg, m, ids, []).Exhausted?
    ensures !Transcode(fuel, reg, m, ids[i], []).Exhausted?
  {
    hide Transcode, TranscodeAll, HaveTypes, EncodeAll;
    var vs := Inhabitants(reg, m, false, |reg|, ids[..i]);
    assert EncodeAll(vs) + [] == [];
    ReachesChild(fuel, reg, m, ids, vs, i, []);
  }

  lemma HaltingRanks(reg: Types, m: Mode, ids: iset<nat>, rank: nat -> nat)
    requires forall id: nat :: id in ids ==> Halts(reg, m, id, [])
    requires forall id: nat :: Halts(reg, m, id, []) ==> rank(id) == Cost(reg, m, id)
    ensures LeftRanked(reg, m, ids, rank)
  {
    forall id: nat, i: nat | id in ids && id < |reg| && Leftmost(Fields(reg, id), Silent(reg, m), i)
      ensures rank(Fields(reg, id)[i]) < rank(id)
    {
      var c := Cost(reg, m, id);
      assert Visit(reg, m, id, []) == Node([], Fields(reg, id), []);
      LeftmostRuns(c - 1, reg, m, Fields(reg, id), i);
      assert Halts(reg, m, Fields(reg, id)[i], []);
    }
  }

  lemma SomeRank(reg: Types, m: Mode, ids: iset<nat>)
    requires forall id: nat :: id in ids ==> Halts(reg, m, id, [])
    ensures exists rank :: LeftRanked(reg, m, ids, rank)
  {
    var rank := (id: nat) => if Halts(reg, m, id, []) then Cost(reg, m, id) else 0;
    HaltingRanks(reg, m, ids, rank);
  }

  /** What a node's own bytes select does not depend on what follows them. */
  lemma VisitAnew(reg: Types, m: Mode, id: nat, s: seq<byte>, t: seq<byte>)
    requires Visit(reg, m, id, s).Node?
    ensures var n := Visit(reg, m, id, s); Visit(reg, m, id, n.out + t) == Node(n.out, n.children, t)
  {
    hide EncodeCompact, DecodeCompact;
    if reg[id].def.Sequence? {
      CompactCanonical(4, s);
      CompactRoundTrip(4, DecodeCompact(4, s).value, t);
    } else {
      assert [] + t == t;
    }
  }

  /** What can be visited from a type that halts on every input halts on every input. */
  lemma ChildHalts(reg: Types, m: Mode, id: nat, s: seq<byte>, i: nat, t: seq<byte>)
    requires HaltsOnAll(reg, m, id) && Visit(reg, m, id, s).Node?
    requires Leftmost(Visit(reg, m, id, s).children, Live(reg, m), i)
    ensures Halts(reg, m, Visit(reg, m, id, s).children[i], t)
  {
    hide Visit, TranscodeAll, HaveTypes, EncodeAll;
    var n := Visit(reg, m, id, s);
    var vs := Inhabitants(reg, m, true, |reg|, n.children[..i]);
    VisitAnew(reg, m, id, s, EncodeAll(vs) + t);
    assert Halts(reg, m, id, n.out + (EncodeAll(vs) + t));
    var fuel: nat :| !Transcode(fuel, reg, m, id, n.out + (EncodeAll(vs) + t)).Exhausted?;
    ReachesChild(fuel - 1, reg, m, n.children, vs, i, t);
  }

  // ------------------------------------------------------------ the theorems

  ghost predicate HaltsOnAll(reg: Types, m: Mode, id: nat)
  {
    forall s :: Halts(reg, m, id, s)
  }

  /** In a closed set of types the decoder terminates on every input iff the types can be ranked so that
      the rank falls along every step that need not consume input. */
  lemma TerminatesWithinIff(reg: Types, m: Mode, ids: iset<nat>)
    requires Closed(reg, m, ids)
    ensures (forall id: nat :: id in ids ==> HaltsOnAll(reg, m, id)) <==> (exists rank :: LeftRanked(reg, m, ids, rank))
  {
    hide Closed, LeftRanked, Halts;
    if rank :| LeftRanked(reg, m, ids, rank) {
      forall id: nat, s | id in ids
        ensures Halts(reg, m, id, s)
      {
        RankHalts(reg, m, ids, rank, id, s);
      }
    }
    if forall id: nat :: id in ids ==> HaltsOnAll(reg, m, id) {
      SomeRank(reg, m, ids);
    }
  }

  lemma RankHalts(reg: Types, m: Mode, ids: iset<nat>, rank: nat -> nat, id: nat, s: seq<byte>)
    requires Closed(reg, m, ids) && LeftRanked(reg, m, ids, rank) && id in ids
    ensures Halts(reg, m, id, s)
  {
    hide Closed, LeftRanked, Transcode;
    var f := RankedHalts(reg, m, ids, rank, id, s);
  }

  /** At a single type the decoder terminates on every input iff that type is in some closed set with such
      a rank, whatever other types there are. */
  lemma TerminatesAtIff(reg: Types, m: Mode, id: nat)
    ensures HaltsOnAll(reg, m, id)
       <==> (exists ids: iset<nat>, rank :: id in ids && Closed(reg, m, ids) && LeftRanked(reg, m, ids, rank))
  {
    hide LeftRanked;
    if ids: iset<nat>, rank :| id in ids && Closed(reg, m, ids) && LeftRanked(reg, m, ids, rank) {
      TerminatesWithinIff(reg, m, ids);
    }
    if HaltsOnAll(reg, m, id) {
      var ids := iset j: nat | HaltsOnAll(reg, m, j);
      HaltingIsClosed(reg, m, ids);
      TerminatesWithinIff(reg, m, ids);
      assert id in ids;
    }
  }

  lemma HaltingIsClosed(reg: Types, m: Mode, ids: iset<nat>)
    requires forall j: nat :: j in ids <==> HaltsOnAll(reg, m, j)
    ensures Closed(reg, m, ids)
  {
    hide Visit, Halts;
    forall j: nat, s | j in ids && Visit(reg, m, j, s).Node?
      ensures VisitedWithin(reg, m, Visit(reg, m, j, s).children, ids)
    {
      var children := Visit(reg, m, j, s).children;
      forall i: nat | Leftmost(children, Live(reg, m), i)
        ensures children[i] in ids
      {
        forall t
          ensures Halts(reg, m, children[i], t)
        {
          ChildHalts(reg, m, j, s, i, t);
        }
      }
    }
  }

  /** The decoder terminates at every id and on every input iff the whole registry can be so ranked. */
  lemma TerminatesIffLeftRanked(reg: Types, m: Mode, all: iset<nat>)
    requires forall id: nat :: id in all
    ensures (forall id: nat :: HaltsOnAll(reg, m, id)) <==> (exists rank :: LeftRanked(reg, m, all, rank))
  {
    TerminatesWithinIff(reg, m, all);
  }

  /** A rank that falls from every type of a set to its fields suffices. */
  lemma RankedTerminates(reg: Types, m: Mode, ids: iset<nat>, rank: nat -> nat, id: nat, s: seq<byte>)
    requires HoldsFields(reg, ids) && Ranked(reg, ids, rank) && id in ids
    ensures Halts(reg, m, id, s)
  {
    FieldsClose(reg, m, ids);
    assert LeftRanked(reg, m, ids, rank);
    var f := RankedHalts(reg, m, ids, rank, id, s);
  }

  /** A composite holding itself is never decoded to the end, whatever the input. */
  lemma {:induction false} SelfCompositeNeverHalts(fuel: nat, path: seq<string>, m: Mode, s: seq<byte>)
    ensures Transcode(fuel, [Type(path, Composite([0]))], m, 0, s).Exhausted?
  {
    if fuel > 0 {
      SelfCompositeNeverHalts(fuel - 1, path, m, s);
    }
  }
}
