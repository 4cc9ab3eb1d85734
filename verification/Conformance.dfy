/** What the code as written makes of the calls, event batches and event streams that the standard
    describes. */
module Conformance {
  import opened Scale
  import opened Registry
  import opened Decoder
  import opened Lookups
  import opened Metadata
  import opened Events
  import opened Hex
  import opened Wait

  /** The same runtime, read as the standard means it. */
  function Standard(rt: Runtime): (std: Runtime)
  {
    rt.(m := INTENDED)
  }

  // ------------------------------------------------------------ calls

  /** A call whose arguments are standard values along which the tag lookups agree is found, and what
      follows it left, or it is refused at the first compact part of an argument. */
  lemma CallOutcome(rt: Runtime, key: (byte, byte), args: seq<Value>, r: seq<byte>) returns (fuel: nat)
    requires rt.m == AS_WRITTEN && key in rt.md.calls
    requires HaveTypes(rt.md.types, INTENDED, rt.md.calls[key].variant.fields, args)
    requires AgreeAlongAll(rt.md.types, ByIndex, ByPosition, rt.md.calls[key].variant.fields, args)
    ensures DecodeCall(fuel, rt, [key.0, key.1] + EncodeAll(args) + r)
         == if AllCompactFree(args) then Done(rt.md.calls[key], r) else Failed(InvalidCompactType)
  {
    hide TranscodeAll, HaveTypes, EncodeAll, AgreeAlongAll, AllCompactFree;
    var s := [key.0, key.1] + EncodeAll(args) + r;
    assert s[2..] == EncodeAll(args) + r;
    fuel := AsWrittenOutcomes(rt.md.types, rt.md.calls[key].variant.fields, args, r);
  }

  lemma MoreFuelCall(f: nat, g: nat, rt: Runtime, s: seq<byte>)
    requires f <= g && !DecodeCall(f, rt, s).Exhausted?
    ensures DecodeCall(g, rt, s) == DecodeCall(f, rt, s)
  {
    hide TranscodeAll;
    if |s| >= 2 && (s[0], s[1]) in rt.md.calls {
      MoreFuelAll(f, g, rt.md.types, rt.m, rt.md.calls[(s[0], s[1])].variant.fields, s[2..]);
    }
  }

  /** What `encode_call` produced from standard arguments is decoded by some run iff no argument has a
      compact part, and every run that succeeds finds that call and leaves what follows. */
  lemma CallAsWrittenIff(raw: RuntimeMetadata, rt: Runtime, p: string, c: string, args: seq<Value>, r: seq<byte>)
    requires TryFrom(raw).Valid? && rt.md == TryFrom(raw).value && rt.m == AS_WRITTEN
    requires DistinctEntryNames(raw.types, raw.pallets, Calls) && DistinctKeys(Rows(raw.types, raw.pallets, Calls).value)
    requires EncodeCall(rt.md, p, c, EncodeAll(args)).Encoded?
    requires var key := (rt.md.pallets[p].index, rt.md.pallets[p].calls[c]);
             key in rt.md.calls ==>
               && HaveTypes(rt.md.types, INTENDED, rt.md.calls[key].variant.fields, args)
               && AgreeAlongAll(rt.md.types, ByIndex, ByPosition, rt.md.calls[key].variant.fields, args)
    ensures var key := (rt.md.pallets[p].index, rt.md.pallets[p].calls[c]);
            var s := EncodeCall(rt.md, p, c, EncodeAll(args)).bytes + r;
            && key in rt.md.calls && rt.md.calls[key].pallet == p && rt.md.calls[key].name == c
            && ((exists fuel :: DecodeCall(fuel, rt, s).Done?) <==> AllCompactFree(args))
            && (forall fuel :: DecodeCall(fuel, rt, s).Done? ==> DecodeCall(fuel, rt, s) == Done(rt.md.calls[key], r))
  {
    hide DecodeCall, HaveTypes, AgreeAlongAll, AllCompactFree, IsEntry, EncodeAll;
    DistinctLooksUp(raw, p, c);
    var key := (rt.md.pallets[p].index, rt.md.pallets[p].calls[c]);
    var s := EncodeCall(rt.md, p, c, EncodeAll(args)).bytes + r;
    assert s == [key.0, key.1] + EncodeAll(args) + r;
    var f := CallOutcome(rt, key, args, r);
    forall fuel | DecodeCall(fuel, rt, s).Done?
      ensures DecodeCall(fuel, rt, s) == DecodeCall(f, rt, s)
    {
      MoreFuelCall(f, f + fuel, rt, s);
      MoreFuelCall(fuel, f + fuel, rt, s);
    }
  }

  // ------------------------------------------------------------ fields of an event

  predicate ItemAgrees(types: Types, id: nat, i: Item)
  {
    i.Plain? ==> AgreeAlong(types, ByIndex, ByPosition, id, i.v)
  }

  predicate ItemsAgree(types: Types, ids: seq<nat>, items: seq<Item>)
    requires |ids| == |items|
  {
    forall k :: 0 <= k < |ids| ==> ItemAgrees(types, ids[k], items[k])
  }

  predicate ItemCompactFree(i: Item)
  {
    i.Plain? ==> CompactFree(i.v)
  }

  predicate ItemsCompactFree(items: seq<Item>)
  {
    forall k :: 0 <= k < |items| ==> ItemCompactFree(items[k])
  }

  lemma FieldOutcome(rt: Runtime, ev: Entry, id: nat, i: Item, r: seq<byte>) returns (fuel: nat)
    requires LawfulRuntime(rt) && rt.m == AS_WRITTEN && Fits(Standard(rt), ev, id, i) && ItemAgrees(rt.md.types, id, i)
    ensures DecodeField(fuel, rt, ev, id, EncodeItem(Standard(rt), i) + r)
         == if ItemCompactFree(i)
            then Done(Payload(EncodeItem(Standard(rt), i), if i.Plain? then [] else [FromDispatch(rt.md, i.e).value]), r)
            else Failed(InvalidCompactType)
  {
    hide Transcode, Encode, HasType, AgreeAlong, CompactFree, FromDispatch;
    if i.Plain? {
      fuel := AsWrittenOutcome(rt.md.types, id, i.v, r);
    } else {
      fuel := 0;
      assert rt.dispatch.dec(rt.dispatch.enc(i.e) + r) == Read(i.e, r);
    }
  }

  lemma {:induction false} FieldsOutcome(rt: Runtime, ev: Entry, ids: seq<nat>, items: seq<Item>, r: seq<byte>) returns (fuel: nat)
    requires LawfulRuntime(rt) && rt.m == AS_WRITTEN && FitAll(Standard(rt), ev, ids, items) && ItemsAgree(rt.md.types, ids, items)
    ensures DecodeFields(fuel, rt, ev, ids, EncodeItems(Standard(rt), items) + r)
         == if ItemsCompactFree(items)
            then Done(Payload(EncodeItems(Standard(rt), items), ItemErrors(Standard(rt), items)), r)
            else Failed(InvalidCompactType)
    decreases |items|
  {
    hide DecodeField, Fits, EncodeItem, FromDispatch, ItemAgrees, ItemCompactFree, Lawful;
    var std := Standard(rt);
    if items == [] {
      fuel := 0;
      assert EncodeItems(std, items) + r == r;
    } else {
      var t := EncodeItems(std, items[1..]) + r;
      assert EncodeItems(std, items) + r == EncodeItem(std, items[0]) + t;
      var f := FieldOutcome(rt, ev, ids[0], items[0], t);
      var g := FieldsOutcome(rt, ev, ids[1..], items[1..], r);
      fuel := if f < g then g else f;
      MoreFuelField(f, fuel, rt, ev, ids[0], EncodeItem(std, items[0]) + t);
      MoreFuelFields(g, fuel, rt, ev, ids[1..], t);
      assert ItemsCompactFree(items) <==> ItemCompactFree(items[0]) && ItemsCompactFree(items[1..]) by {
        assert forall k :: 0 < k < |items| ==> items[k] == items[1..][k - 1];
      }
      ErrorsStep(rt, ev, ids, items);
    }
  }

  lemma ErrorsStep(rt: Runtime, ev: Entry, ids: seq<nat>, items: seq<Item>)
    requires items != [] && FitAll(Standard(rt), ev, ids, items)
    ensures ItemErrors(Standard(rt), items)
         == (if items[0].Plain? then [] else [FromDispatch(rt.md, items[0].e).value]) + ItemErrors(Standard(rt), items[1..])
  {
    assert Fits(Standard(rt), ev, ids[0], items[0]);
    assert [] + ItemErrors(Standard(rt), items[1..]) == ItemErrors(Standard(rt), items[1..]);
  }

  // ------------------------------------------------------------ records

  /** The tag lookups agree along the fields of a standard record. */
  predicate RecordAgrees(rt: Runtime, rec: Record)
    requires WellTyped(Standard(rt), rec)
  {
    ItemsAgree(rt.md.types, rt.md.events[(rec.pallet, rec.variant)].variant.fields, rec.items)
  }

  /** A standard record along which the tag lookups agree decodes to what it stands for, or is refused at
      the first compact part of a field. */
  lemma RecordOutcome(rt: Runtime, rec: Record, r: seq<byte>) returns (fuel: nat)
    requires LawfulRuntime(rt) && rt.m == AS_WRITTEN && WellTyped(Standard(rt), rec) && RecordAgrees(rt, rec)
    ensures DecodeRecord(fuel, rt, EncodeRecord(Standard(rt), rec) + r)
         == if ItemsCompactFree(rec.items) then Done(Meaning(Standard(rt), rec), r) else Failed(InvalidCompactType)
  {
    hide DecodePhase, DecodeTopics, DecodeFields, Report, EncodePhase, EncodeItems, EncodeCompact, Flatten, ItemErrors, FitAll, Lawful,
         ItemsAgree, ItemsCompactFree;
    var std := Standard(rt);
    var ev := rt.md.events[(rec.pallet, rec.variant)];
    var topics := EncodeCompact(|rec.topics|) + Flatten(rec.topics) + r;
    var body := EncodeItems(std, rec.items) + topics;
    var head := [rec.pallet, rec.variant] + body;
    assert EncodeRecord(std, rec) + r == EncodePhase(rec.phase) + head;
    PhaseRoundTrip(rec.phase, head);
    assert head[2..] == body;
    fuel := FieldsOutcome(rt, ev, ev.variant.fields, rec.items, topics);
    TopicsRoundTrip(rec.topics, r);
  }

  // ------------------------------------------------------------ batches

  ghost predicate StandardRecords(rt: Runtime, rs: seq<Record>)
  {
    forall x :: x in rs ==> WellTyped(Standard(rt), x) && RecordAgrees(rt, x)
  }

  predicate RecordsCompactFree(rs: seq<Record>)
  {
    forall k :: 0 <= k < |rs| ==> ItemsCompactFree(rs[k].items)
  }

  lemma {:induction false} RecordsOutcome(rt: Runtime, rs: seq<Record>, r: seq<byte>) returns (fuel: nat)
    requires LawfulRuntime(rt) && rt.m == AS_WRITTEN && StandardRecords(rt, rs)
    ensures DecodeRecords(fuel, rt, |rs|, EncodeRecords(Standard(rt), rs) + r)
         == if RecordsCompactFree(rs) then Done(Meanings(Standard(rt), rs), r) else Failed(InvalidCompactType)
    decreases |rs|
  {
    hide DecodeRecord, EncodeRecord, Meaning, WellTyped, RecordAgrees, ItemsCompactFree, Lawful;
    var std := Standard(rt);
    if rs == [] {
      fuel := 0;
      assert EncodeRecords(std, rs) + r == r;
    } else {
      var t := EncodeRecords(std, rs[1..]) + r;
      assert EncodeRecords(std, rs) + r == EncodeRecord(std, rs[0]) + t;
      var f := RecordOutcome(rt, rs[0], t);
      var g := RecordsOutcome(rt, rs[1..], r);
      fuel := if f < g then g else f;
      MoreFuelRecord(f, fuel, rt, EncodeRecord(std, rs[0]) + t);
      MoreFuelRecords(g, fuel, rt, |rs| - 1, t);
      assert RecordsCompactFree(rs) <==> ItemsCompactFree(rs[0].items) && RecordsCompactFree(rs[1..]) by {
        assert forall k :: 0 < k < |rs| ==> rs[k] == rs[1..][k - 1];
      }
    }
  }

  /** A batch of standard records decodes to what it stands for, or one compact part anywhere in it loses
      the whole batch. */
  lemma BatchOutcome(rt: Runtime, rs: seq<Record>, r: seq<byte>) returns (fuel: nat)
    requires LawfulRuntime(rt) && rt.m == AS_WRITTEN && StandardRecords(rt, rs) && |rs| < 0x1_0000_0000
    ensures DecodeEvents(fuel, rt, EncodeBatch(Standard(rt), rs) + r)
         == if RecordsCompactFree(rs) then Done(Meanings(Standard(rt), rs), r) else Failed(InvalidCompactType)
  {
    hide DecodeRecords, EncodeRecords, Meanings, EncodeCompact, DecodeCompact, WellTyped, RecordAgrees, RecordsCompactFree;
    PowLiterals();
    var t := EncodeRecords(Standard(rt), rs) + r;
    assert EncodeBatch(Standard(rt), rs) + r == EncodeCompact(|rs|) + t;
    CompactRoundTrip(4, |rs|, t);
    fuel := RecordsOutcome(rt, rs, r);
  }

  lemma MoreFuelEvents(f: nat, g: nat, rt: Runtime, s: seq<byte>)
    requires f <= g && !DecodeEvents(f, rt, s).Exhausted?
    ensures DecodeEvents(g, rt, s) == DecodeEvents(f, rt, s)
  {
    hide DecodeRecords, DecodeCompact;
    var n := DecodeCompact(4, s);
    if n.Read? { MoreFuelRecords(f, g, rt, n.value, n.rest); }
  }

  /** As written, a batch of standard records is decoded by some run iff none of them has a compact part,
      and every run that succeeds reports what the batch stands for. */
  lemma BatchAsWrittenIff(rt: Runtime, rs: seq<Record>, r: seq<byte>)
    requires LawfulRuntime(rt) && rt.m == AS_WRITTEN && StandardRecords(rt, rs) && |rs| < 0x1_0000_0000
    ensures var s := EncodeBatch(Standard(rt), rs) + r;
            && ((exists fuel :: DecodeEvents(fuel, rt, s).Done?) <==> RecordsCompactFree(rs))
            && forall fuel :: DecodeEvents(fuel, rt, s).Done? ==> DecodeEvents(fuel, rt, s) == Done(Meanings(Standard(rt), rs), r)
  {
    hide DecodeEvents, EncodeBatch, Meanings, WellTyped, RecordAgrees, RecordsCompactFree;
    var s := EncodeBatch(Standard(rt), rs) + r;
    var f := BatchOutcome(rt, rs, r);
    forall fuel | DecodeEvents(fuel, rt, s).Done?
      ensures DecodeEvents(fuel, rt, s) == DecodeEvents(f, rt, s)
    {
      MoreFuelEvents(f, f + fuel, rt, s);
      MoreFuelEvents(fuel, f + fuel, rt, s);
    }
  }

  // ------------------------------------------------------------ streams

  ghost predicate StandardBatch(rt: Runtime, b: seq<Record>)
  {
    |b| < 0x1_0000_0000 && StandardRecords(rt, b)
  }

  ghost predicate StandardStream(rt: Runtime, bs: seq<seq<Record>>)
  {
    forall i :: 0 <= i < |bs| ==> StandardBatch(rt, bs[i])
  }

  /** A batch as the node spells it. */
  function Message(rt: Runtime, b: seq<Record>): (msg: string)
  {
    "0x" + HexEncode(EncodeBatch(Standard(rt), b))
  }

  function Messages(rt: Runtime, bs: seq<seq<Record>>): (msgs: seq<string>)
    ensures |msgs| == |bs|
  {
    if bs == [] then [] else [Message(rt, bs[0])] + Messages(rt, bs[1..])
  }

  /** What a batch contributes: everything it stands for, or nothing. */
  ghost function Readable(rt: Runtime, b: seq<Record>): (events: Batch)
    requires StandardBatch(rt, b)
  {
    if RecordsCompactFree(b) then Meanings(Standard(rt), b) else []
  }

  ghost function AllReadable(rt: Runtime, bs: seq<seq<Record>>): (events: Batch)
    requires StandardStream(rt, bs)
  {
    if bs == [] then [] else Readable(rt, bs[0]) + AllReadable(rt, bs[1..])
  }

  ghost predicate ReadAs(fuel: nat, rt: Runtime, b: seq<Record>)
    requires StandardBatch(rt, b)
  {
    Interpret(fuel, rt, Message(rt, b)) == if RecordsCompactFree(b) then Decoded(Readable(rt, b)) else Undecodable
  }

  lemma MessageOutcome(rt: Runtime, b: seq<Record>) returns (fuel: nat)
    requires LawfulRuntime(rt) && rt.m == AS_WRITTEN && StandardBatch(rt, b)
    ensures ReadAs(fuel, rt, b)
  {
    hide DecodeEvents, EncodeBatch, FromHex, HexEncode, Meanings, RecordsCompactFree, WellTyped, RecordAgrees;
    var bytes := EncodeBatch(Standard(rt), b);
    fuel := BatchOutcome(rt, b, []);
    assert bytes + [] == bytes;
    FramedHex(0, true, bytes, 0);
    assert Quotes(0) + "0x" + HexEncode(bytes) + Quotes(0) == Message(rt, b);
  }

  lemma {:induction false} StreamOutcome(rt: Runtime, bs: seq<seq<Record>>) returns (fuel: nat)
    requires LawfulRuntime(rt) && rt.m == AS_WRITTEN && StandardStream(rt, bs)
    ensures forall i :: 0 <= i < |bs| ==> ReadAs(fuel, rt, bs[i])
    decreases |bs|
  {
    hide Interpret, Message, Readable, RecordsCompactFree, StandardBatch;
    fuel := 0;
    if bs != [] {
      var f := MessageOutcome(rt, bs[0]);
      var g := StreamOutcome(rt, bs[1..]);
      fuel := if f < g then g else f;
      forall i | 0 <= i < |bs|
        ensures ReadAs(fuel, rt, bs[i])
      {
        assert i > 0 ==> bs[i] == bs[1..][i - 1] && ReadAs(g, rt, bs[1..][i - 1]);
        MoreFuelInterpret(if i == 0 then f else g, fuel, rt, Message(rt, bs[i]));
      }
    }
  }

  lemma {:induction false} FirstReadable(fuel: nat, rt: Runtime, pallet: string, variant: string, bs: seq<seq<Record>>)
    requires StandardStream(rt, bs) && forall i :: 0 <= i < |bs| ==> ReadAs(fuel, rt, bs[i])
    ensures var m := FirstMatch(AllReadable(rt, bs), pallet, variant);
            WaitSpec(fuel, rt, pallet, variant, Messages(rt, bs)).0 == if m.Some? then Found(m.value) else Disconnected
    decreases |bs|
  {
    hide Interpret, Message, RecordsCompactFree, StandardBatch, Meanings;
    if bs != [] {
      assert ReadAs(fuel, rt, bs[0]);
      assert Messages(rt, bs)[1..] == Messages(rt, bs[1..]);
      FirstReadable(fuel, rt, pallet, variant, bs[1..]);
      FirstMatchConcat(Readable(rt, bs[0]), AllReadable(rt, bs[1..]), pallet, variant);
    }
  }

  /** On a stream of standard batches along which the tag lookups agree, waiting gives the first matching
      event of the batches without any compact part, or the disconnection; every event that shares a
      batch with a compact part is missed. */
  lemma WaitOnStandardStream(rt: Runtime, pallet: string, variant: string, bs: seq<seq<Record>>) returns (fuel: nat)
    requires LawfulRuntime(rt) && rt.m == AS_WRITTEN && StandardStream(rt, bs)
    ensures forall i :: 0 <= i < |bs| ==> !Interpret(fuel, rt, Message(rt, bs[i])).Unfinished?
    ensures var m := FirstMatch(AllReadable(rt, bs), pallet, variant);
            WaitSpec(fuel, rt, pallet, variant, Messages(rt, bs)).0 == if m.Some? then Found(m.value) else Disconnected
  {
    hide Interpret, Message, RecordsCompactFree, StandardBatch, Readable, FirstMatch, WaitSpec;
    fuel := StreamOutcome(rt, bs);
    assert forall i :: 0 <= i < |bs| ==> ReadAs(fuel, rt, bs[i]);
    FirstReadable(fuel, rt, pallet, variant, bs);
  }
}
