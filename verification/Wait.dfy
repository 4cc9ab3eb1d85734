/** `wait_for_raw_event`: a receive loop over the event stream. */
module Wait {
  import opened Scale
  import opened Registry
  import opened Decoder
  import opened Acceptance
  import opened Lookups
  import opened Termination
  import opened Cursors
  import opened Metadata
  import opened Events
  import opened EventDecoder
  import opened Reports
  import opened Hex

  /** The receiving end of the channel: the messages still to come, then disconnection. */
  class Receiver {
    var queue: seq<string>

    constructor (messages: seq<string>)
      ensures queue == messages
    {
      queue := messages;
    }

    method Recv() returns (r: Option<string>)
      modifies this
      ensures old(queue) == [] ==> r == None && queue == []
      ensures old(queue) != [] ==> r == Some(old(queue)[0]) && queue == old(queue)[1..]
    {
      if queue == [] { return None; }
      r := Some(queue[0]);
      queue := queue[1..];
    }
  }

  datatype Waited = Found(event: RawEvent) | BadHex | Disconnected | Panicked

  /** What one message is good for. */
  datatype Received = Decoded(batch: Batch) | Undecodable | Unreadable | Crash | Unfinished

  function Interpret(fuel: nat, rt: Runtime, msg: string): (r: Received)
  {
    var bs := FromHex(msg);
    if bs.None? then Unreadable else
    match DecodeEvents(fuel, rt, bs.value)
    case Done(batch, _) => Decoded(batch)
    case Failed(e) => if e.Unimplemented? then Crash else Undecodable
    case Exhausted => Unfinished
  }

  predicate Matches(r: Raw, pallet: string, variant: string)
  {
    r.Event? && r.event.pallet == pallet && r.event.variant == variant
  }

  function FirstMatch(b: Batch, pallet: string, variant: string): (r: Option<RawEvent>)
    ensures r.None? ==> forall i :: 0 <= i < |b| ==> !Matches(b[i].1, pallet, variant)
    ensures r.Some? ==> exists i :: 0 <= i < |b| && b[i].1 == Event(r.value) && Matches(b[i].1, pallet, variant)
                          && forall j :: 0 <= j < i ==> !Matches(b[j].1, pallet, variant)
  {
    if b == [] then None
    else if Matches(b[0].1, pallet, variant) then Some(b[0].1.event)
    else
      var rest := FirstMatch(b[1..], pallet, variant);
      assert rest.Some? ==> forall i :: 0 <= i < |b[1..]| ==> b[1..][i] == b[i + 1];
      rest
  }

  /** The loop, message by message, with the number of messages it takes. */
  function WaitSpec(fuel: nat, rt: Runtime, pallet: string, variant: string, msgs: seq<string>): (r: (Waited, nat))
    ensures r.1 <= |msgs|
  {
    if msgs == [] then (Disconnected, 0) else
    match Interpret(fuel, rt, msgs[0])
    case Unreadable => (BadHex, 1)
    case Crash => (Panicked, 1)
    case Decoded(batch) =>
      var m := FirstMatch(batch, pallet, variant);
      if m.Some? then (Found(m.value), 1) else
      var rest := WaitSpec(fuel, rt, pallet, variant, msgs[1..]); (rest.0, rest.1 + 1)
    case _ =>
      var rest := WaitSpec(fuel, rt, pallet, variant, msgs[1..]); (rest.0, rest.1 + 1)
  }

  method WaitForRawEvent(rt: Runtime, pallet: string, variant: string, receiver: Receiver, ghost fuel: nat) returns (r: Waited)
    requires LawfulRuntime(rt)
    requires forall msg :: msg in receiver.queue ==> !Interpret(fuel, rt, msg).Unfinished?
    modifies receiver
    ensures var spec := WaitSpec(fuel, rt, pallet, variant, old(receiver.queue));
            r == spec.0 && receiver.queue == old(receiver.queue)[spec.1..]
  {
    hide DecodeEvents, FromHex;
    ghost var all := receiver.queue;
    ghost var taken := 0;
    while true
      invariant taken <= |all| && receiver.queue == all[taken..]
      invariant WaitSpec(fuel, rt, pallet, variant, all).0 == WaitSpec(fuel, rt, pallet, variant, all[taken..]).0
      invariant WaitSpec(fuel, rt, pallet, variant, all).1 == taken + WaitSpec(fuel, rt, pallet, variant, all[taken..]).1
      decreases |receiver.queue|
    {
      var msg := receiver.Recv();
      if msg.None? { return Disconnected; }
      assert all[taken..][1..] == all[taken + 1..];
      taken := taken + 1;
      var bytes := FromHex(msg.value);
      if bytes.None? { return BadHex; }
      var input := new Cursor(bytes.value);
      var batch := DecodeEventBatch(rt, input, fuel);
      if batch.Ok? {
        for i := 0 to |batch.value|
          invariant FirstMatch(batch.value, pallet, variant) == FirstMatch(batch.value[i..], pallet, variant)
        {
          assert batch.value[i..][1..] == batch.value[i + 1..];
          if Matches(batch.value[i].1, pallet, variant) { return Found(batch.value[i].1.event); }
        }
      } else if batch.error.Unimplemented? {
        return Panicked;
      }
    }
  }

  // ------------------------------------------------------------ the reference reading of a stream

  /** The first message that cannot be read at all, or the end of the stream. */
  function StopAt(fuel: nat, rt: Runtime, msgs: seq<string>): (p: nat)
    ensures p <= |msgs|
  {
    if msgs == [] || Interpret(fuel, rt, msgs[0]).Unreadable? || Interpret(fuel, rt, msgs[0]).Crash? then 0
    else 1 + StopAt(fuel, rt, msgs[1..])
  }

  /** All decodable batches, concatenated. */
  function AllEvents(fuel: nat, rt: Runtime, msgs: seq<string>): (b: Batch)
  {
    if msgs == [] then [] else
    var head := Interpret(fuel, rt, msgs[0]);
    (if head.Decoded? then head.batch else []) + AllEvents(fuel, rt, msgs[1..])
  }

  lemma {:induction false} FirstMatchConcat(a: Batch, b: Batch, pallet: string, variant: string)
    ensures FirstMatch(a + b, pallet, variant)
         == if FirstMatch(a, pallet, variant).Some? then FirstMatch(a, pallet, variant) else FirstMatch(b, pallet, variant)
  {
    if a == [] {
      assert a + b == b;
    } else {
      assert (a + b)[1..] == a[1..] + b;
      FirstMatchConcat(a[1..], b, pallet, variant);
    }
  }

  /** The caller gets the first matching event of everything decodable before the first unreadable
      message; without one, that message's failure; without either, the disconnection. */
  lemma {:induction false} WaitIsFirstMatch(fuel: nat, rt: Runtime, pallet: string, variant: string, msgs: seq<string>)
    ensures var p := StopAt(fuel, rt, msgs);
            var m := FirstMatch(AllEvents(fuel, rt, msgs[..p]), pallet, variant);
            WaitSpec(fuel, rt, pallet, variant, msgs).0
              == if m.Some? then Found(m.value)
                 else if p == |msgs| then Disconnected
                 else if Interpret(fuel, rt, msgs[p]).Crash? then Panicked else BadHex
    decreases |msgs|
  {
    hide Interpret;
    var p := StopAt(fuel, rt, msgs);
    if msgs != [] && p > 0 {
      WaitIsFirstMatch(fuel, rt, pallet, variant, msgs[1..]);
      assert msgs[..p][1..] == msgs[1..][..p - 1];
      var head := Interpret(fuel, rt, msgs[0]);
      FirstMatchConcat(if head.Decoded? then head.batch else [], AllEvents(fuel, rt, msgs[..p][1..]), pallet, variant);
    }
  }

  /** A batch that fails to decode, for whatever reason but a bit sequence, is passed over: the outcome is that
      of the remaining messages. A bit sequence takes the caller down. */
  lemma FailedBatch(fuel: nat, rt: Runtime, pallet: string, variant: string, msg: string, bytes: seq<byte>, more: seq<string>)
    requires FromHex(msg) == Some(bytes) && DecodeEvents(fuel, rt, bytes).Failed?
    ensures WaitSpec(fuel, rt, pallet, variant, [msg] + more)
         == if DecodeEvents(fuel, rt, bytes) == Failed(Unimplemented) then (Panicked, 1)
            else (WaitSpec(fuel, rt, pallet, variant, more).0, WaitSpec(fuel, rt, pallet, variant, more).1 + 1)
  {
    hide DecodeEvents, FromHex;
    assert ([msg] + more)[1..] == more;
  }

  /** Text that is not hexadecimal ends the wait. */
  lemma BadHexEnds(fuel: nat, rt: Runtime, pallet: string, variant: string, msg: string, more: seq<string>)
    requires forall bytes :: !Framed(msg, bytes)
    ensures WaitSpec(fuel, rt, pallet, variant, [msg] + more) == (BadHex, 1)
  {
    hide DecodeEvents, FromHex, Framed;
    if FromHex(msg).Some? { FromHexIff(msg, FromHex(msg).value); }
  }

  /** So one event that the metadata does not know, among any records of a batch, makes the caller miss the
      whole batch and wait on. */
  lemma UnknownEventMissed(rt: Runtime, rs: seq<Record>, n: nat, phase: Phase, p: byte, v: byte, s: seq<byte>,
                           pallet: string, variant: string, more: seq<string>) returns (fuel: nat)
    requires LawfulRuntime(rt) && (forall x :: x in rs ==> WellTyped(rt, x)) && |rs| + 1 + n < 0x1_0000_0000
    requires (phase.ApplyExtrinsic? ==> phase.n < 0x1_0000_0000) && (p, v) !in rt.md.events
    ensures var bytes := EncodeCompact(|rs| + 1 + n) + (EncodeRecords(rt, rs) + (EncodePhase(phase) + ([p, v] + s)));
            WaitSpec(fuel, rt, pallet, variant, ["0x" + HexEncode(bytes)] + more).0 == WaitSpec(fuel, rt, pallet, variant, more).0
  {
    hide DecodeEvents, FromHex, WaitSpec, EncodeCompact, EncodeRecords, EncodePhase, WellTyped, HexEncode, DecodeRecord;
    var record := EncodePhase(phase) + ([p, v] + s);
    var bytes := EncodeCompact(|rs| + 1 + n) + (EncodeRecords(rt, rs) + record);
    UnknownEventRefused(0, rt, phase, p, v, s);
    fuel := FailingRecordDiscardsBatch(0, rt, rs, n, record);
    var msg := "0x" + HexEncode(bytes);
    FramedHex(0, true, bytes, 0);
    assert Quotes(0) + "0x" + HexEncode(bytes) + Quotes(0) == msg;
    FailedBatch(fuel, rt, pallet, variant, msg, bytes, more);
  }

  // ------------------------------------------------------------ which events can be waited for

  /** Some record of this event is reported as an event: no field is a dispatch error, and every field
      has a value that the decoder accepts. */
  predicate Reportable(rt: Runtime, ev: Entry)
  {
    forall i :: 0 <= i < |ev.variant.fields| ==>
      !IsDispatchField(rt.md.types, ev, ev.variant.fields[i]) && ev.variant.fields[i] in Live(rt.md.types, rt.m)
  }

  predicate Named(ev: Entry, pallet: string, variant: string)
  {
    ev.pallet == pallet && ev.name == variant
  }

  function PlainItems(vs: seq<Value>): (items: seq<Item>)
    ensures |items| == |vs| && forall i :: 0 <= i < |vs| ==> items[i] == Plain(vs[i])
  {
    seq(|vs|, i requires 0 <= i < |vs| => Plain(vs[i]))
  }

  lemma {:induction false} ElementTypes(reg: Types, m: Mode, ids: seq<nat>, vs: seq<Value>, i: nat)
    requires HaveTypes(reg, m, ids, vs) && i < |ids|
    ensures |vs| == |ids| && HasType(reg, m, ids[i], vs[i])
    decreases i
  {
    if i > 0 { ElementTypes(reg, m, ids[1..], vs[1..], i - 1); }
  }

  lemma {:induction false} PlainItemsHaveNoErrors(rt: Runtime, items: seq<Item>)
    requires forall i :: 0 <= i < |items| ==> items[i].Plain?
    ensures ItemErrors(rt, items) == []
  {
    if items != [] { PlainItemsHaveNoErrors(rt, items[1..]); }
  }

  /** A message holding one record of a reportable event. */
  lemma Announcement(rt: Runtime, k: (byte, byte)) returns (fuel: nat, msg: string)
    requires LawfulRuntime(rt) && k in rt.md.events && Reportable(rt, rt.md.events[k])
    ensures Interpret(fuel, rt, msg).Decoded?
    ensures var b := Interpret(fuel, rt, msg).batch;
            |b| == 1 && Matches(b[0].1, rt.md.events[k].pallet, rt.md.events[k].name)
  {
    hide DecodeEvents, EncodeBatch, FromHex;
    var ev := rt.md.events[k];
    var rec := Specimen(rt, k);
    fuel := BatchComplete(rt, [rec], []);
    var bytes := EncodeBatch(rt, [rec]);
    assert bytes + [] == bytes;
    msg := HexEncode(bytes);
    FramedHex(0, false, bytes, 0);
    assert Quotes(0) + "" + msg + Quotes(0) == msg;
    SpecimenMeaning(rt, k, rec);
  }

  lemma Specimen(rt: Runtime, k: (byte, byte)) returns (rec: Record)
    requires k in rt.md.events && Reportable(rt, rt.md.events[k])
    ensures WellTyped(rt, rec) && (rec.pallet, rec.variant) == k
    ensures forall i :: 0 <= i < |rec.items| ==> rec.items[i].Plain?
  {
    var ev := rt.md.events[k];
    var ids := ev.variant.fields;
    assert Within(ids, Round(rt.md.types, rt.m, true, |rt.md.types|));
    var vs := Inhabitants(rt.md.types, rt.m, true, |rt.md.types|, ids);
    assert |vs| == |ids| by {
      if ids != [] { ElementTypes(rt.md.types, rt.m, ids, vs, 0); }
    }
    rec := Record(Initialization, k.0, k.1, PlainItems(vs), []);
    forall i | 0 <= i < |ids|
      ensures Fits(rt, ev, ids[i], rec.items[i])
    {
      ElementTypes(rt.md.types, rt.m, ids, vs, i);
    }
  }

  lemma SpecimenMeaning(rt: Runtime, k: (byte, byte), rec: Record)
    requires k in rt.md.events && WellTyped(rt, rec) && (rec.pallet, rec.variant) == k
    requires forall i :: 0 <= i < |rec.items| ==> rec.items[i].Plain?
    ensures var b := Meanings(rt, [rec]);
            |b| == 1 && Matches(b[0].1, rt.md.events[k].pallet, rt.md.events[k].name)
  {
    PlainItemsHaveNoErrors(rt, rec.items);
    assert [rec][1..] == [];
  }

  /** A reported event comes from a well-typed record of a reportable event of that name. */
  lemma {:induction false} ReportedIsReportable(rt: Runtime, rs: seq<Record>, i: nat, pallet: string, variant: string)
    requires forall x :: x in rs ==> WellTyped(rt, x)
    requires i < |Meanings(rt, rs)| && Matches(Meanings(rt, rs)[i].1, pallet, variant)
    ensures exists k :: k in rt.md.events && Named(rt.md.events[k], pallet, variant) && Reportable(rt, rt.md.events[k])
    decreases |rs|
  {
    assert WellTyped(rt, rs[0]);
    var head := Meaning(rt, rs[0]);
    if i < |head| {
      var k := (rs[0].pallet, rs[0].variant);
      var ev := rt.md.events[k];
      EveryDispatchIsAnError(rt, ev, ev.variant.fields, rs[0].items);
      assert ItemErrors(rt, rs[0].items) == [];
      forall j | 0 <= j < |ev.variant.fields|
        ensures !IsDispatchField(rt.md.types, ev, ev.variant.fields[j]) && ev.variant.fields[j] in Live(rt.md.types, rt.m)
      {
        assert Fits(rt, ev, ev.variant.fields[j], rs[0].items[j]);
        if rs[0].items[j].Dispatch? {
          SomeDispatch(rs[0].items, j);
        } else {
          ValueReached(rt.md.types, rt.m, true, ev.variant.fields[j], rs[0].items[j].v);
        }
      }
      assert Named(ev, pallet, variant) && Reportable(rt, ev);
    } else {
      ReportedIsReportable(rt, rs[1..], i - |head|, pallet, variant);
    }
  }

  lemma {:induction false} FoundIsReportable(fuel: nat, rt: Runtime, pallet: string, variant: string, msgs: seq<string>)
    requires LawfulRuntime(rt) && WaitSpec(fuel, rt, pallet, variant, msgs).0.Found?
    ensures exists k :: k in rt.md.events && Named(rt.md.events[k], pallet, variant) && Reportable(rt, rt.md.events[k])
    decreases |msgs|
  {
    hide DecodeEvents, WellTyped, Meanings, Reportable, FromHex;
    var head := Interpret(fuel, rt, msgs[0]);
    if head.Decoded? && FirstMatch(head.batch, pallet, variant).Some? {
      var i: nat :| i < |head.batch| && Matches(head.batch[i].1, pallet, variant);
      var rs := BatchSound(fuel, rt, FromHex(msgs[0]).value);
      ReportedIsReportable(rt, rs, i, pallet, variant);
    } else {
      FoundIsReportable(fuel, rt, pallet, variant, msgs[1..]);
    }
  }

  /** Some stream lets a caller find an event of these names iff the metadata has such an event without
      dispatch-error fields and with fields the decoder can accept. */
  lemma FoundIffReportable(rt: Runtime, pallet: string, variant: string)
    requires LawfulRuntime(rt)
    ensures (exists fuel: nat, msgs :: WaitSpec(fuel, rt, pallet, variant, msgs).0.Found?)
       <==> (exists k :: k in rt.md.events && Named(rt.md.events[k], pallet, variant) && Reportable(rt, rt.md.events[k]))
  {
    hide Reportable, Interpret;
    if fuel: nat, msgs :| WaitSpec(fuel, rt, pallet, variant, msgs).0.Found? {
      FoundIsReportable(fuel, rt, pallet, variant, msgs);
    }
    if k :| k in rt.md.events && Named(rt.md.events[k], pallet, variant) && Reportable(rt, rt.md.events[k]) {
      var fuel, msg := Announcement(rt, k);
      assert WaitSpec(fuel, rt, pallet, variant, [msg]).0.Found?;
    }
  }

  /** Where every `System::ExtrinsicFailed` carries a dispatch error, waiting for that event never
      succeeds, on any stream. */
  lemma NeverFindsExtrinsicFailed(fuel: nat, rt: Runtime, msgs: seq<string>)
    requires LawfulRuntime(rt) && FailuresCarryErrors(rt.md)
    ensures !WaitSpec(fuel, rt, "System", "ExtrinsicFailed", msgs).0.Found?
  {
    FoundIffReportable(rt, "System", "ExtrinsicFailed");
  }

  /** The event has no dispatch-error field, and every field has a reference value without compact
      parts. */
  ghost predicate ReportableAsWritten(types: Types, ev: Entry)
  {
    forall i :: 0 <= i < |ev.variant.fields| ==>
      !IsDispatchField(types, ev, ev.variant.fields[i]) && HasCompactFreeValue(types, ev.variant.fields[i])
  }

  /** For the code as written, in terms of the standard, where the tag lookups agree on what the fields of
      the named events can visit: an event one of whose fields always has a compact part can never be
      waited for, and any other, short of dispatch errors, can. */
  lemma FoundAsWrittenIff(rt: Runtime, pallet: string, variant: string, ids: iset<nat>)
    requires LawfulRuntime(rt) && rt.m == AS_WRITTEN && Closed(rt.md.types, AS_WRITTEN, ids) && TagsAgree(rt.md.types, ids)
    requires forall k :: k in rt.md.events && Named(rt.md.events[k], pallet, variant) ==> AllIn(rt.md.events[k].variant.fields, ids)
    ensures (exists fuel: nat, msgs :: WaitSpec(fuel, rt, pallet, variant, msgs).0.Found?)
       <==> (exists k :: k in rt.md.events && Named(rt.md.events[k], pallet, variant) && ReportableAsWritten(rt.md.types, rt.md.events[k]))
  {
    hide WaitSpec, Closed, TagsAgree;
    FoundIffReportable(rt, pallet, variant);
    forall k | k in rt.md.events && Named(rt.md.events[k], pallet, variant)
      ensures Reportable(rt, rt.md.events[k]) <==> ReportableAsWritten(rt.md.types, rt.md.events[k])
    {
      var fields := rt.md.events[k].variant.fields;
      forall i | 0 <= i < |fields|
        ensures fields[i] in Live(rt.md.types, rt.m) <==> HasCompactFreeValue(rt.md.types, fields[i])
      {
        LiveAsWrittenIff(rt.md.types, ids, fields[i]);
      }
    }
  }

  // ------------------------------------------------------------ enough fuel

  /** The decoder terminates at the fields of every event. */
  ghost predicate Terminating(rt: Runtime)
  {
    forall k, i :: k in rt.md.events && 0 <= i < |rt.md.events[k].variant.fields|
                   ==> HaltsOnAll(rt.md.types, rt.m, rt.md.events[k].variant.fields[i])
  }

  lemma {:induction false} FieldsHalt(rt: Runtime, ev: Entry, ids: seq<nat>, s: seq<byte>) returns (fuel: nat)
    requires forall i :: 0 <= i < |ids| ==> HaltsOnAll(rt.md.types, rt.m, ids[i])
    ensures !DecodeFields(fuel, rt, ev, ids, s).Exhausted?
    decreases |ids|
  {
    hide Transcode, FromDispatch, IsDispatchField;
    fuel := 0;
    if ids != [] {
      assert HaltsOnAll(rt.md.types, rt.m, ids[0]) && Halts(rt.md.types, rt.m, ids[0], s);
      var f: nat :| !Transcode(f, rt.md.types, rt.m, ids[0], s).Exhausted?;
      fuel := f;
      var head := DecodeField(f, rt, ev, ids[0], s);
      if head.Done? {
        var g := FieldsHalt(rt, ev, ids[1..], head.rest);
        fuel := if f < g then g else f;
        MoreFuelField(f, fuel, rt, ev, ids[0], s);
        MoreFuelFields(g, fuel, rt, ev, ids[1..], head.rest);
      }
    }
  }

  lemma {:induction false} RecordsHalt(rt: Runtime, n: nat, s: seq<byte>) returns (fuel: nat)
    requires Terminating(rt)
    ensures !DecodeRecords(fuel, rt, n, s).Exhausted?
    decreases n
  {
    hide DecodeRecord;
    fuel := 0;
    if n > 0 {
      var f := RecordHalts(rt, s);
      fuel := f;
      var head := DecodeRecord(f, rt, s);
      if head.Done? {
        var g := RecordsHalt(rt, n - 1, head.rest);
        fuel := if f < g then g else f;
        MoreFuelRecord(f, fuel, rt, s);
        MoreFuelRecords(g, fuel, rt, n - 1, head.rest);
      }
    }
  }

  lemma RecordHalts(rt: Runtime, s: seq<byte>) returns (fuel: nat)
    requires Terminating(rt)
    ensures !DecodeRecord(fuel, rt, s).Exhausted?
  {
    hide DecodePhase, DecodeTopics, DecodeFields, Report;
    fuel := 0;
    var phase := DecodePhase(s);
    if phase.Read? && |phase.rest| >= 2 && (phase.rest[0], phase.rest[1]) in rt.md.events {
      var ev := rt.md.events[(phase.rest[0], phase.rest[1])];
      fuel := FieldsHalt(rt, ev, ev.variant.fields, phase.rest[2..]);
    }
  }

  /** Where the decoder terminates at the fields of events, one bound serves a whole stream. */
  lemma {:induction false} StreamHalts(rt: Runtime, msgs: seq<string>) returns (fuel: nat)
    requires Terminating(rt)
    ensures forall i :: 0 <= i < |msgs| ==> !Interpret(fuel, rt, msgs[i]).Unfinished?
    decreases |msgs|
  {
    hide DecodeRecords, DecodeCompact, FromHex;
    fuel := 0;
    if msgs != [] {
      var rest := StreamHalts(rt, msgs[1..]);
      var f := 0;
      var bs := FromHex(msgs[0]);
      if bs.Some? && DecodeCompact(4, bs.value).Read? {
        f := RecordsHalt(rt, DecodeCompact(4, bs.value).value, DecodeCompact(4, bs.value).rest);
      }
      fuel := if f < rest then rest else f;
      forall i | 0 <= i < |msgs|
        ensures !Interpret(fuel, rt, msgs[i]).Unfinished?
      {
        MoreFuelInterpret(if i == 0 then f else rest, fuel, rt, if i == 0 then msgs[0] else msgs[1..][i - 1]);
      }
    }
  }

  lemma MoreFuelInterpret(f: nat, g: nat, rt: Runtime, msg: string)
    requires f <= g && !Interpret(f, rt, msg).Unfinished?
    ensures Interpret(g, rt, msg) == Interpret(f, rt, msg)
  {
    hide DecodeRecords, DecodeCompact, FromHex;
    var bs := FromHex(msg);
    if bs.Some? && DecodeCompact(4, bs.value).Read? {
      MoreFuelRecords(f, g, rt, DecodeCompact(4, bs.value).value, DecodeCompact(4, bs.value).rest);
    }
  }
}
