/** Decoding of event batches and of calls, against a reference encoding of event records. */
module Events {
  import opened Scale
  import opened Registry
  import opened Decoder
  import opened Metadata

  datatype Phase = ApplyExtrinsic(n: nat) | Finalization | Initialization

  datatype DispatchError =
    | Other | CannotLookup | BadOrigin
    | Module(index: byte, error: (byte, byte, byte, byte))  // only the first error byte is looked up
    | ConsumerRemaining | NoProviders | TooManyConsumers
    | Token(kind: byte) | Arithmetic(kind: byte) | Transactional(kind: byte)

  datatype RuntimeError =
    | PalletError(pallet: string, error: string)
    | RConsumerRemaining | RTooManyConsumers | RNoProviders | RBadOrigin | RCannotLookup
    | ROther(message: string)

  datatype RawEvent = RawEvent(pallet: string, palletIndex: byte, variant: string, variantIndex: byte, data: seq<byte>)
  datatype Raw = Event(event: RawEvent) | Error(error: RuntimeError)

  /** The metadata and lookup mode of a decoder, and the foreign codec of dispatch errors. */
  datatype Runtime = Runtime(md: Metadata, m: Mode, dispatch: Codec<DispatchError>)

  ghost predicate LawfulRuntime(rt: Runtime)
  {
    Lawful(rt.dispatch)
  }

  function FromDispatch(md: Metadata, e: DispatchError): (r: Result<RuntimeError>)
  {
    match e
    case Module(index, error) =>
      if (index, error.0) !in md.errors then Err(ErrorNotFound(index, error.0)) else
      var found := md.errors[(index, error.0)];
      Ok(PalletError(found.pallet, found.name))
    case BadOrigin => Ok(RBadOrigin)
    case CannotLookup => Ok(RCannotLookup)
    case ConsumerRemaining => Ok(RConsumerRemaining)
    case TooManyConsumers => Ok(RTooManyConsumers)
    case NoProviders => Ok(RNoProviders)
    case Arithmetic(_) => Ok(ROther("math_error"))
    case Token(_) => Ok(ROther("token error"))
    case Transactional(_) => Ok(ROther("transactional error"))
    case Other => Ok(ROther(""))
  }

  // ------------------------------------------------------------ specification of the decoder

  function DecodePhase(s: seq<byte>): (r: Parsed<Phase>)
  {
    if s == [] then Malformed
    else if s[0] == 0 then
      var n := DecodeInt(4, false, s[1..]);
      if n.Malformed? then Malformed else Read(ApplyExtrinsic(n.value), n.rest)
    else if s[0] == 1 then Read(Finalization, s[1..])
    else if s[0] == 2 then Read(Initialization, s[1..])
    else Malformed
  }

  function DecodeHashes(n: nat, s: seq<byte>): (r: Parsed<seq<seq<byte>>>)
  {
    if n == 0 then Read([], s)
    else if |s| < 32 then Malformed
    else
      var rest := DecodeHashes(n - 1, s[32..]);
      if rest.Malformed? then Malformed else Read([s[..32]] + rest.value, rest.rest)
  }

  function DecodeTopics(s: seq<byte>): (r: Parsed<seq<seq<byte>>>)
  {
    var n := DecodeCompact(4, s);
    if n.Malformed? then Malformed else DecodeHashes(n.value, n.rest)
  }

  /** Fields of `System::ExtrinsicFailed` whose type is named `DispatchError`. */
  predicate IsDispatchField(types: Types, ev: Entry, id: nat)
  {
    && ev.pallet == "System" && ev.name == "ExtrinsicFailed" && id < |types|
    && types[id].path != [] && types[id].path[|types[id].path| - 1] == "DispatchError"
  }

  datatype Payload = Payload(data: seq<byte>, errors: seq<RuntimeError>)

  function DecodeField(fuel: nat, rt: Runtime, ev: Entry, id: nat, s: seq<byte>): (r: Outcome<Payload>)
  {
    if IsDispatchField(rt.md.types, ev, id) then
      var d := rt.dispatch.dec(s);
      if d.Malformed? then Failed(CodecError) else
      var e := FromDispatch(rt.md, d.value);
      if e.Err? then Failed(e.error) else Done(Payload(rt.dispatch.enc(d.value), [e.value]), d.rest)
    else
      match Transcode(fuel, rt.md.types, rt.m, id, s)
      case Done(out, rest) => Done(Payload(out, []), rest)
      case Failed(e) => Failed(e)
      case Exhausted => Exhausted
  }

  function DecodeFields(fuel: nat, rt: Runtime, ev: Entry, ids: seq<nat>, s: seq<byte>): (r: Outcome<Payload>)
  {
    if ids == [] then Done(Payload([], []), s) else
    var head := DecodeField(fuel, rt, ev, ids[0], s);
    if !head.Done? then head else PrependPayload(head.value, DecodeFields(fuel, rt, ev, ids[1..], head.rest))
  }

  function PrependPayload(p: Payload, o: Outcome<Payload>): (r: Outcome<Payload>)
  {
    if o.Done? then Done(Payload(p.data + o.value.data, p.errors + o.value.errors), o.rest) else o
  }

  type Batch = seq<(Phase, Raw)>

  /** What one record contributes: its event, or only its errors. */
  function Report(phase: Phase, e: RawEvent, errors: seq<RuntimeError>): (r: Batch)
    ensures |r| == if errors == [] then 1 else |errors|
  {
    if errors == [] then [(phase, Event(e))]
    else seq(|errors|, i requires 0 <= i < |errors| => (phase, Error(errors[i])))
  }

  function DecodeRecord(fuel: nat, rt: Runtime, s: seq<byte>): (r: Outcome<Batch>)
  {
    var phase := DecodePhase(s);
    if phase.Malformed? || |phase.rest| < 2 then Failed(CodecError) else
    var p, v := phase.rest[0], phase.rest[1];
    if (p, v) !in rt.md.events then Failed(EventNotFound(p, v)) else
    var ev := rt.md.events[(p, v)];
    var body := DecodeFields(fuel, rt, ev, ev.variant.fields, phase.rest[2..]);
    if body.Failed? then Failed(body.error) else if body.Exhausted? then Exhausted else
    var topics := DecodeTopics(body.rest);
    if topics.Malformed? then Failed(CodecError) else
    Done(Report(phase.value, RawEvent(ev.pallet, p, ev.name, v, body.value.data), body.value.errors), topics.rest)
  }

  function DecodeRecords(fuel: nat, rt: Runtime, n: nat, s: seq<byte>): (r: Outcome<Batch>)
  {
    if n == 0 then Done([], s) else
    var head := DecodeRecord(fuel, rt, s);
    if !head.Done? then head else PrependBatch(head.value, DecodeRecords(fuel, rt, n - 1, head.rest))
  }

  function PrependBatch(b: Batch, o: Outcome<Batch>): (r: Outcome<Batch>)
  {
    if o.Done? then Done(b + o.value, o.rest) else o
  }

  function DecodeEvents(fuel: nat, rt: Runtime, s: seq<byte>): (r: Outcome<Batch>)
  {
    var n := DecodeCompact(4, s);
    if n.Malformed? then Failed(CodecError) else DecodeRecords(fuel, rt, n.value, n.rest)
  }

  /** The call named by the first two bytes, and what follows its arguments. */
  function DecodeCall(fuel: nat, rt: Runtime, s: seq<byte>): (r: Outcome<Entry>)
  {
    if |s| < 2 then Failed(CodecError)
    else if (s[0], s[1]) !in rt.md.calls then Failed(CallableNotFound(s[0], s[1]))
    else
      var e := rt.md.calls[(s[0], s[1])];
      match TranscodeAll(fuel, rt.md.types, rt.m, e.variant.fields, s[2..])
      case Done(_, rest) => Done(e, rest)
      case Failed(err) => Failed(err)
      case Exhausted => Exhausted
  }

  // ------------------------------------------------------------ reference encoding of records

  datatype Item = Plain(v: Value) | Dispatch(e: DispatchError)
  datatype Record = Record(phase: Phase, pallet: byte, variant: byte, items: seq<Item>, topics: seq<seq<byte>>)

  function EncodePhase(p: Phase): (s: seq<byte>)
  {
    match p
    case ApplyExtrinsic(n) => [0] + EncodeInt(4, n)
    case Finalization => [1]
    case Initialization => [2]
  }

  function EncodeItem(rt: Runtime, i: Item): (s: seq<byte>)
  {
    match i
    case Plain(v) => Encode(v)
    case Dispatch(e) => rt.dispatch.enc(e)
  }

  function EncodeItems(rt: Runtime, items: seq<Item>): (s: seq<byte>)
  {
    if items == [] then [] else EncodeItem(rt, items[0]) + EncodeItems(rt, items[1..])
  }

  function Flatten(ts: seq<seq<byte>>): (s: seq<byte>)
  {
    if ts == [] then [] else ts[0] + Flatten(ts[1..])
  }

  function EncodeRecord(rt: Runtime, r: Record): (s: seq<byte>)
  {
    EncodePhase(r.phase) + [r.pallet, r.variant] + EncodeItems(rt, r.items) + EncodeCompact(|r.topics|) + Flatten(r.topics)
  }

  function EncodeRecords(rt: Runtime, rs: seq<Record>): (s: seq<byte>)
  {
    if rs == [] then [] else EncodeRecord(rt, rs[0]) + EncodeRecords(rt, rs[1..])
  }

  function EncodeBatch(rt: Runtime, rs: seq<Record>): (s: seq<byte>)
  {
    EncodeCompact(|rs|) + EncodeRecords(rt, rs)
  }

  predicate Fits(rt: Runtime, ev: Entry, id: nat, i: Item)
  {
    if IsDispatchField(rt.md.types, ev, id) then
      i.Dispatch? && rt.dispatch.wf(i.e) && FromDispatch(rt.md, i.e).Ok?
    else
      i.Plain? && HasType(rt.md.types, rt.m, id, i.v)
  }

  predicate FitAll(rt: Runtime, ev: Entry, ids: seq<nat>, items: seq<Item>)
  {
    |ids| == |items| && forall k :: 0 <= k < |ids| ==> Fits(rt, ev, ids[k], items[k])
  }

  predicate WellTyped(rt: Runtime, r: Record)
  {
    && (r.phase.ApplyExtrinsic? ==> r.phase.n < 0x1_0000_0000)
    && (r.pallet, r.variant) in rt.md.events
    && FitAll(rt, rt.md.events[(r.pallet, r.variant)], rt.md.events[(r.pallet, r.variant)].variant.fields, r.items)
    && |r.topics| < 0x1_0000_0000 && forall t :: t in r.topics ==> |t| == 32
  }

  function ItemErrors(rt: Runtime, items: seq<Item>): (errs: seq<RuntimeError>)
  {
    if items == [] then []
    else if items[0].Plain? || FromDispatch(rt.md, items[0].e).Err? then ItemErrors(rt, items[1..])
    else [FromDispatch(rt.md, items[0].e).value] + ItemErrors(rt, items[1..])
  }

  function DispatchCount(items: seq<Item>): (n: nat)
  {
    if items == [] then 0 else (if items[0].Dispatch? then 1 else 0) + DispatchCount(items[1..])
  }

  /** What a well-typed record stands for. */
  function Meaning(rt: Runtime, r: Record): (b: Batch)
    requires WellTyped(rt, r)
  {
    var ev := rt.md.events[(r.pallet, r.variant)];
    Report(r.phase, RawEvent(ev.pallet, r.pallet, ev.name, r.variant, EncodeItems(rt, r.items)), ItemErrors(rt, r.items))
  }

  function Meanings(rt: Runtime, rs: seq<Record>): (b: Batch)
    requires forall r :: r in rs ==> WellTyped(rt, r)
  {
    if rs == [] then [] else Meaning(rt, rs[0]) + Meanings(rt, rs[1..])
  }

  // ------------------------------------------------------------ leaves

  lemma PhaseRoundTrip(p: Phase, r: seq<byte>)
    requires p.ApplyExtrinsic? ==> p.n < 0x1_0000_0000
    ensures DecodePhase(EncodePhase(p) + r) == Read(p, r)
  {
    if p.ApplyExtrinsic? {
      PowLiterals();
      assert (EncodePhase(p) + r)[1..] == EncodeInt(4, p.n) + r;
      IntRoundTrip(4, false, p.n, r);
    } else {
      assert (EncodePhase(p) + r)[1..] == r;
    }
  }

  lemma PhaseCanonical(s: seq<byte>)
    requires DecodePhase(s).Read?
    ensures var d := DecodePhase(s); s == EncodePhase(d.value) + d.rest && (d.value.ApplyExtrinsic? ==> d.value.n < 0x1_0000_0000)
  {
    assert s == [s[0]] + s[1..];
    if s[0] == 0 {
      PowLiterals();
      IntCanonical(4, false, s[1..]);
      var d := DecodePhase(s);
      assert [0] + (EncodeInt(4, d.value.n) + d.rest) == ([0] + EncodeInt(4, d.value.n)) + d.rest;
    }
  }

  lemma {:induction false} HashesRoundTrip(ts: seq<seq<byte>>, r: seq<byte>)
    requires forall t :: t in ts ==> |t| == 32
    ensures DecodeHashes(|ts|, Flatten(ts) + r) == Read(ts, r)
  {
    if ts == [] {
      assert [] + r == r;
    } else {
      HashesRoundTrip(ts[1..], r);
      JoinAt32(ts[0], Flatten(ts[1..]), r);
      assert [ts[0]] + ts[1..] == ts;
    }
  }

  lemma {:induction false} HashesCanonical(n: nat, s: seq<byte>)
    requires DecodeHashes(n, s).Read?
    ensures var d := DecodeHashes(n, s);
            |d.value| == n && (forall t :: t in d.value ==> |t| == 32) && s == Flatten(d.value) + d.rest
  {
    if n > 0 {
      HashesCanonical(n - 1, s[32..]);
      var d, tail := DecodeHashes(n, s), DecodeHashes(n - 1, s[32..]);
      assert d.value[1..] == tail.value;
      assert s[32..] == Flatten(tail.value) + d.rest;
      SplitAt32(s, Flatten(tail.value), d.rest);
    }
  }

  lemma JoinAt32(t: seq<byte>, a: seq<byte>, r: seq<byte>)
    requires |t| == 32
    ensures (t + a + r)[..32] == t && (t + a + r)[32..] == a + r
  {
    assert t + a + r == t + (a + r);
  }

  lemma SplitAt32(s: seq<byte>, a: seq<byte>, r: seq<byte>)
    requires |s| >= 32 && s[32..] == a + r
    ensures s == s[..32] + a + r
  {
    assert s == s[..32] + s[32..];
  }

  lemma TopicsRoundTrip(ts: seq<seq<byte>>, r: seq<byte>)
    requires |ts| < 0x1_0000_0000 && forall t :: t in ts ==> |t| == 32
    ensures DecodeTopics(EncodeCompact(|ts|) + Flatten(ts) + r) == Read(ts, r)
  {
    hide EncodeCompact, DecodeCompact, DecodeHashes, Flatten;
    PowLiterals();
    assert EncodeCompact(|ts|) + Flatten(ts) + r == EncodeCompact(|ts|) + (Flatten(ts) + r);
    CompactRoundTrip(4, |ts|, Flatten(ts) + r);
    HashesRoundTrip(ts, r);
  }

  lemma TopicsCanonical(s: seq<byte>)
    requires DecodeTopics(s).Read?
    ensures var d := DecodeTopics(s);
            && s == EncodeCompact(|d.value|) + Flatten(d.value) + d.rest
            && |d.value| < 0x1_0000_0000 && forall t :: t in d.value ==> |t| == 32
  {
    hide EncodeCompact, DecodeCompact, DecodeHashes, Flatten;
    PowLiterals();
    CompactCanonical(4, s);
    var n, d := DecodeCompact(4, s), DecodeTopics(s);
    HashesCanonical(n.value, n.rest);
    assert EncodeCompact(n.value) + (Flatten(d.value) + d.rest) == EncodeCompact(n.value) + Flatten(d.value) + d.rest;
  }

  // ------------------------------------------------------------ more fuel

  lemma {:induction false} MoreFuelFields(f: nat, g: nat, rt: Runtime, ev: Entry, ids: seq<nat>, s: seq<byte>)
    requires f <= g && !DecodeFields(f, rt, ev, ids, s).Exhausted?
    ensures DecodeFields(g, rt, ev, ids, s) == DecodeFields(f, rt, ev, ids, s)
    decreases |ids|
  {
    hide Transcode, FromDispatch;
    if ids != [] {
      if !IsDispatchField(rt.md.types, ev, ids[0]) { MoreFuel(f, g, rt.md.types, rt.m, ids[0], s); }
      var head := DecodeField(f, rt, ev, ids[0], s);
      if head.Done? { MoreFuelFields(f, g, rt, ev, ids[1..], head.rest); }
    }
  }

  lemma MoreFuelRecord(f: nat, g: nat, rt: Runtime, s: seq<byte>)
    requires f <= g && !DecodeRecord(f, rt, s).Exhausted?
    ensures DecodeRecord(g, rt, s) == DecodeRecord(f, rt, s)
  {
    hide DecodePhase, DecodeTopics, DecodeFields, Report;
    var phase := DecodePhase(s);
    if phase.Read? && |phase.rest| >= 2 && (phase.rest[0], phase.rest[1]) in rt.md.events {
      var ev := rt.md.events[(phase.rest[0], phase.rest[1])];
      MoreFuelFields(f, g, rt, ev, ev.variant.fields, phase.rest[2..]);
    }
  }

  lemma {:induction false} MoreFuelRecords(f: nat, g: nat, rt: Runtime, n: nat, s: seq<byte>)
    requires f <= g && !DecodeRecords(f, rt, n, s).Exhausted?
    ensures DecodeRecords(g, rt, n, s) == DecodeRecords(f, rt, n, s)
    decreases n
  {
    hide DecodeRecord;
    if n > 0 {
      MoreFuelRecord(f, g, rt, s);
      var head := DecodeRecord(f, rt, s);
      if head.Done? { MoreFuelRecords(f, g, rt, n - 1, head.rest); }
    }
  }

  // ------------------------------------------------------------ fields

  lemma {:induction false} FieldsComplete(rt: Runtime, ev: Entry, ids: seq<nat>, items: seq<Item>, r: seq<byte>) returns (fuel: nat)
    requires LawfulRuntime(rt) && FitAll(rt, ev, ids, items)
    ensures DecodeFields(fuel, rt, ev, ids, EncodeItems(rt, items) + r)
         == Done(Payload(EncodeItems(rt, items), ItemErrors(rt, items)), r)
    decreases |items|
  {
    if items == [] {
      fuel := 0;
      assert EncodeItems(rt, items) + r == r;
    } else {
      var t := EncodeItems(rt, items[1..]) + r;
      assert EncodeItems(rt, items) + r == EncodeItem(rt, items[0]) + t;
      var f := FieldComplete(rt, ev, ids[0], items[0], t);
      var g := FieldsComplete(rt, ev, ids[1..], items[1..], r);
      fuel := if f < g then g else f;
      MoreFuelField(f, fuel, rt, ev, ids[0], EncodeItem(rt, items[0]) + t);
      MoreFuelFields(g, fuel, rt, ev, ids[1..], t);
      assert [] + ItemErrors(rt, items[1..]) == ItemErrors(rt, items[1..]);
    }
  }

  lemma MoreFuelField(f: nat, g: nat, rt: Runtime, ev: Entry, id: nat, s: seq<byte>)
    requires f <= g && !DecodeField(f, rt, ev, id, s).Exhausted?
    ensures DecodeField(g, rt, ev, id, s) == DecodeField(f, rt, ev, id, s)
  {
    hide Transcode, FromDispatch;
    if !IsDispatchField(rt.md.types, ev, id) { MoreFuel(f, g, rt.md.types, rt.m, id, s); }
  }

  lemma FieldComplete(rt: Runtime, ev: Entry, id: nat, i: Item, r: seq<byte>) returns (fuel: nat)
    requires LawfulRuntime(rt) && Fits(rt, ev, id, i)
    ensures DecodeField(fuel, rt, ev, id, EncodeItem(rt, i) + r)
         == Done(Payload(EncodeItem(rt, i), if i.Plain? then [] else [FromDispatch(rt.md, i.e).value]), r)
  {
    if i.Plain? {
      fuel := Complete(rt.md.types, rt.m, id, i.v, r);
    } else {
      fuel := 0;
      assert rt.dispatch.dec(rt.dispatch.enc(i.e) + r) == Read(i.e, r);
    }
  }

  lemma {:induction false} FieldsSound(fuel: nat, rt: Runtime, ev: Entry, ids: seq<nat>, s: seq<byte>) returns (items: seq<Item>)
    requires LawfulRuntime(rt) && DecodeFields(fuel, rt, ev, ids, s).Done?
    ensures FitAll(rt, ev, ids, items)
    ensures var o := DecodeFields(fuel, rt, ev, ids, s);
            s == EncodeItems(rt, items) + o.rest && o.value == Payload(EncodeItems(rt, items), ItemErrors(rt, items))
    decreases |ids|
  {
    hide *;
    if ids == [] {
      NoFields(fuel, rt, ev, s);
      items := [];
    } else {
      FieldsStep(fuel, rt, ev, ids, s);
      var i := FieldSound(fuel, rt, ev, ids[0], s);
      var head := DecodeField(fuel, rt, ev, ids[0], s);
      var tail := FieldsSound(fuel, rt, ev, ids[1..], head.rest);
      items := [i] + tail;
      FitCons(rt, ev, ids, i, tail);
      var rest := DecodeFields(fuel, rt, ev, ids[1..], head.rest).rest;
      assert EncodeItem(rt, i) + (EncodeItems(rt, tail) + rest) == EncodeItem(rt, i) + EncodeItems(rt, tail) + rest;
    }
  }

  lemma NoFields(fuel: nat, rt: Runtime, ev: Entry, s: seq<byte>)
    ensures DecodeFields(fuel, rt, ev, [], s) == Done(Payload([], []), s)
    ensures FitAll(rt, ev, [], []) && EncodeItems(rt, []) == [] && ItemErrors(rt, []) == []
  {
  }

  /** A finished run over fields is the run of the first followed by that of the others. */
  lemma FieldsStep(fuel: nat, rt: Runtime, ev: Entry, ids: seq<nat>, s: seq<byte>)
    requires ids != [] && DecodeFields(fuel, rt, ev, ids, s).Done?
    ensures DecodeField(fuel, rt, ev, ids[0], s).Done?
    ensures var head := DecodeField(fuel, rt, ev, ids[0], s);
            var tail := DecodeFields(fuel, rt, ev, ids[1..], head.rest);
            && tail.Done?
            && DecodeFields(fuel, rt, ev, ids, s)
            == Done(Payload(head.value.data + tail.value.data, head.value.errors + tail.value.errors), tail.rest)
  {
    hide DecodeField;
  }

  lemma FitCons(rt: Runtime, ev: Entry, ids: seq<nat>, i: Item, tail: seq<Item>)
    requires ids != [] && Fits(rt, ev, ids[0], i) && FitAll(rt, ev, ids[1..], tail)
    ensures FitAll(rt, ev, ids, [i] + tail)
    ensures EncodeItems(rt, [i] + tail) == EncodeItem(rt, i) + EncodeItems(rt, tail)
    ensures ItemErrors(rt, [i] + tail)
         == (if i.Plain? then [] else [FromDispatch(rt.md, i.e).value]) + ItemErrors(rt, tail)
  {
    var items := [i] + tail;
    assert items[1..] == tail;
    assert [] + ItemErrors(rt, tail) == ItemErrors(rt, tail);
    forall k | 0 <= k < |ids|
      ensures Fits(rt, ev, ids[k], items[k])
    {
      if k > 0 { assert Fits(rt, ev, ids[1..][k - 1], tail[k - 1]); }
    }
  }

  lemma FieldSound(fuel: nat, rt: Runtime, ev: Entry, id: nat, s: seq<byte>) returns (i: Item)
    requires LawfulRuntime(rt) && DecodeField(fuel, rt, ev, id, s).Done?
    ensures Fits(rt, ev, id, i)
    ensures var o := DecodeField(fuel, rt, ev, id, s);
            && s == EncodeItem(rt, i) + o.rest
            && o.value == Payload(EncodeItem(rt, i), if i.Plain? then [] else [FromDispatch(rt.md, i.e).value])
  {
    if IsDispatchField(rt.md.types, ev, id) {
      i := Dispatch(rt.dispatch.dec(s).value);
    } else {
      var v := Sound(fuel, rt.md.types, rt.m, id, s);
      i := Plain(v);
    }
  }

  // ------------------------------------------------------------ records

  lemma RecordComplete(rt: Runtime, rec: Record, r: seq<byte>) returns (fuel: nat)
    requires LawfulRuntime(rt) && WellTyped(rt, rec)
    ensures DecodeRecord(fuel, rt, EncodeRecord(rt, rec) + r) == Done(Meaning(rt, rec), r)
  {
    hide DecodePhase, DecodeTopics, DecodeFields, Report, EncodePhase, EncodeItems, EncodeCompact, Flatten, ItemErrors, FitAll, Lawful;
    var ev := rt.md.events[(rec.pallet, rec.variant)];
    var topics := EncodeCompact(|rec.topics|) + Flatten(rec.topics) + r;
    var body := EncodeItems(rt, rec.items) + topics;
    var head := [rec.pallet, rec.variant] + body;
    assert EncodeRecord(rt, rec) + r == EncodePhase(rec.phase) + head;
    PhaseRoundTrip(rec.phase, head);
    assert head[2..] == body;
    fuel := FieldsComplete(rt, ev, ev.variant.fields, rec.items, topics);
    TopicsRoundTrip(rec.topics, r);
  }

  lemma RecordSound(fuel: nat, rt: Runtime, s: seq<byte>) returns (rec: Record)
    requires LawfulRuntime(rt) && DecodeRecord(fuel, rt, s).Done?
    ensures WellTyped(rt, rec)
    ensures var o := DecodeRecord(fuel, rt, s); s == EncodeRecord(rt, rec) + o.rest && o.value == Meaning(rt, rec)
  {
    hide DecodePhase, DecodeTopics, DecodeFields, Report, EncodePhase, EncodeItems, EncodeCompact, Flatten, ItemErrors, FitAll, Lawful;
    PhaseCanonical(s);
    var phase := DecodePhase(s);
    var p, v := phase.rest[0], phase.rest[1];
    var ev := rt.md.events[(p, v)];
    var items := FieldsSound(fuel, rt, ev, ev.variant.fields, phase.rest[2..]);
    var body := DecodeFields(fuel, rt, ev, ev.variant.fields, phase.rest[2..]);
    TopicsCanonical(body.rest);
    var topics := DecodeTopics(body.rest);
    rec := Record(phase.value, p, v, items, topics.value);
    assert phase.rest == [p, v] + phase.rest[2..];
    Concatenation(s, EncodePhase(phase.value), [p, v], EncodeItems(rt, items),
                  EncodeCompact(|topics.value|) + Flatten(topics.value), topics.rest);
    assert EncodePhase(phase.value) + [p, v] + EncodeItems(rt, items) + (EncodeCompact(|topics.value|) + Flatten(topics.value))
        == EncodeRecord(rt, rec);
  }

  lemma Concatenation(s: seq<byte>, a: seq<byte>, b: seq<byte>, c: seq<byte>, d: seq<byte>, e: seq<byte>)
    requires s == a + (b + (c + (d + e)))
    ensures s == (a + b + c + d) + e
  {
  }

  lemma {:induction false} RecordsComplete(rt: Runtime, rs: seq<Record>, r: seq<byte>) returns (fuel: nat)
    requires LawfulRuntime(rt) && forall x :: x in rs ==> WellTyped(rt, x)
    ensures DecodeRecords(fuel, rt, |rs|, EncodeRecords(rt, rs) + r) == Done(Meanings(rt, rs), r)
    decreases |rs|
  {
    hide DecodeRecord, EncodeRecord, Meaning, WellTyped;
    if rs == [] {
      fuel := 0;
      assert EncodeRecords(rt, rs) + r == r;
    } else {
      var t := EncodeRecords(rt, rs[1..]) + r;
      assert EncodeRecords(rt, rs) + r == EncodeRecord(rt, rs[0]) + t;
      var f := RecordComplete(rt, rs[0], t);
      var g := RecordsComplete(rt, rs[1..], r);
      fuel := if f < g then g else f;
      MoreFuelRecord(f, fuel, rt, EncodeRecord(rt, rs[0]) + t);
      MoreFuelRecords(g, fuel, rt, |rs| - 1, t);
    }
  }

  lemma {:induction false} RecordsSound(fuel: nat, rt: Runtime, n: nat, s: seq<byte>) returns (rs: seq<Record>)
    requires LawfulRuntime(rt) && DecodeRecords(fuel, rt, n, s).Done?
    ensures |rs| == n && forall x :: x in rs ==> WellTyped(rt, x)
    ensures var o := DecodeRecords(fuel, rt, n, s); s == EncodeRecords(rt, rs) + o.rest && o.value == Meanings(rt, rs)
    decreases n
  {
    hide DecodeRecord, EncodeRecord, Meaning, WellTyped;
    if n == 0 {
      rs := [];
    } else {
      var rec := RecordSound(fuel, rt, s);
      var head := DecodeRecord(fuel, rt, s);
      var tail := RecordsSound(fuel, rt, n - 1, head.rest);
      rs := [rec] + tail;
      assert rs[1..] == tail;
      var o := DecodeRecords(fuel, rt, n, s);
      assert EncodeRecord(rt, rec) + (EncodeRecords(rt, tail) + o.rest) == EncodeRecords(rt, rs) + o.rest;
    }
  }

  // ------------------------------------------------------------ batches

  /** Any batch of well-typed records, whatever follows it, decodes to exactly what it stands for. */
  lemma BatchComplete(rt: Runtime, rs: seq<Record>, r: seq<byte>) returns (fuel: nat)
    requires LawfulRuntime(rt) && |rs| < 0x1_0000_0000 && forall x :: x in rs ==> WellTyped(rt, x)
    ensures DecodeEvents(fuel, rt, EncodeBatch(rt, rs) + r) == Done(Meanings(rt, rs), r)
  {
    hide DecodeRecords, EncodeRecords, Meanings, EncodeCompact, DecodeCompact, WellTyped;
    PowLiterals();
    var t := EncodeRecords(rt, rs) + r;
    assert EncodeBatch(rt, rs) + r == EncodeCompact(|rs|) + t;
    CompactRoundTrip(4, |rs|, t);
    fuel := RecordsComplete(rt, rs, r);
  }

  /** A batch decodes only if it is the encoding of well-typed records; nothing else is reported. */
  lemma BatchSound(fuel: nat, rt: Runtime, s: seq<byte>) returns (rs: seq<Record>)
    requires LawfulRuntime(rt) && DecodeEvents(fuel, rt, s).Done?
    ensures forall x :: x in rs ==> WellTyped(rt, x)
    ensures var o := DecodeEvents(fuel, rt, s); s == EncodeBatch(rt, rs) + o.rest && o.value == Meanings(rt, rs)
  {
    hide DecodeRecords, EncodeRecords, Meanings, EncodeCompact, DecodeCompact, WellTyped;
    CompactCanonical(4, s);
    var n := DecodeCompact(4, s);
    rs := RecordsSound(fuel, rt, n.value, n.rest);
    var o := DecodeEvents(fuel, rt, s);
    assert EncodeCompact(|rs|) + (EncodeRecords(rt, rs) + o.rest) == EncodeBatch(rt, rs) + o.rest;
  }

  /** A record that fails to decode fails the whole batch with its own error, whatever preceded and
      follows it; under no bound is anything of the batch reported. */
  lemma FailingRecordDiscardsBatch(fuel: nat, rt: Runtime, rs: seq<Record>, more: nat, s: seq<byte>) returns (bound: nat)
    requires LawfulRuntime(rt) && (forall x :: x in rs ==> WellTyped(rt, x)) && |rs| + 1 + more < 0x1_0000_0000
    requires DecodeRecord(fuel, rt, s).Failed?
    ensures var batch := EncodeCompact(|rs| + 1 + more) + (EncodeRecords(rt, rs) + s);
            && DecodeEvents(bound, rt, batch) == Failed(DecodeRecord(fuel, rt, s).error)
            && forall g: nat :: !DecodeEvents(g, rt, batch).Done?
  {
    hide DecodeRecords, EncodeRecords, EncodeCompact, DecodeCompact, WellTyped, DecodeRecord;
    PowLiterals();
    var n, tail := |rs| + 1 + more, EncodeRecords(rt, rs) + s;
    CompactRoundTrip(4, n, tail);
    bound := FailingRecord(fuel, rt, rs, more, s);
    forall g: nat
      ensures !DecodeRecords(g, rt, n, tail).Done?
    {
      if DecodeRecords(g, rt, n, tail).Done? {
        MoreFuelRecords(g, g + bound, rt, n, tail);
        MoreFuelRecords(bound, g + bound, rt, n, tail);
      }
    }
  }

  lemma {:induction false} FailingRecord(fuel: nat, rt: Runtime, rs: seq<Record>, more: nat, s: seq<byte>) returns (bound: nat)
    requires LawfulRuntime(rt) && (forall x :: x in rs ==> WellTyped(rt, x)) && DecodeRecord(fuel, rt, s).Failed?
    ensures DecodeRecords(bound, rt, |rs| + 1 + more, EncodeRecords(rt, rs) + s) == Failed(DecodeRecord(fuel, rt, s).error)
    decreases |rs|
  {
    hide DecodeRecord, EncodeRecord, WellTyped;
    if rs == [] {
      bound := fuel;
      assert EncodeRecords(rt, rs) + s == s;
    } else {
      var t := EncodeRecords(rt, rs[1..]) + s;
      assert EncodeRecords(rt, rs) + s == EncodeRecord(rt, rs[0]) + t;
      var g := FailingRecord(fuel, rt, rs[1..], more, s);
      var f := RecordComplete(rt, rs[0], t);
      bound := if f < g then g else f;
      MoreFuelRecord(f, bound, rt, EncodeRecord(rt, rs[0]) + t);
      MoreFuelRecords(g, bound, rt, |rs[1..]| + 1 + more, t);
    }
  }

  // ------------------------------------------------------------ conservation

  function ReportSize(r: Record): (n: nat)
  {
    if DispatchCount(r.items) == 0 then 1 else DispatchCount(r.items)
  }

  function TotalSize(rs: seq<Record>): (n: nat)
  {
    if rs == [] then 0 else ReportSize(rs[0]) + TotalSize(rs[1..])
  }

  lemma {:induction false} EveryDispatchIsAnError(rt: Runtime, ev: Entry, ids: seq<nat>, items: seq<Item>)
    requires FitAll(rt, ev, ids, items)
    ensures |ItemErrors(rt, items)| == DispatchCount(items)
    decreases |items|
  {
    if items != [] {
      assert Fits(rt, ev, ids[0], items[0]);
      EveryDispatchIsAnError(rt, ev, ids[1..], items[1..]);
    }
  }

  /** One entry for a record without dispatch errors, one per error for a record with some. */
  lemma {:induction false} BatchSize(rt: Runtime, rs: seq<Record>)
    requires forall x :: x in rs ==> WellTyped(rt, x)
    ensures |Meanings(rt, rs)| == TotalSize(rs)
  {
    if rs != [] {
      assert WellTyped(rt, rs[0]);
      var ev := rt.md.events[(rs[0].pallet, rs[0].variant)];
      EveryDispatchIsAnError(rt, ev, ev.variant.fields, rs[0].items);
      BatchSize(rt, rs[1..]);
    }
  }

  // ------------------------------------------------------------ extrinsic failures are never events

  ghost predicate FailuresCarryErrors(md: Metadata)
  {
    forall k :: k in md.events && md.events[k].pallet == "System" && md.events[k].name == "ExtrinsicFailed" ==>
      exists i :: 0 <= i < |md.events[k].variant.fields| && IsDispatchField(md.types, md.events[k], md.events[k].variant.fields[i])
  }

  predicate IsFailure(r: Raw)
  {
    r.Event? && r.event.pallet == "System" && r.event.variant == "ExtrinsicFailed"
  }

  lemma {:induction false} SomeDispatch(items: seq<Item>, i: nat)
    requires i < |items| && items[i].Dispatch?
    ensures DispatchCount(items) > 0
  {
    if i > 0 { SomeDispatch(items[1..], i - 1); }
  }

  lemma {:induction false} FailuresNeverReported(rt: Runtime, rs: seq<Record>)
    requires FailuresCarryErrors(rt.md) && forall x :: x in rs ==> WellTyped(rt, x)
    ensures forall e :: e in Meanings(rt, rs) ==> !IsFailure(e.1)
  {
    if rs != [] {
      assert WellTyped(rt, rs[0]);
      var ev := rt.md.events[(rs[0].pallet, rs[0].variant)];
      EveryDispatchIsAnError(rt, ev, ev.variant.fields, rs[0].items);
      if ev.pallet == "System" && ev.name == "ExtrinsicFailed" {
        var i :| 0 <= i < |ev.variant.fields| && IsDispatchField(rt.md.types, ev, ev.variant.fields[i]);
        assert Fits(rt, ev, ev.variant.fields[i], rs[0].items[i]);
        SomeDispatch(rs[0].items, i);
      }
      FailuresNeverReported(rt, rs[1..]);
    }
  }

  // ------------------------------------------------------------ calls

  /** Decoding what `encode_call` produced looks up exactly that call, and stops behind arguments
      that encode its fields. */
  lemma CallRoundTrip(raw: RuntimeMetadata, rt: Runtime, p: string, c: string, args: seq<Value>, r: seq<byte>) returns (fuel: nat)
    requires TryFrom(raw).Valid? && rt.md == TryFrom(raw).value
    requires DistinctEntryNames(raw.types, raw.pallets, Calls) && DistinctKeys(Rows(raw.types, raw.pallets, Calls).value)
    requires EncodeCall(rt.md, p, c, EncodeAll(args)).Encoded?
    ensures var key := (rt.md.pallets[p].index, rt.md.pallets[p].calls[c]);
            && key in rt.md.calls && rt.md.calls[key].pallet == p && rt.md.calls[key].name == c
            && IsEntry(raw.types, raw.pallets, Calls, key, rt.md.calls[key])
            && (HaveTypes(raw.types, rt.m, rt.md.calls[key].variant.fields, args) ==>
                 DecodeCall(fuel, rt, EncodeCall(rt.md, p, c, EncodeAll(args)).bytes + r) == Done(rt.md.calls[key], r))
  {
    hide TranscodeAll, HaveTypes, EncodeAll, IsEntry;
    var key := (rt.md.pallets[p].index, rt.md.pallets[p].calls[c]);
    DistinctLooksUp(raw, p, c);
    assert rt.md.types == raw.types;
    var fields := rt.md.calls[key].variant.fields;
    fuel := 0;
    if HaveTypes(raw.types, rt.m, fields, args) {
      fuel := CompleteAll(raw.types, rt.m, fields, args, r);
      var s := EncodeCall(rt.md, p, c, EncodeAll(args)).bytes + r;
      assert s == [key.0, key.1] + (EncodeAll(args) + r);
      assert s[2..] == EncodeAll(args) + r;
    }
  }
}
