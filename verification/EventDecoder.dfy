/** `decode_events`, `decode_raw_event` and `decode_call` as they run on the input cursor. */
module EventDecoder {
  import opened Scale
  import opened Registry
  import opened Decoder
  import opened Cursors
  import opened Metadata
  import opened Events

  /** The outcome of a run, and where the cursor stands after a successful one. */
  ghost predicate Agrees<T(!new)>(o: Outcome<T>, r: Result<T>, input: seq<byte>)
  {
    match o
    case Done(v, rest) => r == Ok(v) && input == rest
    case Failed(e) => r == Err(e)
    case Exhausted => false
  }

  method DecodeRawEvent(rt: Runtime, ev: Entry, input: Cursor, ghost fuel: nat) returns (r: Result<Payload>)
    requires LawfulRuntime(rt)
    requires !DecodeFields(fuel, rt, ev, ev.variant.fields, input.rest).Exhausted?
    modifies input
    ensures Agrees(DecodeFields(fuel, rt, ev, ev.variant.fields, old(input.rest)), r, input.rest)
  {
    hide Transcode, IsDispatchField, FromDispatch;
    var ids := ev.variant.fields;
    var data := new Buffer();
    var errors: seq<RuntimeError> := [];
    ghost var start := input.rest;
    assert ids[0..] == ids;
    PrependNoPayload(DecodeFields(fuel, rt, ev, ids, start));
    for i := 0 to |ids|
      invariant fresh(data)
      invariant DecodeFields(fuel, rt, ev, ids, start)
             == PrependPayload(Payload(data.bytes, errors), DecodeFields(fuel, rt, ev, ids[i..], input.rest))
    {
      ghost var before := Payload(data.bytes, errors);
      ghost var head := DecodeField(fuel, rt, ev, ids[i], input.rest);
      assert ids[i..][0] == ids[i] && ids[i..][1..] == ids[i + 1..];
      if IsDispatchField(rt.md.types, ev, ids[i]) {
        var parsed := rt.dispatch.dec(input.rest);
        var d := input.Take(parsed);
        if d.Err? { return Err(d.error); }
        assert rt.dispatch.wf(d.value);
        data.Append(rt.dispatch.enc(d.value));
        var e := FromDispatch(rt.md, d.value);
        if e.Err? { return Err(e.error); }
        errors := errors + [e.value];
      } else {
        var step := DecodeType(rt.md.types, rt.m, ids[i], input, data, fuel);
        if step.Err? { return Err(step.error); }
        assert errors + [] == errors;
      }
      PrependPayloadTwice(before, head.value, DecodeFields(fuel, rt, ev, ids[i + 1..], input.rest));
    }
    assert ids[|ids|..] == [];
    assert data.bytes + [] == data.bytes && errors + [] == errors;
    r := Ok(Payload(data.bytes, errors));
  }

  lemma PrependNoPayload(o: Outcome<Payload>)
    ensures PrependPayload(Payload([], []), o) == o
  {
    if o.Done? {
      assert [] + o.value.data == o.value.data && [] + o.value.errors == o.value.errors;
    }
  }

  lemma PrependPayloadTwice(a: Payload, b: Payload, o: Outcome<Payload>)
    ensures PrependPayload(a, PrependPayload(b, o)) == PrependPayload(Payload(a.data + b.data, a.errors + b.errors), o)
  {
    if o.Done? {
      assert a.data + (b.data + o.value.data) == a.data + b.data + o.value.data;
      assert a.errors + (b.errors + o.value.errors) == a.errors + b.errors + o.value.errors;
    }
  }

  method DecodeEventRecord(rt: Runtime, input: Cursor, ghost fuel: nat) returns (r: Result<Batch>)
    requires LawfulRuntime(rt) && !DecodeRecord(fuel, rt, input.rest).Exhausted?
    modifies input
    ensures Agrees(DecodeRecord(fuel, rt, old(input.rest)), r, input.rest)
  {
    hide DecodePhase, DecodeTopics, DecodeFields;
    var phase := input.Take(DecodePhase(input.rest));
    if phase.Err? { return Err(phase.error); }
    var palletIndex := input.ReadByte();
    if palletIndex.Err? { return Err(palletIndex.error); }
    var variantIndex := input.ReadByte();
    if variantIndex.Err? { return Err(variantIndex.error); }
    var p, v := palletIndex.value, variantIndex.value;
    if (p, v) !in rt.md.events { return Err(EventNotFound(p, v)); }
    var ev := rt.md.events[(p, v)];
    assert input.rest == DecodePhase(old(input.rest)).rest[2..];
    var body := DecodeRawEvent(rt, ev, input, fuel);
    if body.Err? { return Err(body.error); }
    var topics := input.Take(DecodeTopics(input.rest));
    if topics.Err? { return Err(topics.error); }
    var errors := body.value.errors;
    var event := RawEvent(ev.pallet, p, ev.name, v, body.value.data);
    ghost var report := Report(phase.value, event, errors);
    var out: Batch := [];
    if errors == [] {
      out := out + [(phase.value, Event(event))];
    }
    for i := 0 to |errors|
      invariant out == if errors == [] then report else report[..i]
    {
      out := out + [(phase.value, Error(errors[i]))];
    }
    assert out == report;
    r := Ok(out);
  }

  /** `RuntimeDecoder::decode_events`: one failing record loses the whole batch. */
  method DecodeEventBatch(rt: Runtime, input: Cursor, ghost fuel: nat) returns (r: Result<Batch>)
    requires LawfulRuntime(rt) && !DecodeEvents(fuel, rt, input.rest).Exhausted?
    modifies input
    ensures Agrees(DecodeEvents(fuel, rt, old(input.rest)), r, input.rest)
  {
    hide DecodeRecord, DecodeCompact;
    var len := input.Take(DecodeCompact(4, input.rest));
    if len.Err? { return Err(len.error); }
    ghost var start := input.rest;
    var out: Batch := [];
    PrependNoBatch(DecodeRecords(fuel, rt, len.value, start));
    for i := 0 to len.value
      invariant DecodeRecords(fuel, rt, len.value, start) == PrependBatch(out, DecodeRecords(fuel, rt, len.value - i, input.rest))
    {
      ghost var head := DecodeRecord(fuel, rt, input.rest);
      var step := DecodeEventRecord(rt, input, fuel);
      if step.Err? { return step; }
      PrependBatchTwice(out, head.value, DecodeRecords(fuel, rt, len.value - i - 1, input.rest));
      out := out + step.value;
    }
    assert out + [] == out;
    r := Ok(out);
  }

  lemma PrependNoBatch(o: Outcome<Batch>)
    ensures PrependBatch([], o) == o
  {
    if o.Done? {
      assert [] + o.value == o.value;
    }
  }

  lemma PrependBatchTwice(a: Batch, b: Batch, o: Outcome<Batch>)
    ensures PrependBatch(a, PrependBatch(b, o)) == PrependBatch(a + b, o)
  {
    if o.Done? {
      assert a + (b + o.value) == a + b + o.value;
    }
  }

  /** `RuntimeDecoder::decode_call`; the entry it looked up is returned beside its empty result. */
  method DecodeRuntimeCall(rt: Runtime, input: Cursor, ghost fuel: nat) returns (r: Result<Entry>)
    requires !DecodeCall(fuel, rt, input.rest).Exhausted?
    modifies input
    ensures Agrees(DecodeCall(fuel, rt, old(input.rest)), r, input.rest)
  {
    hide TranscodeAll;
    var palletIndex := input.ReadByte();
    if palletIndex.Err? { return Err(palletIndex.error); }
    var variantIndex := input.ReadByte();
    if variantIndex.Err? { return Err(variantIndex.error); }
    var key := (palletIndex.value, variantIndex.value);
    if key !in rt.md.calls { return Err(CallableNotFound(key.0, key.1)); }
    var e := rt.md.calls[key];
    assert input.rest == old(input.rest)[2..];
    var output := new Buffer();
    var step := DecodeEach(rt.md.types, rt.m, e.variant.fields, input, output, fuel);
    if step.Err? { return Err(step.error); }
    r := Ok(e);
  }
}
