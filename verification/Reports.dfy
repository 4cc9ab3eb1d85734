/** What decoded batches and calls say, entry by entry: phases, events, dispatch errors and their meaning,
    refusals. */
module Reports {
  import opened Scale
  import opened Registry
  import opened Decoder
  import opened Metadata
  import opened Tables
  import opened Events

  // ------------------------------------------------------------ dispatch errors

  /** What each runtime error reports. The text of `Other` is not encoded, so it is empty. */
  predicate StandsFor(md: Metadata, e: DispatchError, x: RuntimeError)
  {
    match x
    case PalletError(pallet, error) =>
      && e.Module? && (e.index, e.error.0) in md.errors
      && md.errors[(e.index, e.error.0)].pallet == pallet && md.errors[(e.index, e.error.0)].name == error
    case RConsumerRemaining => e == ConsumerRemaining
    case RTooManyConsumers => e == TooManyConsumers
    case RNoProviders => e == NoProviders
    case RBadOrigin => e == BadOrigin
    case RCannotLookup => e == CannotLookup
    case ROther(message) =>
      || (e.Arithmetic? && message == "math_error")
      || (e.Token? && message == "token error")
      || (e.Transactional? && message == "transactional error")
      || (e == DispatchError.Other && message == "")
  }

  /** A dispatch error becomes the runtime error that reports it; only a module error that the metadata
      does not know becomes none. */
  lemma FromDispatchIff(md: Metadata, e: DispatchError, x: RuntimeError)
    ensures FromDispatch(md, e) == Ok(x) <==> StandsFor(md, e, x)
    ensures FromDispatch(md, e).Err? <==> e.Module? && (e.index, e.error.0) !in md.errors
    ensures FromDispatch(md, e).Err? ==> FromDispatch(md, e) == Err(ErrorNotFound(e.index, e.error.0))
  {
  }

  /** In metadata with distinct names and indices, a module error is the error of that pallet declared under
      its first error byte. */
  lemma ModuleErrorDeclared(raw: RuntimeMetadata, index: byte, error: (byte, byte, byte, byte), x: RuntimeError)
    requires TryFrom(raw).Valid? && WellNumbered(raw)
    ensures FromDispatch(TryFrom(raw).value, Module(index, error)) == Ok(x) <==>
              exists i, j, e :: ErrorAt(raw, i, j, (index, error.0), e) && x == PalletError(e.pallet, e.name)
  {
    hide TryFrom, ErrorAt, WellNumbered;
    var md, key := TryFrom(raw).value, (index, error.0);
    FromDispatchIff(md, Module(index, error), x);
    if FromDispatch(md, Module(index, error)) == Ok(x) {
      WellNumberedTables(raw, key, md.errors[key]);
      assert Holds(md.errors, key, md.errors[key]);
      var i, j :| ErrorAt(raw, i, j, key, md.errors[key]);
    }
    if i, j, e :| ErrorAt(raw, i, j, key, e) && x == PalletError(e.pallet, e.name) {
      WellNumberedTables(raw, key, e);
    }
  }

  /** The last segment of its path decides whether a field of `System::ExtrinsicFailed` is a dispatch
      error. */
  lemma DispatchFieldIff(types: Types, ev: Entry, id: nat)
    ensures IsDispatchField(types, ev, id) <==>
              && ev.pallet == "System" && ev.name == "ExtrinsicFailed" && id < |types|
              && exists modules :: types[id].path == modules + ["DispatchError"]
  {
    if id < |types| {
      var path := types[id].path;
      if path != [] && path[|path| - 1] == "DispatchError" {
        assert path == path[..|path| - 1] + ["DispatchError"];
      }
    }
  }

  // ------------------------------------------------------------ records

  /** The dispatch errors among the fields, in order. */
  function Dispatched(items: seq<Item>): (es: seq<DispatchError>)
    ensures |es| == DispatchCount(items)
  {
    if items == [] then [] else (if items[0].Dispatch? then [items[0].e] else []) + Dispatched(items[1..])
  }

  /** What is reported of a record: its own phase with its event, or, if it has dispatch errors, with each
      of them in order. */
  predicate ReportedAs(rt: Runtime, rec: Record, b: Batch)
  {
    (rec.pallet, rec.variant) in rt.md.events &&
    var ev, failures := rt.md.events[(rec.pallet, rec.variant)], Dispatched(rec.items);
    if failures == [] then
      b == [(rec.phase, Event(RawEvent(ev.pallet, rec.pallet, ev.name, rec.variant, EncodeItems(rt, rec.items))))]
    else
      |b| == |failures| && forall i :: 0 <= i < |b| ==>
        b[i].0 == rec.phase && b[i].1.Error? && StandsFor(rt.md, failures[i], b[i].1.error)
  }

  /** The errors of some items are what their dispatch errors become, one for one. */
  predicate Become(rt: Runtime, es: seq<DispatchError>, errors: seq<RuntimeError>)
  {
    |es| == |errors| && forall i :: 0 <= i < |es| ==> FromDispatch(rt.md, es[i]) == Ok(errors[i])
  }

  lemma {:induction false} ErrorsOfItems(rt: Runtime, ev: Entry, ids: seq<nat>, items: seq<Item>)
    requires FitAll(rt, ev, ids, items)
    ensures Become(rt, Dispatched(items), ItemErrors(rt, items))
    decreases |items|
  {
    hide FromDispatch, Become, HasType, IsDispatchField;
    if items == [] {
      NothingBecomes(rt);
    } else {
      assert Fits(rt, ev, ids[0], items[0]);
      ErrorsOfItems(rt, ev, ids[1..], items[1..]);
      if items[0].Plain? {
        assert [] + Dispatched(items[1..]) == Dispatched(items[1..]);
      } else {
        BecomeCons(rt, items[0].e, Dispatched(items[1..]), FromDispatch(rt.md, items[0].e).value, ItemErrors(rt, items[1..]));
      }
    }
  }

  lemma NothingBecomes(rt: Runtime)
    ensures Become(rt, [], [])
  {
  }

  lemma BecomeCons(rt: Runtime, e: DispatchError, es: seq<DispatchError>, x: RuntimeError, xs: seq<RuntimeError>)
    requires FromDispatch(rt.md, e) == Ok(x) && Become(rt, es, xs)
    ensures Become(rt, [e] + es, [x] + xs)
  {
    hide FromDispatch;
  }

  /** The meaning of a well-typed record is the one report of it. */
  lemma MeaningIff(rt: Runtime, rec: Record, b: Batch)
    requires WellTyped(rt, rec)
    ensures b == Meaning(rt, rec) <==> ReportedAs(rt, rec, b)
  {
    hide FromDispatch, FitAll, StandsFor;
    var ev := rt.md.events[(rec.pallet, rec.variant)];
    ErrorsOfItems(rt, ev, ev.variant.fields, rec.items);
    var failures, errors := Dispatched(rec.items), ItemErrors(rt, rec.items);
    forall i, x | 0 <= i < |failures|
      ensures x == errors[i] <==> StandsFor(rt.md, failures[i], x)
    {
      FromDispatchIff(rt.md, failures[i], x);
    }
    if ReportedAs(rt, rec, b) && failures != [] {
      forall i | 0 <= i < |b|
        ensures b[i] == Meaning(rt, rec)[i]
      {
        assert b[i].1.error == errors[i];
      }
    }
  }

  /** The reports of several records, one after the other. */
  predicate ReportedInOrder(rt: Runtime, rs: seq<Record>, b: Batch)
  {
    if rs == [] then b == [] else
    var n := ReportSize(rs[0]);
    n <= |b| && ReportedAs(rt, rs[0], b[..n]) && ReportedInOrder(rt, rs[1..], b[n..])
  }

  lemma {:induction false} MeaningsIff(rt: Runtime, rs: seq<Record>, b: Batch)
    requires forall x :: x in rs ==> WellTyped(rt, x)
    ensures b == Meanings(rt, rs) <==> ReportedInOrder(rt, rs, b)
    decreases |rs|
  {
    hide WellTyped, Meaning, ReportedAs;
    if rs != [] {
      var n := ReportSize(rs[0]);
      var head, rest := Meaning(rt, rs[0]), Meanings(rt, rs[1..]);
      MeaningSize(rt, rs[0]);
      if n <= |b| {
        MeaningIff(rt, rs[0], b[..n]);
        MeaningsIff(rt, rs[1..], b[n..]);
        assert b == b[..n] + b[n..];
        assert (head + rest)[..n] == head && (head + rest)[n..] == rest;
      }
    }
  }

  lemma MeaningSize(rt: Runtime, rec: Record)
    requires WellTyped(rt, rec)
    ensures |Meaning(rt, rec)| == ReportSize(rec)
  {
    var ev := rt.md.events[(rec.pallet, rec.variant)];
    EveryDispatchIsAnError(rt, ev, ev.variant.fields, rec.items);
  }

  /** The record, encoded and followed by anything, is decoded to its report. */
  lemma RecordReported(rt: Runtime, rec: Record, r: seq<byte>) returns (fuel: nat, b: Batch)
    requires LawfulRuntime(rt) && WellTyped(rt, rec)
    ensures DecodeRecord(fuel, rt, EncodeRecord(rt, rec) + r) == Done(b, r) && ReportedAs(rt, rec, b)
  {
    fuel := RecordComplete(rt, rec, r);
    b := Meaning(rt, rec);
    MeaningIff(rt, rec, b);
  }

  /** A batch of well-typed records is decoded to the reports of its records, in order. */
  lemma BatchReported(rt: Runtime, rs: seq<Record>, r: seq<byte>) returns (fuel: nat, b: Batch)
    requires LawfulRuntime(rt) && |rs| < 0x1_0000_0000 && forall x :: x in rs ==> WellTyped(rt, x)
    ensures DecodeEvents(fuel, rt, EncodeBatch(rt, rs) + r) == Done(b, r) && ReportedInOrder(rt, rs, b)
  {
    hide DecodeEvents, EncodeBatch, Meanings, ReportedInOrder, WellTyped, Lawful;
    fuel := BatchComplete(rt, rs, r);
    b := Meanings(rt, rs);
    MeaningsIff(rt, rs, b);
  }

  /** Whatever is decoded is the reports of the records that the input encodes. */
  lemma OnlyReports(fuel: nat, rt: Runtime, s: seq<byte>) returns (rs: seq<Record>)
    requires LawfulRuntime(rt) && DecodeEvents(fuel, rt, s).Done?
    ensures forall x :: x in rs ==> WellTyped(rt, x)
    ensures var o := DecodeEvents(fuel, rt, s); s == EncodeBatch(rt, rs) + o.rest && ReportedInOrder(rt, rs, o.value)
  {
    hide DecodeEvents, EncodeBatch, Meanings, ReportedInOrder, WellTyped, Lawful;
    rs := BatchSound(fuel, rt, s);
    MeaningsIff(rt, rs, DecodeEvents(fuel, rt, s).value);
  }

  // ------------------------------------------------------------ the parts of a record

  function Word(a: int, b: int, c: int, d: int): (n: int)
  {
    a + 0x100 * b + 0x1_0000 * c + 0x100_0000 * d
  }

  lemma WordReads(u: seq<byte>)
    requires |u| == 4
    ensures FromLittleEndian(u) == Word(u[0], u[1], u[2], u[3])
  {
    assert u[1..][1..] == u[2..] && u[2..][1..] == u[3..] && u[3..][1..] == [];
    var a: int, b: int, c: int, d: int := u[0], u[1], u[2], u[3];
    assert FromLittleEndian(u[3..]) == d;
    assert FromLittleEndian(u[2..]) == c + 256 * d;
    assert FromLittleEndian(u[1..]) == b + 256 * (c + 256 * d);
  }

  /** A phase is a byte, followed by a little-endian u32 for an extrinsic. */
  lemma PhaseReads(s: seq<byte>)
    ensures s == [] || s[0] > 2 ==> DecodePhase(s) == Malformed
    ensures s != [] && s[0] == 0 ==>
              DecodePhase(s) == if |s| < 5 then Malformed
                                else Read(ApplyExtrinsic(Word(s[1], s[2], s[3], s[4])), s[5..])
    ensures s != [] && s[0] == 1 ==> DecodePhase(s) == Read(Finalization, s[1..])
    ensures s != [] && s[0] == 2 ==> DecodePhase(s) == Read(Initialization, s[1..])
  {
    if |s| >= 5 {
      var t := s[1..];
      assert t[..4] == s[1..5] && t[4..] == s[5..];
      WordReads(t[..4]);
    }
  }

  /** Topics are a count and that many hashes of 32 bytes. */
  lemma {:induction false} HashesRead(n: nat, s: seq<byte>)
    ensures DecodeHashes(n, s).Read? <==> |s| >= 32 * n
    ensures |s| >= 32 * n ==>
              var d := DecodeHashes(n, s);
              d.rest == s[32 * n..] && |d.value| == n && forall i :: 0 <= i < n ==> d.value[i] == s[32 * i..32 * i + 32]
    decreases n
  {
    if n > 0 && |s| >= 32 {
      var t := s[32..];
      HashesRead(n - 1, t);
      if |s| >= 32 * n {
        assert t[32 * (n - 1)..] == s[32 * n..];
        forall i | 0 < i < n
          ensures DecodeHashes(n, s).value[i] == s[32 * i..32 * i + 32]
        {
          assert t[32 * (i - 1)..32 * (i - 1) + 32] == s[32 * i..32 * i + 32];
        }
      }
    }
  }

  /** A record that names an event the metadata does not have is refused by those two indices. */
  lemma UnknownEventRefused(fuel: nat, rt: Runtime, phase: Phase, p: byte, v: byte, s: seq<byte>)
    requires phase.ApplyExtrinsic? ==> phase.n < 0x1_0000_0000
    requires (p, v) !in rt.md.events
    ensures DecodeRecord(fuel, rt, EncodePhase(phase) + ([p, v] + s)) == Failed(EventNotFound(p, v))
  {
    PhaseRoundTrip(phase, [p, v] + s);
  }

  // ------------------------------------------------------------ calls

  /** A decoded call is two indices of the call table, then the encoding of values of that call's fields,
      then the rest. */
  lemma CallSound(fuel: nat, rt: Runtime, s: seq<byte>) returns (args: seq<Value>)
    requires DecodeCall(fuel, rt, s).Done?
    ensures |s| >= 2 && (s[0], s[1]) in rt.md.calls
    ensures var o := DecodeCall(fuel, rt, s);
            && o.value == rt.md.calls[(s[0], s[1])]
            && HaveTypes(rt.md.types, rt.m, o.value.variant.fields, args)
            && s == [s[0], s[1]] + EncodeAll(args) + o.rest
  {
    hide TranscodeAll, HaveTypes, EncodeAll;
    var e := rt.md.calls[(s[0], s[1])];
    args := SoundAll(fuel, rt.md.types, rt.m, e.variant.fields, s[2..]);
    assert s == [s[0], s[1]] + s[2..];
    var o := DecodeCall(fuel, rt, s);
    assert [s[0], s[1]] + (EncodeAll(args) + o.rest) == [s[0], s[1]] + EncodeAll(args) + o.rest;
  }

  /** Behind the indices of a call exactly the encodings of its arguments are accepted. */
  lemma CallAcceptedIff(rt: Runtime, key: (byte, byte), out: seq<byte>, r: seq<byte>)
    requires key in rt.md.calls
    ensures (exists fuel :: DecodeCall(fuel, rt, [key.0, key.1] + out + r) == Done(rt.md.calls[key], r))
       <==> (exists args :: HaveTypes(rt.md.types, rt.m, rt.md.calls[key].variant.fields, args) && EncodeAll(args) == out)
  {
    hide TranscodeAll, HaveTypes, EncodeAll;
    var s := [key.0, key.1] + out + r;
    assert s[2..] == out + r;
    if fuel :| DecodeCall(fuel, rt, s) == Done(rt.md.calls[key], r) {
      var args := CallSound(fuel, rt, s);
      assert s == [key.0, key.1] + (EncodeAll(args) + r);
      SameFront(out, EncodeAll(args), r);
    }
    if args :| HaveTypes(rt.md.types, rt.m, rt.md.calls[key].variant.fields, args) && EncodeAll(args) == out {
      var fuel := CompleteAll(rt.md.types, rt.m, rt.md.calls[key].variant.fields, args, r);
      assert DecodeCall(fuel, rt, s) == Done(rt.md.calls[key], r);
    }
  }

  lemma SameFront(a: seq<byte>, b: seq<byte>, r: seq<byte>)
    requires a + r == b + r
    ensures a == b
  {
    assert |a| == |b|;
    assert (a + r)[..|a|] == a && (b + r)[..|a|] == b;
  }

  /** A decoded call is one that some pallet declares under those indices. */
  lemma DecodedCallDeclared(fuel: nat, raw: RuntimeMetadata, rt: Runtime, s: seq<byte>)
    requires TryFrom(raw).Valid? && rt.md == TryFrom(raw).value && DecodeCall(fuel, rt, s).Done?
    ensures |s| >= 2 && exists i, j :: CallAt(raw, i, j, (s[0], s[1]), DecodeCall(fuel, rt, s).value)
  {
    hide TryFrom, CallAt, TranscodeAll;
    var key := (s[0], s[1]);
    IndexTables(raw, key, rt.md.calls[key]);
    assert Holds(rt.md.calls, key, rt.md.calls[key]);
    var i, j :| LastCallAt(raw, i, j, key, rt.md.calls[key]);
  }

  /** Too short an input and unknown indices are told apart. */
  lemma CallRefusals(fuel: nat, rt: Runtime, s: seq<byte>)
    ensures |s| < 2 ==> DecodeCall(fuel, rt, s) == Failed(CodecError)
    ensures |s| >= 2 && (s[0], s[1]) !in rt.md.calls ==> DecodeCall(fuel, rt, s) == Failed(CallableNotFound(s[0], s[1]))
  {
  }
}
