/** The two mutable buffers the decoder works on: the input slice it advances and the vector it
    appends to. */
module Cursors {
  import opened Scale
  import opened Registry
  import opened Decoder

  class Cursor {
    var rest: seq<byte>

    constructor (s: seq<byte>)
      ensures rest == s
    {
      rest := s;
    }

    /** `Input::read` of `n` bytes whose content is not needed. */
    method Skip(n: nat) returns (ok: bool)
      modifies this
      ensures ok == (n <= |old(rest)|)
      ensures rest == if ok then old(rest)[n..] else old(rest)
    {
      ok := n <= |rest|;
      if ok { rest := rest[n..]; }
    }

    method ReadByte() returns (r: Result<byte>)
      modifies this
      ensures old(rest) == [] ==> r == Err(CodecError) && rest == []
      ensures old(rest) != [] ==> r == Ok(old(rest)[0]) && rest == old(rest)[1..]
    {
      if rest == [] { return Err(CodecError); }
      r := Ok(rest[0]);
      rest := rest[1..];
    }

    /** Take the outcome of a leaf decoder. */
    method Take<T>(p: Parsed<T>) returns (r: Result<T>)
      modifies this
      ensures p.Read? ==> r == Ok(p.value) && rest == p.rest
      ensures p.Malformed? ==> r == Err(CodecError) && rest == old(rest)
    {
      match p
      case Read(v, s) => rest := s; r := Ok(v);
      case Malformed => r := Err(CodecError);
    }
  }

  class Buffer {
    var bytes: seq<byte>

    constructor ()
      ensures bytes == []
    {
      bytes := [];
    }

    method Append(s: seq<byte>)
      modifies this
      ensures bytes == old(bytes) + s
    {
      bytes := bytes + s;
    }
  }

  /** What the buffers hold after a run that started from `was`: nothing is promised about either
      buffer when the run failed. */
  ghost predicate Transcoded(o: Outcome<seq<byte>>, r: Result<()>, was: seq<byte>, input: seq<byte>, output: seq<byte>)
  {
    match o
    case Done(out, rest) => r.Ok? && input == rest && output == was + out
    case Failed(e) => r == Err(e)
    case Exhausted => false
  }

  /** `RuntimeDecoder::decode_type`, for every registry and input on which it terminates. */
  method DecodeType(reg: Types, m: Mode, id: nat, input: Cursor, output: Buffer, ghost fuel: nat)
    returns (r: Result<()>)
    requires !Transcode(fuel, reg, m, id, input.rest).Exhausted?
    modifies input, output
    ensures Transcoded(Transcode(fuel, reg, m, id, old(input.rest)), r, old(output.bytes), input.rest, output.bytes)
    decreases fuel, 0
  {
    hide Encode, EncodeCompact, DecodeCompact, ParsePrimitive, ParseCompact, CompactWidth, FindVariant, TranscodeAll;
    ghost var step := Visit(reg, m, id, input.rest);
    ghost var was := output.bytes;
    if step.Node? {
      ghost var tail := TranscodeAll(fuel - 1, reg, m, step.children, step.rest);
      PrependNothing(tail);
      assert tail.Done? ==> (was + step.out) + tail.value == was + (step.out + tail.value);
    }
    if id >= |reg| { return Err(TypeNotFound(id)); }
    match reg[id].def
    case Composite(fields) =>
      r := DecodeEach(reg, m, fields, input, output, fuel - 1);
    case Tuple(fields) =>
      r := DecodeEach(reg, m, fields, input, output, fuel - 1);
    case Array(len, elem) =>
      r := DecodeTimes(reg, m, len, elem, input, output, fuel - 1);
    case Sequence(elem) =>
      var n := input.Take(DecodeCompact(4, input.rest));
      if n.Err? { return Err(n.error); }
      output.Append(EncodeCompact(n.value));
      r := DecodeTimes(reg, m, n.value, elem, input, output, fuel - 1);
    case Variant(vs) =>
      var tag := input.ReadByte();
      if tag.Err? { return Err(tag.error); }
      output.Append([tag.value]);
      var d := FindVariant(m.tags, vs, tag.value);
      if d.None? { return Err(VariantNotFound(tag.value)); }
      r := DecodeEach(reg, m, d.value.fields, input, output, fuel - 1);
    case Primitive(p) =>
      if !Supported(p) { return Err(UnsupportedPrimitive(p)); }
      r := DecodeRaw(ParsePrimitive(p, input.rest), input, output);
    case Compact(inner) =>
      var w := CompactWidth(reg, m.compact, id, inner);
      if w.Err? { return Err(w.error); }
      r := DecodeRaw(ParseCompact(w.value, input.rest), input, output);
    case BitSequence =>
      r := Err(Unimplemented);
  }

  method DecodeRaw(p: Parsed<Value>, input: Cursor, output: Buffer) returns (r: Result<()>)
    modifies input, output
    ensures Transcoded(Reencode(p), r, old(output.bytes), input.rest, output.bytes)
  {
    var v := input.Take(p);
    if v.Err? { return Err(v.error); }
    output.Append(Encode(v.value));
    r := Ok(());
  }

  /** The loops over the fields of a composite, a tuple or a variant. */
  method DecodeEach(reg: Types, m: Mode, ids: seq<nat>, input: Cursor, output: Buffer, ghost fuel: nat)
    returns (r: Result<()>)
    requires !TranscodeAll(fuel, reg, m, ids, input.rest).Exhausted?
    modifies input, output
    ensures Transcoded(TranscodeAll(fuel, reg, m, ids, old(input.rest)), r, old(output.bytes), input.rest, output.bytes)
    decreases fuel, 1
  {
    hide Transcode;
    ghost var start, was := input.rest, output.bytes;
    ghost var done := [];
    PrependNothing(TranscodeAll(fuel, reg, m, ids, start));
    assert ids[0..] == ids;
    for i := 0 to |ids|
      invariant output.bytes == was + done
      invariant TranscodeAll(fuel, reg, m, ids, start) == Prepend(done, TranscodeAll(fuel, reg, m, ids[i..], input.rest))
    {
      ghost var head := Transcode(fuel, reg, m, ids[i], input.rest);
      assert ids[i..][0] == ids[i] && ids[i..][1..] == ids[i + 1..];
      var step := DecodeType(reg, m, ids[i], input, output, fuel);
      if step.Err? { return step; }
      PrependTwice(done, head.value, TranscodeAll(fuel, reg, m, ids[i + 1..], input.rest));
      done := done + head.value;
    }
    assert ids[|ids|..] == [];
    r := Ok(());
  }

  /** The loops over the elements of a sequence or an array. */
  method DecodeTimes(reg: Types, m: Mode, n: nat, id: nat, input: Cursor, output: Buffer, ghost fuel: nat)
    returns (r: Result<()>)
    requires !TranscodeAll(fuel, reg, m, Repeat(id, n), input.rest).Exhausted?
    modifies input, output
    ensures Transcoded(TranscodeAll(fuel, reg, m, Repeat(id, n), old(input.rest)), r, old(output.bytes), input.rest, output.bytes)
    decreases fuel, 1
  {
    hide Transcode;
    ghost var start, was := input.rest, output.bytes;
    ghost var done := [];
    PrependNothing(TranscodeAll(fuel, reg, m, Repeat(id, n), start));
    for i := 0 to n
      invariant output.bytes == was + done
      invariant TranscodeAll(fuel, reg, m, Repeat(id, n), start)
             == Prepend(done, TranscodeAll(fuel, reg, m, Repeat(id, n - i), input.rest))
    {
      ghost var head := Transcode(fuel, reg, m, id, input.rest);
      assert Repeat(id, n - i)[1..] == Repeat(id, n - i - 1);
      var step := DecodeType(reg, m, id, input, output, fuel);
      if step.Err? { return step; }
      PrependTwice(done, head.value, TranscodeAll(fuel, reg, m, Repeat(id, n - i - 1), input.rest));
      done := done + head.value;
    }
    r := Ok(());
  }

  lemma PrependNothing(o: Outcome<seq<byte>>)
    ensures Prepend([], o) == o
  {
    if o.Done? {
      assert [] + o.value == o.value;
    }
  }

  lemma PrependTwice(a: seq<byte>, b: seq<byte>, o: Outcome<seq<byte>>)
    ensures Prepend(a, Prepend(b, o)) == Prepend(a + b, o)
  {
    if o.Done? {
      assert a + (b + o.value) == (a + b) + o.value;
    }
  }
}
