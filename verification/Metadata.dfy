/** Construction of the name-keyed and index-keyed tables from one pallet list, and the agreement
    between encoding a call by name and looking it up by index. */
module Metadata {
  import opened Scale
  import opened Registry
  import opened Storage

  datatype PalletDef = PalletDef(
    name: string, index: byte,
    calls: Option<nat>, event: Option<nat>, error: Option<nat>,
    storage: Option<seq<StorageEntry>>)

  datatype RuntimeMetadata = RuntimeMetadata(prefix: nat, version: nat, types: Types, pallets: seq<PalletDef>)

  const META_RESERVED := 0x6174_656d

  datatype InvalidMetadata = InvalidPrefix | InvalidVersion | MissingType(id: nat) | TypeDefNotVariant(id: nat)
  datatype Checked<+T> = Valid(value: T) | Invalid(error: InvalidMetadata)

  datatype PalletMetadata = PalletMetadata(index: byte, name: string, calls: map<string, byte>, storage: map<string, StorageEntry>)

  /** One call, event or error of one pallet. */
  datatype Entry = Entry(pallet: string, name: string, variant: VariantDef)

  datatype Metadata = Metadata(
    types: Types,
    pallets: map<string, PalletMetadata>,
    calls: map<(byte, byte), Entry>,
    events: map<(byte, byte), Entry>,
    errors: map<(byte, byte), Entry>)

  // ------------------------------------------------------------ construction

  /** `collect` into a hash map: a later pair replaces an earlier one with the same key. */
  function Collect<K, V>(pairs: seq<(K, V)>): (m: map<K, V>)
  {
    if pairs == [] then map[] else
    var last := pairs[|pairs| - 1];
    Collect(pairs[..|pairs| - 1])[last.0 := last.1]
  }

  function VariantsOf(types: Types, id: nat): (r: Checked<seq<VariantDef>>)
  {
    if id >= |types| then Invalid(MissingType(id))
    else if types[id].def.Variant? then Valid(types[id].def.variants)
    else Invalid(TypeDefNotVariant(id))
  }

  function VariantsOfOptional(types: Types, id: Option<nat>): (r: Checked<seq<VariantDef>>)
  {
    if id.None? then Valid([]) else VariantsOf(types, id.value)
  }

  function CallIndices(vs: seq<VariantDef>): (r: seq<(string, byte)>)
  {
    seq(|vs|, i requires 0 <= i < |vs| => (vs[i].name, vs[i].index))
  }

  function NamedEntries(es: seq<StorageEntry>): (r: seq<(string, StorageEntry)>)
  {
    seq(|es|, i requires 0 <= i < |es| => (es[i].name, es[i]))
  }

  function NamePallets(types: Types, ps: seq<PalletDef>): (r: Checked<seq<(string, PalletMetadata)>>)
  {
    if ps == [] then Valid([]) else
    var p := ps[0];
    var vs := VariantsOfOptional(types, p.calls);
    if vs.Invalid? then Invalid(vs.error) else
    var rest := NamePallets(types, ps[1..]);
    if rest.Invalid? then rest else
    var storage := if p.storage.None? then [] else p.storage.value;
    var meta := PalletMetadata(p.index, p.name, Collect(CallIndices(vs.value)), Collect(NamedEntries(storage)));
    Valid([(p.name, meta)] + rest.value)
  }

  datatype Table = Calls | Events | Errors

  function TypeOf(p: PalletDef, t: Table): (r: Option<nat>)
  {
    match t
    case Calls => p.calls
    case Events => p.event
    case Errors => p.error
  }

  type Row = ((byte, byte), Entry)

  function PalletRows(p: PalletDef, vs: seq<VariantDef>): (r: seq<Row>)
  {
    seq(|vs|, i requires 0 <= i < |vs| => ((p.index, vs[i].index), Entry(p.name, vs[i].name, vs[i])))
  }

  function Rows(types: Types, ps: seq<PalletDef>, t: Table): (r: Checked<seq<Row>>)
  {
    if ps == [] then Valid([]) else
    var vs := VariantsOfOptional(types, TypeOf(ps[0], t));
    if vs.Invalid? then Invalid(vs.error) else
    var rest := Rows(types, ps[1..], t);
    if rest.Invalid? then rest else Valid(PalletRows(ps[0], vs.value) + rest.value)
  }

  /** `Metadata::try_from`. */
  function TryFrom(raw: RuntimeMetadata): (r: Checked<Metadata>)
  {
    if raw.prefix != META_RESERVED then Invalid(InvalidPrefix)
    else if raw.version != 14 then Invalid(InvalidVersion)
    else
      var pallets := NamePallets(raw.types, raw.pallets);
      if pallets.Invalid? then Invalid(pallets.error) else
      var calls := Rows(raw.types, raw.pallets, Calls);
      if calls.Invalid? then Invalid(calls.error) else
      var events := Rows(raw.types, raw.pallets, Events);
      if events.Invalid? then Invalid(events.error) else
      var errors := Rows(raw.types, raw.pallets, Errors);
      if errors.Invalid? then Invalid(errors.error) else
      Valid(Metadata(raw.types, Collect(pallets.value), Collect(calls.value), Collect(events.value), Collect(errors.value)))
  }

  // ------------------------------------------------------------ using the tables

  datatype CallResult = Encoded(bytes: seq<byte>) | PalletMissing(pallet: string) | CallNotFound(call: string)

  /** `pallet(p)?.encode_call(c, args)`, which is also what `compose_call!` encodes to. */
  function EncodeCall(md: Metadata, p: string, c: string, args: seq<byte>): (r: CallResult)
  {
    if p !in md.pallets then PalletMissing(p)
    else if c !in md.pallets[p].calls then CallNotFound(c)
    else Encoded([md.pallets[p].index, md.pallets[p].calls[c]] + args)
  }

  /** `storage_value_key`. */
  function StorageValueKey(md: Metadata, h: Hashes, p: string, e: string): (r: KeyResult)
  {
    if p !in md.pallets then PalletNotFound
    else if e !in md.pallets[p].storage then StorageNotFound
    else ValueKeyOf(h, p, md.pallets[p].storage[e])
  }

  /** `storage_map_key_prefix`. */
  function StorageMapPrefix(md: Metadata, h: Hashes, p: string, e: string): (r: KeyResult)
  {
    if p !in md.pallets then PalletNotFound
    else if e !in md.pallets[p].storage then StorageNotFound
    else MapPrefixOf(h, p, md.pallets[p].storage[e])
  }

  /** `storage_double_map_partial_key`. */
  function StoragePartialKey(md: Metadata, h: Hashes, p: string, e: string, k1: seq<byte>): (r: KeyResult)
  {
    if p !in md.pallets then PalletNotFound
    else if e !in md.pallets[p].storage then StorageNotFound
    else PartialKeyOf(h, p, md.pallets[p].storage[e], k1)
  }

  /** `storage_map_key`: the entry is found by name, the key is built by its first hasher. */
  function StorageMapKey(md: Metadata, h: Hashes, p: string, e: string, k: seq<byte>): (r: KeyResult)
  {
    if p !in md.pallets then PalletNotFound
    else if e !in md.pallets[p].storage then StorageNotFound
    else MapKeyOf(h, p, md.pallets[p].storage[e], k)
  }

  /** The key of a map entry found by name gives its key back iff the entry's hasher keeps it. */
  lemma StorageMapKeyExtracts<T(!new)>(md: Metadata, h: Hashes, c: Codec<T>, p: string, e: string, k: T)
    requires FixedLength(h) && Lawful(c) && c.wf(k) && StorageMapKey(md, h, p, e, c.enc(k)).Key?
    ensures var hasher := md.pallets[p].storage[e].ty.hashers[0];
            ExtractMap(c, hasher, StorageMapKey(md, h, p, e, c.enc(k)).bytes)
              == if hasher in {Blake2_128Concat, Twox64Concat} then Read(k, []) else Malformed
  {
    var entry := md.pallets[p].storage[e];
    MapKeyExtracts(h, c, p, entry.name, entry.ty.hashers[0], k);
  }

  /** `storage_double_map_key`: the first two hashers of the entry. */
  function StorageDoubleMapKey(md: Metadata, h: Hashes, p: string, e: string, k1: seq<byte>, k2: seq<byte>): (r: KeyResult)
  {
    if p !in md.pallets then PalletNotFound
    else if e !in md.pallets[p].storage then StorageNotFound
    else DoubleMapKeyOf(h, p, md.pallets[p].storage[e], k1, k2)
  }

  /** The key of a double-map entry found by name gives its second key back, for a first key of that size,
      iff both of the entry's hashers keep their keys. */
  lemma StorageDoubleMapKeyExtracts<T(!new)>(md: Metadata, h: Hashes, c: Codec<T>, p: string, e: string, k1: seq<byte>, k2: T)
    requires FixedLength(h) && Lawful(c) && c.wf(k2) && StorageDoubleMapKey(md, h, p, e, k1, c.enc(k2)).Key?
    ensures var hashers := md.pallets[p].storage[e].ty.hashers;
            ExtractDoubleMap(c, hashers[0], hashers[1], |k1|, StorageDoubleMapKey(md, h, p, e, k1, c.enc(k2)).bytes)
              == if hashers[0] in {Blake2_128Concat, Twox64Concat} && hashers[1] in {Blake2_128Concat, Twox64Concat}
                 then Read(k2, []) else Malformed
  {
    var entry := md.pallets[p].storage[e];
    DoubleMapKeyExtracts(h, c, p, entry.name, entry.ty.hashers[0], k1, entry.ty.hashers[1], k2);
  }

  // ------------------------------------------------------------ collected tables

  predicate LastAt<K(==), V>(pairs: seq<(K, V)>, k: K, i: nat)
  {
    i < |pairs| && pairs[i].0 == k && forall j :: i < j < |pairs| ==> pairs[j].0 != k
  }

  /** A collected map holds, for every key of the list and no other, the value of its last pair. */
  lemma {:induction false} CollectLast<K, V>(pairs: seq<(K, V)>, k: K)
    ensures k in Collect(pairs) <==> exists i: nat :: LastAt(pairs, k, i)
    ensures forall i: nat :: LastAt(pairs, k, i) ==> Collect(pairs)[k] == pairs[i].1
  {
    if pairs != [] {
      var n := |pairs| - 1;
      CollectLast(pairs[..n], k);
      if pairs[n].0 == k {
        assert LastAt(pairs, k, n);
      } else {
        forall i: nat
          ensures LastAt(pairs, k, i) <==> LastAt(pairs[..n], k, i)
        {
        }
      }
    }
  }

  predicate DistinctKeys<K(==), V>(pairs: seq<(K, V)>)
  {
    forall i, j :: 0 <= i < j < |pairs| ==> pairs[i].0 != pairs[j].0
  }

  predicate DistinctValues<K, V(==)>(pairs: seq<(K, V)>)
  {
    forall i, j :: 0 <= i < j < |pairs| ==> pairs[i].1 != pairs[j].1
  }

  lemma CollectMember<K, V>(pairs: seq<(K, V)>, i: nat)
    requires i < |pairs|
    ensures pairs[i].0 in Collect(pairs)
    decreases |pairs|
  {
    if i < |pairs| - 1 {
      assert pairs[..|pairs| - 1][i] == pairs[i];
      CollectMember(pairs[..|pairs| - 1], i);
    }
  }

  /** If no two pairs hold the same value, the table returns every pair iff no two keys clash. */
  lemma CollectExact<K, V>(pairs: seq<(K, V)>)
    requires DistinctValues(pairs)
    ensures DistinctKeys(pairs)
       <==> forall i :: 0 <= i < |pairs| ==> pairs[i].0 in Collect(pairs) && Collect(pairs)[pairs[i].0] == pairs[i].1
  {
    forall i | 0 <= i < |pairs|
      ensures pairs[i].0 in Collect(pairs)
      ensures DistinctKeys(pairs) ==> Collect(pairs)[pairs[i].0] == pairs[i].1
    {
      CollectMember(pairs, i);
      CollectLast(pairs, pairs[i].0);
      if DistinctKeys(pairs) {
        assert LastAt(pairs, pairs[i].0, i);
      }
    }
  }

  // ------------------------------------------------------------ names and indices agree

  predicate DistinctNames(ps: seq<PalletDef>)
  {
    forall i, j :: 0 <= i < j < |ps| ==> ps[i].name != ps[j].name
  }

  predicate DistinctVariantNames(vs: seq<VariantDef>)
  {
    forall i, j :: 0 <= i < j < |vs| ==> vs[i].name != vs[j].name
  }

  /** Pallet names differ, and so do the names within each pallet's calls, events or errors. */
  predicate DistinctEntryNames(types: Types, ps: seq<PalletDef>, t: Table)
  {
    && DistinctNames(ps)
    && forall i :: 0 <= i < |ps| && VariantsOfOptional(types, TypeOf(ps[i], t)).Valid?
                   ==> DistinctVariantNames(VariantsOfOptional(types, TypeOf(ps[i], t)).value)
  }

  /** `e`, with indices `key`, is an entry of table `t` for pallet `e.pallet`. */
  ghost predicate IsEntry(types: Types, ps: seq<PalletDef>, t: Table, key: (byte, byte), e: Entry)
  {
    exists i, j :: EntryAt(types, ps, t, key, e, i, j)
  }

  ghost predicate EntryAt(types: Types, ps: seq<PalletDef>, t: Table, key: (byte, byte), e: Entry, i: int, j: int)
  {
    && 0 <= i < |ps| && ps[i].name == e.pallet
    && var vs := VariantsOfOptional(types, TypeOf(ps[i], t));
    && vs.Valid? && 0 <= j < |vs.value| && vs.value[j] == e.variant && e.variant.name == e.name
    && key == (ps[i].index, e.variant.index)
  }

  lemma {:induction false} RowsAreEntries(types: Types, ps: seq<PalletDef>, t: Table, k: nat)
    requires Rows(types, ps, t).Valid? && k < |Rows(types, ps, t).value|
    ensures var row := Rows(types, ps, t).value[k]; IsEntry(types, ps, t, row.0, row.1)
    decreases |ps|
  {
    var vs := VariantsOfOptional(types, TypeOf(ps[0], t)).value;
    var row := Rows(types, ps, t).value[k];
    if k < |vs| {
      assert EntryAt(types, ps, t, row.0, row.1, 0, k);
    } else {
      RowsAreEntries(types, ps[1..], t, k - |vs|);
      var i, j :| EntryAt(types, ps[1..], t, row.0, row.1, i, j);
      assert EntryAt(types, ps, t, row.0, row.1, i + 1, j);
    }
  }

  lemma {:induction false} EntriesAreRows(types: Types, ps: seq<PalletDef>, t: Table, key: (byte, byte), e: Entry, i: nat, j: nat)
    requires Rows(types, ps, t).Valid? && EntryAt(types, ps, t, key, e, i, j)
    ensures exists k :: 0 <= k < |Rows(types, ps, t).value| && Rows(types, ps, t).value[k] == (key, e)
    decreases |ps|
  {
    var vs := VariantsOfOptional(types, TypeOf(ps[0], t)).value;
    var rows := Rows(types, ps, t).value;
    if i == 0 {
      assert rows[j] == PalletRows(ps[0], vs)[j];
    } else {
      EntriesAreRows(types, ps[1..], t, key, e, i - 1, j);
      var rest := Rows(types, ps[1..], t).value;
      var k :| 0 <= k < |rest| && rest[k] == (key, e);
      assert rows[|vs| + k] == rest[k];
    }
  }

  lemma {:induction false} RowsDistinct(types: Types, ps: seq<PalletDef>, t: Table)
    requires Rows(types, ps, t).Valid? && DistinctEntryNames(types, ps, t)
    ensures DistinctValues(Rows(types, ps, t).value)
  {
    if ps != [] {
      var vs := VariantsOfOptional(types, TypeOf(ps[0], t)).value;
      var head, rest := PalletRows(ps[0], vs), Rows(types, ps[1..], t).value;
      RowsDistinct(types, ps[1..], t);
      forall k | 0 <= k < |rest|
        ensures rest[k].1.pallet != ps[0].name
      {
        RowsAreEntries(types, ps[1..], t, k);
        var i, j :| EntryAt(types, ps[1..], t, rest[k].0, rest[k].1, i, j);
        assert ps[1..][i] == ps[i + 1];
      }
      assert Rows(types, ps, t).value == head + rest;
    }
  }

  /** Pallet indices differ, and so do the indices within each pallet's calls, events or errors. */
  predicate DistinctIndices(types: Types, ps: seq<PalletDef>, t: Table)
  {
    && (forall i, j :: 0 <= i < j < |ps| ==> ps[i].index != ps[j].index)
    && forall i :: 0 <= i < |ps| && VariantsOfOptional(types, TypeOf(ps[i], t)).Valid?
                   ==> DistinctVariantIndices(VariantsOfOptional(types, TypeOf(ps[i], t)).value)
  }

  predicate DistinctVariantIndices(vs: seq<VariantDef>)
  {
    forall i, j :: 0 <= i < j < |vs| ==> vs[i].index != vs[j].index
  }

  /** What a runtime guarantees of its indices keeps the pairs of indices apart. */
  lemma {:induction false} DistinctIndicesSuffice(types: Types, ps: seq<PalletDef>, t: Table)
    requires Rows(types, ps, t).Valid? && DistinctIndices(types, ps, t)
    ensures DistinctKeys(Rows(types, ps, t).value)
  {
    if ps != [] {
      var vs := VariantsOfOptional(types, TypeOf(ps[0], t)).value;
      var head, rest := PalletRows(ps[0], vs), Rows(types, ps[1..], t).value;
      DistinctIndicesSuffice(types, ps[1..], t);
      forall k | 0 <= k < |rest|
        ensures rest[k].0.0 != ps[0].index
      {
        RowsAreEntries(types, ps[1..], t, k);
        var i, j :| EntryAt(types, ps[1..], t, rest[k].0, rest[k].1, i, j);
        assert ps[1..][i] == ps[i + 1];
      }
      assert Rows(types, ps, t).value == head + rest;
    }
  }

  /** An index-keyed table holds entries of the pallet list only, and returns all of them iff no two
      share a pair of indices. */
  lemma IndexTableExactIff(types: Types, ps: seq<PalletDef>, t: Table)
    requires Rows(types, ps, t).Valid? && DistinctEntryNames(types, ps, t)
    ensures var m := Collect(Rows(types, ps, t).value);
            forall key :: key in m ==> IsEntry(types, ps, t, key, m[key])
    ensures var m := Collect(Rows(types, ps, t).value);
            DistinctKeys(Rows(types, ps, t).value) <==>
              forall key, e :: IsEntry(types, ps, t, key, e) ==> key in m && m[key] == e
  {
    var rows := Rows(types, ps, t).value;
    var m := Collect(rows);
    forall key | key in m
      ensures IsEntry(types, ps, t, key, m[key])
    {
      CollectLast(rows, key);
      var k: nat :| LastAt(rows, key, k);
      RowsAreEntries(types, ps, t, k);
    }
    RowsDistinct(types, ps, t);
    CollectExact(rows);
    if DistinctKeys(rows) {
      forall key, e | IsEntry(types, ps, t, key, e)
        ensures key in m && m[key] == e
      {
        var i, j :| EntryAt(types, ps, t, key, e, i, j);
        EntriesAreRows(types, ps, t, key, e, i, j);
      }
    }
    if forall key, e :: IsEntry(types, ps, t, key, e) ==> key in m && m[key] == e {
      forall k | 0 <= k < |rows|
        ensures rows[k].0 in m && m[rows[k].0] == rows[k].1
      {
        RowsAreEntries(types, ps, t, k);
      }
    }
  }

  /** The name-keyed table of a pallet list with distinct names. */
  lemma {:induction false} NamedPalletAt(types: Types, ps: seq<PalletDef>, i: nat)
    requires NamePallets(types, ps).Valid? && i < |ps|
    ensures var r := NamePallets(types, ps).value;
            && |r| == |ps| && r[i].0 == ps[i].name && r[i].1.name == ps[i].name && r[i].1.index == ps[i].index
            && VariantsOfOptional(types, ps[i].calls).Valid?
            && r[i].1.calls == Collect(CallIndices(VariantsOfOptional(types, ps[i].calls).value))
            && r[i].1.storage == Collect(NamedEntries(if ps[i].storage.None? then [] else ps[i].storage.value))
  {
    if i > 0 {
      NamedPalletAt(types, ps[1..], i - 1);
    } else if |ps| > 1 {
      NamedPalletAt(types, ps[1..], 0);
    }
  }

  /** The pallet at `i` has this name, index and table of calls. */
  predicate NamedAt(types: Types, ps: seq<PalletDef>, p: string, index: byte, calls: map<string, byte>, i: int)
  {
    && 0 <= i < |ps| && ps[i].name == p && ps[i].index == index
    && VariantsOfOptional(types, ps[i].calls).Valid?
    && calls == Collect(CallIndices(VariantsOfOptional(types, ps[i].calls).value))
  }

  lemma NameTable(types: Types, ps: seq<PalletDef>, p: string)
    requires NamePallets(types, ps).Valid? && DistinctNames(ps)
    ensures var t := Collect(NamePallets(types, ps).value);
            p in t ==> exists i :: NamedAt(types, ps, p, t[p].index, t[p].calls, i)
    ensures forall i :: 0 <= i < |ps| ==> ps[i].name in Collect(NamePallets(types, ps).value)
  {
    var pairs := NamePallets(types, ps).value;
    forall i | 0 <= i < |ps|
      ensures |pairs| == |ps| && ps[i].name in Collect(pairs)
    {
      NamedPalletAt(types, ps, i);
      CollectMember(pairs, i);
    }
    if p in Collect(pairs) {
      CollectLast(pairs, p);
      var i: nat :| LastAt(pairs, p, i);
      if ps != [] { NamedPalletAt(types, ps, 0); }
      NamedPalletAt(types, ps, i);
      assert NamedAt(types, ps, p, pairs[i].1.index, pairs[i].1.calls, i);
    }
  }

  /** A call known by name has the indices of exactly that pallet and that variant. */
  lemma EncodedIndices(types: Types, ps: seq<PalletDef>, p: string, c: string, index: byte, calls: map<string, byte>, i: nat)
    requires NamedAt(types, ps, p, index, calls, i) && c in calls
    ensures exists e :: IsEntry(types, ps, Calls, (index, calls[c]), e) && e.pallet == p && e.name == c
  {
    var vs := VariantsOfOptional(types, ps[i].calls).value;
    CollectLast(CallIndices(vs), c);
    var j: nat :| LastAt(CallIndices(vs), c, j);
    assert EntryAt(types, ps, Calls, (index, calls[c]), Entry(p, c, vs[j]), i, j);
    assert IsEntry(types, ps, Calls, (index, calls[c]), Entry(p, c, vs[j]));
  }

  /** Every call of the pallet list is known by name, under its own indices. */
  lemma CallsAreNamed(types: Types, ps: seq<PalletDef>, key: (byte, byte), e: Entry, index: byte, calls: map<string, byte>, i: nat)
    requires DistinctEntryNames(types, ps, Calls) && IsEntry(types, ps, Calls, key, e)
    requires NamedAt(types, ps, e.pallet, index, calls, i)
    ensures e.name in calls && (index, calls[e.name]) == key
  {
    var i', j :| EntryAt(types, ps, Calls, key, e, i', j);
    assert i == i';
    var vs := VariantsOfOptional(types, ps[i].calls).value;
    CollectLast(CallIndices(vs), e.name);
    CollectMember(CallIndices(vs), j);
    assert LastAt(CallIndices(vs), e.name, j);
  }

  /** Looking up, by index, a call that was encoded by name. */
  ghost predicate LooksUpItself(raw: RuntimeMetadata, p: string, c: string)
    requires TryFrom(raw).Valid?
  {
    var md := TryFrom(raw).value;
    p in md.pallets && c in md.pallets[p].calls ==>
      var key := (md.pallets[p].index, md.pallets[p].calls[c]);
      && key in md.calls && md.calls[key].pallet == p && md.calls[key].name == c
      && IsEntry(raw.types, raw.pallets, Calls, key, md.calls[key])
  }

  /** The two tables agree on every call iff no two calls share a pair of indices. */
  lemma CallTablesAgreeIff(raw: RuntimeMetadata)
    requires TryFrom(raw).Valid? && DistinctEntryNames(raw.types, raw.pallets, Calls)
    ensures (forall p, c :: LooksUpItself(raw, p, c)) <==> DistinctKeys(Rows(raw.types, raw.pallets, Calls).value)
  {
    var md, ps := TryFrom(raw).value, raw.pallets;
    IndexTableExactIff(raw.types, ps, Calls);
    if DistinctKeys(Rows(raw.types, ps, Calls).value) {
      forall p, c
        ensures LooksUpItself(raw, p, c)
      {
        DistinctLooksUp(raw, p, c);
      }
    }
    if forall p, c :: LooksUpItself(raw, p, c) {
      forall key, e | IsEntry(raw.types, ps, Calls, key, e)
        ensures key in md.calls && md.calls[key] == e
      {
        NameTable(raw.types, ps, e.pallet);
        var i: nat :| NamedAt(raw.types, ps, e.pallet, md.pallets[e.pallet].index, md.pallets[e.pallet].calls, i);
        CallsAreNamed(raw.types, ps, key, e, md.pallets[e.pallet].index, md.pallets[e.pallet].calls, i);
        assert LooksUpItself(raw, e.pallet, e.name);
        SameEntry(raw.types, ps, Calls, key, e, md.calls[key]);
      }
    }
  }

  lemma SameEntry(types: Types, ps: seq<PalletDef>, t: Table, key: (byte, byte), e: Entry, e': Entry)
    requires DistinctEntryNames(types, ps, t) && e.pallet == e'.pallet && e.name == e'.name
    requires IsEntry(types, ps, t, key, e) && IsEntry(types, ps, t, key, e')
    ensures e == e'
  {
    var i, j :| EntryAt(types, ps, t, key, e, i, j);
    var i', j' :| EntryAt(types, ps, t, key, e', i', j');
    assert i == i' && j == j';
  }

  lemma DistinctLooksUp(raw: RuntimeMetadata, p: string, c: string)
    requires TryFrom(raw).Valid? && DistinctEntryNames(raw.types, raw.pallets, Calls)
    requires DistinctKeys(Rows(raw.types, raw.pallets, Calls).value)
    ensures LooksUpItself(raw, p, c)
  {
    var md, ps := TryFrom(raw).value, raw.pallets;
    if p in md.pallets && c in md.pallets[p].calls {
      NameTable(raw.types, ps, p);
      var i: nat :| NamedAt(raw.types, ps, p, md.pallets[p].index, md.pallets[p].calls, i);
      EncodedIndices(raw.types, ps, p, c, md.pallets[p].index, md.pallets[p].calls, i);
      IndexTableExactIff(raw.types, ps, Calls);
    }
  }
}
