/** The tables of `Metadata::try_from`, read off the pallet list field by field: which metadata is valid,
    what every table holds, and what the lookups by name give. */
module Tables {
  import opened Scale
  import opened Registry
  import opened Storage
  import opened Metadata

  // ------------------------------------------------------------ which metadata is valid

  /** A type that a pallet refers to, if any, is an enum. */
  predicate EnumIfAny(types: Types, id: Option<nat>)
  {
    id.Some? ==> id.value < |types| && types[id.value].def.Variant?
  }

  predicate RefersTo(p: PalletDef, id: nat)
  {
    p.calls == Some(id) || p.event == Some(id) || p.error == Some(id)
  }

  ghost predicate Referred(ps: seq<PalletDef>, id: nat)
  {
    exists i :: 0 <= i < |ps| && RefersTo(ps[i], id)
  }

  /** The error of a type that is referred to and unusable. */
  ghost predicate Blames(types: Types, ps: seq<PalletDef>, error: InvalidMetadata)
  {
    match error
    case MissingType(id) => Referred(ps, id) && id >= |types|
    case TypeDefNotVariant(id) => Referred(ps, id) && id < |types| && !types[id].def.Variant?
    case _ => false
  }

  lemma BlameLater(types: Types, ps: seq<PalletDef>, error: InvalidMetadata)
    requires ps != [] && Blames(types, ps[1..], error)
    ensures Blames(types, ps, error)
  {
    var i :| 0 <= i < |ps[1..]| && RefersTo(ps[1..][i], error.id);
    assert RefersTo(ps[i + 1], error.id);
  }

  lemma {:induction false} RowsValidIff(types: Types, ps: seq<PalletDef>, t: Table)
    ensures Rows(types, ps, t).Valid? <==> forall i :: 0 <= i < |ps| ==> EnumIfAny(types, TypeOf(ps[i], t))
    ensures Rows(types, ps, t).Invalid? ==> Blames(types, ps, Rows(types, ps, t).error)
  {
    if ps != [] {
      RowsValidIff(types, ps[1..], t);
      assert forall i :: 0 < i < |ps| ==> ps[i] == ps[1..][i - 1];
      if !EnumIfAny(types, TypeOf(ps[0], t)) {
        assert RefersTo(ps[0], TypeOf(ps[0], t).value);
      } else if Rows(types, ps, t).Invalid? {
        BlameLater(types, ps, Rows(types, ps, t).error);
      }
    }
  }

  lemma {:induction false} NamesValidIff(types: Types, ps: seq<PalletDef>)
    ensures NamePallets(types, ps).Valid? <==> forall i :: 0 <= i < |ps| ==> EnumIfAny(types, ps[i].calls)
    ensures NamePallets(types, ps).Invalid? ==> Blames(types, ps, NamePallets(types, ps).error)
  {
    if ps != [] {
      NamesValidIff(types, ps[1..]);
      assert forall i :: 0 < i < |ps| ==> ps[i] == ps[1..][i - 1];
      if !EnumIfAny(types, ps[0].calls) {
        assert RefersTo(ps[0], ps[0].calls.value);
      } else if NamePallets(types, ps).Invalid? {
        BlameLater(types, ps, NamePallets(types, ps).error);
      }
    }
  }

  /** Metadata is valid iff it has the magic number `meta` and version 14 and every type that a pallet
      refers to is an enum; what is wrong is said otherwise, and the types are kept as they are. */
  lemma ValidIff(raw: RuntimeMetadata)
    ensures TryFrom(raw).Valid? <==>
              && raw.prefix == 0x6174_656d && raw.version == 14
              && forall i :: 0 <= i < |raw.pallets| ==>
                   && EnumIfAny(raw.types, raw.pallets[i].calls)
                   && EnumIfAny(raw.types, raw.pallets[i].event)
                   && EnumIfAny(raw.types, raw.pallets[i].error)
    ensures TryFrom(raw) == Invalid(InvalidPrefix) <==> raw.prefix != 0x6174_656d
    ensures TryFrom(raw) == Invalid(InvalidVersion) <==> raw.prefix == 0x6174_656d && raw.version != 14
    ensures TryFrom(raw).Invalid? && raw.prefix == 0x6174_656d && raw.version == 14 ==>
              Blames(raw.types, raw.pallets, TryFrom(raw).error)
    ensures TryFrom(raw).Valid? ==> TryFrom(raw).value.types == raw.types
  {
    hide Rows, NamePallets, EnumIfAny;
    NamesValidIff(raw.types, raw.pallets);
    RowsValidIff(raw.types, raw.pallets, Calls);
    RowsValidIff(raw.types, raw.pallets, Events);
    RowsValidIff(raw.types, raw.pallets, Errors);
  }

  // ------------------------------------------------------------ tables keyed by indices

  /** Variant `j` of the enum `id` of pallet `p` is the entry `e`, with the indices `key`. */
  predicate VariantAt(types: Types, p: PalletDef, id: Option<nat>, j: int, key: (byte, byte), e: Entry)
  {
    && id.Some? && id.value < |types| && types[id.value].def.Variant? && 0 <= j < |types[id.value].def.variants|
    && types[id.value].def.variants[j] == e.variant
    && e.pallet == p.name && e.name == e.variant.name && key == (p.index, e.variant.index)
  }

  predicate CallAt(raw: RuntimeMetadata, i: int, j: int, key: (byte, byte), e: Entry)
  {
    0 <= i < |raw.pallets| && VariantAt(raw.types, raw.pallets[i], raw.pallets[i].calls, j, key, e)
  }

  predicate EventAt(raw: RuntimeMetadata, i: int, j: int, key: (byte, byte), e: Entry)
  {
    0 <= i < |raw.pallets| && VariantAt(raw.types, raw.pallets[i], raw.pallets[i].event, j, key, e)
  }

  predicate ErrorAt(raw: RuntimeMetadata, i: int, j: int, key: (byte, byte), e: Entry)
  {
    0 <= i < |raw.pallets| && VariantAt(raw.types, raw.pallets[i], raw.pallets[i].error, j, key, e)
  }

  predicate Before(i: int, j: int, i': int, j': int)
  {
    i < i' || (i == i' && j < j')
  }

  /** `e` is the last call of the pallet list with these indices. */
  ghost predicate LastCallAt(raw: RuntimeMetadata, i: int, j: int, key: (byte, byte), e: Entry)
  {
    CallAt(raw, i, j, key, e) && forall i', j', e' :: CallAt(raw, i', j', key, e') ==> !Before(i, j, i', j')
  }

  ghost predicate LastEventAt(raw: RuntimeMetadata, i: int, j: int, key: (byte, byte), e: Entry)
  {
    EventAt(raw, i, j, key, e) && forall i', j', e' :: EventAt(raw, i', j', key, e') ==> !Before(i, j, i', j')
  }

  ghost predicate LastErrorAt(raw: RuntimeMetadata, i: int, j: int, key: (byte, byte), e: Entry)
  {
    ErrorAt(raw, i, j, key, e) && forall i', j', e' :: ErrorAt(raw, i', j', key, e') ==> !Before(i, j, i', j')
  }

  // ------------------------------------------------------------ collected rows

  lemma {:induction false} CollectConcat<K, V>(a: seq<(K, V)>, b: seq<(K, V)>)
    ensures Collect(a + b) == Collect(a) + Collect(b)
    decreases |b|
  {
    if b == [] {
      assert a + b == a;
    } else {
      var n := |b| - 1;
      assert (a + b)[..|a + b| - 1] == a + b[..n];
      CollectConcat(a, b[..n]);
    }
  }

  predicate RowAt(types: Types, ps: seq<PalletDef>, t: Table, i: int, j: int, key: (byte, byte), e: Entry)
  {
    0 <= i < |ps| && VariantAt(types, ps[i], TypeOf(ps[i], t), j, key, e)
  }

  ghost predicate LastRowAt(types: Types, ps: seq<PalletDef>, t: Table, i: int, j: int, key: (byte, byte), e: Entry)
  {
    RowAt(types, ps, t, i, j, key, e) && forall i', j', e' :: RowAt(types, ps, t, i', j', key, e') ==> !Before(i, j, i', j')
  }

  predicate Holds<K(==), V(==)>(m: map<K, V>, k: K, v: V)
  {
    k in m && m[k] == v
  }

  lemma KeyHeld<K, V>(m: map<K, V>, k: K)
    ensures k in m <==> exists v :: Holds(m, k, v)
  {
    if k in m { assert Holds(m, k, m[k]); }
  }

  lemma HeadRows(types: Types, p: PalletDef, id: Option<nat>, key: (byte, byte), e: Entry)
    requires VariantsOfOptional(types, id).Valid?
    ensures Holds(Collect(PalletRows(p, VariantsOfOptional(types, id).value)), key, e) <==>
              exists j :: VariantAt(types, p, id, j, key, e) && forall j', e' :: VariantAt(types, p, id, j', key, e') ==> j' <= j
  {
    var vs := VariantsOfOptional(types, id).value;
    var rows := PalletRows(p, vs);
    CollectLast(rows, key);
    forall j, e' | VariantAt(types, p, id, j, key, e')
      ensures 0 <= j < |rows| && rows[j] == (key, e')
    {
    }
    forall j | 0 <= j < |rows| && rows[j].0 == key
      ensures VariantAt(types, p, id, j, key, rows[j].1)
    {
    }
    if Holds(Collect(rows), key, e) {
      var j: nat :| LastAt(rows, key, j);
      assert VariantAt(types, p, id, j, key, e);
    }
    if j :| VariantAt(types, p, id, j, key, e) && forall j', e' :: VariantAt(types, p, id, j', key, e') ==> j' <= j {
      assert LastAt(rows, key, j);
    }
  }

  /** A collected table holds, for every pair of indices, the last entry of the pallet list that has it. */
  lemma {:induction false} RowsHold(types: Types, ps: seq<PalletDef>, t: Table, key: (byte, byte), e: Entry)
    requires Rows(types, ps, t).Valid?
    ensures Holds(Collect(Rows(types, ps, t).value), key, e) <==> exists i, j :: LastRowAt(types, ps, t, i, j, key, e)
    decreases |ps|
  {
    hide VariantAt, PalletRows;
    if ps != [] {
      var vs := VariantsOfOptional(types, TypeOf(ps[0], t)).value;
      var head, rest := PalletRows(ps[0], vs), Rows(types, ps[1..], t).value;
      CollectConcat(head, rest);
      HeadRows(types, ps[0], TypeOf(ps[0], t), key, e);
      RowsHold(types, ps[1..], t, key, e);
      NoRow(types, ps[1..], t, key);
      LastOfList(types, ps, t, key, e);
    }
  }

  lemma NoRow(types: Types, ps: seq<PalletDef>, t: Table, key: (byte, byte))
    requires Rows(types, ps, t).Valid?
    ensures key in Collect(Rows(types, ps, t).value) <==> exists i, j, e :: RowAt(types, ps, t, i, j, key, e)
  {
    var rows := Rows(types, ps, t).value;
    CollectLast(rows, key);
    if key in Collect(rows) {
      var k: nat :| LastAt(rows, key, k);
      RowsAreEntries(types, ps, t, k);
      var i, j :| EntryAt(types, ps, t, key, rows[k].1, i, j);
      assert RowAt(types, ps, t, i, j, key, rows[k].1);
    }
    if i, j, e :| RowAt(types, ps, t, i, j, key, e) {
      assert EntryAt(types, ps, t, key, e, i, j);
      EntriesAreRows(types, ps, t, key, e, i, j);
      var k: nat :| k < |rows| && rows[k] == (key, e);
      CollectMember(rows, k);
    }
  }

  /** The last row of a list is the last of its tail, or of its head if the tail has none. */
  lemma LastOfList(types: Types, ps: seq<PalletDef>, t: Table, key: (byte, byte), e: Entry)
    requires ps != []
    ensures (exists i, j :: LastRowAt(types, ps, t, i, j, key, e)) <==>
              || (exists i, j :: LastRowAt(types, ps[1..], t, i, j, key, e))
              || (&& (forall i, j, e' :: !RowAt(types, ps[1..], t, i, j, key, e'))
                  && exists j :: VariantAt(types, ps[0], TypeOf(ps[0], t), j, key, e)
                              && forall j', e' :: VariantAt(types, ps[0], TypeOf(ps[0], t), j', key, e') ==> j' <= j)
  {
    hide VariantAt;
    var id := TypeOf(ps[0], t);
    forall i, j, e'
      ensures RowAt(types, ps[1..], t, i, j, key, e') <==> i >= 0 && RowAt(types, ps, t, i + 1, j, key, e')
    {
    }
    if i, j :| LastRowAt(types, ps, t, i, j, key, e) {
      if i > 0 {
        assert RowAt(types, ps[1..], t, i - 1, j, key, e);
        forall i', j', e' | RowAt(types, ps[1..], t, i', j', key, e')
          ensures !Before(i - 1, j, i', j')
        {
          assert RowAt(types, ps, t, i' + 1, j', key, e');
        }
        assert LastRowAt(types, ps[1..], t, i - 1, j, key, e);
      } else {
        forall i', j', e'
          ensures !RowAt(types, ps[1..], t, i', j', key, e')
        {
          assert RowAt(types, ps, t, i' + 1, j', key, e') ==> !Before(i, j, i' + 1, j');
        }
        assert VariantAt(types, ps[0], id, j, key, e);
        forall j', e' | VariantAt(types, ps[0], id, j', key, e')
          ensures j' <= j
        {
          assert RowAt(types, ps, t, 0, j', key, e');
        }
      }
    }
    if i, j :| LastRowAt(types, ps[1..], t, i, j, key, e) {
      LastOfTail(types, ps, t, key, e, i, j);
    }
    if forall i, j, e' :: !RowAt(types, ps[1..], t, i, j, key, e') {
      if j :| VariantAt(types, ps[0], id, j, key, e) && forall j', e' :: VariantAt(types, ps[0], id, j', key, e') ==> j' <= j {
        assert RowAt(types, ps, t, 0, j, key, e);
        forall i', j', e' | RowAt(types, ps, t, i', j', key, e')
          ensures !Before(0, j, i', j')
        {
          assert !RowAt(types, ps[1..], t, i' - 1, j', key, e');
        }
        assert LastRowAt(types, ps, t, 0, j, key, e);
      }
    }
  }

  lemma LastOfTail(types: Types, ps: seq<PalletDef>, t: Table, key: (byte, byte), e: Entry, i: int, j: int)
    requires ps != [] && LastRowAt(types, ps[1..], t, i, j, key, e)
    ensures LastRowAt(types, ps, t, i + 1, j, key, e)
  {
    hide VariantAt;
    forall i', j', e' | RowAt(types, ps, t, i', j', key, e')
      ensures !Before(i + 1, j, i', j')
    {
      if i' > 0 { assert RowAt(types, ps[1..], t, i' - 1, j', key, e'); }
    }
  }

  /** Each of the three tables holds the entries of its own enums, and of several with the same indices the
      last. */
  lemma IndexTables(raw: RuntimeMetadata, key: (byte, byte), e: Entry)
    requires TryFrom(raw).Valid?
    ensures var md := TryFrom(raw).value; Holds(md.calls, key, e) <==> exists i, j :: LastCallAt(raw, i, j, key, e)
    ensures var md := TryFrom(raw).value; Holds(md.events, key, e) <==> exists i, j :: LastEventAt(raw, i, j, key, e)
    ensures var md := TryFrom(raw).value; Holds(md.errors, key, e) <==> exists i, j :: LastErrorAt(raw, i, j, key, e)
  {
    hide VariantAt, Rows, NamePallets, Collect;
    RowsHold(raw.types, raw.pallets, Calls, key, e);
    RowsHold(raw.types, raw.pallets, Events, key, e);
    RowsHold(raw.types, raw.pallets, Errors, key, e);
    forall i, j
      ensures LastCallAt(raw, i, j, key, e) <==> LastRowAt(raw.types, raw.pallets, Calls, i, j, key, e)
      ensures LastEventAt(raw, i, j, key, e) <==> LastRowAt(raw.types, raw.pallets, Events, i, j, key, e)
      ensures LastErrorAt(raw, i, j, key, e) <==> LastRowAt(raw.types, raw.pallets, Errors, i, j, key, e)
    {
      assert forall i', j', e' :: CallAt(raw, i', j', key, e') <==> RowAt(raw.types, raw.pallets, Calls, i', j', key, e');
      assert forall i', j', e' :: EventAt(raw, i', j', key, e') <==> RowAt(raw.types, raw.pallets, Events, i', j', key, e');
      assert forall i', j', e' :: ErrorAt(raw, i', j', key, e') <==> RowAt(raw.types, raw.pallets, Errors, i', j', key, e');
    }
  }

  // ------------------------------------------------------------ what a runtime guarantees

  predicate DistinctIn(types: Types, id: Option<nat>)
  {
    id.Some? && id.value < |types| && types[id.value].def.Variant? ==>
      DistinctVariantNames(types[id.value].def.variants) && DistinctVariantIndices(types[id.value].def.variants)
  }

  /** Pallets differ in name and in index, and so do the variants of each of their enums. */
  predicate WellNumbered(raw: RuntimeMetadata)
  {
    && (forall i, j :: 0 <= i < j < |raw.pallets| ==>
          raw.pallets[i].name != raw.pallets[j].name && raw.pallets[i].index != raw.pallets[j].index)
    && forall i :: 0 <= i < |raw.pallets| ==>
         && DistinctIn(raw.types, raw.pallets[i].calls)
         && DistinctIn(raw.types, raw.pallets[i].event)
         && DistinctIn(raw.types, raw.pallets[i].error)
  }

  lemma SamePlace(raw: RuntimeMetadata, i: int, j: int, i': int, j': int, id: Option<nat>, id': Option<nat>, key: (byte, byte), e: Entry, e': Entry)
    requires WellNumbered(raw) && 0 <= i < |raw.pallets| && 0 <= i' < |raw.pallets|
    requires VariantAt(raw.types, raw.pallets[i], id, j, key, e) && VariantAt(raw.types, raw.pallets[i'], id', j', key, e')
    requires DistinctIn(raw.types, id) && (i == i' ==> id == id')
    ensures i == i' && j == j'
  {
    assert raw.pallets[i].index == raw.pallets[i'].index;
  }

  /** With distinct names and indices every call, event and error of every pallet is in its own table, and
      nothing else is. */
  lemma WellNumberedTables(raw: RuntimeMetadata, key: (byte, byte), e: Entry)
    requires TryFrom(raw).Valid? && WellNumbered(raw)
    ensures var md := TryFrom(raw).value; Holds(md.calls, key, e) <==> exists i, j :: CallAt(raw, i, j, key, e)
    ensures var md := TryFrom(raw).value; Holds(md.events, key, e) <==> exists i, j :: EventAt(raw, i, j, key, e)
    ensures var md := TryFrom(raw).value; Holds(md.errors, key, e) <==> exists i, j :: ErrorAt(raw, i, j, key, e)
  {
    hide VariantAt, TryFrom, WellNumbered, Before;
    IndexTables(raw, key, e);
    forall i, j
      ensures CallAt(raw, i, j, key, e) <==> LastCallAt(raw, i, j, key, e)
      ensures EventAt(raw, i, j, key, e) <==> LastEventAt(raw, i, j, key, e)
      ensures ErrorAt(raw, i, j, key, e) <==> LastErrorAt(raw, i, j, key, e)
    {
      OnlyOnePlace(raw, i, j, key, e);
    }
  }

  lemma OnlyOnePlace(raw: RuntimeMetadata, i: int, j: int, key: (byte, byte), e: Entry)
    requires WellNumbered(raw)
    ensures CallAt(raw, i, j, key, e) <==> LastCallAt(raw, i, j, key, e)
    ensures EventAt(raw, i, j, key, e) <==> LastEventAt(raw, i, j, key, e)
    ensures ErrorAt(raw, i, j, key, e) <==> LastErrorAt(raw, i, j, key, e)
  {
    hide VariantAt;
    forall i', j', e' | CallAt(raw, i, j, key, e) && CallAt(raw, i', j', key, e')
      ensures i == i' && j == j'
    {
      SamePlace(raw, i, j, i', j', raw.pallets[i].calls, raw.pallets[i'].calls, key, e, e');
    }
    forall i', j', e' | EventAt(raw, i, j, key, e) && EventAt(raw, i', j', key, e')
      ensures i == i' && j == j'
    {
      SamePlace(raw, i, j, i', j', raw.pallets[i].event, raw.pallets[i'].event, key, e, e');
    }
    forall i', j', e' | ErrorAt(raw, i, j, key, e) && ErrorAt(raw, i', j', key, e')
      ensures i == i' && j == j'
    {
      SamePlace(raw, i, j, i', j', raw.pallets[i].error, raw.pallets[i'].error, key, e, e');
    }
  }

  // ------------------------------------------------------------ tables keyed by names

  /** The last pallet of this name. */
  predicate LastPallet(raw: RuntimeMetadata, p: string, i: int)
  {
    && 0 <= i < |raw.pallets| && raw.pallets[i].name == p
    && forall k :: i < k < |raw.pallets| ==> raw.pallets[k].name != p
  }

  /** The last call of this name in the enum `id`. */
  predicate LastCall(types: Types, id: Option<nat>, c: string, index: byte, j: int)
  {
    && id.Some? && id.value < |types| && types[id.value].def.Variant? && 0 <= j < |types[id.value].def.variants|
    && types[id.value].def.variants[j].name == c && types[id.value].def.variants[j].index == index
    && forall k :: j < k < |types[id.value].def.variants| ==> types[id.value].def.variants[k].name != c
  }

  /** The last storage entry of this name. */
  predicate LastEntry(storage: Option<seq<StorageEntry>>, name: string, e: StorageEntry, j: int)
  {
    && storage.Some? && 0 <= j < |storage.value| && storage.value[j] == e && e.name == name
    && forall k :: j < k < |storage.value| ==> storage.value[k].name != name
  }

  lemma CallNames(types: Types, id: Option<nat>, c: string, index: byte)
    requires VariantsOfOptional(types, id).Valid?
    ensures Holds(Collect(CallIndices(VariantsOfOptional(types, id).value)), c, index) <==> exists j :: LastCall(types, id, c, index, j)
  {
    var pairs := CallIndices(VariantsOfOptional(types, id).value);
    CollectLast(pairs, c);
    assert id.Some? ==> forall k :: 0 <= k < |pairs| ==> pairs[k].0 == types[id.value].def.variants[k].name;
    if Holds(Collect(pairs), c, index) {
      var j: nat :| LastAt(pairs, c, j);
      assert LastCall(types, id, c, index, j);
    }
    if j :| LastCall(types, id, c, index, j) {
      assert LastAt(pairs, c, j);
    }
  }

  lemma EntryNames(storage: Option<seq<StorageEntry>>, name: string, e: StorageEntry)
    ensures Holds(Collect(NamedEntries(if storage.None? then [] else storage.value)), name, e)
       <==> exists j :: LastEntry(storage, name, e, j)
  {
    var pairs := NamedEntries(if storage.None? then [] else storage.value);
    CollectLast(pairs, name);
    assert storage.Some? ==> forall k :: 0 <= k < |pairs| ==> pairs[k].0 == storage.value[k].name;
    if Holds(Collect(pairs), name, e) {
      var j: nat :| LastAt(pairs, name, j);
      assert LastEntry(storage, name, e, j);
    }
    if j :| LastEntry(storage, name, e, j) {
      assert LastAt(pairs, name, j);
    }
  }

  /** A name leads to the last pallet that has it: to its index, its calls and its storage entries. */
  lemma NameTables(raw: RuntimeMetadata, p: string, i: int)
    requires TryFrom(raw).Valid? && LastPallet(raw, p, i)
    ensures var md := TryFrom(raw).value;
            && p in md.pallets && md.pallets[p].name == p && md.pallets[p].index == raw.pallets[i].index
            && (forall c, x :: Holds(md.pallets[p].calls, c, x) <==> exists j :: LastCall(raw.types, raw.pallets[i].calls, c, x, j))
            && (forall n, e :: Holds(md.pallets[p].storage, n, e) <==> exists j :: LastEntry(raw.pallets[i].storage, n, e, j))
  {
    hide Collect, LastCall, LastEntry, Rows, CallIndices, NamedEntries, Holds;
    var pairs := NamePallets(raw.types, raw.pallets).value;
    forall k | 0 <= k < |raw.pallets|
      ensures |pairs| == |raw.pallets| && pairs[k].0 == raw.pallets[k].name
    {
      NamedPalletAt(raw.types, raw.pallets, k);
    }
    CollectLast(pairs, p);
    assert LastAt(pairs, p, i);
    NamedPalletAt(raw.types, raw.pallets, i);
    forall c, x
      ensures Holds(pairs[i].1.calls, c, x) <==> exists j :: LastCall(raw.types, raw.pallets[i].calls, c, x, j)
    {
      CallNames(raw.types, raw.pallets[i].calls, c, x);
    }
    forall n, e
      ensures Holds(pairs[i].1.storage, n, e) <==> exists j :: LastEntry(raw.pallets[i].storage, n, e, j)
    {
      EntryNames(raw.pallets[i].storage, n, e);
    }
  }

  /** A pallet is known iff it is in the list; some pallet of its name is then the last. */
  lemma KnownPallets(raw: RuntimeMetadata, p: string)
    requires TryFrom(raw).Valid?
    ensures p in TryFrom(raw).value.pallets <==> exists i :: 0 <= i < |raw.pallets| && raw.pallets[i].name == p
    ensures p in TryFrom(raw).value.pallets ==> exists i :: LastPallet(raw, p, i)
  {
    var pairs := NamePallets(raw.types, raw.pallets).value;
    if raw.pallets == [] {
      assert pairs == [];
    } else {
      NamedPalletAt(raw.types, raw.pallets, 0);
    }
    forall k | 0 <= k < |raw.pallets|
      ensures pairs[k].0 == raw.pallets[k].name
    {
      NamedPalletAt(raw.types, raw.pallets, k);
    }
    CollectLast(pairs, p);
    if p in Collect(pairs) {
      var i: nat :| LastAt(pairs, p, i);
      assert LastPallet(raw, p, i);
    }
    if i :| 0 <= i < |raw.pallets| && raw.pallets[i].name == p {
      CollectMember(pairs, i);
    }
  }

  // ------------------------------------------------------------ calls by name

  /** `encode_call`: two index bytes and the arguments as they are, for the last call of that name in the
      last pallet of that name; the pallet or the call is named when there is none. */
  lemma EncodeCallIff(raw: RuntimeMetadata, p: string, c: string, args: seq<byte>)
    requires TryFrom(raw).Valid?
    ensures var r := EncodeCall(TryFrom(raw).value, p, c, args);
            && (r == PalletMissing(p) <==> forall i :: 0 <= i < |raw.pallets| ==> raw.pallets[i].name != p)
            && (forall i, j, x :: LastPallet(raw, p, i) && LastCall(raw.types, raw.pallets[i].calls, c, x, j) ==>
                  r == Encoded([raw.pallets[i].index, x] + args))
            && (forall i :: LastPallet(raw, p, i) && (forall j, x :: !LastCall(raw.types, raw.pallets[i].calls, c, x, j)) ==>
                  r == CallNotFound(c))
  {
    hide TryFrom, LastCall;
    var md := TryFrom(raw).value;
    KnownPallets(raw, p);
    forall i | LastPallet(raw, p, i)
      ensures p in md.pallets && md.pallets[p].index == raw.pallets[i].index
      ensures forall x :: Holds(md.pallets[p].calls, c, x) <==> exists j :: LastCall(raw.types, raw.pallets[i].calls, c, x, j)
    {
      NameTables(raw, p, i);
    }
    forall i, j, x | LastPallet(raw, p, i) && LastCall(raw.types, raw.pallets[i].calls, c, x, j)
      ensures EncodeCall(md, p, c, args) == Encoded([raw.pallets[i].index, x] + args)
    {
      assert Holds(md.pallets[p].calls, c, x);
    }
    forall i | LastPallet(raw, p, i) && forall j, x :: !LastCall(raw.types, raw.pallets[i].calls, c, x, j)
      ensures EncodeCall(md, p, c, args) == CallNotFound(c)
    {
      KeyHeld(md.pallets[p].calls, c);
    }
  }

  /** With distinct names, every call of every pallet is encoded under its own indices, whatever its
      arguments. */
  lemma DeclaredCallEncodes(raw: RuntimeMetadata, i: int, j: int, key: (byte, byte), e: Entry, args: seq<byte>)
    requires TryFrom(raw).Valid? && WellNumbered(raw) && CallAt(raw, i, j, key, e)
    ensures EncodeCall(TryFrom(raw).value, e.pallet, e.name, args) == Encoded([key.0, key.1] + args)
  {
    hide TryFrom;
    EncodeCallIff(raw, e.pallet, e.name, args);
    assert LastPallet(raw, e.pallet, i);
    assert LastCall(raw.types, raw.pallets[i].calls, e.name, key.1, j);
  }

  // ------------------------------------------------------------ storage keys by name

  /** The five storage keys of an entry found by name are those of the last entry of that name in the last
      pallet of that name. */
  lemma StorageByName(raw: RuntimeMetadata, h: Hashes, p: string, n: string, i: int, e: StorageEntry, j: int, k1: seq<byte>, k2: seq<byte>)
    requires TryFrom(raw).Valid? && LastPallet(raw, p, i) && LastEntry(raw.pallets[i].storage, n, e, j)
    ensures var md := TryFrom(raw).value;
            && StorageValueKey(md, h, p, n) == ValueKeyOf(h, p, e)
            && StorageMapPrefix(md, h, p, n) == MapPrefixOf(h, p, e)
            && StorageMapKey(md, h, p, n, k1) == MapKeyOf(h, p, e, k1)
            && StoragePartialKey(md, h, p, n, k1) == PartialKeyOf(h, p, e, k1)
            && StorageDoubleMapKey(md, h, p, n, k1, k2) == DoubleMapKeyOf(h, p, e, k1, k2)
  {
    hide TryFrom, LastEntry, LastPallet;
    NameTables(raw, p, i);
    assert Holds(TryFrom(raw).value.pallets[p].storage, n, e);
  }

  /** Without such a pallet or entry, all five say which of the two is missing. */
  lemma StorageMissing(raw: RuntimeMetadata, h: Hashes, p: string, n: string, k1: seq<byte>, k2: seq<byte>)
    requires TryFrom(raw).Valid?
    requires forall i, e, j :: LastPallet(raw, p, i) ==> !LastEntry(raw.pallets[i].storage, n, e, j)
    ensures var md := TryFrom(raw).value;
            var error := if exists i :: 0 <= i < |raw.pallets| && raw.pallets[i].name == p then StorageNotFound else PalletNotFound;
            && StorageValueKey(md, h, p, n) == error
            && StorageMapPrefix(md, h, p, n) == error
            && StorageMapKey(md, h, p, n, k1) == error
            && StoragePartialKey(md, h, p, n, k1) == error
            && StorageDoubleMapKey(md, h, p, n, k1, k2) == error
  {
    hide TryFrom, LastEntry;
    var md := TryFrom(raw).value;
    KnownPallets(raw, p);
    if p in md.pallets {
      var i :| LastPallet(raw, p, i);
      NameTables(raw, p, i);
      KeyHeld(md.pallets[p].storage, n);
    }
  }
}
