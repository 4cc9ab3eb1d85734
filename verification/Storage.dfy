/** Storage keys: how they are built from a metadata entry, and how a map key is read back out of
    one. The hash functions are arbitrary up to the length of their results. */
module Storage {
  import opened Scale
  import opened Cursors

  datatype Hasher = Identity | Blake2_128 | Blake2_128Concat | Blake2_256 | Twox128 | Twox256 | Twox64Concat

  /** The foreign functions: five hashes and the bytes of a string. */
  datatype Hashes = Hashes(
    blake2_128: seq<byte> -> seq<byte>,
    blake2_256: seq<byte> -> seq<byte>,
    twox_64: seq<byte> -> seq<byte>,
    twox_128: seq<byte> -> seq<byte>,
    twox_256: seq<byte> -> seq<byte>,
    asBytes: string -> seq<byte>)

  ghost predicate FixedLength(h: Hashes)
  {
    && (forall s :: |h.blake2_128(s)| == 16)
    && (forall s :: |h.blake2_256(s)| == 32)
    && (forall s :: |h.twox_64(s)| == 8)
    && (forall s :: |h.twox_128(s)| == 16)
    && (forall s :: |h.twox_256(s)| == 32)
  }

  datatype EntryType = Plain | Map(hashers: seq<Hasher>)
  datatype StorageEntry = StorageEntry(name: string, ty: EntryType)

  datatype KeyResult = Key(bytes: seq<byte>) | StorageTypeError | PalletNotFound | StorageNotFound

  // ------------------------------------------------------------ building keys

  function KeyHash(h: Hashes, hasher: Hasher, k: seq<byte>): (r: seq<byte>)
  {
    match hasher
    case Identity => k
    case Blake2_128 => h.blake2_128(k)
    case Blake2_128Concat => h.blake2_128(k) + k
    case Blake2_256 => h.blake2_256(k)
    case Twox128 => h.twox_128(k)
    case Twox256 => h.twox_256(k)
    case Twox64Concat => h.twox_64(k) + k
  }

  /** `utils::storage_key`, and the start of every other key. */
  function EntryPrefix(h: Hashes, pallet: string, entry: string): (r: seq<byte>)
  {
    h.twox_128(h.asBytes(pallet)) + h.twox_128(h.asBytes(entry))
  }

  function MapKey(h: Hashes, pallet: string, entry: string, hasher: Hasher, k: seq<byte>): (r: seq<byte>)
  {
    EntryPrefix(h, pallet, entry) + KeyHash(h, hasher, k)
  }

  function DoubleMapKey(h: Hashes, pallet: string, entry: string, h1: Hasher, k1: seq<byte>, h2: Hasher, k2: seq<byte>): (r: seq<byte>)
  {
    EntryPrefix(h, pallet, entry) + KeyHash(h, h1, k1) + KeyHash(h, h2, k2)
  }

  function ValueKeyOf(h: Hashes, pallet: string, e: StorageEntry): (r: KeyResult)
  {
    if e.ty.Plain? then Key(EntryPrefix(h, pallet, e.name)) else StorageTypeError
  }

  function MapPrefixOf(h: Hashes, pallet: string, e: StorageEntry): (r: KeyResult)
  {
    if e.ty.Map? then Key(EntryPrefix(h, pallet, e.name)) else StorageTypeError
  }

  function MapKeyOf(h: Hashes, pallet: string, e: StorageEntry, k: seq<byte>): (r: KeyResult)
  {
    if e.ty.Map? && |e.ty.hashers| >= 1 then Key(MapKey(h, pallet, e.name, e.ty.hashers[0], k)) else StorageTypeError
  }

  function PartialKeyOf(h: Hashes, pallet: string, e: StorageEntry, k1: seq<byte>): (r: KeyResult)
  {
    if e.ty.Map? && |e.ty.hashers| >= 1
    then Key(EntryPrefix(h, pallet, e.name) + KeyHash(h, e.ty.hashers[0], k1)) else StorageTypeError
  }

  function DoubleMapKeyOf(h: Hashes, pallet: string, e: StorageEntry, k1: seq<byte>, k2: seq<byte>): (r: KeyResult)
  {
    if e.ty.Map? && |e.ty.hashers| >= 2
    then Key(DoubleMapKey(h, pallet, e.name, e.ty.hashers[0], k1, e.ty.hashers[1], k2)) else StorageTypeError
  }

  // ------------------------------------------------------------ reading a key back

  predicate Concat(hasher: Hasher) { hasher.Blake2_128Concat? || hasher.Twox64Concat? }

  function HashLength(hasher: Hasher): (n: nat)
  {
    match hasher
    case Identity => 0
    case Twox64Concat => 8
    case Blake2_128 | Blake2_128Concat | Twox128 => 16
    case Blake2_256 | Twox256 => 32
  }

  /** Drop the hash in front of a concatenated key. */
  function SkipHash(hasher: Hasher, s: seq<byte>): (r: Parsed<()>)
  {
    if Concat(hasher) && HashLength(hasher) <= |s| then Read((), s[HashLength(hasher)..]) else Malformed
  }

  function ExtractMap<T>(c: Codec<T>, hasher: Hasher, s: seq<byte>): (r: Parsed<T>)
  {
    if |s| < 32 then Malformed else
    var skipped := SkipHash(hasher, s[32..]);
    if skipped.Malformed? then Malformed else c.dec(skipped.rest)
  }

  /** Of the first key only the encoded size is used. */
  function ExtractDoubleMap<T>(c: Codec<T>, h1: Hasher, h2: Hasher, size1: nat, s: seq<byte>): (r: Parsed<T>)
  {
    if |s| < 32 then Malformed else
    var first := SkipHash(h1, s[32..]);
    if first.Malformed? || |first.rest| < size1 then Malformed else
    var second := SkipHash(h2, first.rest[size1..]);
    if second.Malformed? then Malformed else c.dec(second.rest)
  }

  method ExtractIdentifier(hasher: Hasher, input: Cursor) returns (ok: bool)
    modifies input
    ensures ok <==> SkipHash(hasher, old(input.rest)).Read?
    ensures ok ==> input.rest == SkipHash(hasher, old(input.rest)).rest
  {
    match hasher
    case Blake2_128Concat => ok := input.Skip(16);
    case Twox64Concat => ok := input.Skip(8);
    case _ => ok := false;
  }

  method ExtractMapIdentifier<T>(c: Codec<T>, hasher: Hasher, input: Cursor) returns (r: Parsed<T>)
    modifies input
    ensures r == ExtractMap(c, hasher, old(input.rest))
    ensures r.Read? ==> input.rest == r.rest
  {
    var ok := input.Skip(32);
    if !ok { return Malformed; }
    ok := ExtractIdentifier(hasher, input);
    if !ok { return Malformed; }
    r := c.dec(input.rest);
    if r.Read? { input.rest := r.rest; }
  }

  method ExtractDoubleMapIdentifier<T, K>(c: Codec<T>, h1: Hasher, h2: Hasher, c1: Codec<K>, k1: K, input: Cursor)
    returns (r: Parsed<T>)
    modifies input
    ensures r == ExtractDoubleMap(c, h1, h2, |c1.enc(k1)|, old(input.rest))
    ensures r.Read? ==> input.rest == r.rest
  {
    var ok := input.Skip(32);
    if !ok { return Malformed; }
    ok := ExtractIdentifier(h1, input);
    if !ok { return Malformed; }
    ok := input.Skip(|c1.enc(k1)|);
    if !ok { return Malformed; }
    ok := ExtractIdentifier(h2, input);
    if !ok { return Malformed; }
    r := c.dec(input.rest);
    if r.Read? { input.rest := r.rest; }
  }

  // ------------------------------------------------------------ extraction inverts building

  lemma SkipsItsOwnHash(h: Hashes, hasher: Hasher, k: seq<byte>, tail: seq<byte>)
    requires FixedLength(h)
    ensures SkipHash(hasher, KeyHash(h, hasher, k) + tail) == if Concat(hasher) then Read((), k + tail) else Malformed
  {
    var hash := if hasher.Twox64Concat? then h.twox_64(k) else h.blake2_128(k);
    if Concat(hasher) {
      assert KeyHash(h, hasher, k) + tail == hash + (k + tail);
    }
  }

  /** Extraction from a map key gives back the key iff the hasher keeps it; otherwise an error. */
  lemma MapKeyExtracts<T(!new)>(h: Hashes, c: Codec<T>, pallet: string, entry: string, hasher: Hasher, k: T)
    requires FixedLength(h) && Lawful(c) && c.wf(k)
    ensures ExtractMap(c, hasher, MapKey(h, pallet, entry, hasher, c.enc(k)))
         == if hasher in {Blake2_128Concat, Twox64Concat} then Read(k, []) else Malformed
  {
    var key := MapKey(h, pallet, entry, hasher, c.enc(k));
    assert key[32..] == KeyHash(h, hasher, c.enc(k)) + [];
    SkipsItsOwnHash(h, hasher, c.enc(k), []);
    assert c.dec(c.enc(k) + []) == Read(k, []);
  }

  lemma DoubleMapKeyExtracts<T(!new)>(h: Hashes, c: Codec<T>, pallet: string, entry: string, h1: Hasher, k1: seq<byte>, h2: Hasher, k2: T)
    requires FixedLength(h) && Lawful(c) && c.wf(k2)
    ensures ExtractDoubleMap(c, h1, h2, |k1|, DoubleMapKey(h, pallet, entry, h1, k1, h2, c.enc(k2)))
         == if h1 in {Blake2_128Concat, Twox64Concat} && h2 in {Blake2_128Concat, Twox64Concat}
            then Read(k2, []) else Malformed
  {
    var key := DoubleMapKey(h, pallet, entry, h1, k1, h2, c.enc(k2));
    var tail := KeyHash(h, h2, c.enc(k2));
    assert key[32..] == KeyHash(h, h1, k1) + tail;
    SkipsItsOwnHash(h, h1, k1, tail);
    assert (k1 + tail)[|k1|..] == tail + [];
    SkipsItsOwnHash(h, h2, c.enc(k2), []);
    assert c.dec(c.enc(k2) + []) == Read(k2, []);
  }

  // ------------------------------------------------------------ layout of keys

  /** Two names, hashed by twox_128, start every key. */
  ghost predicate StartsWithNames(h: Hashes, pallet: string, entry: string, bytes: seq<byte>)
  {
    |bytes| >= 32 && bytes[..16] == h.twox_128(h.asBytes(pallet)) && bytes[16..32] == h.twox_128(h.asBytes(entry))
  }

  lemma NamesFirst(h: Hashes, pallet: string, entry: string, tail: seq<byte>)
    requires FixedLength(h)
    ensures StartsWithNames(h, pallet, entry, EntryPrefix(h, pallet, entry) + tail)
    ensures (EntryPrefix(h, pallet, entry) + tail)[32..] == tail
  {
    var a, b := h.twox_128(h.asBytes(pallet)), h.twox_128(h.asBytes(entry));
    assert a + b + tail == a + (b + tail);
  }

  /** A plain value has a key, a map a prefix: the two names and nothing else. */
  lemma NamesOnly(h: Hashes, pallet: string, e: StorageEntry)
    requires FixedLength(h)
    ensures ValueKeyOf(h, pallet, e).Key? <==> e.ty == Plain
    ensures MapPrefixOf(h, pallet, e).Key? <==> e.ty != Plain
    ensures var key := if e.ty == Plain then ValueKeyOf(h, pallet, e) else MapPrefixOf(h, pallet, e);
            |key.bytes| == 32 && StartsWithNames(h, pallet, e.name, key.bytes)
    ensures !ValueKeyOf(h, pallet, e).Key? ==> ValueKeyOf(h, pallet, e) == StorageTypeError
    ensures !MapPrefixOf(h, pallet, e).Key? ==> MapPrefixOf(h, pallet, e) == StorageTypeError
  {
    NamesFirst(h, pallet, e.name, []);
    assert EntryPrefix(h, pallet, e.name) + [] == EntryPrefix(h, pallet, e.name);
  }

  /** A map with at least one hasher has keys: the two names, then the encoded key as its first hasher
      writes it. */
  lemma MapKeyLayout(h: Hashes, pallet: string, e: StorageEntry, k: seq<byte>)
    requires FixedLength(h)
    ensures MapKeyOf(h, pallet, e, k).Key? <==> e.ty.Map? && e.ty.hashers != []
    ensures !MapKeyOf(h, pallet, e, k).Key? ==> MapKeyOf(h, pallet, e, k) == StorageTypeError
    ensures MapKeyOf(h, pallet, e, k).Key? ==>
              var bytes := MapKeyOf(h, pallet, e, k).bytes;
              && StartsWithNames(h, pallet, e.name, bytes)
              && match e.ty.hashers[0]
                 case Identity => bytes[32..] == k
                 case Blake2_128 => bytes[32..] == h.blake2_128(k)
                 case Blake2_128Concat => bytes[32..48] == h.blake2_128(k) && bytes[48..] == k
                 case Blake2_256 => bytes[32..] == h.blake2_256(k)
                 case Twox128 => bytes[32..] == h.twox_128(k)
                 case Twox256 => bytes[32..] == h.twox_256(k)
                 case Twox64Concat => bytes[32..40] == h.twox_64(k) && bytes[40..] == k
  {
    if e.ty.Map? && e.ty.hashers != [] {
      var hasher := e.ty.hashers[0];
      var tail := KeyHash(h, hasher, k);
      NamesFirst(h, pallet, e.name, tail);
      var bytes := MapKeyOf(h, pallet, e, k).bytes;
      if hasher == Blake2_128Concat {
        assert bytes[32..48] == tail[..16] && bytes[48..] == tail[16..];
      } else if hasher == Twox64Concat {
        assert bytes[32..40] == tail[..8] && bytes[40..] == tail[8..];
      }
    }
  }

  /** The key of a double map is the partial key of the first key, followed by the second key as its own
      hasher would write it alone. */
  lemma DoubleMapKeyLayout(h: Hashes, pallet: string, e: StorageEntry, k1: seq<byte>, k2: seq<byte>)
    requires FixedLength(h)
    ensures DoubleMapKeyOf(h, pallet, e, k1, k2).Key? <==> e.ty.Map? && |e.ty.hashers| >= 2
    ensures !DoubleMapKeyOf(h, pallet, e, k1, k2).Key? ==> DoubleMapKeyOf(h, pallet, e, k1, k2) == StorageTypeError
    ensures PartialKeyOf(h, pallet, e, k1) == MapKeyOf(h, pallet, e, k1)
    ensures DoubleMapKeyOf(h, pallet, e, k1, k2).Key? ==>
              var second := MapKeyOf(h, pallet, StorageEntry(e.name, Map([e.ty.hashers[1]])), k2);
              && PartialKeyOf(h, pallet, e, k1).Key? && second.Key? && |second.bytes| >= 32
              && DoubleMapKeyOf(h, pallet, e, k1, k2).bytes == PartialKeyOf(h, pallet, e, k1).bytes + second.bytes[32..]
  {
    hide KeyHash;
    if e.ty.Map? && |e.ty.hashers| >= 2 {
      NamesFirst(h, pallet, e.name, KeyHash(h, e.ty.hashers[1], k2));
    }
  }

  // ------------------------------------------------------------ structure of keys

  predicate Transparent(hasher: Hasher) { hasher.Identity? || Concat(hasher) }

  function HashPart(h: Hashes, hasher: Hasher, k: seq<byte>): (r: seq<byte>)
    ensures FixedLength(h) ==> |r| == HashLength(hasher)
    ensures KeyHash(h, hasher, k) == r + if Transparent(hasher) then k else []
  {
    match hasher
    case Identity => []
    case Blake2_128 | Blake2_128Concat => h.blake2_128(k)
    case Blake2_256 => h.blake2_256(k)
    case Twox128 => h.twox_128(k)
    case Twox256 => h.twox_256(k)
    case Twox64Concat => h.twox_64(k)
  }

  lemma EqualSplit(a: seq<byte>, b: seq<byte>, a': seq<byte>, b': seq<byte>)
    requires |a| == |a'| && a + b == a' + b'
    ensures a == a' && b == b'
  {
    assert a == (a + b)[..|a|] && a' == (a' + b')[..|a|];
    assert b == (a + b)[|a|..] && b' == (a' + b')[|a|..];
  }

  /** Hashed keys followed by anything are equal only if the keys are, when the hasher keeps them;
      otherwise exactly when the hashes collide. */
  lemma KeyHashSplits<K(!new)>(h: Hashes, c: Codec<K>, hasher: Hasher, k: K, r: seq<byte>, k': K, r': seq<byte>)
    requires FixedLength(h) && Lawful(c) && c.wf(k) && c.wf(k')
    requires KeyHash(h, hasher, c.enc(k)) + r == KeyHash(h, hasher, c.enc(k')) + r'
    ensures r == r' && KeyHash(h, hasher, c.enc(k)) == KeyHash(h, hasher, c.enc(k'))
    ensures Transparent(hasher) ==> k == k'
  {
    hide KeyHash, HashPart, Lawful;
    var p, p' := HashPart(h, hasher, c.enc(k)), HashPart(h, hasher, c.enc(k'));
    var q := if Transparent(hasher) then c.enc(k) else [];
    var q' := if Transparent(hasher) then c.enc(k') else [];
    assert KeyHash(h, hasher, c.enc(k)) + r == p + (q + r);
    assert KeyHash(h, hasher, c.enc(k')) + r' == p' + (q' + r');
    EqualSplit(p, q + r, p', q' + r');
    if Transparent(hasher) {
      PrefixFree(c, k, r, k', r');
    } else {
      assert [] + r == r && [] + r' == r';
    }
  }

  /** With key-keeping hashers a double-map key determines both keys. */
  lemma DoubleMapKeyInjective<K(!new), Q(!new)>(h: Hashes, c1: Codec<K>, c2: Codec<Q>, pallet: string, entry: string,
                                                h1: Hasher, h2: Hasher, k1: K, k2: Q, k1': K, k2': Q)
    requires FixedLength(h) && Lawful(c1) && Lawful(c2)
    requires c1.wf(k1) && c1.wf(k1') && c2.wf(k2) && c2.wf(k2') && Transparent(h1) && Transparent(h2)
    requires DoubleMapKey(h, pallet, entry, h1, c1.enc(k1), h2, c2.enc(k2))
          == DoubleMapKey(h, pallet, entry, h1, c1.enc(k1'), h2, c2.enc(k2'))
    ensures k1 == k1' && k2 == k2'
  {
    hide KeyHash, Lawful, EntryPrefix;
    var pre := EntryPrefix(h, pallet, entry);
    var t, t' := KeyHash(h, h2, c2.enc(k2)), KeyHash(h, h2, c2.enc(k2'));
    assert DoubleMapKey(h, pallet, entry, h1, c1.enc(k1), h2, c2.enc(k2)) == pre + (KeyHash(h, h1, c1.enc(k1)) + t);
    assert DoubleMapKey(h, pallet, entry, h1, c1.enc(k1'), h2, c2.enc(k2')) == pre + (KeyHash(h, h1, c1.enc(k1')) + t');
    EqualSplit(pre, KeyHash(h, h1, c1.enc(k1)) + t, pre, KeyHash(h, h1, c1.enc(k1')) + t');
    KeyHashSplits(h, c1, h1, k1, t, k1', t');
    assert t + [] == t' + [];
    KeyHashSplits(h, c2, h2, k2, [], k2', []);
  }

  /** Iterating a partial key finds a full key iff the first keys agree, for a key-keeping first
      hasher, and iff their hashes agree for any other. */
  lemma PartialKeyPrefixIff<K(!new)>(h: Hashes, c: Codec<K>, pallet: string, entry: string, h1: Hasher, h2: Hasher, k1: K, k1': K, k2: seq<byte>)
    requires FixedLength(h) && Lawful(c) && c.wf(k1) && c.wf(k1')
    ensures MapKey(h, pallet, entry, h1, c.enc(k1)) <= DoubleMapKey(h, pallet, entry, h1, c.enc(k1'), h2, k2)
       <==> KeyHash(h, h1, c.enc(k1)) == KeyHash(h, h1, c.enc(k1'))
    ensures Transparent(h1) ==> (KeyHash(h, h1, c.enc(k1)) == KeyHash(h, h1, c.enc(k1')) <==> k1 == k1')
  {
    hide KeyHash, EntryPrefix, Lawful, FixedLength, Transparent;
    var pre, x, x' := EntryPrefix(h, pallet, entry), KeyHash(h, h1, c.enc(k1)), KeyHash(h, h1, c.enc(k1'));
    var tail := KeyHash(h, h2, k2);
    var partial, full := pre + x, pre + x' + tail;
    if x == x' && Transparent(h1) {
      KeyHashSplits(h, c, h1, k1, [], k1', []);
    }
    if partial <= full {
      var rest := full[|partial|..];
      assert full == partial + rest == pre + (x + rest);
      assert full == pre + (x' + tail);
      EqualSplit(pre, x + rest, pre, x' + tail);
      KeyHashSplits(h, c, h1, k1, rest, k1', tail);
    }
  }

  /** The first half of a key's prefix depends on the pallet alone, the second on the entry alone. */
  lemma PrefixHalves(h: Hashes, pallet: string, entry: string, pallet': string, entry': string)
    requires FixedLength(h)
    ensures EntryPrefix(h, pallet, entry)[..16] == EntryPrefix(h, pallet, entry')[..16]
    ensures EntryPrefix(h, pallet, entry)[16..] == EntryPrefix(h, pallet', entry)[16..]
    ensures EntryPrefix(h, pallet, entry) == EntryPrefix(h, pallet', entry') <==>
              (EntryPrefix(h, pallet, entry) == EntryPrefix(h, pallet', entry)
               && EntryPrefix(h, pallet, entry) == EntryPrefix(h, pallet, entry'))
  {
    var a, b := h.twox_128(h.asBytes(pallet)), h.twox_128(h.asBytes(entry));
    var a', b' := h.twox_128(h.asBytes(pallet')), h.twox_128(h.asBytes(entry'));
    assert (a + b)[..16] == a == (a + b')[..16];
    assert (a + b)[16..] == b == (a' + b)[16..];
    if a + b == a' + b' {
      EqualSplit(a, b, a', b');
    }
    if a + b == a' + b && a + b == a + b' {
      EqualSplit(a, b, a', b);
      EqualSplit(a, b, a, b');
    }
  }

  /** Of one entry, the map prefix starts the partial key, which starts the full key; and asking a
      double map for a single-map key gives its partial key. */
  lemma KeysNest(h: Hashes, pallet: string, e: StorageEntry, k1: seq<byte>, k2: seq<byte>)
    ensures MapKeyOf(h, pallet, e, k1) == PartialKeyOf(h, pallet, e, k1)
    ensures DoubleMapKeyOf(h, pallet, e, k1, k2).Key? ==>
              && MapPrefixOf(h, pallet, e).Key? && PartialKeyOf(h, pallet, e, k1).Key?
              && MapPrefixOf(h, pallet, e).bytes <= PartialKeyOf(h, pallet, e, k1).bytes
              && PartialKeyOf(h, pallet, e, k1).bytes <= DoubleMapKeyOf(h, pallet, e, k1, k2).bytes
    ensures ValueKeyOf(h, pallet, e).Key? <==> MapPrefixOf(h, pallet, e) == StorageTypeError
  {
  }
}
