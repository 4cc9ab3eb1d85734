/** The local keystore: a map of ephemeral keys in memory over a directory with one file per key,
    named by the hex text of key type and public key. */
module Keystore {
  import opened Scale
  import opened Registry
  import opened Hex

  type KeyType = k: seq<byte> | |k| == 4 witness [0, 0, 0, 0]
  type Public = seq<byte>

  /** A file holds a phrase as a JSON string, or something else. */
  datatype Content = Phrase(phrase: string) | Garbage

  datatype Store = Store(
    backed: bool,                                  // is there a directory at all
    files: map<string, Content>,
    additional: map<(KeyType, Public), string>,
    password: Option<string>)

  /** Key derivation, from code that is not part of this model. */
  datatype Crypto<!P> = Crypto(derive: (string, Option<string>) -> Option<P>, public: P -> Public)

  // ------------------------------------------------------------ file names

  function FileName(kt: KeyType, pub: Public): (s: string)
  {
    HexEncode(kt) + HexEncode(pub)
  }

  lemma FileNameDecodes(kt: KeyType, pub: Public)
    ensures HexDecode(FileName(kt, pub)) == Some(kt + pub)
  {
    HexConcat(kt, pub);
    HexRoundTrip(kt + pub);
  }

  /** No two keys share a file. */
  lemma FileNameInjective(kt: KeyType, pub: Public, kt': KeyType, pub': Public)
    requires FileName(kt, pub) == FileName(kt', pub')
    ensures kt == kt' && pub == pub'
  {
    FileNameDecodes(kt, pub);
    FileNameDecodes(kt', pub');
    assert kt == (kt + pub)[..4] && kt' == (kt' + pub')[..4];
    assert pub == (kt + pub)[4..] && pub' == (kt' + pub')[4..];
  }

  // ------------------------------------------------------------ queries

  /** `key_phrase_by_type`. */
  datatype LookupResult = Found(phrase: string) | Missing | Unreadable

  function Lookup(st: Store, kt: KeyType, pub: Public): (r: LookupResult)
  {
    if (kt, pub) in st.additional then Found(st.additional[(kt, pub)])
    else if !st.backed || FileName(kt, pub) !in st.files then Missing
    else if st.files[FileName(kt, pub)].Phrase? then Found(st.files[FileName(kt, pub)].phrase)
    else Unreadable
  }

  /** `key_pair_by_type`. */
  datatype PairResult<+P> = Pair(pair: P) | NoPair | BadFile | InvalidPhrase | PublicKeyMismatch

  function KeyPair<P>(c: Crypto<P>, st: Store, kt: KeyType, pub: Public): (r: PairResult<P>)
  {
    match Lookup(st, kt, pub)
    case Missing => NoPair
    case Unreadable => BadFile
    case Found(phrase) => PairFrom(c, phrase, st.password, pub)
  }

  /** Derive a pair from a phrase, and see that it is the one asked for. */
  function PairFrom<P>(c: Crypto<P>, phrase: string, password: Option<string>, pub: Public): (r: PairResult<P>)
  {
    var pair := c.derive(phrase, password);
    if pair.None? then InvalidPhrase
    else if c.public(pair.value) == pub then Pair(pair.value) else PublicKeyMismatch
  }

  /** The file called `name` lists `pub` under key type `id`. */
  predicate Names(name: string, id: KeyType, pub: Public)
  {
    HexDecode(name) == Some(id + pub) && pub != []
  }

  /** `pub` is among the `raw_public_keys` of type `id`. */
  ghost predicate Listed(st: Store, id: KeyType, pub: Public)
  {
    (id, pub) in st.additional || (st.backed && exists name :: name in st.files && Names(name, id, pub))
  }

  // ------------------------------------------------------------ updates

  function Write(st: Store, kt: KeyType, pub: Public, phrase: string): (r: Store)
  {
    if st.backed then st.(files := st.files[FileName(kt, pub) := Phrase(phrase)]) else st
  }

  function Remember(st: Store, kt: KeyType, pub: Public, phrase: string): (r: Store)
  {
    st.(additional := st.additional[(kt, pub) := phrase])
  }

  function Generate(st: Store, kt: KeyType, pub: Public, phrase: string): (r: Store)
  {
    if st.backed then Write(st, kt, pub, phrase) else Remember(st, kt, pub, phrase)
  }

  function Reopen(st: Store, password: Option<string>): (r: Store)
  {
    st.(additional := map[], password := password)
  }

  // ------------------------------------------------------------ the keystore object

  class Directory {
    var files: map<string, Content>

    constructor (fs: map<string, Content>)
      ensures files == fs
    {
      files := fs;
    }
  }

  datatype Scheme = Sr25519 | Ed25519 | Ecdsa | OtherScheme

  class KeystoreInner {
    const path: Directory?
    const password: Option<string>
    var additional: map<(KeyType, Public), string>

    ghost function Now(): (st: Store)
      reads this, path
    {
      Store(path != null, if path == null then map[] else path.files, additional, password)
    }

    constructor Open(dir: Directory, pw: Option<string>)
      ensures path == dir && Now() == Store(true, dir.files, map[], pw)
    {
      path, password, additional := dir, pw, map[];
    }

    constructor InMemory()
      ensures path == null && Now() == Store(false, map[], map[], None)
    {
      path, password, additional := null, None, map[];
    }

    method WriteToFile(kt: KeyType, pub: Public, phrase: string)
      requires path != null
      modifies path
      ensures Now() == Write(old(Now()), kt, pub, phrase)
    {
      path.files := path.files[FileName(kt, pub) := Phrase(phrase)];
    }

    method InsertUnknown(kt: KeyType, suri: string, pub: Public)
      modifies path
      ensures Now() == Write(old(Now()), kt, pub, suri)
    {
      if path != null {
        WriteToFile(kt, pub, suri);
      }
    }

    method InsertEphemeralPair(kt: KeyType, pub: Public, seed: string)
      modifies this
      ensures Now() == Remember(old(Now()), kt, pub, seed)
    {
      additional := additional[(kt, pub) := seed];
    }

    /** The pair and phrase come from the random generator. */
    method GenerateByType<P>(c: Crypto<P>, kt: KeyType, pair: P, phrase: string)
      modifies this, path
      ensures Now() == Generate(old(Now()), kt, c.public(pair), phrase)
    {
      if path != null {
        WriteToFile(kt, c.public(pair), phrase);
      } else {
        InsertEphemeralPair(kt, c.public(pair), phrase);
      }
    }

    method InsertEphemeralFromSeed<P>(c: Crypto<P>, seed: string, kt: KeyType) returns (r: Option<P>)
      modifies this
      ensures r == c.derive(seed, None)
      ensures Now() == if r.Some? then Remember(old(Now()), kt, c.public(r.value), seed) else old(Now())
    {
      r := c.derive(seed, None);
      if r.Some? {
        InsertEphemeralPair(kt, c.public(r.value), seed);
      }
    }

    method KeyPhraseByType(pub: Public, kt: KeyType) returns (r: LookupResult)
      ensures r == Lookup(Now(), kt, pub)
    {
      if (kt, pub) in additional { return Found(additional[(kt, pub)]); }
      if path == null { return Missing; }
      var name := FileName(kt, pub);
      if name !in path.files { return Missing; }
      match path.files[name] {
        case Phrase(s) => r := Found(s);
        case Garbage => r := Unreadable;
      }
    }

    method KeyPairByType<P(==)>(c: Crypto<P>, pub: Public, kt: KeyType) returns (r: PairResult<P>)
      ensures r == KeyPair(c, Now(), kt, pub)
    {
      var found := KeyPhraseByType(pub, kt);
      if found.Missing? { return NoPair; }
      if found.Unreadable? { return BadFile; }
      var pair := c.derive(found.phrase, password);
      if pair.None? { return InvalidPhrase; }
      r := if c.public(pair.value) == pub then Pair(pair.value) else PublicKeyMismatch;
    }

    /** The keys of one type held in memory, in the order of an arbitrary iteration. */
    method MemoryKeys(id: KeyType) returns (keys: seq<Public>)
      ensures forall pub :: multiset(keys)[pub] == if (id, pub) in additional then 1 else 0
    {
      keys := [];
      var todo := additional.Keys;
      while todo != {}
        invariant todo <= additional.Keys
        invariant forall pub :: multiset(keys)[pub] == if (id, pub) in additional.Keys - todo then 1 else 0
        decreases |todo|
      {
        var k :| k in todo;
        todo := todo - {k};
        if k.0 == id {
          keys := keys + [k.1];
        }
      }
    }

    /** The keys of one type that file names spell out. */
    method FileKeys(id: KeyType, names: set<string>) returns (keys: seq<Public>)
      ensures forall pub :: pub in keys <==> exists name :: name in names && Names(name, id, pub)
      ensures CanonicalNames(names) ==>
                forall pub :: multiset(keys)[pub] == if pub != [] && FileName(id, pub) in names then 1 else 0
    {
      keys := [];
      var todo := names;
      while todo != {}
        invariant todo <= names
        invariant forall pub :: pub in keys <==> exists name :: name in names - todo && Names(name, id, pub)
        invariant CanonicalNames(names) ==>
                    forall pub :: multiset(keys)[pub] == if pub != [] && FileName(id, pub) in names - todo then 1 else 0
        decreases |todo|
      {
        var name :| name in todo;
        ghost var done := names - todo;
        todo := todo - {name};
        assert names - todo == done + {name};
        var decoded := HexDecode(name);
        if decoded.Some? && |decoded.value| > 4 && decoded.value[..4] == id {
          var pub := decoded.value[4..];
          assert decoded.value == id + pub;
          NamesOnce(name, id, pub, names);
          keys := keys + [pub];
        } else {
          NamesNothing(name, id);
        }
      }
    }

    method RawPublicKeys(id: KeyType) returns (keys: seq<Public>)
      ensures forall pub :: pub in keys <==> Listed(Now(), id, pub)
      ensures CanonicalNames(Now().files.Keys) ==> forall pub :: multiset(keys)[pub] == Multiplicity(Now(), id, pub)
    {
      keys := MemoryKeys(id);
      assert forall pub :: pub in keys <==> pub in multiset(keys);
      if path != null {
        var more := FileKeys(id, path.files.Keys);
        assert multiset(keys + more) == multiset(keys) + multiset(more);
        keys := keys + more;
      }
    }

    /** `keys`: a stored key does not say its scheme, so it is offered under all three. */
    method Keys(id: KeyType) returns (all: seq<(Scheme, Public)>)
      ensures forall k :: k in all <==> k.0 != OtherScheme && Listed(Now(), id, k.1)
    {
      hide Listed;
      var raw := RawPublicKeys(id);
      all := [];
      for i := 0 to |raw|
        invariant forall k :: k in all <==> k.0 != OtherScheme && k.1 in raw[..i]
      {
        all := all + [(Sr25519, raw[i]), (Ed25519, raw[i]), (Ecdsa, raw[i])];
        assert raw[..i + 1] == raw[..i] + [raw[i]];
      }
      assert raw[..|raw|] == raw;
    }

    /** `supported_keys`: the given keys that are listed, whichever of the three schemes they name. */
    method SupportedKeys(id: KeyType, ks: seq<(Scheme, Public)>) returns (r: seq<(Scheme, Public)>)
      ensures r == Supported(Now(), id, ks)
    {
      hide Listed;
      var all := Keys(id);
      r := [];
      assert ks[..0] == [];
      for i := 0 to |ks|
        invariant r == Supported(Now(), id, ks[..i])
      {
        SupportedNext(Now(), id, ks[..i], ks[i]);
        assert ks[..i] + [ks[i]] == ks[..i + 1];
        if ks[i] in all {
          r := r + [ks[i]];
        }
      }
      assert ks[..|ks|] == ks;
    }

    method HasKeys(ks: seq<(Public, KeyType)>) returns (r: bool)
      ensures r <==> forall i :: 0 <= i < |ks| ==> Lookup(Now(), ks[i].1, ks[i].0).Found?
    {
      for i := 0 to |ks|
        invariant forall j :: 0 <= j < i ==> Lookup(Now(), ks[j].1, ks[j].0).Found?
      {
        var found := KeyPhraseByType(ks[i].0, ks[i].1);
        if !found.Found? { return false; }
      }
      r := true;
    }
  }

  ghost function Supported(st: Store, id: KeyType, ks: seq<(Scheme, Public)>): (r: seq<(Scheme, Public)>)
  {
    if ks == [] then []
    else (if ks[0].0 != OtherScheme && Listed(st, id, ks[0].1) then [ks[0]] else []) + Supported(st, id, ks[1..])
  }

  lemma {:induction false} SupportedNext(st: Store, id: KeyType, ks: seq<(Scheme, Public)>, k: (Scheme, Public))
    ensures Supported(st, id, ks + [k])
         == Supported(st, id, ks) + if k.0 != OtherScheme && Listed(st, id, k.1) then [k] else []
  {
    hide Listed;
    if ks == [] {
      assert ks + [k] == [k];
    } else {
      assert (ks + [k])[1..] == ks[1..] + [k];
      SupportedNext(st, id, ks[1..], k);
    }
  }

  /** How often a key is listed: a key both in memory and on disk is listed twice. */
  function Multiplicity(st: Store, id: KeyType, pub: Public): (n: nat)
  {
    (if (id, pub) in st.additional then 1 else 0) +
    (if st.backed && pub != [] && FileName(id, pub) in st.files then 1 else 0)
  }

  /** Every name that spells a key spells it the way the keystore itself would. */
  ghost predicate CanonicalNames(names: set<string>)
  {
    forall name, id: KeyType, pub :: name in names && Names(name, id, pub) ==> name == FileName(id, pub)
  }

  lemma NamesOnce(name: string, id: KeyType, pub: Public, names: set<string>)
    requires HexDecode(name) == Some(id + pub) && pub != [] && name in names
    ensures Names(name, id, pub)
    ensures forall pub' :: Names(name, id, pub') <==> pub' == pub
    ensures CanonicalNames(names) ==> forall pub' :: FileName(id, pub') == name <==> pub' == pub
  {
    forall pub' | Names(name, id, pub') || FileName(id, pub') == name
      ensures pub' == pub
    {
      FileNameDecodes(id, pub');
      assert (id + pub')[4..] == pub' && (id + pub)[4..] == pub;
    }
  }

  lemma NamesNothing(name: string, id: KeyType)
    requires var d := HexDecode(name); d.None? || |d.value| <= 4 || d.value[..4] != id
    ensures forall pub :: !Names(name, id, pub)
    ensures forall pub :: pub != [] ==> FileName(id, pub) != name
  {
    forall pub
      ensures !Names(name, id, pub) && (pub != [] ==> FileName(id, pub) != name)
    {
      FileNameDecodes(id, pub);
      assert (id + pub)[..4] == id;
    }
  }

  // ------------------------------------------------------------ listing and lookup

  /** Every spelled key can also be found under its own name, or in memory. */
  ghost predicate SpeltKeysStored(st: Store)
  {
    st.backed ==> forall name, id: KeyType, pub :: name in st.files && Names(name, id, pub) ==>
                    FileName(id, pub) in st.files || (id, pub) in st.additional
  }

  /** Listing and lookup agree on all keys but the empty one iff every name that spells a key, in
      whatever case, has its lower-case counterpart stored. */
  lemma ListedIffFound(st: Store)
    ensures SpeltKeysStored(st)
       <==> forall id: KeyType, pub :: pub != [] ==> (Listed(st, id, pub) <==> !Lookup(st, id, pub).Missing?)
  {
    forall id: KeyType, pub | pub != []
      ensures !Lookup(st, id, pub).Missing? ==> Listed(st, id, pub)
    {
      FileNameDecodes(id, pub);
      assert Names(FileName(id, pub), id, pub);
    }
    if forall id: KeyType, pub :: pub != [] ==> (Listed(st, id, pub) <==> !Lookup(st, id, pub).Missing?) {
      forall name, id: KeyType, pub | st.backed && name in st.files && Names(name, id, pub)
        ensures FileName(id, pub) in st.files || (id, pub) in st.additional
      {
        assert Listed(st, id, pub);
      }
    }
  }

  /** The empty public key is looked up in its file but never listed from it. */
  lemma EmptyKeyListing(st: Store, id: KeyType)
    ensures Listed(st, id, []) <==> (id, []) in st.additional
    ensures st.backed && FileName(id, []) in st.files ==> !Lookup(st, id, []).Missing?
  {
  }

  // ------------------------------------------------------------ runs

  datatype Op =
    | Generated(kt: KeyType, pub: Public, phrase: string)
    | Inserted(kt: KeyType, pub: Public, phrase: string)
    | Seeded(kt: KeyType, pub: Public, phrase: string)
    | Reopened(password: Option<string>)

  function Apply(st: Store, op: Op): (r: Store)
  {
    match op
    case Generated(kt, pub, phrase) => Generate(st, kt, pub, phrase)
    case Inserted(kt, pub, phrase) => Write(st, kt, pub, phrase)
    case Seeded(kt, pub, phrase) => Remember(st, kt, pub, phrase)
    case Reopened(password) => Reopen(st, password)
  }

  /** From an empty directory. */
  function Run(backed: bool, password: Option<string>, ops: seq<Op>): (st: Store)
  {
    if ops == [] then Store(backed, map[], map[], password)
    else Apply(Run(backed, password, ops[..|ops| - 1]), ops[|ops| - 1])
  }

  predicate Concerns(op: Op, kt: KeyType, pub: Public)
  {
    !op.Reopened? && op.kt == kt && op.pub == pub
  }

  predicate Persists(backed: bool, op: Op)
  {
    backed && (op.Generated? || op.Inserted?)
  }

  predicate Ephemeral(backed: bool, op: Op)
  {
    op.Seeded? || (!backed && op.Generated?)
  }

  /** The phrase of the last operation that stored the key on disk. */
  function OnDisk(backed: bool, ops: seq<Op>, kt: KeyType, pub: Public): (r: Option<string>)
  {
    if ops == [] then None else
    var op := ops[|ops| - 1];
    if Persists(backed, op) && Concerns(op, kt, pub) then Some(op.phrase)
    else OnDisk(backed, ops[..|ops| - 1], kt, pub)
  }

  /** The phrase of the last operation since the last reopening that kept the key in memory. */
  function InMemoryPhrase(backed: bool, ops: seq<Op>, kt: KeyType, pub: Public): (r: Option<string>)
  {
    if ops == [] then None else
    var op := ops[|ops| - 1];
    if op.Reopened? then None
    else if Ephemeral(backed, op) && Concerns(op, kt, pub) then Some(op.phrase)
    else InMemoryPhrase(backed, ops[..|ops| - 1], kt, pub)
  }

  lemma {:induction false} StateIsHistory(backed: bool, password: Option<string>, ops: seq<Op>, kt: KeyType, pub: Public)
    ensures var st := Run(backed, password, ops);
            && st.backed == backed
            && (if InMemoryPhrase(backed, ops, kt, pub).Some?
                then (kt, pub) in st.additional && st.additional[(kt, pub)] == InMemoryPhrase(backed, ops, kt, pub).value
                else (kt, pub) !in st.additional)
            && (if OnDisk(backed, ops, kt, pub).Some?
                then FileName(kt, pub) in st.files && st.files[FileName(kt, pub)] == Phrase(OnDisk(backed, ops, kt, pub).value)
                else FileName(kt, pub) !in st.files)
    decreases |ops|
  {
    hide HexEncode;
    if ops != [] {
      var n := |ops| - 1;
      StateIsHistory(backed, password, ops[..n], kt, pub);
      var op := ops[n];
      if !op.Reopened? && FileName(op.kt, op.pub) == FileName(kt, pub) {
        FileNameInjective(op.kt, op.pub, kt, pub);
      }
    }
  }

  lemma {:induction false} RunNamesCanonical(backed: bool, password: Option<string>, ops: seq<Op>)
    ensures CanonicalNames(Run(backed, password, ops).files.Keys)
    decreases |ops|
  {
    hide FileName;
    if ops != [] {
      var n := |ops| - 1;
      RunNamesCanonical(backed, password, ops[..n]);
      var op := ops[n];
      if Persists(Run(backed, password, ops[..n]).backed, op) {
        forall id: KeyType, pub | Names(FileName(op.kt, op.pub), id, pub)
          ensures FileName(op.kt, op.pub) == FileName(id, pub)
        {
          FileNameDecodes(op.kt, op.pub);
          assert (id + pub)[..4] == id && (op.kt + op.pub)[..4] == op.kt;
          assert (id + pub)[4..] == pub && (op.kt + op.pub)[4..] == op.pub;
        }
      }
    }
  }

  /** After any run, looking up a key gives the phrase remembered since the last reopening, failing
      that the one last written to disk, and nothing if there is neither. */
  lemma LookupIsHistory(backed: bool, password: Option<string>, ops: seq<Op>, kt: KeyType, pub: Public)
    ensures Lookup(Run(backed, password, ops), kt, pub)
         == if InMemoryPhrase(backed, ops, kt, pub).Some? then Found(InMemoryPhrase(backed, ops, kt, pub).value)
            else if OnDisk(backed, ops, kt, pub).Some? && backed then Found(OnDisk(backed, ops, kt, pub).value)
            else Missing
  {
    hide HexEncode;
    StateIsHistory(backed, password, ops, kt, pub);
  }

  /** Operation `i` stored the key and it is still there. */
  predicate Survives(backed: bool, ops: seq<Op>, i: int, kt: KeyType, pub: Public)
  {
    && 0 <= i < |ops| && Concerns(ops[i], kt, pub)
    && (Persists(backed, ops[i])
        || (Ephemeral(backed, ops[i]) && forall j :: i < j < |ops| ==> !ops[j].Reopened?))
  }

  lemma {:induction false} PhraseIffSurvivor(backed: bool, ops: seq<Op>, kt: KeyType, pub: Public)
    ensures (OnDisk(backed, ops, kt, pub).Some? || InMemoryPhrase(backed, ops, kt, pub).Some?)
       <==> exists i :: Survives(backed, ops, i, kt, pub)
    ensures OnDisk(backed, ops, kt, pub).Some? ==> backed
    decreases |ops|
  {
    DiskIff(backed, ops, kt, pub);
    MemoryIff(backed, ops, kt, pub);
    if i :| 0 <= i < |ops| && Concerns(ops[i], kt, pub) && Persists(backed, ops[i]) {
      assert Survives(backed, ops, i, kt, pub);
    }
    if i :| Remembered(backed, ops, i, kt, pub) {
      assert Survives(backed, ops, i, kt, pub);
    }
    if i :| Survives(backed, ops, i, kt, pub) {
      assert Persists(backed, ops[i]) || Remembered(backed, ops, i, kt, pub);
    }
  }

  predicate Remembered(backed: bool, ops: seq<Op>, i: int, kt: KeyType, pub: Public)
  {
    0 <= i < |ops| && Concerns(ops[i], kt, pub) && Ephemeral(backed, ops[i]) && forall j :: i < j < |ops| ==> !ops[j].Reopened?
  }

  lemma {:induction false} DiskIff(backed: bool, ops: seq<Op>, kt: KeyType, pub: Public)
    ensures OnDisk(backed, ops, kt, pub).Some?
       <==> exists i :: 0 <= i < |ops| && Concerns(ops[i], kt, pub) && Persists(backed, ops[i])
    decreases |ops|
  {
    if ops != [] {
      var n := |ops| - 1;
      DiskIff(backed, ops[..n], kt, pub);
      if i :| 0 <= i < n && Concerns(ops[i], kt, pub) && Persists(backed, ops[i]) {
        assert ops[..n][i] == ops[i];
      }
    }
  }

  lemma {:induction false} MemoryIff(backed: bool, ops: seq<Op>, kt: KeyType, pub: Public)
    ensures InMemoryPhrase(backed, ops, kt, pub).Some? <==> exists i :: Remembered(backed, ops, i, kt, pub)
    decreases |ops|
  {
    if ops != [] {
      var n := |ops| - 1;
      MemoryIff(backed, ops[..n], kt, pub);
      if InMemoryPhrase(backed, ops, kt, pub).Some? {
        if Ephemeral(backed, ops[n]) && Concerns(ops[n], kt, pub) {
          assert Remembered(backed, ops, n, kt, pub);
        } else {
          var i :| Remembered(backed, ops[..n], i, kt, pub);
          assert Remembered(backed, ops, i, kt, pub);
        }
      }
      if i :| Remembered(backed, ops, i, kt, pub) {
        if i < n { assert Remembered(backed, ops[..n], i, kt, pub); }
      }
    }
  }

  // ------------------------------------------------------------ main results

  /** After any run from an empty directory, exactly the surviving keys of a type are listed: none of
      another type, none that was lost, none that was never stored. */
  lemma ListingIsHistory(backed: bool, password: Option<string>, ops: seq<Op>, id: KeyType, pub: Public)
    requires pub != []
    ensures Listed(Run(backed, password, ops), id, pub) <==> exists i :: Survives(backed, ops, i, id, pub)
    ensures Listed(Run(backed, password, ops), id, pub) <==> !Lookup(Run(backed, password, ops), id, pub).Missing?
  {
    hide HexEncode, HexDecode;
    var st := Run(backed, password, ops);
    RunNamesCanonical(backed, password, ops);
    StateIsHistory(backed, password, ops, id, pub);
    PhraseIffSurvivor(backed, ops, id, pub);
    FileNameDecodes(id, pub);
    assert Names(FileName(id, pub), id, pub);
  }

  /** The password of the last reopening, or else the one the store was first opened with. */
  lemma {:induction false} PasswordIsLast(backed: bool, password: Option<string>, ops: seq<Op>, i: int)
    requires 0 <= i < |ops| ==> ops[i].Reopened?
    requires -1 <= i < |ops| && forall j :: i < j < |ops| ==> !ops[j].Reopened?
    ensures Run(backed, password, ops).password == if i == -1 then password else ops[i].password
    decreases |ops|
  {
    if ops != [] && i < |ops| - 1 {
      PasswordIsLast(backed, password, ops[..|ops| - 1], i);
    }
  }

  /** The phrase a store holds for a key: the one in memory, or else the one on disk. */
  function Held(backed: bool, ops: seq<Op>, kt: KeyType, pub: Public): (r: Option<string>)
  {
    var seed := InMemoryPhrase(backed, ops, kt, pub);
    if seed.Some? then seed else OnDisk(backed, ops, kt, pub)
  }

  /** After any run: no pair iff nothing stored for the key survives; otherwise the held phrase is derived
      with the current password, and the result is the pair, a mismatch or an invalid phrase according to
      what that gives. No file is ever found unreadable. */
  lemma PairIsHistory<P(!new)>(c: Crypto<P>, backed: bool, password: Option<string>, ops: seq<Op>, kt: KeyType, pub: Public)
    ensures var st := Run(backed, password, ops);
            var r, held := KeyPair(c, st, kt, pub), Held(backed, ops, kt, pub);
            && (r == NoPair <==> forall i :: !Survives(backed, ops, i, kt, pub))
            && (held.None? <==> r == NoPair)
            && (r == InvalidPhrase <==> held.Some? && c.derive(held.value, st.password) == None)
            && (forall pair :: r == Pair(pair) <==> held.Some? && c.derive(held.value, st.password) == Some(pair) && c.public(pair) == pub)
            && (r == PublicKeyMismatch <==>
                  held.Some? && c.derive(held.value, st.password).Some? && c.public(c.derive(held.value, st.password).value) != pub)
            && r != BadFile
  {
    hide Run, Survives, HexEncode;
    LookupIsHistory(backed, password, ops, kt, pub);
    PhraseIffSurvivor(backed, ops, kt, pub);
  }

  /** In any directory, a file that holds no phrase is reported as such unless the key is in memory, and a key
      without file is missing. */
  lemma FileOutcome<P>(c: Crypto<P>, st: Store, kt: KeyType, pub: Public)
    requires (kt, pub) !in st.additional
    ensures var name := HexEncode(kt) + HexEncode(pub);
            && (KeyPair(c, st, kt, pub) == NoPair <==> !(st.backed && name in st.files))
            && (KeyPair(c, st, kt, pub) == BadFile <==> st.backed && name in st.files && st.files[name] == Garbage)
  {
  }

  /** In a store reached by a run, the supported ones among non-empty keys are those it has. */
  lemma {:induction false} SupportedIffHeld(backed: bool, password: Option<string>, ops: seq<Op>, id: KeyType, ks: seq<(Scheme, Public)>)
    requires forall i :: 0 <= i < |ks| ==> ks[i].0 != OtherScheme && ks[i].1 != []
    ensures Supported(Run(backed, password, ops), id, ks) == ks
       <==> forall i :: 0 <= i < |ks| ==> Lookup(Run(backed, password, ops), id, ks[i].1).Found?
    ensures |Supported(Run(backed, password, ops), id, ks)| <= |ks|
    decreases |ks|
  {
    hide Run, Listed, Lookup;
    var st := Run(backed, password, ops);
    if ks != [] {
      SupportedIffHeld(backed, password, ops, id, ks[1..]);
      ListingIsHistory(backed, password, ops, id, ks[0].1);
      NeverUnreadable(backed, password, ops, id, ks[0].1);
      var rest := Supported(st, id, ks[1..]);
      assert ks == [ks[0]] + ks[1..];
      if Listed(st, id, ks[0].1) {
        assert Supported(st, id, ks) == [ks[0]] + rest;
        assert ([ks[0]] + rest)[1..] == rest;
      } else {
        assert Supported(st, id, ks) == [] + rest;
        assert |rest| < |ks|;
      }
    }
  }

  lemma NeverUnreadable(backed: bool, password: Option<string>, ops: seq<Op>, kt: KeyType, pub: Public)
    ensures !Lookup(Run(backed, password, ops), kt, pub).Unreadable?
  {
    LookupIsHistory(backed, password, ops, kt, pub);
  }

  predicate Reopens(ops: seq<Op>)
  {
    exists i :: 0 <= i < |ops| && ops[i].Reopened?
  }

  predicate NoneConcern(ops: seq<Op>, kt: KeyType, pub: Public)
  {
    forall i :: 0 <= i < |ops| ==> !Concerns(ops[i], kt, pub)
  }

  /** Operations on other keys leave the phrase on disk alone, and the one in memory until they reopen. */
  lemma {:induction false} Untouched(backed: bool, ops: seq<Op>, more: seq<Op>, kt: KeyType, pub: Public)
    requires NoneConcern(more, kt, pub)
    ensures OnDisk(backed, ops + more, kt, pub) == OnDisk(backed, ops, kt, pub)
    ensures InMemoryPhrase(backed, ops + more, kt, pub) == if Reopens(more) then None else InMemoryPhrase(backed, ops, kt, pub)
    decreases |more|
  {
    if more == [] {
      assert ops + more == ops;
    } else {
      var all, n := ops + more, |more| - 1;
      assert all[..|all| - 1] == ops + more[..n] && all[|all| - 1] == more[n];
      Untouched(backed, ops, more[..n], kt, pub);
      if Reopens(more[..n]) {
        var i :| 0 <= i < n && more[..n][i].Reopened?;
        assert more[i].Reopened?;
      }
    }
  }

  /** A key generated into a directory is, after any operations on other keys and any reopenings, looked up
      by its own phrase, unless a seed of the same key was in memory before and the store has not been
      reopened since: then that seed decides. */
  lemma GeneratedKeyPersists<P>(c: Crypto<P>, password: Option<string>, before: seq<Op>, kt: KeyType, pub: Public, phrase: string, after: seq<Op>)
    requires NoneConcern(after, kt, pub)
    ensures var st := Run(true, password, before + [Generated(kt, pub, phrase)] + after);
            var seed := InMemoryPhrase(true, before, kt, pub);
            KeyPair(c, st, kt, pub)
              == PairFrom(c, if seed.Some? && !Reopens(after) then seed.value else phrase, st.password, pub)
  {
    var ops := before + [Generated(kt, pub, phrase)];
    assert ops[..|ops| - 1] == before;
    Untouched(true, ops, after, kt, pub);
    LookupIsHistory(true, password, ops + after, kt, pub);
  }

  /** Once reopened with a password that derives it, a generated key is returned. */
  lemma GeneratedKeyReturned<P>(c: Crypto<P>, password: Option<string>, before: seq<Op>, kt: KeyType, pair: P, phrase: string, after: seq<Op>)
    requires NoneConcern(after, kt, c.public(pair))
    requires Reopens(after) || InMemoryPhrase(true, before, kt, c.public(pair)).None?
    requires c.derive(phrase, Run(true, password, before + [Generated(kt, c.public(pair), phrase)] + after).password) == Some(pair)
    ensures KeyPair(c, Run(true, password, before + [Generated(kt, c.public(pair), phrase)] + after), kt, c.public(pair)) == Pair(pair)
  {
    GeneratedKeyPersists(c, password, before, kt, c.public(pair), phrase, after);
  }

  /** No reopening, and nothing that puts the key in memory again; it may be written to disk. */
  predicate KeepsSeed(backed: bool, ops: seq<Op>, kt: KeyType, pub: Public)
  {
    forall i :: 0 <= i < |ops| ==> !ops[i].Reopened? && !(Ephemeral(backed, ops[i]) && Concerns(ops[i], kt, pub))
  }

  lemma {:induction false} SeedKept(backed: bool, password: Option<string>, before: seq<Op>, op: Op, after: seq<Op>, kt: KeyType, pub: Public)
    requires Ephemeral(backed, op) && Concerns(op, kt, pub) && KeepsSeed(backed, after, kt, pub)
    ensures InMemoryPhrase(backed, before + [op] + after, kt, pub) == Some(op.phrase)
    ensures Run(backed, password, before + [op] + after).password == Run(backed, password, before).password
    decreases |after|
  {
    var ops := before + [op] + after;
    var n := |ops| - 1;
    if after == [] {
      assert ops[n] == op && ops[..n] == before;
    } else {
      assert ops[n] == after[|after| - 1] && ops[..n] == before + [op] + after[..|after| - 1];
      SeedKept(backed, password, before, op, after[..|after| - 1], kt, pub);
    }
  }

  /** A seed hides the phrase on disk through any operations short of reopening or another seed of that key,
      writes of the same key included; reopening brings the last written phrase back, and operations
      on other keys keep it. */
  lemma SeedShadowsUntilReopen(backed: bool, password: Option<string>, before: seq<Op>, kt: KeyType, pub: Public, seed: string,
                               after: seq<Op>, pw: Option<string>, later: seq<Op>)
    requires KeepsSeed(backed, after, kt, pub) && NoneConcern(later, kt, pub)
    ensures var ops := before + [Seeded(kt, pub, seed)] + after;
            && Lookup(Run(backed, password, ops), kt, pub) == Found(seed)
            && Lookup(Run(backed, password, ops + [Reopened(pw)] + later), kt, pub)
               == if OnDisk(backed, ops, kt, pub).Some? then Found(OnDisk(backed, ops, kt, pub).value) else Missing
  {
    var ops := before + [Seeded(kt, pub, seed)] + after;
    SeedKept(backed, password, before, Seeded(kt, pub, seed), after, kt, pub);
    LookupIsHistory(backed, password, ops, kt, pub);
    var reopened := ops + [Reopened(pw)];
    assert reopened[..|reopened| - 1] == ops;
    Untouched(backed, reopened, later, kt, pub);
    LookupIsHistory(backed, password, reopened + later, kt, pub);
    PhraseIffSurvivor(backed, ops, kt, pub);
  }

  /** As long as it is in memory, a key inserted from a seed is returned iff deriving it with the store's
      password, which insertion does not use, gives the same public key; with no password it always is. */
  lemma SeededKeyReturnedIff<P>(c: Crypto<P>, backed: bool, password: Option<string>, before: seq<Op>, kt: KeyType, pair: P, seed: string, after: seq<Op>)
    requires c.derive(seed, None) == Some(pair) && KeepsSeed(backed, after, kt, c.public(pair))
    ensures var pw := Run(backed, password, before).password;
            var found := KeyPair(c, Run(backed, password, before + [Seeded(kt, c.public(pair), seed)] + after), kt, c.public(pair));
            && (found.Pair? <==> c.derive(seed, pw).Some? && c.public(c.derive(seed, pw).value) == c.public(pair))
            && (found.Pair? ==> found.pair == c.derive(seed, pw).value)
            && (pw == None ==> found == Pair(pair))
  {
    SeedKept(backed, password, before, Seeded(kt, c.public(pair), seed), after, kt, c.public(pair));
    LookupIsHistory(backed, password, before + [Seeded(kt, c.public(pair), seed)] + after, kt, c.public(pair));
  }

  /** So a key inserted from a seed is there but cannot be returned when the store's password derives another
      key from that seed. */
  lemma SeededKeyMismatch<P>(c: Crypto<P>, backed: bool, password: Option<string>, before: seq<Op>, kt: KeyType, pair: P, other: P, seed: string, after: seq<Op>)
    requires c.derive(seed, None) == Some(pair) && KeepsSeed(backed, after, kt, c.public(pair))
    requires c.derive(seed, Run(backed, password, before).password) == Some(other) && c.public(other) != c.public(pair)
    ensures var st := Run(backed, password, before + [Seeded(kt, c.public(pair), seed)] + after);
            && Lookup(st, kt, c.public(pair)) == Found(seed)
            && KeyPair(c, st, kt, c.public(pair)) == PublicKeyMismatch
  {
    SeedKept(backed, password, before, Seeded(kt, c.public(pair), seed), after, kt, c.public(pair));
    LookupIsHistory(backed, password, before + [Seeded(kt, c.public(pair), seed)] + after, kt, c.public(pair));
  }

  /** A file whose name spells a key with capitals is listed under its key type but never found. */
  lemma CapitalNameListedNotFound(id: KeyType, content: Content, password: Option<string>)
    ensures var st := Store(true, map[HexEncode(id) + "FF" := content], map[], password);
            Listed(st, id, [0xFF]) && Lookup(st, id, [0xFF]).Missing?
  {
    var name := HexEncode(id) + "FF";
    assert DigitValue('F') == Some(15);
    assert HexDecode("FF"[2..]) == Some([]);
    assert HexDecode("FF") == Some([0xFF] + []);
    DecodesAfter(id, "FF");
    assert id + ([0xFF] + []) == id + [0xFF];
    assert Names(name, id, [0xFF]);
    assert HexEncode([0xFF])[0] == 'f';
    assert FileName(id, [0xFF])[8] == 'f' && name[8] == 'F';
  }

  lemma {:induction false} DecodesAfter(bs: seq<byte>, t: string)
    requires HexDecode(t).Some?
    ensures HexDecode(HexEncode(bs) + t) == Some(bs + HexDecode(t).value)
  {
    hide HexDecode, Digit, DigitValue;
    if bs == [] {
      assert [] + t == t && bs + HexDecode(t).value == HexDecode(t).value;
    } else {
      var rest := HexEncode(bs[1..]) + t;
      DecodesAfter(bs[1..], t);
      DecodePair(bs[0], rest, bs[1..] + HexDecode(t).value);
      assert HexEncode(bs) + t == [Digit(bs[0] / 16), Digit(bs[0] % 16)] + rest;
      assert bs + HexDecode(t).value == [bs[0]] + (bs[1..] + HexDecode(t).value);
    }
  }

  lemma DecodePair(b: byte, rest: string, bs: seq<byte>)
    requires HexDecode(rest) == Some(bs)
    ensures HexDecode([Digit(b / 16), Digit(b % 16)] + rest) == Some([b] + bs)
  {
    hide Digit, DigitValue;
    DigitRoundTrip(b / 16);
    DigitRoundTrip(b % 16);
    assert ([Digit(b / 16), Digit(b % 16)] + rest)[2..] == rest;
  }
}
