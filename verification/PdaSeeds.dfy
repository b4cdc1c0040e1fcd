/** Account addresses and the recursive resolution of PDA seeds. */
module PdaSeeds {
  import opened Prelude
  import opened Text
  import opened LittleEndian
  import opened Json
  import opened RawEncodings

  /** The foreign functions resolution calls; every result below holds for any of them. */
  datatype Foreign = Foreign(
    readPubkey: PubkeyReader,
    findProgramAddress: (seq<seq<u8>>, Pubkey) -> Pubkey,
    utf8: string -> seq<u8>
  )

  type Values = Option<map<string, Json>>

  datatype PdaSeed =
    | Pubkey(text: string)
    | String(text: string)
    | Bytes(bytes: seq<u8>)
    | PropertyRef(name: string)
    | U16Be(n: u16)
    | U16BeRef(name: string)
    | U16Le(n: u16)
    | Bytes32Ref(name: string)
    | DerivedPda(programId: string, seeds: seq<PdaSeed>)

  datatype AccountAddress = Address(text: string) | Pda(programId: string, seeds: seq<PdaSeed>)

  function Lookup(values: Values, name: string): Option<Json> {
    if values.Some? && name in values.value then Some(values.value[name]) else None
  }

  function HexDecode(s: string): Option<seq<u8>> {
    if s == [] then Some([])
    else if |s| == 1 then None
    else
      match (HexDigit(s[0]), HexDigit(s[1]), HexDecode(s[2..]))
      case (Some(h), Some(l), Some(rest)) => Some([h * 16 + l] + rest)
      case _ => None
  }

  function StripHexPrefix(s: string): string {
    if "0x" <= s then s[2..] else s
  }

  function PropertyBytes(v: Json, f: Foreign): Option<seq<u8>> {
    match v
    case JString(s) => (match f.readPubkey(s) case Some(key) => Some(key) case None => Some(f.utf8(s)))
    case JNumber(Int(n)) => if n >= 0 then Some(LeBytes(n, 8)) else None
    case _ => None
  }

  function U16Bytes(v: Json): Option<seq<u8>> {
    var index: Option<u16> := match v
      case JString(s) => ParseInt(s, 0, 0xFFFF)
      case JNumber(Int(n)) => if 0 <= n <= 0xFFFF then Some(n) else None
      case _ => None;
    match index case Some(n) => Some(BeBytes16(n)) case None => None
  }

  function Hex32Bytes(v: Json): Option<seq<u8>> {
    if !v.JString? then None else
      match HexDecode(StripHexPrefix(v.s))
      case Some(bytes) => if |bytes| == 32 then Some(bytes) else None
      case None => None
  }

  function ToBytes(seed: PdaSeed, values: Values, f: Foreign): Option<seq<u8>>
    decreases seed
  {
    match seed
    case Pubkey(text) => (match f.readPubkey(text) case Some(key) => Some(key) case None => None)
    case String(text) => Some(f.utf8(text))
    case Bytes(bytes) => Some(bytes)
    case PropertyRef(name) => (match Lookup(values, name) case Some(v) => PropertyBytes(v, f) case None => None)
    case U16Be(n) => Some(BeBytes16(n))
    case U16BeRef(name) => (match Lookup(values, name) case Some(v) => U16Bytes(v) case None => None)
    case U16Le(n) => Some(LeBytes(n, 2))
    case Bytes32Ref(name) => (match Lookup(values, name) case Some(v) => Hex32Bytes(v) case None => None)
    case DerivedPda(programId, seeds) =>
      (match f.readPubkey(programId)
       case None => None
       case Some(program) =>
         var bytes := ConvertedSeeds(seeds, values, f);
         if |bytes| != |seeds| then None else Some(f.findProgramAddress(bytes, program)))
  }

  /** The seeds that converted, in order; failures are dropped, so a caller compares lengths. */
  function ConvertedSeeds(seeds: seq<PdaSeed>, values: Values, f: Foreign): (r: seq<seq<u8>>)
    ensures |r| <= |seeds|
    decreases seeds
  {
    if seeds == [] then [] else
      var init := ConvertedSeeds(seeds[..|seeds| - 1], values, f);
      match ToBytes(seeds[|seeds| - 1], values, f)
      case Some(bytes) => init + [bytes]
      case None => init
  }

  function Resolve(address: AccountAddress, values: Values, f: Foreign): Option<RawEncodings.Pubkey> {
    match address
    case Address(text) => f.readPubkey(text)
    case Pda(programId, seeds) =>
      match f.readPubkey(programId)
      case None => None
      case Some(program) =>
        var bytes := ConvertedSeeds(seeds, values, f);
        if |bytes| != |seeds| then None else Some(f.findProgramAddress(bytes, program))
  }

  /** The names a seed mentions, through derived PDAs of any depth. */
  function SeedReferences(seed: PdaSeed): seq<string>
    decreases seed, 0
  {
    match seed
    case PropertyRef(name) => [name]
    case U16BeRef(name) => [name]
    case Bytes32Ref(name) => [name]
    case DerivedPda(_, seeds) => References(seeds)
    case _ => []
  }

  function References(seeds: seq<PdaSeed>): seq<string>
    decreases seeds, 1
  {
    if seeds == [] then [] else
      References(seeds[..|seeds| - 1]) + SeedReferences(seeds[|seeds| - 1])
  }

  function AddressReferences(address: AccountAddress): seq<string> {
    if address.Pda? then References(address.seeds) else []
  }

  lemma ReferencesStep(seeds: seq<PdaSeed>, i: nat)
    requires i < |seeds|
    ensures References(seeds[..i + 1]) == References(seeds[..i]) + SeedReferences(seeds[i])
  {
    assert seeds[..i + 1][..i] == seeds[..i];
  }

  /** `collect_seed_references`, pushing onto the caller's list. */
  method CollectSeedReferences(seeds: seq<PdaSeed>, refs: seq<string>) returns (r: seq<string>)
    ensures r == refs + References(seeds)
    decreases seeds
  {
    r := refs;
    for i := 0 to |seeds|
      invariant r == refs + References(seeds[..i])
    {
      ReferencesStep(seeds, i);
      match seeds[i] {
        case PropertyRef(name) => r := r + [name];
        case U16BeRef(name) => r := r + [name];
        case Bytes32Ref(name) => r := r + [name];
        case DerivedPda(_, inner) => r := CollectSeedReferences(inner, r);
        case _ =>
      }
    }
    assert seeds[..|seeds|] == seeds;
  }

  ghost predicate AgreeOn(names: seq<string>, v: Values, w: Values) {
    forall n :: n in names ==> Lookup(v, n) == Lookup(w, n)
  }

  ghost predicate AllPresent(names: seq<string>, v: Values) {
    forall n :: n in names ==> Lookup(v, n).Some?
  }

  lemma {:induction false} SeedLocal(seed: PdaSeed, v: Values, w: Values, f: Foreign)
    requires AgreeOn(SeedReferences(seed), v, w)
    ensures ToBytes(seed, v, f) == ToBytes(seed, w, f)
    decreases seed, 0
  {
    match seed
    case DerivedPda(_, seeds) => SeedsLocal(seeds, v, w, f);
    case PropertyRef(name) => assert name in SeedReferences(seed);
    case U16BeRef(name) => assert name in SeedReferences(seed);
    case Bytes32Ref(name) => assert name in SeedReferences(seed);
    case _ =>
  }

  lemma {:induction false} SeedsLocal(seeds: seq<PdaSeed>, v: Values, w: Values, f: Foreign)
    requires AgreeOn(References(seeds), v, w)
    ensures ConvertedSeeds(seeds, v, f) == ConvertedSeeds(seeds, w, f)
    decreases seeds, 1
  {
    if seeds != [] {
      SeedsLocal(seeds[..|seeds| - 1], v, w, f);
      SeedLocal(seeds[|seeds| - 1], v, w, f);
    }
  }

  lemma {:induction false} SeedNeedsNames(seed: PdaSeed, v: Values, f: Foreign)
    requires ToBytes(seed, v, f).Some?
    ensures AllPresent(SeedReferences(seed), v)
    decreases seed, 0
  {
    match seed
    case DerivedPda(_, seeds) => SeedsNeedNames(seeds, v, f);
    case _ =>
  }

  lemma {:induction false} SeedsNeedNames(seeds: seq<PdaSeed>, v: Values, f: Foreign)
    requires |ConvertedSeeds(seeds, v, f)| == |seeds|
    ensures AllPresent(References(seeds), v)
    decreases seeds, 1
  {
    if seeds != [] {
      SeedsNeedNames(seeds[..|seeds| - 1], v, f);
      SeedNeedsNames(seeds[|seeds| - 1], v, f);
    }
  }

  /** Resolution reads the value map only at the reported names. */
  lemma ResolveLocal(address: AccountAddress, v: Values, w: Values, f: Foreign)
    requires AgreeOn(AddressReferences(address), v, w)
    ensures Resolve(address, v, f) == Resolve(address, w, f)
  {
    if address.Pda? {
      SeedsLocal(address.seeds, v, w, f);
    }
  }

  /** An address comes out only if every reported name has a value. */
  lemma ResolveNeedsNames(address: AccountAddress, v: Values, f: Foreign)
    requires Resolve(address, v, f).Some?
    ensures AllPresent(AddressReferences(address), v)
  {
    if address.Pda? {
      SeedsNeedNames(address.seeds, v, f);
    }
  }

  /** Which values a property seed can be made of: any text, and the integers of a u64. */
  predicate PropertyReadable(v: Json) {
    v.JString? || (v.JNumber? && v.num.Int? && v.num.n >= 0)
  }

  predicate U16Readable(v: Json) {
    match v
    case JString(s) => ParseInt(s, 0, 0xFFFF).Some?
    case JNumber(Int(n)) => 0 <= n <= 0xFFFF
    case _ => false
  }

  ghost predicate IsHex(s: string) {
    forall i :: 0 <= i < |s| ==> HexDigit(s[i]).Some?
  }

  /** Exactly 64 hexadecimal digits, a prefix aside. */
  ghost predicate Hex32Readable(v: Json) {
    v.JString? && |StripHexPrefix(v.s)| == 64 && IsHex(StripHexPrefix(v.s))
  }

  /** Every key text of the seed parses and every value it names can be read, through derived PDAs of any depth. */
  ghost predicate Readable(seed: PdaSeed, values: Values, f: Foreign) {
    match seed
    case Pubkey(text) => f.readPubkey(text).Some?
    case PropertyRef(name) => Lookup(values, name).Some? && PropertyReadable(Lookup(values, name).value)
    case U16BeRef(name) => Lookup(values, name).Some? && U16Readable(Lookup(values, name).value)
    case Bytes32Ref(name) => Lookup(values, name).Some? && Hex32Readable(Lookup(values, name).value)
    case DerivedPda(programId, seeds) =>
      f.readPubkey(programId).Some? && forall i :: 0 <= i < |seeds| ==> Readable(seeds[i], values, f)
    case _ => true
  }

  ghost predicate ReadableAddress(address: AccountAddress, values: Values, f: Foreign) {
    match address
    case Address(text) => f.readPubkey(text).Some?
    case Pda(programId, seeds) =>
      f.readPubkey(programId).Some? && forall i :: 0 <= i < |seeds| ==> Readable(seeds[i], values, f)
  }

  lemma HexTail(s: string)
    requires |s| >= 2
    ensures IsHex(s) <==> HexDigit(s[0]).Some? && HexDigit(s[1]).Some? && IsHex(s[2..])
  {
    if IsHex(s[2..]) {
      assert forall i :: 2 <= i < |s| ==> s[i] == s[2..][i - 2];
    }
  }

  lemma {:induction false} HexDecodeExact(s: string)
    ensures HexDecode(s).Some? <==> |s| % 2 == 0 && IsHex(s)
    ensures HexDecode(s).Some? ==> 2 * |HexDecode(s).value| == |s|
  {
    if |s| >= 2 {
      HexDecodeExact(s[2..]);
      HexTail(s);
      assert |s[2..]| % 2 == |s| % 2;
    }
  }

  lemma {:induction false} SeedExact(seed: PdaSeed, v: Values, f: Foreign)
    ensures ToBytes(seed, v, f).Some? <==> Readable(seed, v, f)
    decreases seed, 0
  {
    match seed
    case Bytes32Ref(name) =>
      if Lookup(v, name).Some? && Lookup(v, name).value.JString? {
        HexDecodeExact(StripHexPrefix(Lookup(v, name).value.s));
      }
    case DerivedPda(_, seeds) => SeedsExact(seeds, v, f);
    case _ =>
  }

  lemma {:induction false} SeedsExact(seeds: seq<PdaSeed>, v: Values, f: Foreign)
    ensures |ConvertedSeeds(seeds, v, f)| == |seeds| <==> forall i :: 0 <= i < |seeds| ==> Readable(seeds[i], v, f)
    decreases seeds, 1
  {
    if seeds != [] {
      var init, last := seeds[..|seeds| - 1], seeds[|seeds| - 1];
      SeedsExact(init, v, f);
      SeedExact(last, v, f);
      assert seeds == init + [last];
    }
  }

  /** An address comes out exactly when every key text in it parses and every value it names can be read. */
  lemma ResolveExactly(address: AccountAddress, v: Values, f: Foreign)
    ensures Resolve(address, v, f).Some? <==> ReadableAddress(address, v, f)
  {
    if address.Pda? {
      SeedsExact(address.seeds, v, f);
    }
  }

  /** What resolves with no values at all reports no names, and resolves alike under every map. */
  lemma ResolveSimpleIsConstant(address: AccountAddress, v: Values, f: Foreign)
    requires Resolve(address, None, f).Some?
    ensures AddressReferences(address) == []
    ensures Resolve(address, v, f) == Resolve(address, None, f)
  {
    var names := AddressReferences(address);
    assert names != [] ==> names[0] in names;
    ResolveNeedsNames(address, None, f);
    ResolveLocal(address, v, None, f);
  }

  // ----- which bytes reach the derivation

  lemma {:induction false} ConvertedInOrder(seeds: seq<PdaSeed>, v: Values, f: Foreign)
    requires |ConvertedSeeds(seeds, v, f)| == |seeds|
    ensures forall i :: 0 <= i < |seeds| ==> ToBytes(seeds[i], v, f) == Some(ConvertedSeeds(seeds, v, f)[i])
  {
    if seeds != [] {
      var init, last := seeds[..|seeds| - 1], seeds[|seeds| - 1];
      ConvertedInOrder(init, v, f);
      forall i | 0 <= i < |init| ensures ToBytes(seeds[i], v, f) == Some(ConvertedSeeds(init, v, f)[i]) {
        assert seeds[i] == init[i];
      }
    }
  }

  /** `bs` are the bytes of the seeds, one for each and in their order. */
  ghost predicate BytesOfSeeds(seeds: seq<PdaSeed>, v: Values, f: Foreign, bs: seq<seq<u8>>) {
    |bs| == |seeds| && forall i :: 0 <= i < |seeds| ==> ToBytes(seeds[i], v, f) == Some(bs[i])
  }

  /** A derived address that comes out is the derivation of its seeds' bytes, in the order the seeds are listed. */
  lemma DerivedInOrder(programId: string, seeds: seq<PdaSeed>, v: Values, f: Foreign) returns (bs: seq<seq<u8>>)
    requires Resolve(Pda(programId, seeds), v, f).Some?
    ensures BytesOfSeeds(seeds, v, f, bs) && f.readPubkey(programId).Some?
    ensures Resolve(Pda(programId, seeds), v, f).value == f.findProgramAddress(bs, f.readPubkey(programId).value)
  {
    bs := ConvertedSeeds(seeds, v, f);
    ConvertedInOrder(seeds, v, f);
  }

  /** A nested derivation is the address it would be on its own, so its seeds are in order too. */
  lemma NestedAlike(programId: string, seeds: seq<PdaSeed>, v: Values, f: Foreign)
    ensures ToBytes(DerivedPda(programId, seeds), v, f).Some? <==> Resolve(Pda(programId, seeds), v, f).Some?
    ensures Resolve(Pda(programId, seeds), v, f).Some? ==>
      ToBytes(DerivedPda(programId, seeds), v, f).value == Resolve(Pda(programId, seeds), v, f).value
  {
  }

  /** Key texts and byte seeds: a text that parses is its key, every other seed is the bytes it spells. */
  lemma PlainSeeds(text: string, bytes: seq<u8>, v: Values, f: Foreign)
    ensures Resolve(Address(text), v, f) == f.readPubkey(text)
    ensures ToBytes(Pubkey(text), v, f).Some? <==> f.readPubkey(text).Some?
    ensures f.readPubkey(text).Some? ==> ToBytes(Pubkey(text), v, f).value == f.readPubkey(text).value
    ensures ToBytes(String(text), v, f) == Some(f.utf8(text)) && ToBytes(Bytes(bytes), v, f) == Some(bytes)
  {
  }

  /** A reference to text is the key it parses to, or its UTF-8; to a number, its eight bytes, lowest first. */
  lemma PropertyRefMeaning(name: string, value: Json, v: Values, f: Foreign)
    requires Lookup(v, name) == Some(value)
    ensures var b := ToBytes(PropertyRef(name), v, f);
            match value
            case JString(s) =>
              if f.readPubkey(s).Some? then b.Some? && b.value == f.readPubkey(s).value else b == Some(f.utf8(s))
            case JNumber(Int(n)) =>
              if n < 0 then b.None?
              else b.Some? && |b.value| == 8 && forall k :: 0 <= k < 8 ==> b.value[k] == ByteOf(n, k)
            case _ => b.None?
  {
    if value.JNumber? && value.num.Int? && value.num.n >= 0 {
      forall k | 0 <= k < 8 ensures LeBytes(value.num.n, 8)[k] == ByteOf(value.num.n, k) {
        LeByteAt(value.num.n, 8, k);
      }
    }
  }

  /** The seed refers to a value by this name, itself or through a derivation. */
  ghost predicate Mentions(seed: PdaSeed, name: string) {
    match seed
    case PropertyRef(n) => n == name
    case U16BeRef(n) => n == name
    case Bytes32Ref(n) => n == name
    case DerivedPda(_, seeds) => exists i :: 0 <= i < |seeds| && Mentions(seeds[i], name)
    case _ => false
  }

  lemma {:induction false} SeedReferencesExact(seed: PdaSeed, name: string)
    ensures name in SeedReferences(seed) <==> Mentions(seed, name)
    decreases seed, 0
  {
    if seed.DerivedPda? {
      ReferencesExact(seed.seeds, name);
    }
  }

  /** The reported names are exactly those some seed mentions, at any depth. */
  lemma {:induction false} ReferencesExact(seeds: seq<PdaSeed>, name: string)
    ensures name in References(seeds) <==> exists i :: 0 <= i < |seeds| && Mentions(seeds[i], name)
    decreases seeds, 1
  {
    if seeds != [] {
      var init, last := seeds[..|seeds| - 1], seeds[|seeds| - 1];
      ReferencesExact(init, name);
      SeedReferencesExact(last, name);
      assert seeds == init + [last];
    }
  }

  // ----- references are placeholders

  /** The seed with every reference replaced by the bytes it stands for. */
  function Inline(seed: PdaSeed, values: Values, f: Foreign): PdaSeed
    decreases seed, 0
  {
    match seed
    case DerivedPda(programId, seeds) => DerivedPda(programId, InlineAll(seeds, values, f))
    case _ => if ToBytes(seed, values, f).Some? then Bytes(ToBytes(seed, values, f).value) else seed
  }

  function InlineAll(seeds: seq<PdaSeed>, values: Values, f: Foreign): (r: seq<PdaSeed>)
    ensures |r| == |seeds|
    decreases seeds, 1
  {
    if seeds == [] then [] else
      InlineAll(seeds[..|seeds| - 1], values, f) + [Inline(seeds[|seeds| - 1], values, f)]
  }

  lemma {:induction false} InlineSeed(seed: PdaSeed, v: Values, f: Foreign)
    requires ToBytes(seed, v, f).Some?
    ensures ToBytes(Inline(seed, v, f), None, f) == ToBytes(seed, v, f)
    decreases seed, 0
  {
    if seed.DerivedPda? {
      InlineSeeds(seed.seeds, v, f);
    }
  }

  lemma {:induction false} InlineSeeds(seeds: seq<PdaSeed>, v: Values, f: Foreign)
    requires |ConvertedSeeds(seeds, v, f)| == |seeds|
    ensures ConvertedSeeds(InlineAll(seeds, v, f), None, f) == ConvertedSeeds(seeds, v, f)
    decreases seeds, 1
  {
    if seeds != [] {
      var init, last := seeds[..|seeds| - 1], seeds[|seeds| - 1];
      InlineSeeds(init, v, f);
      InlineSeed(last, v, f);
      assert InlineAll(seeds, v, f)[..|seeds| - 1] == InlineAll(init, v, f);
    }
  }

  /** An address that resolves is, with its references filled in, one that needs no values and is the same account. */
  lemma {:induction false} InlinedResolvesAlone(programId: string, seeds: seq<PdaSeed>, v: Values, f: Foreign)
    requires Resolve(Pda(programId, seeds), v, f).Some?
    ensures Resolve(Pda(programId, InlineAll(seeds, v, f)), None, f) == Resolve(Pda(programId, seeds), v, f)
    ensures References(InlineAll(seeds, v, f)) == []
  {
    InlineSeeds(seeds, v, f);
    ResolveSimpleIsConstant(Pda(programId, InlineAll(seeds, v, f)), None, f);
  }

  // ----- what the bytes of a referenced value are

  /**
   * A u16 reference takes a number and its decimal text alike, refuses anything out of range, and gives the two bytes
   * that read as the number when the high one comes first, the reverse of the other u16 seed's.
   */
  lemma U16RefMeaning(name: string, n: JsonInt, v: Values, f: Foreign)
    requires Lookup(v, name) == Some(JNumber(Int(n))) || Lookup(v, name) == Some(JString(DecimalText(n)))
    ensures ToBytes(U16BeRef(name), v, f) == if 0 <= n <= 0xFFFF then ToBytes(U16Be(n), v, f) else None
    ensures 0 <= n <= 0xFFFF ==>
      var be, le := ToBytes(U16Be(n), v, f).value, ToBytes(U16Le(n), v, f).value;
      |be| == |le| == 2 && be == [le[1], le[0]] && LeNat(le) == n
  {
    U16RefReads(name, n, v, f);
    if 0 <= n <= 0xFFFF {
      TwoBytes(n);
    }
  }

  lemma U16RefReads(name: string, n: JsonInt, v: Values, f: Foreign)
    requires Lookup(v, name) == Some(JNumber(Int(n))) || Lookup(v, name) == Some(JString(DecimalText(n)))
    ensures ToBytes(U16BeRef(name), v, f) == if 0 <= n <= 0xFFFF then ToBytes(U16Be(n), v, f) else None
  {
    DecimalRoundTrip(n, 0, 0xFFFF);
    var value := Lookup(v, name).value;
    assert U16Bytes(value) == if 0 <= n <= 0xFFFF then Some(BeBytes16(n)) else None;
  }

  lemma TwoBytes(n: u16)
    ensures |LeBytes(n, 2)| == 2 && BeBytes16(n) == [LeBytes(n, 2)[1], LeBytes(n, 2)[0]]
    ensures LeNat(LeBytes(n, 2)) == n
  {
    LeRoundTrip(n, 2);
  }

  function HexEncode(b: seq<u8>): string {
    if b == [] then [] else [HexChar(b[0] / 16), HexChar(b[0] % 16)] + HexEncode(b[1..])
  }

  lemma {:induction false} HexRoundTrip(b: seq<u8>)
    ensures HexDecode(HexEncode(b)) == Some(b)
    ensures !("0x" <= HexEncode(b))
  {
    if b != [] {
      HexRoundTrip(b[1..]);
      assert HexEncode(b)[2..] == HexEncode(b[1..]);
      assert HexEncode(b)[1] == HexChar(b[0] % 16);
      assert [b[0]] + b[1..] == b;
    }
  }

  /** A 32-byte reference reads hexadecimal text, with or without its prefix, and only 32 bytes of it. */
  lemma {:induction false} Bytes32RefMeaning(name: string, b: seq<u8>, v: Values, f: Foreign)
    requires Lookup(v, name) == Some(JString(HexEncode(b))) || Lookup(v, name) == Some(JString("0x" + HexEncode(b)))
    ensures ToBytes(Bytes32Ref(name), v, f) == if |b| == 32 then Some(b) else None
  {
    HexRoundTrip(b);
    assert ("0x" + HexEncode(b))[2..] == HexEncode(b);
  }
}
