/** What encoding gives and materializing leaves, byte by byte, with every width, range and span written out. */
module RawBytes {
  import opened Prelude
  import opened Numerals
  import opened LittleEndian
  import opened Text
  import opened Json
  import opened Ranges
  import opened RawEncodings
  import opened Layouts
  import opened RawLayout
  import opened Materialize

  // ----- one value

  lemma FewBytes()
    ensures Pow(0x100, 1) == 0x100 && Pow(0x100, 2) == 0x1_0000 && Pow(0x100, 4) == 0x1_0000_0000
    ensures Pow(0x100, 8) == 0x1_0000_0000_0000_0000
    ensures Pow(0x100, 16) == 0x1_0000_0000_0000_0000_0000_0000_0000_0000
  {
    PowProduct(0x100, 1, 1, 0x100, 0x100);
    PowProduct(0x100, 2, 2, 0x1_0000, 0x1_0000);
    PowProduct(0x100, 4, 4, 0x1_0000_0000, 0x1_0000_0000);
    PowProduct(0x100, 8, 8, 0x1_0000_0000_0000_0000, 0x1_0000_0000_0000_0000);
  }

  /** `bytes` are the low `width` bytes of `n`, lowest first. */
  ghost predicate AreBytesOf(bytes: seq<u8>, n: int, width: nat) {
    |bytes| == width && forall k :: 0 <= k < width ==> bytes[k] == ByteOf(n, k)
  }

  /** Exactly the integers of `lo..hi` are taken, and each becomes its `width` bytes. */
  ghost predicate Stores(r: Result<seq<u8>, EncodeError>, value: Json, lo: int, hi: int, width: nat) {
    var given := Given(value, lo < 0);
    && (r.Ok? <==> given.Some? && lo <= given.value <= hi)
    && (r.Ok? ==> AreBytesOf(r.value, given.value, width))
  }

  lemma UnsignedStores(value: Json, width: nat, top: nat)
    requires width > 0 && Pow(0x100, width) == top + 1
    ensures Stores(EncodeUnsigned(value, width), value, 0, top, width)
  {
    ParseJsonExact(value, 0, top);
    var given := Given(value, false);
    if EncodeUnsigned(value, width).Ok? {
      forall k | 0 <= k < width ensures LeBytes(given.value, width)[k] == ByteOf(given.value, k) {
        LeByteAt(given.value, width, k);
      }
    }
  }

  lemma SignedStores(value: Json, width: nat, half: nat)
    requires width > 0 && Pow(0x100, width) == 2 * half > 0
    ensures Stores(EncodeSigned(value, width), value, 0 - half, half - 1, width)
  {
    ParseJsonExact(value, 0 - half, half - 1);
    var given := Given(value, true);
    if EncodeSigned(value, width).Ok? {
      forall k | 0 <= k < width ensures LeBytesSigned(given.value, width)[k] == ByteOf(given.value, k) {
        LeSignedByteAt(given.value, width, k);
      }
    }
  }

  /** What each unsigned encoding takes, and how many bytes it gives. */
  lemma UnsignedEncodings(value: Json, slot: u64, reader: PubkeyReader)
    ensures Stores(Encode(U8, value, slot, reader), value, 0, 0xFF, 1)
    ensures Stores(Encode(U16, value, slot, reader), value, 0, 0xFFFF, 2)
    ensures Stores(Encode(U32, value, slot, reader), value, 0, 0xFFFF_FFFF, 4)
    ensures Stores(Encode(U64, value, slot, reader), value, 0, 0xFFFF_FFFF_FFFF_FFFF, 8)
    ensures Stores(Encode(U128, value, slot, reader), value, 0, 0xFFFF_FFFF_FFFF_FFFF_FFFF_FFFF_FFFF_FFFF, 16)
  {
    FewBytes();
    UnsignedStores(value, 1, 0xFF);
    UnsignedStores(value, 2, 0xFFFF);
    UnsignedStores(value, 4, 0xFFFF_FFFF);
    UnsignedStores(value, 8, 0xFFFF_FFFF_FFFF_FFFF);
    UnsignedStores(value, 16, 0xFFFF_FFFF_FFFF_FFFF_FFFF_FFFF_FFFF_FFFF);
  }

  /** The same for the signed 32-bit ones; a strided value is one, whatever its count and stride. */
  lemma SignedWordEncodings(value: Json, slot: u64, reader: PubkeyReader, count: usize, stride: usize)
    ensures Stores(Encode(I32, value, slot, reader), value, -0x8000_0000, 0x7FFF_FFFF, 4)
    ensures Stores(Encode(I32Strided(count, stride), value, slot, reader), value, -0x8000_0000, 0x7FFF_FFFF, 4)
  {
    FewBytes();
    SignedStores(value, 4, 0x8000_0000);
  }

  /** The same for the longer signed ones. */
  lemma SignedLongEncodings(value: Json, slot: u64, reader: PubkeyReader)
    ensures Stores(Encode(I64, value, slot, reader), value, -0x8000_0000_0000_0000, 0x7FFF_FFFF_FFFF_FFFF, 8)
    ensures Stores(Encode(I128, value, slot, reader), value,
                   -0x8000_0000_0000_0000_0000_0000_0000_0000, 0x7FFF_FFFF_FFFF_FFFF_FFFF_FFFF_FFFF_FFFF, 16)
  {
    FewBytes();
    SignedStores(value, 8, 0x8000_0000_0000_0000);
    SignedStores(value, 16, 0x8000_0000_0000_0000_0000_0000_0000_0000);
  }

  /** A slot is the target moved by the given lead, or by the template's own for null: eight bytes, zero at least. */
  lemma SlotEncoding(value: Json, lead: i64, slot: u64, reader: PubkeyReader)
    ensures var moved := if value.JNull? then Some(lead as int) else Given(value, true);
            var r := Encode(Slot(lead), value, slot, reader);
            && (r.Ok? <==>
                  && moved.Some? && -0x8000_0000_0000_0000 <= moved.value <= 0x7FFF_FFFF_FFFF_FFFF
                  && slot + moved.value <= 0xFFFF_FFFF_FFFF_FFFF)
            && (r.Ok? ==> AreBytesOf(r.value, if slot + moved.value < 0 then 0 else slot + moved.value, 8))
  {
    EncodeExact(Slot(lead), value, slot, reader);
    var r := Encode(Slot(lead), value, slot, reader);
    if r.Ok? {
      forall k | 0 <= k < 8 ensures r.value[k] == ByteOf(LeNat(r.value), k) {
        ReadBytes(r.value, k);
      }
    }
  }

  /** A decimal text, with any whitespace around it, is encoded as the number it spells, for every integer field. */
  lemma TextLikeNumber(
    e: RawEncoding, n: JsonInt, before: string, after: string, slot: u64, reader: PubkeyReader)
    requires !e.Bytes32? && AllSpace(before) && AllSpace(after)
    ensures Encode(e, JString(before + DecimalText(n) + after), slot, reader)
      == Encode(e, JNumber(Int(n)), slot, reader)
  {
    DecimalSurvives(before, n, after);
    assert IntegerText(JString(before + DecimalText(n) + after)) == IntegerText(JNumber(Int(n)));
  }

  /** Why each value is refused: the reason names the first thing wrong with it. */
  lemma EncodeErrors(e: RawEncoding, value: Json, slot: u64, reader: PubkeyReader)
    ensures var r := Encode(e, value, slot, reader);
            if e.Bytes32? then
              && (r == Err(NotAPubkeyString) <==> !value.JString?)
              && (value.JString? ==> r == if reader(value.s).Some? then Ok(reader(value.s).value)
                                          else Err(InvalidPubkey(value.s)))
            else if e.Slot? && value.JNull? then r.Err? ==> r.error == SlotOverflow
            else
              && (r == Err(NotANumber) <==> !value.JNumber? && !value.JString?)
              && (r == Err(InexactNumber) <==> value.JNumber? && value.num.Float?)
              && (r == Err(SlotOverflow) <==>
                    e.Slot? && Given(value, true).Some?
                    && -0x8000_0000_0000_0000 <= Given(value, true).value <= 0x7FFF_FFFF_FFFF_FFFF
                    && slot + Given(value, true).value > 0xFFFF_FFFF_FFFF_FFFF)
              && (r.Err? && r.error.InvalidInteger? ==>
                    (value.JString? && r.error.text == Trim(value.s))
                    || (value.JNumber? && value.num.Int? && r.error.text == DecimalText(value.num.n)))
              && (r.Err? ==> !r.error.NotAPubkeyString? && !r.error.InvalidPubkey?)
  {
    if e.Slot? {
      ParseJsonExact(value, I64_MIN, I64_MAX);
    }
  }

  // ----- where a field's bytes lie

  /** Byte `k` of a copy of the value lies at `x`, for a field at `offset`. */
  ghost predicate LiesAt(e: RawEncoding, offset: nat, x: nat, k: nat) {
    match e
    case U8 => k == 0 && x == offset
    case U16 => k < 2 && x == offset + k
    case U32 | I32 => k < 4 && x == offset + k
    case U64 | I64 | Slot(_) => k < 8 && x == offset + k
    case U128 | I128 => k < 16 && x == offset + k
    case Bytes32 => k < 32 && x == offset + k
    case I32Strided(count, stride) => k < 4 && exists i: nat :: i < count && x == offset + i * stride + k
  }

  lemma PlacementAt(p: Property, x: nat, k: nat) returns (i: nat)
    requires p.Placed() && LiesAt(p.encoding.value, p.offset.value, x, k)
    ensures i < p.Count() && x == p.Start(i) + k && k < p.encoding.value.Width()
  {
    i := 0;
    if p.encoding.value.I32Strided? {
      var stride := p.encoding.value.stride;
      i :| i < p.encoding.value.count && x == p.offset.value + i * stride + k;
    }
  }

  lemma PlacementLies(p: Property, x: nat, i: nat)
    requires p.Placed() && i < p.Count() && p.Start(i) <= x < p.End(i)
    ensures LiesAt(p.encoding.value, p.offset.value, x, x - p.Start(i))
  {
    if p.encoding.value.I32Strided? {
      assert x == p.offset.value + i * p.encoding.value.stride + (x - p.Start(i));
    } else {
      assert i == 0;
    }
  }

  // ----- which layouts are valid, said of bytes

  /** What a template must say about one property. */
  ghost predicate Sound(p: Property, constants: set<string>) {
    && (exists i :: 0 <= i < |p.path| && !IsWhitespace(p.path[i]))
    && match p.kind
       case ConstantRef => p.offset == None && p.encoding == None && p.constant.Some? && p.constant.value in constants
       case Input(_) => p.offset == None && p.encoding == None
       case _ =>
         && p.constant == None && p.offset.Some? && p.encoding.Some?
         && (p.encoding.value.I32Strided? ==>
               p.encoding.value.count > 0 && (p.encoding.value.count > 1 ==> p.encoding.value.stride >= 4))
         && forall x: nat, k: nat :: LiesAt(p.encoding.value, p.offset.value, x, k) ==> x < 0xFFFF_FFFF_FFFF_FFFF
  }

  ghost predicate LiesIn(p: Property, x: nat, k: nat) {
    p.offset.Some? && p.encoding.Some? && LiesAt(p.encoding.value, p.offset.value, x, k)
  }

  /** No byte of the account belongs to two properties. */
  ghost predicate NoByteShared(properties: seq<Property>) {
    forall i, j, x: nat, k: nat, l: nat :: 0 <= i < j < |properties| && LiesIn(properties[i], x, k) ==>
      !LiesIn(properties[j], x, l)
  }

  lemma {:induction false} BlankPath(s: string)
    ensures Trim(s) != [] <==> exists i :: 0 <= i < |s| && !IsWhitespace(s[i])
  {
    TrimExact(s, []);
    if Trim(s) == [] {
      var before, after :| AllSpace(before) && AllSpace(after) && s == before + [] + after;
    } else if AllSpace(s) {
      assert s == s + [] + [];
      TrimOf(s, [], []);
    }
  }

  lemma InBounds(p: Property)
    requires p.Placed()
    ensures (forall i: nat :: i < p.Count() ==> p.End(i) <= USIZE_MAX) <==>
      forall x: nat, k: nat :: LiesAt(p.encoding.value, p.offset.value, x, k) ==> x < USIZE_MAX
  {
    if forall i: nat :: i < p.Count() ==> p.End(i) <= USIZE_MAX {
      forall x: nat, k: nat | LiesAt(p.encoding.value, p.offset.value, x, k) ensures x < USIZE_MAX {
        var i := PlacementAt(p, x, k);
        assert p.End(i) <= USIZE_MAX;
      }
    } else {
      var i: nat :| i < p.Count() && p.End(i) > USIZE_MAX;
      PlacementLies(p, p.End(i) - 1, i);
    }
  }

  lemma SoundExactly(p: Property, constants: set<string>)
    ensures WellFormed(p, constants) <==> Sound(p, constants)
  {
    BlankPath(p.path);
    if p.Placed() {
      InBounds(p);
    }
  }

  lemma StepsApartBy(p: Property, i: nat, j: nat)
    requires p.Placed() && i < j < p.Count()
    requires p.Count() > 1 ==> p.encoding.value.Width() <= p.encoding.value.Stride()
    ensures Apart(p.RangeAt(i), p.RangeAt(j))
  {
    MulMonotone(i + 1, j, p.encoding.value.Stride());
    MulStep(i, p.encoding.value.Stride());
  }

  lemma TwoApart(properties: seq<Property>, p: nat, q: nat, i: nat, j: nat)
    requires NoByteShared(properties) && p < q < |properties|
    requires i < properties[p].Count() && j < properties[q].Count()
    ensures Apart(properties[p].RangeAt(i), properties[q].RangeAt(j))
  {
    var a, b := properties[p], properties[q];
    var r, s := a.RangeAt(i), b.RangeAt(j);
    ApartSharesNothing(r, s);
    forall x | HasByte(r, x) ensures !HasByte(s, x) {
      PlacementLies(a, x, i);
      assert LiesIn(a, x, x - a.Start(i));
      if HasByte(s, x) {
        PlacementLies(b, x, j);
        assert LiesIn(b, x, x - b.Start(j));
      }
    }
  }

  lemma SharedMeets(a: Property, b: Property, x: nat, k: nat, l: nat) returns (i: nat, j: nat)
    requires LiesIn(a, x, k) && LiesIn(b, x, l)
    ensures i < a.Count() && j < b.Count() && !Apart(a.RangeAt(i), b.RangeAt(j))
  {
    i := PlacementAt(a, x, k);
    j := PlacementAt(b, x, l);
  }

  /** The valid layouts, without ranges: sound properties, distinct paths, and no byte in two of them. */
  lemma ValidExactly(t: Template)
    ensures ValidLayout(t) <==>
      && t.rawLayout
      && (forall i :: 0 <= i < |t.properties| ==> Sound(t.properties[i], t.constants))
      && (forall i, j :: 0 <= i < j < |t.properties| ==> t.properties[i].path != t.properties[j].path)
      && NoByteShared(t.properties)
  {
    var ps := t.properties;
    forall i | 0 <= i < |ps| ensures WellFormed(ps[i], t.constants) <==> Sound(ps[i], t.constants) {
      SoundExactly(ps[i], t.constants);
    }
    if forall i :: 0 <= i < |ps| ==> WellFormed(ps[i], t.constants) {
      SharedExactly(t);
    }
  }

  lemma SharedExactly(t: Template)
    requires forall i :: 0 <= i < |t.properties| ==> WellFormed(t.properties[i], t.constants)
    ensures PlacementsApart(t.properties) <==> NoByteShared(t.properties)
  {
    var ps := t.properties;
    if !NoByteShared(ps) {
      var p, q, x: nat, k: nat, l: nat :|
        0 <= p < q < |ps| && LiesIn(ps[p], x, k) && LiesIn(ps[q], x, l);
      var i, j := SharedMeets(ps[p], ps[q], x, k, l);
    } else {
      forall p, q, i: nat, j: nat |
        0 <= p <= q < |ps| && i < ps[p].Count() && j < ps[q].Count() && (p < q || i < j)
        ensures Apart(ps[p].RangeAt(i), ps[q].RangeAt(j))
      {
        if p < q {
          TwoApart(ps, p, q, i, j);
        } else {
          assert WellFormed(ps[p], t.constants);
          StepsApartBy(ps[p], i, j);
        }
      }
    }
  }

  // ----- the bytes of a materialized account

  /** The integer a field stores for a value; `None` for keys and for values that spell none. */
  ghost function Stored(e: RawEncoding, value: Json, slot: u64): Option<int> {
    match e
    case Bytes32 => None
    case Slot(lead) =>
      var moved := if value.JNull? then Some(lead as int) else Given(value, true);
      if moved.None? then None else Some(if slot + moved.value < 0 then 0 else slot + moved.value)
    case U8 | U16 | U32 | U64 | U128 => Given(value, false)
    case _ => Given(value, true)
  }

  /** `b` is byte `k` of what the field stores. */
  ghost predicate IsByte(e: RawEncoding, value: Json, slot: u64, reader: PubkeyReader, k: nat, b: u8) {
    if e.Bytes32? then value.JString? && reader(value.s).Some? && k < 32 && b == reader(value.s).value[k]
    else Stored(e, value, slot).Some? && b == ByteOf(Stored(e, value, slot).value, k)
  }

  lemma ReadBytes(b: seq<u8>, k: nat)
    requires k < |b|
    ensures b[k] == ByteOf(LeNat(b), k) == ByteOf(LeInt(b), k)
  {
    LeBytesOfNat(b);
    LeByteAt(LeNat(b), |b|, k);
    ByteWraps(LeInt(b), |b|, k);
  }

  lemma IntendedIsStored(e: RawEncoding, value: Json, slot: u64, reader: PubkeyReader, b: seq<u8>, k: nat)
    requires |b| == e.Width() && k < |b| && Some(Read(e, b)) == Intended(e, value, slot, reader)
    ensures IsByte(e, value, slot, reader, k, b[k])
  {
    ReadBytes(b, k);
  }

  lemma HeldByte(c: Context, out: seq<u8>, name: string, value: Json, i: nat, k: nat)
    requires Holds(c, out, name, value)
    requires i < Named(c, name).Count() && k < Named(c, name).encoding.value.Width()
    ensures Named(c, name).Start(i) + k < |out|
    ensures IsByte(Named(c, name).encoding.value, value, c.slot, c.reader, k, out[Named(c, name).Start(i) + k])
  {
    var p := Named(c, name);
    assert p.End(i) <= |out|;
    var b := out[p.Start(i)..p.End(i)];
    assert out[p.Start(i) + k] == b[k];
    IntendedIsStored(p.encoding.value, value, c.slot, c.reader, b, k);
  }

  /** A written name belongs to one property, which has an offset and an encoding and holds the value given. */
  lemma WrittenField(c: Context, data: seq<u8>, values: Values, out: seq<u8>, p: Property)
    requires IsMaterialization(c, data, values, Ok(out)) && p in c.template.properties && p.path in values
    ensures p.offset.Some? && p.encoding.Some? && |out| == |data|
    ensures Known(c, p.path) && p == Named(c, p.path) && Holds(c, out, p.path, values[p.path])
  {
    OnlyFieldsWritten(c, data, values, out, p.path);
  }

  /** Every byte of every copy of a written field is the byte of the value given for it. */
  lemma MaterializedByte(c: Context, data: seq<u8>, values: Values, out: seq<u8>, p: Property, x: nat, k: nat)
    requires IsMaterialization(c, data, values, Ok(out)) && p in c.template.properties && p.path in values
    requires p.offset.Some? && p.encoding.Some? && LiesAt(p.encoding.value, p.offset.value, x, k)
    ensures x < |out| == |data|
    ensures IsByte(p.encoding.value, values[p.path], c.slot, c.reader, k, out[x])
  {
    WrittenField(c, data, values, out, p);
    HeldAt(c, out, p, values[p.path], x, k);
  }

  lemma HeldAt(c: Context, out: seq<u8>, p: Property, value: Json, x: nat, k: nat)
    requires Known(c, p.path) && p == Named(c, p.path) && Holds(c, out, p.path, value)
    requires LiesAt(p.encoding.value, p.offset.value, x, k)
    ensures x < |out| && IsByte(p.encoding.value, value, c.slot, c.reader, k, out[x])
  {
    var i := PlacementAt(p, x, k);
    HeldByte(c, out, p.path, value, i, k);
  }

  /** A byte that changed is a byte of some written field. */
  lemma ChangedByte(c: Context, data: seq<u8>, values: Values, out: seq<u8>, x: nat)
    returns (p: Property, k: nat)
    requires IsMaterialization(c, data, values, Ok(out)) && x < |data| == |out| && out[x] != data[x]
    ensures p in c.template.properties && p.path in values && p.offset.Some? && p.encoding.Some?
    ensures LiesAt(p.encoding.value, p.offset.value, x, k)
  {
    var name :| name in values.Keys && Known(c, name) && Named(c, name).Covers(x);
    p := Named(c, name);
    var i: nat :| i < p.Count() && p.Start(i) <= x < p.End(i);
    k := x - p.Start(i);
    PlacementLies(p, x, i);
  }
}
