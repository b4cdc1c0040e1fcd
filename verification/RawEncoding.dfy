/** How the bytes of one raw-layout field are produced (`RawEncoding` in scenarios.rs). */
module RawEncodings {
  import opened Prelude
  import opened Numerals
  import opened Text
  import opened LittleEndian
  import opened Json

  type Pubkey = b: seq<u8> | |b| == 32 witness seq(32, _ => 0)

  /** Pubkey text is read by a foreign library; every result below holds for any reader. */
  type PubkeyReader = string -> Option<Pubkey>

  datatype RawEncoding =
    | U8 | U16 | U32 | U64 | U128
    | I32 | I64 | I128
    | I32Strided(count: usize, stride: usize)
    | Bytes32
    | Slot(lead: i64)
  {
    function Width(): (w: usize)
      ensures w > 0
    {
      match this
      case U8 => 1
      case U16 => 2
      case U32 | I32 | I32Strided(_, _) => 4
      case U64 | I64 | Slot(_) => 8
      case U128 | I128 => 16
      case Bytes32 => 32
    }

    predicate Signed() {
      I32? || I64? || I128? || I32Strided?
    }

    function Count(): usize {
      if I32Strided? then count else 1
    }

    function Stride(): usize {
      if I32Strided? then stride else Width()
    }
  }

  datatype EncodeError =
    | InexactNumber
    | NotANumber
    | InvalidInteger(text: string)
    | NotAPubkeyString
    | InvalidPubkey(text: string)
    | SlotOverflow

  /** The digits of a JSON value, read as text so that nothing passes through a float. */
  function IntegerText(value: Json): Result<string, EncodeError> {
    match value
    case JNumber(Int(n)) => Ok(DecimalText(n))
    case JNumber(Float(_)) => Err(InexactNumber)
    case JString(s) => Ok(Trim(s))
    case _ => Err(NotANumber)
  }

  function ParseJson(value: Json, lo: int, hi: int): Result<int, EncodeError> {
    match IntegerText(value)
    case Err(e) => Err(e)
    case Ok(text) =>
      match ParseInt(text, lo, hi)
      case Some(n) => Ok(n)
      case None => Err(InvalidInteger(text))
  }

  function EncodeUnsigned(value: Json, width: nat): Result<seq<u8>, EncodeError> {
    match ParseJson(value, 0, Pow(0x100, width) - 1)
    case Err(e) => Err(e)
    case Ok(n) => Ok(LeBytes(n, width))
  }

  function EncodeSigned(value: Json, width: nat): Result<seq<u8>, EncodeError>
    requires width > 0
  {
    var half := Pow(0x100, width) / 2;
    match ParseJson(value, 0 - half, half - 1)
    case Err(e) => Err(e)
    case Ok(n) => Ok(LeBytesSigned(n, width))
  }

  function EncodeKey(value: Json, reader: PubkeyReader): Result<seq<u8>, EncodeError> {
    match value
    case JString(s) =>
      (match reader(s)
       case Some(key) => Ok(key)
       case None => Err(InvalidPubkey(s)))
    case _ => Err(NotAPubkeyString)
  }

  /** The target slot moved by `lead`: checked upwards, saturating at zero downwards. */
  function EncodeSlot(value: Json, lead: i64, slot: u64, width: nat): Result<seq<u8>, EncodeError> {
    var given := if value.JNull? then Ok(lead) else ParseJson(value, I64_MIN, I64_MAX);
    match given
    case Err(e) => Err(e)
    case Ok(l) =>
      if l >= 0 then
        if slot + l > U64_MAX then Err(SlotOverflow) else Ok(LeBytes(slot + l, width))
      else
        Ok(LeBytes(if slot < -l then 0 else slot + l, width))
  }

  function Encode(e: RawEncoding, value: Json, slot: u64, reader: PubkeyReader): Result<seq<u8>, EncodeError> {
    match e
    case Bytes32 => EncodeKey(value, reader)
    case Slot(lead) => EncodeSlot(value, lead, slot, e.Width())
    case _ => if e.Signed() then EncodeSigned(value, e.Width()) else EncodeUnsigned(value, e.Width())
  }

  // ----- what the bytes mean, independently of how they are produced

  datatype Meaning = Number(n: int) | Key(key: seq<u8>)

  /** The value a program reads back from a field's bytes. */
  ghost function Read(e: RawEncoding, b: seq<u8>): Meaning
    requires |b| == e.Width()
  {
    if e.Bytes32? then Key(b) else Number(if e.Signed() then LeInt(b) else LeNat(b))
  }

  /** The integer a JSON value spells, with no bound on its size. */
  ghost function Given(value: Json, signed: bool): Option<int> {
    match value
    case JNumber(Int(n)) => Some(n)
    case JString(s) => Denoted(Trim(s), signed)
    case _ => None
  }

  ghost predicate Representable(e: RawEncoding, n: int) {
    if e.Signed() then FitsSigned(n, e.Width()) else 0 <= n < Pow(0x100, e.Width())
  }

  /** What the caller asked to be stored; `None` when the field cannot hold it. */
  ghost function Intended(e: RawEncoding, value: Json, slot: u64, reader: PubkeyReader): Option<Meaning> {
    if e.Bytes32? then
      if value.JString? && reader(value.s).Some? then Some(Key(reader(value.s).value)) else None
    else if e.Slot? then
      var lead := if value.JNull? then Some(e.lead as int) else Given(value, true);
      if lead.Some? && I64_MIN <= lead.value <= I64_MAX && slot + lead.value <= U64_MAX
      then Some(Number(Max(0, slot + lead.value))) else None
    else
      var given := Given(value, e.Signed());
      if given.Some? && Representable(e, given.value) then Some(Number(given.value)) else None
  }

  /** Parsing succeeds exactly when the value spells an integer in range, and gives that integer. */
  lemma ParseJsonExact(value: Json, lo: int, hi: int)
    requires lo <= 0
    ensures var given := Given(value, lo < 0);
            ParseJson(value, lo, hi).Ok? <==> given.Some? && lo <= given.value <= hi
    ensures ParseJson(value, lo, hi).Ok? ==> ParseJson(value, lo, hi).value == Given(value, lo < 0).value
  {
    if value.JNumber? && value.num.Int? {
      DecimalRoundTrip(value.num.n, lo, hi);
    }
  }

  ghost predicate EncodedAs(e: RawEncoding, r: Result<seq<u8>, EncodeError>, intended: Option<Meaning>) {
    && (r.Ok? <==> intended.Some?)
    && (r.Ok? ==> |r.value| == e.Width() && Some(Read(e, r.value)) == intended)
  }

  lemma EncodeSlotExact(e: RawEncoding, value: Json, slot: u64, reader: PubkeyReader)
    requires e.Slot?
    ensures EncodedAs(e, EncodeSlot(value, e.lead, slot, e.Width()), Intended(e, value, slot, reader))
  {
    ParseJsonExact(value, I64_MIN, I64_MAX);
    var lead := if value.JNull? then Some(e.lead as int) else Given(value, true);
    if lead.Some? && I64_MIN <= lead.value <= I64_MAX && slot + lead.value <= U64_MAX {
      LeWord(Max(0, slot + lead.value), e.Width());
    }
  }

  lemma EncodeSignedExact(e: RawEncoding, value: Json, slot: u64, reader: PubkeyReader)
    requires e.Signed()
    ensures EncodedAs(e, EncodeSigned(value, e.Width()), Intended(e, value, slot, reader))
  {
    var w := e.Width();
    assert Pow(0x100, w) % 2 == 0;
    var half := Pow(0x100, w) / 2;
    ParseJsonExact(value, 0 - half, half - 1);
    var given := Given(value, true);
    if given.Some? && Representable(e, given.value) {
      LeSignedRoundTrip(given.value, w);
    }
  }

  lemma EncodeUnsignedExact(e: RawEncoding, value: Json, slot: u64, reader: PubkeyReader)
    requires !e.Signed() && !e.Slot? && !e.Bytes32?
    ensures EncodedAs(e, EncodeUnsigned(value, e.Width()), Intended(e, value, slot, reader))
  {
    ParseJsonExact(value, 0, Pow(0x100, e.Width()) - 1);
    var given := Given(value, false);
    if given.Some? && Representable(e, given.value) {
      LeRoundTrip(given.value, e.Width());
    }
  }

  /** Encoding succeeds exactly on the representable values, always gives `Width()` bytes, and they read back. */
  lemma EncodeExact(e: RawEncoding, value: Json, slot: u64, reader: PubkeyReader)
    ensures EncodedAs(e, Encode(e, value, slot, reader), Intended(e, value, slot, reader))
  {
    if e.Slot? {
      EncodeSlotExact(e, value, slot, reader);
    } else if e.Signed() {
      EncodeSignedExact(e, value, slot, reader);
    } else if !e.Bytes32? {
      EncodeUnsignedExact(e, value, slot, reader);
    }
  }

  /** The bytes of a field are fixed by what they mean. */
  lemma ReadInjective(e: RawEncoding, a: seq<u8>, b: seq<u8>)
    requires |a| == |b| == e.Width() && Read(e, a) == Read(e, b)
    ensures a == b
  {
    if !e.Bytes32? {
      ReadingInjective(a, b);
    }
  }
}
