/** Synthetic blockhashes: a u64 chain tip written into a readable base-58 text that decodes to 32 bytes. */
module Blockhash {
  import opened Prelude
  import opened Numerals
  import opened Text

  const PREFIX := "SURFNETxSAFEHASHx"
  const TARGET_LENGTH := 43

  // ----- base 58 (the Bitcoin alphabet: no 0, O, I or l)

  function Base58Digit(c: char): (d: Option<nat>)
    ensures d.Some? ==> d.value < 58
  {
    if '1' <= c <= '9' then Some(c as int - '1' as int)
    else if 'A' <= c <= 'H' then Some(9 + c as int - 'A' as int)
    else if 'J' <= c <= 'N' then Some(17 + c as int - 'J' as int)
    else if 'P' <= c <= 'Z' then Some(22 + c as int - 'P' as int)
    else if 'a' <= c <= 'k' then Some(33 + c as int - 'a' as int)
    else if 'm' <= c <= 'z' then Some(44 + c as int - 'm' as int)
    else None
  }

  function Base58Char(d: nat): (c: char)
    requires d < 58
    ensures Base58Digit(c) == Some(d)
  {
    if d < 9 then ('1' as int + d) as char
    else if d < 17 then ('A' as int + d - 9) as char
    else if d < 22 then ('J' as int + d - 17) as char
    else if d < 33 then ('P' as int + d - 22) as char
    else if d < 44 then ('a' as int + d - 33) as char
    else ('m' as int + d - 44) as char
  }

  predicate IsBase58(s: string) {
    forall i :: 0 <= i < |s| ==> Base58Digit(s[i]).Some?
  }

  function Base58Digits(s: string): (d: seq<nat>)
    requires IsBase58(s)
    ensures IsNumeral(d, 58)
  {
    seq(|s|, i requires 0 <= i < |s| => Base58Digit(s[i]).value)
  }

  function LeadingCount<T(==)>(s: seq<T>, x: T): (n: nat)
    ensures n <= |s|
  {
    if s == [] || s[0] != x then 0 else 1 + LeadingCount(s[1..], x)
  }

  function Zeros(k: nat): (z: seq<u8>)
    ensures |z| == k && forall i :: 0 <= i < k ==> z[i] == 0
  {
    seq(k, _ => 0)
  }

  /** Each leading '1' is a zero byte; the rest is the shortest big-endian form of the value. */
  function Base58Decode(s: string): Option<seq<u8>> {
    if !IsBase58(s) then None else
      Some(Zeros(LeadingCount(s, '1')) + Digits(Value(Base58Digits(s), 58), 0x100))
  }

  function Base58Encode(b: seq<u8>): string {
    var d := Digits(Value(b, 0x100), 58);
    seq(LeadingCount<nat>(b, 0), _ => '1') + seq(|d|, i requires 0 <= i < |d| => Base58Char(d[i]))
  }

  // ----- the text

  /** Lower-case hexadecimal, zero-padded to at least eight digits. */
  function HexText(n: nat): string {
    var d := Digits(n, 16);
    seq(Max(0, 8 - |d|), _ => '0') + seq(|d|, i requires 0 <= i < |d| => HexChar(d[i]))
  }

  function Replace(s: string, from: char, to: char): (r: string)
    ensures |r| == |s|
  {
    seq(|s|, i requires 0 <= i < |s| => if s[i] == from then to else s[i])
  }

  function IndexText(tip: u64): string {
    Replace(Replace(HexText(tip), '0', 'x'), 'O', 'x')
  }

  /** The padding the text needs; `HexText` never outgrows the room, see `TargetShape`. */
  function TargetText(tip: u64): string {
    var hex := IndexText(tip);
    PREFIX + seq(Max(0, TARGET_LENGTH - |PREFIX| - |hex|), _ => 'x') + hex
  }

  lemma HexWidth(tip: u64)
    ensures 8 <= |HexText(tip)| <= 16
  {
    PowProduct(16, 4, 4, 0x1_0000, 0x1_0000);
    PowProduct(16, 8, 8, 0x1_0000_0000, 0x1_0000_0000);
    DigitsFit(tip, 16, 16);
  }

  /** 43 characters of the base-58 alphabet whatever the tip: decoding cannot fail and nothing underflows. */
  lemma TargetShape(tip: u64)
    ensures |PREFIX| + |IndexText(tip)| <= TARGET_LENGTH
    ensures |TargetText(tip)| == TARGET_LENGTH
    ensures IsBase58(TargetText(tip))
    ensures PREFIX <= TargetText(tip) && TargetText(tip)[0] == 'S'
  {
    HexWidth(tip);
    var hex := IndexText(tip);
    assert IsBase58(hex);
    assert IsBase58(PREFIX);
  }

  lemma HexTextAt(n: nat, k: nat)
    requires k < |HexText(n)|
    ensures HexText(n)[|HexText(n)| - 1 - k] == "0123456789abcdef"[Place(n, 16, k)]
  {
    DigitPlace(n, 16, k);
    HexChars(Place(n, 16, k));
  }

  lemma HexChars(d: nat)
    requires d < 16
    ensures HexChar(d) == "0123456789abcdef"[d]
  {
  }

  lemma IndexTextAt(tip: u64, k: nat)
    requires k < |IndexText(tip)|
    ensures IndexText(tip)[|IndexText(tip)| - 1 - k] == "x123456789abcdef"[Place(tip, 16, k)]
  {
    HexTextAt(tip, k);
  }

  lemma NoPlace(tip: u64, k: nat)
    requires k >= |IndexText(tip)|
    ensures Place(tip, 16, k) == 0
  {
    DigitPlace(tip, 16, k);
  }

  /** The text, character by character: the prefix, then one character for each of the 26 last hexadecimal places of
      the tip, its lower-case digit or `x` where the digit is zero. */
  lemma TextAt(tip: u64, i: nat)
    requires i < 43
    ensures |TargetText(tip)| == 43
    ensures i < 17 ==> TargetText(tip)[i] == "SURFNETxSAFEHASHx"[i]
    ensures i >= 17 ==> TargetText(tip)[i] == "x123456789abcdef"[Place(tip, 16, 42 - i)]
  {
    TargetShape(tip);
    if i >= 17 {
      if 42 - i < |IndexText(tip)| {
        IndexTextAt(tip, 42 - i);
      } else {
        NoPlace(tip, 42 - i);
      }
    }
  }

  /** The 58 digits, in order: no 0, O, I or l. */
  lemma Alphabet(d: nat)
    requires d < 58
    ensures d < 9 ==> Base58Char(d) == "123456789"[d]
    ensures 9 <= d < 17 ==> Base58Char(d) == "ABCDEFGH"[d - 9]
    ensures 17 <= d < 22 ==> Base58Char(d) == "JKLMN"[d - 17]
    ensures 22 <= d < 33 ==> Base58Char(d) == "PQRSTUVWXYZ"[d - 22]
    ensures 33 <= d < 44 ==> Base58Char(d) == "abcdefghijk"[d - 33]
    ensures 44 <= d ==> Base58Char(d) == "mnopqrstuvwxyz"[d - 44]
  {
  }

  // ----- the bytes

  /** The hash of a chain tip, without the fallback that is never taken. */
  function HashOf(tip: u64): (b: seq<u8>)
  {
    TargetShape(tip);
    Base58Decode(TargetText(tip)).value
  }

  const POW_58_42 := 115871260020027757769182095419415455604368209753879122781949129969750769664

  lemma Powers58()
    ensures Pow(58, 42) == POW_58_42
  {
    assert Pow(58, 3) == 195112;
    PowProduct(58, 3, 3, 195112, 195112);
    PowProduct(58, 6, 6, 38068692544, 38068692544);
    PowProduct(58, 12, 12, 1449225352009601191936, 1449225352009601191936);
    PowProduct(58, 12, 6, 1449225352009601191936, 38068692544);
    PowProduct(58, 24, 18, 2100254120907352485526230505830591911428096, 55170114352623680311867516125184);
  }

  lemma Powers256()
    ensures Pow(0x100, 31) == 0x100000000000000000000000000000000000000000000000000000000000000
    ensures Pow(0x100, 32) == 0x10000000000000000000000000000000000000000000000000000000000000000
  {
    assert Pow(0x100, 4) == 0x100000000 && Pow(0x100, 3) == 0x1000000;
    PowProduct(0x100, 4, 3, 0x100000000, 0x1000000);
    PowProduct(0x100, 4, 4, 0x100000000, 0x100000000);
    PowProduct(0x100, 8, 7, 0x10000000000000000, 0x100000000000000);
    PowProduct(0x100, 8, 8, 0x10000000000000000, 0x10000000000000000);
    PowProduct(0x100, 16, 15, 0x100000000000000000000000000000000, 0x1000000000000000000000000000000);
    PowProduct(0x100, 16, 16, 0x100000000000000000000000000000000, 0x100000000000000000000000000000000);
  }

  /** The window `25 * 58^42 ..< 26 * 58^42` of texts starting with 'S' lies inside the 32-byte numbers. */
  lemma BigPowers()
    ensures Pow(0x100, 31) <= 25 * Pow(58, 42)
    ensures 26 * Pow(58, 42) <= Pow(0x100, 32)
  {
    Powers58();
    Powers256();
  }

  lemma NumeralWindow(d: seq<nat>)
    requires IsNumeral(d, 58) && |d| == 43 && d[0] == 25
    ensures |Digits(Value(d, 58), 0x100)| == 32
  {
    ValueWindow(d, 58);
    BigPowers();
    DigitCount(Value(d, 58), 0x100, 32);
  }

  lemma {:induction false} HashIsNumeral(tip: u64)
    ensures IsBase58(TargetText(tip))
    ensures HashOf(tip) == Digits(Value(Base58Digits(TargetText(tip)), 58), 0x100)
    ensures |HashOf(tip)| == 32 && HashOf(tip)[0] != 0
  {
    TargetShape(tip);
    var text := TargetText(tip);
    var bytes := Digits(Value(Base58Digits(text), 58), 0x100);
    NumeralWindow(Base58Digits(text));
    assert Zeros(0) + bytes == bytes;
  }

  lemma {:induction false} LeadingSplit<T>(s: seq<T>, x: T)
    ensures var k := LeadingCount(s, x);
            (forall i :: 0 <= i < k ==> s[i] == x) && (k < |s| ==> s[k] != x)
  {
    if s != [] && s[0] == x {
      LeadingSplit(s[1..], x);
      assert forall i :: 1 <= i < |s| ==> s[i] == s[1..][i - 1];
    }
  }

  lemma {:induction false} LeadingIs(k: nat, s: seq<nat>)
    requires s == [] || s[0] != 0
    ensures LeadingCount<nat>(Zeros(k) + s, 0) == k
  {
    if k > 0 {
      LeadingIs(k - 1, s);
      assert (Zeros(k) + s)[1..] == Zeros(k - 1) + s;
    }
  }

  /** Leading zeros add nothing to a value, and the shortest numeral has none to lose. */
  lemma {:induction false} PaddedValue(k: nat, rest: seq<nat>, base: nat)
    requires base >= 2 && IsNumeral(rest, base) && (rest == [] || rest[0] != 0)
    ensures Value(Zeros(k) + rest, base) == Value(rest, base)
    ensures Digits(Value(rest, base), base) == rest
    ensures LeadingCount<nat>(Zeros(k) + rest, 0) == k
  {
    LeadingZeros(k, rest, base);
    assert Zeros(k) + rest == seq(k, _ => 0) + rest;
    DigitsOfValue(rest, base);
    LeadingIs(k, rest);
  }

  lemma {:induction false} OnesAreZeros(s: string)
    requires IsBase58(s)
    ensures LeadingCount(s, '1') == LeadingCount(Base58Digits(s), 0)
  {
    if s != [] && s[0] == '1' {
      OnesAreZeros(s[1..]);
      assert Base58Digits(s)[1..] == Base58Digits(s[1..]);
    }
  }

  /** A numeral is its leading zeros and the shortest numeral of its value. */
  lemma {:induction false} LeadingZerosApart(d: seq<nat>, base: nat)
    requires base >= 2 && IsNumeral(d, base)
    ensures d == Zeros(LeadingCount(d, 0)) + Digits(Value(d, base), base)
  {
    var k := LeadingCount(d, 0);
    LeadingSplit(d, 0);
    assert d == Zeros(k) + d[k..];
    PaddedValue(k, d[k..], base);
  }

  /** Rebasing keeps the value and the number of leading zeros. */
  lemma {:induction false} Rebased(d: seq<nat>, base: nat, other: nat)
    requires base >= 2 && other >= 2 && IsNumeral(d, base)
    ensures var there := Zeros(LeadingCount(d, 0)) + Digits(Value(d, base), other);
            Value(there, other) == Value(d, base) && LeadingCount<nat>(there, 0) == LeadingCount(d, 0)
  {
    PaddedValue(LeadingCount(d, 0), Digits(Value(d, base), other), other);
    ValueOfDigits(Value(d, base), other);
  }

  /** Every base-58 text, leading ones included, is what encoding its decoded bytes gives. */
  lemma {:induction false} Base58RoundTrip(s: string)
    requires IsBase58(s)
    ensures Base58Encode(Base58Decode(s).value) == s
  {
    var d := Base58Digits(s);
    OnesAreZeros(s);
    LeadingZerosApart(d, 58);
    Rebased(d, 58, 0x100);
    CharsOf(s);
  }

  /** Every byte string is what decoding its base-58 text gives. */
  lemma {:induction false} BytesRoundTrip(b: seq<u8>)
    ensures Base58Decode(Base58Encode(b)) == Some(b)
  {
    LeadingZerosApart(b, 0x100);
    Rebased(b, 0x100, 58);
    DigitsOf(b);
    OnesAreZeros(Base58Encode(b));
  }

  lemma CharsOf(s: string)
    requires IsBase58(s)
    requires Base58Digits(s) == Zeros(LeadingCount(Base58Digits(s), 0)) + Digits(Value(Base58Digits(s), 58), 58)
    ensures var there := Digits(Value(Base58Digits(s), 58), 58);
            s == seq(LeadingCount(Base58Digits(s), 0), _ => '1')
              + seq(|there|, i requires 0 <= i < |there| => Base58Char(there[i]))
  {
    var d := Base58Digits(s);
    forall i | 0 <= i < |s| ensures Base58Char(d[i]) == s[i] {
      DigitChar(s[i]);
    }
  }

  lemma DigitsOf(b: seq<u8>)
    ensures IsBase58(Base58Encode(b))
    ensures Base58Digits(Base58Encode(b)) == Zeros(LeadingCount<nat>(b, 0)) + Digits(Value(b, 0x100), 58)
  {
  }

  lemma DigitChar(c: char)
    requires Base58Digit(c).Some?
    ensures Base58Char(Base58Digit(c).value) == c
  {
  }

  /** The hash's base-58 form, which is what clients see, is the text itself. */
  lemma HashShowsText(tip: u64)
    ensures Base58Encode(HashOf(tip)) == TargetText(tip)
  {
    HashIsNumeral(tip);
    TargetShape(tip);
    Base58RoundTrip(TargetText(tip));
  }

  // ----- reading the tip back

  /** A character of the substituted hex, 'x' standing for zero. */
  function HexDigitOf(c: char): nat {
    match HexDigit(c) case Some(d) => d case None => 0
  }

  function TailDigits(text: string): seq<nat> {
    seq(|text|, i requires 0 <= i < |text| => HexDigitOf(text[i]))
  }

  function TipOf(text: string): nat
    requires |text| == TARGET_LENGTH
  {
    Value(TailDigits(text[|PREFIX|..]), 16)
  }

  lemma TextTellsTip(tip: u64)
    ensures |TargetText(tip)| == TARGET_LENGTH && TipOf(TargetText(tip)) == tip
  {
    TargetShape(tip);
    var d := Digits(tip, 16);
    var tail := TargetText(tip)[|PREFIX|..];
    var zeros := |tail| - |d|;
    assert TailDigits(tail) == seq(zeros, _ => 0) + d;
    LeadingZeros(zeros, d, 16);
    ValueOfDigits(tip, 16);
  }

  /** The tip can be read off the hash, so distinct tips have distinct hashes. */
  lemma DistinctTips(a: u64, b: u64)
    ensures a != b ==> HashOf(a) != HashOf(b)
    ensures a != b ==> TargetText(a) != TargetText(b)
  {
    HashShowsText(a);
    HashShowsText(b);
    TextTellsTip(a);
    TextTellsTip(b);
  }

  /** `SyntheticBlockhash::new`: decode with a fallback, then copy at most 32 bytes into a zeroed array. */
  method NewSyntheticBlockhash(tip: u64) returns (hash: array<u8>)
    ensures fresh(hash) && hash.Length == 32
    ensures hash[..] == HashOf(tip)
    ensures Base58Encode(hash[..]) == TargetText(tip)
  {
    var decoded := match Base58Decode(TargetText(tip)) case Some(b) => b case None => seq(32, _ => 0);
    HashShowsText(tip);
    HashIsNumeral(tip);
    hash := new u8[32](_ => 0);
    var n := Min(|decoded|, 32);
    forall j | 0 <= j < n {
      hash[j] := decoded[j];
    }
    assert hash[..] == decoded;
  }
}
