/** Little-endian bytes and two's complement, as `to_le_bytes` and `from_le_bytes` define them. */
module LittleEndian {
  import opened Prelude
  import opened Numerals

  function LeBytes(n: nat, width: nat): (b: seq<u8>)
    ensures |b| == width
  {
    if width == 0 then [] else [n % 0x100] + LeBytes(n / 0x100, width - 1)
  }

  function LeNat(b: seq<u8>): nat {
    if b == [] then 0 else b[0] + 0x100 * LeNat(b[1..])
  }

  lemma {:induction false} LeRoundTrip(n: nat, width: nat)
    requires n < Pow(0x100, width)
    ensures LeNat(LeBytes(n, width)) == n
  {
    if width > 0 {
      LeRoundTrip(n / 0x100, width - 1);
      assert LeBytes(n, width)[1..] == LeBytes(n / 0x100, width - 1);
    }
  }

  lemma {:induction false} LeNatBound(b: seq<u8>)
    ensures LeNat(b) < Pow(0x100, |b|)
  {
    if b != [] {
      LeNatBound(b[1..]);
    }
  }

  lemma {:induction false} LeBytesOfNat(b: seq<u8>)
    ensures LeBytes(LeNat(b), |b|) == b
  {
    if b != [] {
      LeBytesOfNat(b[1..]);
      assert LeNat(b) / 0x100 == LeNat(b[1..]) && LeNat(b) % 0x100 == b[0];
    }
  }

  /** The signed reading of `b`: the top half of the unsigned range is negative. */
  function LeInt(b: seq<u8>): int
    requires b != []
  {
    var n := LeNat(b);
    if 2 * n < Pow(0x100, |b|) then n else n - Pow(0x100, |b|)
  }

  predicate FitsSigned(n: int, width: nat) {
    0 <= 2 * n + Pow(0x100, width) && 2 * n < Pow(0x100, width)
  }

  function LeBytesSigned(n: int, width: nat): (b: seq<u8>)
    requires FitsSigned(n, width)
    ensures |b| == width
  {
    LeBytes(if n < 0 then n + Pow(0x100, width) else n, width)
  }

  lemma LeSignedRoundTrip(n: int, width: nat)
    requires width > 0 && FitsSigned(n, width)
    ensures LeInt(LeBytesSigned(n, width)) == n
  {
    LeRoundTrip(if n < 0 then n + Pow(0x100, width) else n, width);
  }

  lemma EightBytes()
    ensures Pow(0x100, 8) == U64_MAX + 1
  {
    assert Pow(0x100, 4) == 0x1_0000_0000;
    PowProduct(0x100, 4, 4, 0x1_0000_0000, 0x1_0000_0000);
  }

  /** A u64 in eight bytes. */
  lemma LeWord(n: u64, width: nat)
    requires width == 8
    ensures LeNat(LeBytes(n, width)) == n
  {
    EightBytes();
    LeRoundTrip(n, width);
  }

  /** Byte `k` of an integer in two's complement, counted from the low end: division rounds down. */
  function ByteOf(n: int, k: nat): u8 {
    PowMonotone(0x100, 0, k);
    n / Pow(0x100, k) % 0x100
  }

  lemma {:induction false} ByteShift(n: nat, k: nat)
    ensures ByteOf(n / 0x100, k) == ByteOf(n, k + 1)
  {
    PowMonotone(0x100, 0, k);
    DivTwice(n, 0x100, Pow(0x100, k));
  }

  /** The bytes of a number, lowest first. */
  lemma {:induction false} LeByteAt(n: nat, width: nat, k: nat)
    requires k < width
    ensures LeBytes(n, width)[k] == ByteOf(n, k)
  {
    if k > 0 {
      LeByteAt(n / 0x100, width - 1, k - 1);
      ByteShift(n, k - 1);
    }
  }

  /** Adding the full range of the width changes none of its bytes. */
  lemma {:induction false} ByteWraps(n: int, width: nat, k: nat)
    requires k < width
    ensures ByteOf(n + Pow(0x100, width), k) == ByteOf(n, k)
  {
    PowMonotone(0x100, 0, k);
    var p, c := Pow(0x100, k), Pow(0x100, width - k - 1);
    PowAdd(0x100, k + 1, width - k - 1);
    assert Pow(0x100, width) == (0x100 * p) * c;
    DivShift(n, p, 0x100 * c, Pow(0x100, width));
    assert (n / p + 0x100 * c) % 0x100 == n / p % 0x100;
  }

  lemma {:induction false} LeSignedByteAt(n: int, width: nat, k: nat)
    requires FitsSigned(n, width) && k < width
    ensures LeBytesSigned(n, width)[k] == ByteOf(n, k)
  {
    LeByteAt(if n < 0 then n + Pow(0x100, width) else n, width, k);
    ByteWraps(n, width, k);
  }

  /** Both readings determine the bytes. */
  lemma ReadingInjective(a: seq<u8>, b: seq<u8>)
    requires |a| == |b| > 0
    requires LeNat(a) == LeNat(b) || LeInt(a) == LeInt(b)
    ensures a == b
  {
    LeNatBound(a);
    LeNatBound(b);
    LeBytesOfNat(a);
    LeBytesOfNat(b);
  }

  /** Big-endian order is the little-endian bytes reversed; used for two-byte values only. */
  function BeBytes16(n: u16): seq<u8> {
    [n / 0x100, n % 0x100]
  }
}
