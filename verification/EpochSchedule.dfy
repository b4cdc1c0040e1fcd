/** The epoch schedule: epochs of 32, 64, 128, ... slots during warm-up, then epochs of constant length. */
module EpochSchedules {
  import opened Numerals

  const MINIMUM_SLOTS := 32

  /** `firstNormalEpoch` is zero without warm-up. */
  datatype EpochSchedule = EpochSchedule(slotsPerEpoch: nat, leaderOffset: nat, firstNormalEpoch: nat)
  {
    /** With warm-up, the last doubling epoch is the one before the length would reach `slotsPerEpoch`. */
    ghost predicate Valid() {
      && slotsPerEpoch >= MINIMUM_SLOTS
      && (firstNormalEpoch > 0 ==> WarmLength(firstNormalEpoch - 1) < slotsPerEpoch <= WarmLength(firstNormalEpoch))
    }

    static function WarmLength(epoch: nat): nat {
      MINIMUM_SLOTS * Pow(2, epoch)
    }

    /** The sum of the doubling lengths before `epoch`. */
    static function WarmFirst(epoch: nat): int {
      MINIMUM_SLOTS * (Pow(2, epoch) - 1)
    }

    function FirstNormalSlot(): int {
      WarmFirst(firstNormalEpoch)
    }

    function SlotsInEpoch(epoch: nat): nat {
      if epoch < firstNormalEpoch then WarmLength(epoch) else slotsPerEpoch
    }

    function FirstSlot(epoch: nat): int {
      if epoch <= firstNormalEpoch then WarmFirst(epoch)
      else (epoch - firstNormalEpoch) * slotsPerEpoch + FirstNormalSlot()
    }

    /** The least `e >= from` whose doubling epochs up to and including `e` hold `slot`. */
    static function WarmEpoch(slot: nat, from: nat): (e: nat)
      ensures from <= e && slot < WarmFirst(e + 1)
      ensures from < e ==> WarmFirst(e) <= slot
      decreases slot - from
    {
      WarmGrows(from);
      if slot < WarmFirst(from + 1) then from else WarmEpoch(slot, from + 1)
    }

    static lemma {:induction false} WarmGrows(epoch: nat)
      ensures epoch < WarmFirst(epoch + 1)
      ensures WarmFirst(epoch + 1) == WarmFirst(epoch) + WarmLength(epoch)
      ensures WarmFirst(epoch) >= 0
    {
      PowMonotone(2, 0, epoch);
      if epoch > 0 {
        WarmGrows(epoch - 1);
      }
    }

    function EpochOf(slot: nat): (epoch: nat)
      requires slotsPerEpoch > 0
    {
      if slot < FirstNormalSlot() then WarmEpoch(slot, 0)
      else firstNormalEpoch + Quotient(slot - FirstNormalSlot(), slotsPerEpoch)
    }

    function LeaderScheduleEpoch(slot: nat): nat
      requires slotsPerEpoch > 0
    {
      if slot < FirstNormalSlot() then EpochOf(slot) + 1
      else firstNormalEpoch + Quotient(slot - FirstNormalSlot() + leaderOffset, slotsPerEpoch)
    }
  }

  /** The least doubling of the minimum length, from the `from`-th on, that reaches `slots`. */
  function Doublings(slots: nat, from: nat): (k: nat)
    ensures from <= k && slots <= EpochSchedule.WarmLength(k)
    ensures from < k ==> EpochSchedule.WarmLength(k - 1) < slots
    decreases slots - from
  {
    EpochSchedule.WarmGrows(from);
    PowAbove(from);
    if slots <= EpochSchedule.WarmLength(from) then from else Doublings(slots, from + 1)
  }

  lemma {:induction false} PowAbove(n: nat)
    ensures n < Pow(2, n)
  {
    if n > 0 {
      PowAbove(n - 1);
    }
  }

  /** `EpochSchedule::custom` and `without_warmup`. */
  function Custom(slots: nat, leaderOffset: nat, warmup: bool): (s: EpochSchedule)
    requires slots >= MINIMUM_SLOTS
    ensures s.Valid() && s.slotsPerEpoch == slots && s.leaderOffset == leaderOffset
    ensures if warmup then slots <= EpochSchedule.WarmLength(s.firstNormalEpoch) else s.firstNormalEpoch == 0
  {
    EpochSchedule(slots, leaderOffset, if warmup then Doublings(slots, 0) else 0)
  }

  lemma FirstSlotWarm(s: EpochSchedule, epoch: nat)
    requires epoch < s.firstNormalEpoch
    ensures s.FirstSlot(epoch + 1) == s.FirstSlot(epoch) + s.SlotsInEpoch(epoch)
    ensures s.SlotsInEpoch(epoch) >= MINIMUM_SLOTS && s.FirstSlot(epoch) >= 0
  {
    EpochSchedule.WarmGrows(epoch);
    PowMonotone(2, 0, epoch);
  }

  lemma FirstSlotNormal(s: EpochSchedule, q: nat)
    ensures s.FirstSlot(s.firstNormalEpoch + q) == q * s.slotsPerEpoch + s.FirstNormalSlot()
  {
    if q == 0 {
      assert 0 * s.slotsPerEpoch == 0;
    }
  }

  /** Every epoch begins where the one before ends. */
  lemma FirstSlotStep(s: EpochSchedule, epoch: nat)
    requires s.Valid()
    ensures s.FirstSlot(epoch + 1) == s.FirstSlot(epoch) + s.SlotsInEpoch(epoch)
    ensures s.SlotsInEpoch(epoch) >= MINIMUM_SLOTS && s.FirstSlot(epoch) >= 0
  {
    if epoch < s.firstNormalEpoch {
      FirstSlotWarm(s, epoch);
    } else {
      var q := epoch - s.firstNormalEpoch;
      FirstSlotNormal(s, q);
      FirstSlotNormal(s, q + 1);
      MulStep(q, s.slotsPerEpoch);
      MulMonotone(0, q, s.slotsPerEpoch);
      PowMonotone(2, 0, s.firstNormalEpoch);
    }
  }

  /** The epochs start at slot 0, double in length from 32 while warming up, and have their full length afterwards. */
  lemma EpochLengths(s: EpochSchedule, epoch: nat)
    requires s.Valid()
    ensures s.FirstSlot(0) == 0
    ensures s.firstNormalEpoch > 0 ==> s.SlotsInEpoch(0) == 32
    ensures epoch + 1 < s.firstNormalEpoch ==> s.SlotsInEpoch(epoch + 1) == 2 * s.SlotsInEpoch(epoch)
    ensures epoch >= s.firstNormalEpoch ==> s.SlotsInEpoch(epoch) == s.slotsPerEpoch
    ensures epoch < s.firstNormalEpoch ==> s.SlotsInEpoch(epoch) < s.slotsPerEpoch
  {
    if epoch < s.firstNormalEpoch {
      PowMonotone(2, epoch, s.firstNormalEpoch - 1);
    }
  }

  lemma {:induction false} FirstSlotMonotone(s: EpochSchedule, a: nat, b: nat)
    requires s.Valid() && a <= b
    ensures s.FirstSlot(a) <= s.FirstSlot(b)
    decreases b
  {
    if a < b {
      FirstSlotMonotone(s, a, b - 1);
      FirstSlotStep(s, b - 1);
    }
  }

  lemma WarmMonotone(a: nat, b: nat)
    requires a <= b
    ensures EpochSchedule.WarmFirst(a) <= EpochSchedule.WarmFirst(b)
  {
    PowMonotone(2, a, b);
  }

  lemma WarmContains(s: EpochSchedule, slot: nat)
    requires s.Valid() && slot < s.FirstNormalSlot()
    ensures s.EpochOf(slot) < s.firstNormalEpoch
    ensures s.FirstSlot(s.EpochOf(slot)) <= slot < s.FirstSlot(s.EpochOf(slot) + 1)
  {
    if s.EpochOf(slot) >= s.firstNormalEpoch {
      WarmMonotone(s.firstNormalEpoch, s.EpochOf(slot));
    }
  }

  lemma NormalWindow(s: EpochSchedule, slot: nat, q: nat)
    requires q * s.slotsPerEpoch <= slot - s.FirstNormalSlot() < q * s.slotsPerEpoch + s.slotsPerEpoch
    ensures s.FirstSlot(s.firstNormalEpoch + q) <= slot < s.FirstSlot(s.firstNormalEpoch + q + 1)
  {
    FirstSlotNormal(s, q);
    FirstSlotNormal(s, q + 1);
    MulStep(q, s.slotsPerEpoch);
  }

  lemma NormalContains(s: EpochSchedule, slot: nat)
    requires s.Valid() && slot >= s.FirstNormalSlot()
    ensures s.FirstSlot(s.EpochOf(slot)) <= slot < s.FirstSlot(s.EpochOf(slot) + 1)
  {
    NormalWindow(s, slot, Quotient(slot - s.FirstNormalSlot(), s.slotsPerEpoch));
  }

  /** A slot lies in its epoch. */
  lemma {:induction false} EpochContains(s: EpochSchedule, slot: nat)
    requires s.Valid()
    ensures s.FirstSlot(s.EpochOf(slot)) <= slot < s.FirstSlot(s.EpochOf(slot) + 1)
  {
    if slot < s.FirstNormalSlot() {
      WarmContains(s, slot);
    } else {
      NormalContains(s, slot);
    }
  }

  /** The epoch of a slot is the only one that holds it. */
  lemma {:induction false} EpochUnique(s: EpochSchedule, slot: nat, epoch: nat)
    requires s.Valid() && s.FirstSlot(epoch) <= slot < s.FirstSlot(epoch + 1)
    ensures s.EpochOf(slot) == epoch
  {
    EpochContains(s, slot);
    var e := s.EpochOf(slot);
    if e < epoch {
      FirstSlotMonotone(s, e + 1, epoch);
    } else if epoch < e {
      FirstSlotMonotone(s, epoch + 1, e);
    }
  }

  lemma {:induction false} EpochMonotone(s: EpochSchedule, a: nat, b: nat)
    requires s.Valid() && a <= b
    ensures s.EpochOf(a) <= s.EpochOf(b)
  {
    EpochContains(s, a);
    EpochContains(s, b);
    if s.EpochOf(b) < s.EpochOf(a) {
      FirstSlotMonotone(s, s.EpochOf(b) + 1, s.EpochOf(a));
    }
  }

  lemma {:induction false} EpochOfFirstSlot(s: EpochSchedule, epoch: nat)
    requires s.Valid()
    ensures s.FirstSlot(epoch) >= 0 && s.EpochOf(s.FirstSlot(epoch)) == epoch
  {
    FirstSlotStep(s, epoch);
    EpochUnique(s, s.FirstSlot(epoch), epoch);
  }

  /** The leader schedule is for the next epoch while warming up, and later for the epoch `leaderOffset` slots ahead. */
  lemma LeaderScheduleAhead(s: EpochSchedule, slot: nat)
    requires s.Valid()
    ensures slot < s.FirstSlot(s.firstNormalEpoch) ==> s.LeaderScheduleEpoch(slot) == s.EpochOf(slot) + 1
    ensures slot >= s.FirstSlot(s.firstNormalEpoch) ==>
      s.FirstSlot(s.LeaderScheduleEpoch(slot)) <= slot + s.leaderOffset < s.FirstSlot(s.LeaderScheduleEpoch(slot) + 1)
  {
    EpochContains(s, slot + s.leaderOffset);
  }

  /** With the usual offset of one epoch, the leader schedule is always for the next epoch. */
  lemma {:induction false} LeaderScheduleNext(s: EpochSchedule, slot: nat)
    requires s.Valid() && s.leaderOffset == s.slotsPerEpoch
    ensures s.LeaderScheduleEpoch(slot) == s.EpochOf(slot) + 1
  {
    if slot >= s.FirstNormalSlot() {
      var since := slot - s.FirstNormalSlot();
      var q := Quotient(since, s.slotsPerEpoch);
      MulStep(q, s.slotsPerEpoch);
      QuotientIs(since + s.slotsPerEpoch, s.slotsPerEpoch, q + 1);
    }
  }

  /** The warm-up that the tests of `time_travel.rs` fix: epochs of 32, 64 and 128 slots come first. */
  lemma WarmupShape(slots: nat, offset: nat)
    requires slots > 128
    ensures var s := Custom(slots, offset, true);
            && s.SlotsInEpoch(0) == 32 && s.SlotsInEpoch(1) == 64 && s.SlotsInEpoch(2) == 128
            && s.FirstSlot(3) == 224
            && s.EpochOf(100) == 2 && s.LeaderScheduleEpoch(100) == 3
  {
    var s := Custom(slots, offset, true);
    assert Pow(2, 0) == 1 && Pow(2, 1) == 2 && Pow(2, 2) == 4 && Pow(2, 3) == 8;
    if s.firstNormalEpoch <= 2 {
      PowMonotone(2, s.firstNormalEpoch, 2);
    }
    WarmMonotone(3, s.firstNormalEpoch);
    EpochUnique(s, 100, 2);
  }
}
