/** Time travel: three ways to name a future moment, and the clock they lead to. */
module TimeTravel {
  import opened Prelude
  import opened Numerals
  import opened EpochSchedules

  datatype Clock = Clock(
    slot: u64,
    epochStartTimestamp: i64,
    epoch: nat,
    leaderScheduleEpoch: nat,
    unixTimestamp: i64
  )

  datatype EpochInfo = EpochInfo(epoch: u64, absoluteSlot: u64, slotsInEpoch: u64)

  datatype Config =
    | AbsoluteTimestamp(timestamp: u64)
    | AbsoluteSlot(slot: u64)
    | AbsoluteSlotAt(slot: u64, timestamp: u64)
    | AbsoluteEpoch(epoch: u64)

  datatype TravelError =
    | PastTimestamp(target: u64, current: u64)
    | PastSlot(target: u64, current: u64)
    | PastEpoch(target: u64, current: u64)
    | ZeroSlotTime
    | ZeroSlotsInEpoch

  /** The moment a traveller leaves from: times in milliseconds, slots `slotTime` apart. */
  datatype Here = Here(updatedAt: u64, slotTime: u64, info: EpochInfo, schedule: EpochSchedule)
  {
    ghost predicate Valid() {
      schedule.Valid()
    }

    /** The time extrapolated for a slot, in milliseconds. */
    function TimeOf(slot: nat): int {
      updatedAt + (slot - info.absoluteSlot) * slotTime
    }

    function SlotAtTime(timestamp: nat): nat
      requires slotTime > 0 && timestamp >= updatedAt
    {
      info.absoluteSlot + Quotient(timestamp - updatedAt, slotTime)
    }

    function SlotOfEpoch(epoch: nat): int {
      Max(schedule.FirstSlot(epoch), info.absoluteSlot)
    }
  }

  function SaturatingAdd(a: u64, b: u64): u64 {
    Min(a + b, U64_MAX)
  }

  function SaturatingMul(a: u64, b: u64): u64 {
    Min(a * b, U64_MAX)
  }

  function ClockForSlot(slot: u64, unixTimestamp: i64, previous: Option<Clock>, schedule: EpochSchedule): Clock
    requires schedule.Valid()
  {
    var epoch := schedule.EpochOf(slot);
    Clock(
      slot,
      if previous.Some? && previous.value.epoch == epoch then previous.value.epochStartTimestamp else unixTimestamp,
      epoch,
      schedule.LeaderScheduleEpoch(slot),
      unixTimestamp)
  }

  function TimestampClock(target: u64, h: Here): Result<Clock, TravelError>
    requires h.Valid()
    requires h.slotTime > 0 && target >= h.updatedAt ==> h.SlotAtTime(target) <= U64_MAX
  {
    if target < h.updatedAt then Err(PastTimestamp(target, h.updatedAt))
    else if h.slotTime == 0 then Err(ZeroSlotTime)
    else if h.info.slotsInEpoch == 0 then Err(ZeroSlotsInEpoch)
    else
      Ok(ClockForSlot(h.SlotAtTime(target), target / 1000, None, h.schedule))
  }

  /** Saturating throughout, so any slot can be asked for. */
  function SlotClock(target: u64, h: Here): Result<Clock, TravelError>
    requires h.Valid()
  {
    if target < h.info.absoluteSlot then Err(PastSlot(target, h.info.absoluteSlot))
    else
      var jump := SaturatingMul(target - h.info.absoluteSlot, h.slotTime);
      Ok(ClockForSlot(target, SaturatingAdd(h.updatedAt, jump) / 1000, None, h.schedule))
  }

  /** Unchecked in `time_travel.rs`: the first slot of the epoch and its extrapolated time must fit a u64. */
  function EpochClock(target: u64, h: Here): Result<Clock, TravelError>
    requires h.Valid()
    requires target >= h.info.epoch ==> h.SlotOfEpoch(target) <= U64_MAX && h.TimeOf(h.SlotOfEpoch(target)) <= U64_MAX
  {
    if target < h.info.epoch then Err(PastEpoch(target, h.info.epoch))
    else
      var slot := Max(h.schedule.FirstSlot(target), h.info.absoluteSlot);
      var jump := slot - h.info.absoluteSlot;
      Ok(ClockForSlot(slot, (h.updatedAt + jump * h.slotTime) / 1000, None, h.schedule))
  }

  ghost predicate NoOverflow(config: Config, h: Here) {
    match config
    case AbsoluteTimestamp(t) => h.slotTime > 0 && t >= h.updatedAt ==> h.SlotAtTime(t) <= U64_MAX
    case AbsoluteEpoch(e) =>
      e >= h.info.epoch ==> h.SlotOfEpoch(e) <= U64_MAX && h.TimeOf(h.SlotOfEpoch(e)) <= U64_MAX
    case _ => true
  }

  function Travel(config: Config, h: Here): Result<Clock, TravelError>
    requires h.Valid() && NoOverflow(config, h)
  {
    match config
    case AbsoluteTimestamp(t) => TimestampClock(t, h)
    case AbsoluteSlot(slot) => SlotClock(slot, h)
    case AbsoluteSlotAt(slot, timestamp) =>
      (match SlotClock(slot, h)
       case Ok(clock) => Ok(clock.(epochStartTimestamp := timestamp / 1000, unixTimestamp := timestamp / 1000))
       case Err(e) => Err(e))
    case AbsoluteEpoch(epoch) => EpochClock(epoch, h)
  }

  /** A fresh clock at `slot`, whose time in seconds is `millis` rounded down. */
  ghost predicate Shows(clock: Clock, slot: int, millis: int, s: EpochSchedule) {
    && clock.slot == slot
    && 1000 * clock.unixTimestamp <= millis < 1000 * clock.unixTimestamp + 1000
    && clock.epochStartTimestamp == clock.unixTimestamp
    && s.FirstSlot(clock.epoch) <= slot < s.FirstSlot(clock.epoch + 1)
    && (s.leaderOffset == s.slotsPerEpoch ==> clock.leaderScheduleEpoch == clock.epoch + 1)
  }

  lemma FreshShows(slot: u64, millis: u64, s: EpochSchedule)
    requires s.Valid()
    ensures Shows(ClockForSlot(slot, millis / 1000, None, s), slot, millis, s)
  {
    EpochContains(s, slot);
    if s.leaderOffset == s.slotsPerEpoch {
      LeaderScheduleNext(s, slot);
    }
  }

  /** A time: refused in the past and without slots to count, otherwise the last slot that has begun by then. */
  lemma TimestampTravel(t: u64, h: Here)
    requires h.Valid() && NoOverflow(AbsoluteTimestamp(t), h)
    ensures Travel(AbsoluteTimestamp(t), h) ==
      if t < h.updatedAt then Err(PastTimestamp(t, h.updatedAt))
      else if h.slotTime == 0 then Err(ZeroSlotTime)
      else if h.info.slotsInEpoch == 0 then Err(ZeroSlotsInEpoch)
      else Ok(Travel(AbsoluteTimestamp(t), h).value)
    ensures Travel(AbsoluteTimestamp(t), h).Ok? ==>
      var clock := Travel(AbsoluteTimestamp(t), h).value;
      var passed := (clock.slot - h.info.absoluteSlot) * h.slotTime;
      && h.updatedAt + passed <= t < h.updatedAt + passed + h.slotTime
      && Shows(clock, clock.slot, t, h.schedule)
  {
    if Travel(AbsoluteTimestamp(t), h).Ok? {
      SlotAtTimeWindow(t, h);
      FreshShows(h.SlotAtTime(t), t, h.schedule);
    }
  }

  /** A slot: refused in the past, otherwise shown at the extrapolated time, or the last one a u64 holds. */
  lemma SlotTravel(slot: u64, h: Here)
    requires h.Valid()
    ensures Travel(AbsoluteSlot(slot), h) ==
      if slot < h.info.absoluteSlot then Err(PastSlot(slot, h.info.absoluteSlot))
      else Ok(Travel(AbsoluteSlot(slot), h).value)
    ensures slot >= h.info.absoluteSlot ==>
      var t := h.updatedAt + (slot - h.info.absoluteSlot) * h.slotTime;
      Shows(Travel(AbsoluteSlot(slot), h).value, slot, if t <= U64_MAX then t else U64_MAX, h.schedule)
  {
    if slot >= h.info.absoluteSlot {
      var jump := (slot - h.info.absoluteSlot) * h.slotTime;
      MulMonotone(0, slot - h.info.absoluteSlot, h.slotTime);
      FreshShows(slot, SaturatingAdd(h.updatedAt, SaturatingMul(slot - h.info.absoluteSlot, h.slotTime)), h.schedule);
    }
  }

  /** A slot at a time: refused like the slot, otherwise shown at the time named, whatever it is. */
  lemma SlotAtTravel(slot: u64, t: u64, h: Here)
    requires h.Valid()
    ensures Travel(AbsoluteSlotAt(slot, t), h) ==
      if slot < h.info.absoluteSlot then Err(PastSlot(slot, h.info.absoluteSlot))
      else Ok(Travel(AbsoluteSlotAt(slot, t), h).value)
    ensures slot >= h.info.absoluteSlot ==> Shows(Travel(AbsoluteSlotAt(slot, t), h).value, slot, t, h.schedule)
  {
    SlotTravel(slot, h);
    LaterSecond(0, t);
  }

  /** An epoch: refused in the past, otherwise its first slot, or the current one when the chain is past that. */
  lemma EpochTravel(epoch: u64, h: Here)
    requires h.Valid() && NoOverflow(AbsoluteEpoch(epoch), h)
    ensures Travel(AbsoluteEpoch(epoch), h) ==
      if epoch < h.info.epoch then Err(PastEpoch(epoch, h.info.epoch)) else Ok(Travel(AbsoluteEpoch(epoch), h).value)
    ensures epoch >= h.info.epoch ==>
      var first, here := h.schedule.FirstSlot(epoch), h.info.absoluteSlot;
      var slot := if first < here then here else first;
      Shows(Travel(AbsoluteEpoch(epoch), h).value, slot, h.updatedAt + (slot - here) * h.slotTime, h.schedule)
  {
    if epoch >= h.info.epoch {
      var slot := h.SlotOfEpoch(epoch);
      MulMonotone(0, slot - h.info.absoluteSlot, h.slotTime);
      FreshShows(slot, h.TimeOf(slot), h.schedule);
    }
  }

  /** Travelling to a slot is travelling to the time extrapolated for it. */
  lemma {:induction false} SlotAgreesWithTimestamp(slot: u64, h: Here)
    requires h.Valid() && h.slotTime > 0 && h.info.slotsInEpoch > 0
    requires slot >= h.info.absoluteSlot && h.TimeOf(slot) <= U64_MAX
    ensures var t := h.TimeOf(slot);
            && t >= h.updatedAt && NoOverflow(AbsoluteTimestamp(t), h)
            && Travel(AbsoluteSlot(slot), h) == Travel(AbsoluteTimestamp(t), h)
            && Travel(AbsoluteSlot(slot), h).Ok?
  {
    SlotAtTimeOf(slot, h);
  }

  /** Travelling to an epoch is travelling to its first slot, or staying when the chain is already past it. */
  lemma EpochAgreesWithSlot(epoch: u64, h: Here)
    requires h.Valid() && epoch >= h.info.epoch && NoOverflow(AbsoluteEpoch(epoch), h)
    ensures Travel(AbsoluteEpoch(epoch), h) == Travel(AbsoluteSlot(h.SlotOfEpoch(epoch)), h)
    ensures Travel(AbsoluteEpoch(epoch), h).Ok?
  {
  }

  lemma SlotAtTimeWindow(timestamp: nat, h: Here)
    requires h.slotTime > 0 && timestamp >= h.updatedAt
    ensures h.SlotAtTime(timestamp) >= h.info.absoluteSlot
    ensures var t := h.TimeOf(h.SlotAtTime(timestamp));
            h.updatedAt <= t <= timestamp < t + h.slotTime
  {
    var q := Quotient(timestamp - h.updatedAt, h.slotTime);
    MulMonotone(0, q, h.slotTime);
    assert h.SlotAtTime(timestamp) - h.info.absoluteSlot == q;
    assert h.TimeOf(h.SlotAtTime(timestamp)) == h.updatedAt + q * h.slotTime;
  }

  lemma {:induction false} SlotAtTimeOf(slot: nat, h: Here)
    requires h.slotTime > 0 && slot >= h.info.absoluteSlot
    ensures h.TimeOf(slot) >= h.updatedAt && h.SlotAtTime(h.TimeOf(slot)) == slot
  {
    MulMonotone(0, slot - h.info.absoluteSlot, h.slotTime);
    QuotientIs(h.TimeOf(slot) - h.updatedAt, h.slotTime, slot - h.info.absoluteSlot);
  }

  /** From a time to its slot and back to a time loses less than one slot time, and the clock of that time is the
      slot's clock. */
  lemma {:induction false} TimestampRoundTrip(timestamp: u64, h: Here)
    requires h.Valid() && h.slotTime > 0 && h.info.slotsInEpoch > 0
    requires timestamp >= h.updatedAt && NoOverflow(AbsoluteTimestamp(timestamp), h)
    ensures var slot := h.SlotAtTime(timestamp);
            && Travel(AbsoluteTimestamp(timestamp), h).Ok?
            && Travel(AbsoluteTimestamp(timestamp), h).value.slot == slot
            && 0 <= h.TimeOf(slot) <= timestamp < h.TimeOf(slot) + h.slotTime
            && NoOverflow(AbsoluteTimestamp(h.TimeOf(slot)), h)
            && Travel(AbsoluteSlot(slot), h) == Travel(AbsoluteTimestamp(h.TimeOf(slot)), h)
  {
    SlotAtTimeWindow(timestamp, h);
    SlotAgreesWithTimestamp(h.SlotAtTime(timestamp), h);
  }

  lemma LaterSecond(a: int, b: int)
    requires a <= b
    ensures a / 1000 <= b / 1000
  {
  }

  lemma SlotNeverRewinds(slot: u64, h: Here)
    requires h.Valid() && SlotClock(slot, h).Ok?
    ensures SlotClock(slot, h).value.slot == slot >= h.info.absoluteSlot
    ensures SlotClock(slot, h).value.unixTimestamp >= h.updatedAt / 1000
  {
    MulMonotone(0, slot - h.info.absoluteSlot, h.slotTime);
    LaterSecond(h.updatedAt, SaturatingAdd(h.updatedAt, SaturatingMul(slot - h.info.absoluteSlot, h.slotTime)));
  }

  lemma TimestampNeverRewinds(timestamp: u64, h: Here)
    requires h.Valid() && NoOverflow(AbsoluteTimestamp(timestamp), h) && TimestampClock(timestamp, h).Ok?
    ensures TimestampClock(timestamp, h).value.slot >= h.info.absoluteSlot
    ensures TimestampClock(timestamp, h).value.unixTimestamp >= h.updatedAt / 1000
  {
    SlotAtTimeWindow(timestamp, h);
    LaterSecond(h.updatedAt, timestamp);
  }

  /** No form rewinds the slot; time goes back only when `AbsoluteSlotAt` names an earlier one. */
  lemma NeverRewinds(config: Config, h: Here)
    requires h.Valid() && NoOverflow(config, h) && Travel(config, h).Ok?
    ensures Travel(config, h).value.slot >= h.info.absoluteSlot
    ensures Travel(config, h).value.unixTimestamp >= h.updatedAt / 1000 <==>
      !(config.AbsoluteSlotAt? && config.timestamp / 1000 < h.updatedAt / 1000)
  {
    match config
    case AbsoluteTimestamp(t) => TimestampNeverRewinds(t, h);
    case AbsoluteSlot(slot) => SlotNeverRewinds(slot, h);
    case AbsoluteSlotAt(slot, _) => SlotNeverRewinds(slot, h);
    case AbsoluteEpoch(epoch) =>
      EpochAgreesWithSlot(epoch, h);
      SlotNeverRewinds(h.SlotOfEpoch(epoch), h);
  }

  /** From second 5, a request for a later slot at second 1 is accepted and takes the clock back. */
  lemma AbsoluteSlotAtRewinds()
    ensures var h := Here(5000, 400, EpochInfo(0, 10, 32), Custom(432000, 432000, false));
            && h.Valid()
            && Travel(AbsoluteSlotAt(20, 1000), h).Ok?
            && Travel(AbsoluteSlotAt(20, 1000), h).value.slot > h.info.absoluteSlot
            && Travel(AbsoluteSlotAt(20, 1000), h).value.unixTimestamp == 1 < h.updatedAt / 1000
  {
  }

  /** Travelling to an epoch lands in it exactly when the chain is not past it, whatever epoch the caller reported. */
  lemma {:induction false} EpochTravelLands(epoch: u64, h: Here)
    requires h.Valid() && epoch >= h.info.epoch && NoOverflow(AbsoluteEpoch(epoch), h)
    ensures Travel(AbsoluteEpoch(epoch), h).value.epoch == epoch <==>
      h.schedule.EpochOf(h.info.absoluteSlot) <= epoch
  {
    var s, cur := h.schedule, h.info.absoluteSlot;
    EpochOfFirstSlot(s, epoch);
    EpochMonotone(s, cur, h.SlotOfEpoch(epoch));
    if s.FirstSlot(epoch) < cur {
      EpochMonotone(s, s.FirstSlot(epoch), cur);
    }
  }

  // ----- a clock kept up to date slot by slot

  datatype Visit = Visit(slot: u64, time: i64)

  function Keep(visits: seq<Visit>, schedule: EpochSchedule): Clock
    requires schedule.Valid() && visits != []
  {
    var init, last := visits[..|visits| - 1], visits[|visits| - 1];
    ClockForSlot(last.slot, last.time, if init == [] then None else Some(Keep(init, schedule)), schedule)
  }

  /** Over any slots, the clock shows the last visit: its slot, its time, the epoch that holds it, and, under the usual
      offset of one epoch, a leader schedule for the next. */
  lemma KeptClock(visits: seq<Visit>, schedule: EpochSchedule)
    requires schedule.Valid() && visits != []
    ensures var clock, last := Keep(visits, schedule), visits[|visits| - 1];
            && clock.slot == last.slot && clock.unixTimestamp == last.time
            && schedule.FirstSlot(clock.epoch) <= last.slot < schedule.FirstSlot(clock.epoch + 1)
            && (schedule.leaderOffset == schedule.slotsPerEpoch ==> clock.leaderScheduleEpoch == clock.epoch + 1)
  {
    var last := visits[|visits| - 1];
    EpochContains(schedule, last.slot);
    if schedule.leaderOffset == schedule.slotsPerEpoch {
      LeaderScheduleNext(schedule, last.slot);
    }
  }

  ghost predicate NonDecreasing(visits: seq<Visit>) {
    forall i, j :: 0 <= i < j < |visits| ==> visits[i].slot <= visits[j].slot
  }

  /** Visit `i` is the first in the epoch of the last visit. */
  ghost predicate IsEpochStart(visits: seq<Visit>, schedule: EpochSchedule, i: nat)
    requires schedule.Valid() && visits != []
  {
    && i < |visits|
    && schedule.EpochOf(visits[i].slot) == schedule.EpochOf(visits[|visits| - 1].slot)
    && forall j :: 0 <= j < i ==> schedule.EpochOf(visits[j].slot) != schedule.EpochOf(visits[|visits| - 1].slot)
  }

  /** Over any slots in order, the clock's epoch start is the time of the first visited slot of its epoch. */
  lemma {:induction false} EpochStartKept(visits: seq<Visit>, schedule: EpochSchedule) returns (i: nat)
    requires schedule.Valid() && visits != [] && NonDecreasing(visits)
    ensures IsEpochStart(visits, schedule, i)
    ensures Keep(visits, schedule).epochStartTimestamp == visits[i].time
  {
    var n := |visits| - 1;
    var init := visits[..n];
    i := n;
    if init != [] {
      var k := EpochStartKept(init, schedule);
      if schedule.EpochOf(visits[n - 1].slot) == schedule.EpochOf(visits[n].slot) {
        i := k;
      } else {
        forall j | 0 <= j < n ensures schedule.EpochOf(visits[j].slot) < schedule.EpochOf(visits[n].slot) {
          EpochMonotone(schedule, visits[j].slot, visits[n - 1].slot);
          EpochMonotone(schedule, visits[n - 1].slot, visits[n].slot);
        }
      }
    }
  }
}
