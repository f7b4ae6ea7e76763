/**
 Deadline arithmetic of the four-tier timing wheel: what the division and
 remainder steps of the insert functions add up to once an entry has been
 handed down from tier to tier.
 */
module Deadlines {
  const MINUTE := 60
  const HOUR := 3600
  const DAY := 86400

  /** Tiers are numbered as in the source: 0 second, 1 minute, 2 hour, 3 day. */
  const TIERS := 4

  /** Ticks between two pops of a tier. */
  function Unit(tier: nat): (u: nat)
    requires tier < TIERS
    ensures u > 0
  {
    if tier == 0 then 1 else if tier == 1 then MINUTE else if tier == 2 then HOUR else DAY
  }

  /** Number of slots of a tier. */
  function Slots(tier: nat): nat
    requires tier < TIERS
  {
    if tier < 2 then 60 else if tier == 2 then 24 else 30
  }

  /** Every insert function replaces a zero quotient or remainder by one. */
  function AtLeastOne(n: nat): nat {
    if n == 0 then 1 else n
  }

  /** The tier `InsertEntry` chooses for a delay. */
  function TierOf(delay: nat): (tier: nat)
    ensures tier < TIERS
  {
    if delay < MINUTE then 0 else if delay < HOUR then 1 else if delay < DAY then 2 else 3
  }

  /** Delays that `InsertEntry` does not refuse: at most 30 whole days. */
  predicate Accepted(delay: nat) {
    delay / DAY <= 30
  }

  /** Ticks from the last pop of `tier` until an entry inserted there falls out of the second wheel. */
  function Lag(tier: nat, delay: nat): nat
    requires tier < TIERS
  {
    Unit(tier) * AtLeastOne(delay / Unit(tier))
    + if tier == 0 then 0 else Lag(tier - 1, AtLeastOne(delay % Unit(tier)))
  }

  /**
   How often a tier has popped. While the callbacks of tick `tick` run, only
   the second wheel has popped for that tick.
   */
  function PopsAt(tier: nat, tick: nat, firing: bool): nat
    requires tier < TIERS
  {
    (if firing && tier > 0 && tick > 0 then tick - 1 else tick) / Unit(tier)
  }

  /** The tick at which an entry inserted now with `delay` falls out of the second wheel. */
  function Deadline(tick: nat, firing: bool, delay: nat): nat {
    var tier := TierOf(delay);
    Unit(tier) * PopsAt(tier, tick, firing) + Lag(tier, delay)
  }

  /** What the zero-to-one corrections and the handing down add to the requested delay. */
  function Slack(delay: nat): nat {
    if delay < MINUTE then (if delay == 0 then 1 else 0)
    else if delay < HOUR then MinuteSlack(delay % MINUTE)
    else if delay < DAY then HourSlack(delay % HOUR)
    else DaySlack(delay % DAY)
  }

  function MinuteSlack(second: nat): nat {
    if second == 0 then 1 else 0
  }

  function HourSlack(rest: nat): nat {
    if rest == 0 then MINUTE + 1
    else if rest < MINUTE then MINUTE
    else MinuteSlack(rest % MINUTE)
  }

  function DaySlack(rest: nat): nat {
    if rest == 0 then HOUR + MINUTE + 1
    else if rest < HOUR then HOUR + HandedHourSlack(rest)
    else HourSlack(rest % HOUR)
  }

  /** The hour tier's slack for a delay under an hour that a day entry hands down. */
  function HandedHourSlack(rest: nat): nat {
    if rest < MINUTE then MINUTE else MinuteSlack(rest % MINUTE)
  }

  lemma SecondLag(delay: nat)
    ensures Lag(0, delay) == AtLeastOne(delay)
  {
  }

  lemma MinuteLag(delay: nat)
    requires 0 < delay < HOUR
    ensures Lag(1, delay) == (if delay < MINUTE then MINUTE + delay else delay + MinuteSlack(delay % MINUTE))
    ensures MINUTE < Lag(1, delay) < HOUR
  {
    SecondLag(AtLeastOne(delay % MINUTE));
  }

  lemma HourLag(delay: nat)
    requires 0 < delay < DAY
    ensures Lag(2, delay)
         == if delay < HOUR then HOUR + delay + HandedHourSlack(delay) else delay + HourSlack(delay % HOUR)
    ensures HOUR + MINUTE < Lag(2, delay) < DAY
  {
    var q, r, lag := delay / HOUR, delay % HOUR, Lag(2, delay);
    assert q < 24 && delay == HOUR * q + r && (q == 0 ==> r == delay);
    HandedToMinute(r);
    assert lag == HOUR * AtLeastOne(q) + Lag(1, AtLeastOne(r));
    if q == 0 {
      assert lag == HOUR + delay + HandedHourSlack(delay);
    } else {
      assert lag == delay + HourSlack(r);
    }
  }

  lemma HandedToMinute(rest: nat)
    requires rest < HOUR
    ensures rest > 0 ==> Lag(1, AtLeastOne(rest)) == rest + HandedHourSlack(rest)
    ensures Lag(1, AtLeastOne(rest)) == rest + HourSlack(rest)
    ensures MINUTE < Lag(1, AtLeastOne(rest)) < HOUR
  {
    MinuteLag(AtLeastOne(rest));
  }

  lemma DayLag(delay: nat)
    requires DAY <= delay
    ensures Lag(3, delay) == delay + DaySlack(delay % DAY)
    ensures Lag(3, delay) == DAY * (delay / DAY) + Lag(2, AtLeastOne(delay % DAY))
  {
    var q, r := delay / DAY, delay % DAY;
    assert q > 0;
    assert Lag(3, delay) == DAY * AtLeastOne(q) + Lag(2, AtLeastOne(r));
    HourLag(AtLeastOne(r));
  }

  /** The lag is the requested delay plus its slack; nothing else is lost on the way down. */
  lemma LagIsDelayPlusSlack(delay: nat)
    ensures Lag(TierOf(delay), delay) == delay + Slack(delay)
  {
    if delay < MINUTE {
    } else if delay < HOUR {
      MinuteLag(delay);
    } else if delay < DAY {
      HourLag(delay);
    } else {
      DayLag(delay);
    }
  }

  /** Ticks since the last pop of the tier that a delay is inserted into. */
  function Phase(tick: nat, firing: bool, delay: nat): (p: nat)
    requires firing ==> tick > 0
    ensures p <= Unit(TierOf(delay))
  {
    var unit := Unit(TierOf(delay));
    if !firing || unit == 1 then tick % unit else (tick - 1) % unit + 1
  }

  lemma PhaseOfPops(tick: nat, firing: bool, delay: nat)
    requires firing ==> tick > 0
    ensures Unit(TierOf(delay)) * PopsAt(TierOf(delay), tick, firing) + Phase(tick, firing, delay) == tick
  {
  }

  /**
   A timer fires `Slack - Phase` ticks away from the requested delay, hence
   exactly on time if and only if the slack equals the ticks already elapsed in
   the running unit of its tier.
   */
  lemma ExactlyOnTime(tick: nat, firing: bool, delay: nat)
    requires firing ==> tick > 0
    ensures Deadline(tick, firing, delay) == tick + delay + Slack(delay) - Phase(tick, firing, delay)
    ensures Deadline(tick, firing, delay) == tick + delay <==> Slack(delay) == Phase(tick, firing, delay)
  {
    LagIsDelayPlusSlack(delay);
    PhaseOfPops(tick, firing, delay);
  }

  /**
   Firing is strictly in the future and within the tier's window of the
   requested delay; inside a callback the whole window is one tick earlier.
   */
  lemma DeadlineWindow(tick: nat, firing: bool, delay: nat)
    requires firing ==> tick > 0
    ensures Deadline(tick, firing, delay) > tick
    ensures delay < MINUTE ==> Deadline(tick, firing, delay) == tick + AtLeastOne(delay)
    ensures var early := if firing then 1 else 0; var off := Deadline(tick, firing, delay) - (tick + delay);
            && (MINUTE <= delay < HOUR ==> -59 - early <= off <= 1 - early)
            && (HOUR <= delay < DAY ==> -3599 - early <= off <= 61 - early)
            && (DAY <= delay ==> -86399 - early <= off <= 3661 - early)
  {
    ExactlyOnTime(tick, firing, delay);
    if MINUTE <= delay < HOUR {
      MinuteLag(delay);
    } else if HOUR <= delay < DAY {
      HourLag(delay);
    } else if DAY <= delay {
      DayLag(delay);
    }
  }

  /** The largest slack of a tier whose unit is `unit`. */
  function LargestSlack(unit: nat): nat {
    if unit == MINUTE then 1 else if unit == HOUR then MINUTE + 1 else HOUR + MINUTE + 1
  }

  /** Every bound of `DeadlineWindow`, lower and upper, is reached in both phases, so none can be tightened. */
  lemma WindowIsTight(unit: nat)
    requires unit in {MINUTE, HOUR, DAY}
    ensures var late := LargestSlack(unit);
            && Deadline(0, false, unit) == 0 + unit + late
            && Deadline(1, true, unit) == 1 + unit + (late - 1)
            && Deadline(unit - 1, false, unit + late) == (unit - 1) + (unit + late) - (unit - 1)
            && Deadline(unit, true, unit + late) == unit + (unit + late) - unit
  {
    LagIsDelayPlusSlack(unit);
    LagIsDelayPlusSlack(unit + LargestSlack(unit));
    SlackReached(unit);
    NoPopYet(unit, 0);
    NoPopYet(unit, unit - 1);
  }

  /** The promise of `RunAfter` at its worst: a minute asked for by a callback at a full minute takes one second. */
  lemma MinuteTimerAfterOneSecond()
    ensures Deadline(60, true, 60) == 60 + 1
  {
    LagIsDelayPlusSlack(60);
  }

  lemma SlackReached(unit: nat)
    requires unit in {MINUTE, HOUR, DAY}
    ensures Slack(unit) == LargestSlack(unit) && Slack(unit + LargestSlack(unit)) == 0
  {
  }

  lemma NoPopYet(unit: nat, tick: nat)
    requires unit in {MINUTE, HOUR, DAY} && tick < unit
    ensures tick / unit == 0
    ensures Unit(TierOf(unit)) == unit == Unit(TierOf(unit + LargestSlack(unit)))
  {
  }

  /** With the same delay, inserting later never fires earlier, across ticks and into a tick's callbacks. */
  lemma DeadlineMonotone(t0: nat, f0: bool, t1: nat, f1: bool, delay: nat)
    requires (f0 ==> t0 > 0) && (f1 ==> t1 > 0)
    requires t0 < t1 || (t0 == t1 && (f1 ==> f0))
    ensures Deadline(t0, f0, delay) <= Deadline(t1, f1, delay)
  {
    var tier := TierOf(delay);
    var n0, n1 := PopsAt(tier, t0, f0), PopsAt(tier, t1, f1);
    assert n0 <= n1;
    assert Unit(tier) * n0 <= Unit(tier) * n1;
  }

  /** The period of a repeating timer: whole units of its tier, at least one tick. */
  function Period(interval: nat): nat {
    var unit := Unit(TierOf(interval));
    unit * AtLeastOne(interval / unit)
  }

  /** The part of a coarse timer's lag that is left after its own tier has popped. */
  function Offset(delay: nat): nat {
    if TierOf(delay) == 0 then 0 else Lag(TierOf(delay) - 1, AtLeastOne(delay % Unit(TierOf(delay))))
  }

  lemma OffsetWithinUnit(delay: nat)
    ensures Lag(TierOf(delay), delay) == Period(delay) + Offset(delay)
    ensures TierOf(delay) > 0 ==> 0 < Offset(delay) < Unit(TierOf(delay))
  {
    if delay < MINUTE {
    } else if delay < HOUR {
      SecondLag(AtLeastOne(delay % MINUTE));
    } else if delay < DAY {
      MinuteLag(AtLeastOne(delay % HOUR));
    } else {
      HourLag(AtLeastOne(delay % DAY));
    }
  }

  /** Where in its unit a tier's timers fall out of the second wheel. */
  ghost predicate OnBeat(tick: nat, delay: nat) {
    tick > 0 && tick % Unit(TierOf(delay)) == Offset(delay)
  }

  lemma MultiplePlus(unit: nat, n: nat, r: nat)
    requires unit in {1, MINUTE, HOUR, DAY}
    requires r < unit
    ensures (unit * n + r) % unit == r
  {
  }

  lemma DeadlineOnBeat(tick: nat, firing: bool, delay: nat)
    requires firing ==> tick > 0
    ensures OnBeat(Deadline(tick, firing, delay), delay)
  {
    DeadlineWindow(tick, firing, delay);
    OffsetWithinUnit(delay);
    var tier := TierOf(delay);
    var whole := PopsAt(tier, tick, firing) + AtLeastOne(delay / Unit(tier));
    assert Deadline(tick, firing, delay) == Unit(tier) * whole + Offset(delay);
    MultiplePlus(Unit(tier), whole, Offset(delay));
  }

  /**
   A timer re-armed by its own callback fires exactly one period later: the
   re-arm happens before the coarser wheels pop, and a coarse timer never falls
   out on the first tick of a unit.
   */
  lemma RearmIsOnePeriodLater(tick: nat, interval: nat)
    requires OnBeat(tick, interval)
    ensures Deadline(tick, true, interval) == tick + Period(interval)
  {
    OffsetWithinUnit(interval);
    LastPopBefore(tick, Unit(TierOf(interval)), Offset(interval));
  }

  lemma LastPopBefore(tick: nat, unit: nat, offset: nat)
    requires unit in {1, MINUTE, HOUR, DAY} && tick > 0
    requires tick % unit == offset && (unit > 1 ==> offset > 0)
    ensures unit * ((if unit > 1 then tick - 1 else tick) / unit) == tick - offset
  {
  }

  /** The period is the requested interval exactly for whole units of the interval's tier. */
  lemma PeriodIsInterval(interval: nat)
    ensures Period(interval) == interval <==> interval > 0 && interval % Unit(TierOf(interval)) == 0
    ensures interval > 0 ==> interval - Unit(TierOf(interval)) < Period(interval) <= interval
  {
  }

  // The same laws in plain numbers of seconds, for readers who do not want to look the definitions up.

  /** What `InsertEntry` takes: everything below 31 days. */
  lemma AcceptedInSeconds(delay: nat)
    ensures Accepted(delay) <==> delay < 2678400
  {
  }

  lemma Split(unit: nat, q: nat, r: nat)
    requires unit in {60, 3600, 86400} && r < unit
    ensures (unit * q + r) / unit == q && (unit * q + r) % unit == r
  {
  }

  lemma MinutesDown(m: nat, s: nat)
    requires m < 60 && s < 60
    ensures Lag(1, AtLeastOne(60 * m + s)) == 60 * AtLeastOne(m) + AtLeastOne(s)
  {
    Split(60, m, s);
    MinuteLag(AtLeastOne(60 * m + s));
  }

  lemma HoursDown(h: nat, m: nat, s: nat)
    requires h < 24 && m < 60 && s < 60
    ensures Lag(2, AtLeastOne(3600 * h + 60 * m + s)) == 3600 * AtLeastOne(h) + 60 * AtLeastOne(m) + AtLeastOne(s)
  {
    var rest := 60 * m + s;
    Split(3600, h, rest);
    MinutesDown(m, s);
    var delay := AtLeastOne(3600 * h + rest);
    assert Lag(2, delay) == 3600 * AtLeastOne(delay / 3600) + Lag(1, AtLeastOne(delay % 3600));
    if h == 0 && rest == 0 {
      MinutesDown(0, 1);
    }
  }

  lemma DaysDown(d: nat, h: nat, m: nat, s: nat)
    requires 1 <= d && h < 24 && m < 60 && s < 60
    ensures Lag(3, 86400 * d + 3600 * h + 60 * m + s)
         == 86400 * d + 3600 * AtLeastOne(h) + 60 * AtLeastOne(m) + AtLeastOne(s)
  {
    var rest := 3600 * h + 60 * m + s;
    Split(86400, d, rest);
    HoursDown(h, m, s);
    var delay := 86400 * d + rest;
    assert Lag(3, delay) == 86400 * AtLeastOne(delay / 86400) + Lag(2, AtLeastOne(delay % 86400));
  }

  /** From which full unit on a timer counts: inside a callback, the last full one of the second before. */
  lemma CountsFromLastUnit(tick: nat, firing: bool, delay: nat)
    requires firing ==> tick > 0
    ensures var last := if firing then tick - 1 else tick;
            Deadline(tick, firing, delay)
            == if delay < 60 then tick + Lag(0, delay)
               else if delay < 3600 then 60 * (last / 60) + Lag(1, delay)
               else if delay < 86400 then 3600 * (last / 3600) + Lag(2, delay)
               else 86400 * (last / 86400) + Lag(3, delay)
  {
  }

  /** Below a minute: exact, and at least one second. */
  lemma SecondTimer(tick: nat, firing: bool, s: nat)
    requires s < 60 && (firing ==> tick > 0)
    ensures Deadline(tick, firing, s) == tick + if s == 0 then 1 else s
  {
    CountsFromLastUnit(tick, firing, s);
  }

  /**
   From a minute on: whole units count from the last full unit, and every lower
   unit of the delay that is zero counts as one.
   */
  lemma MinuteTimer(tick: nat, firing: bool, m: nat, s: nat)
    requires 1 <= m < 60 && s < 60 && (firing ==> tick > 0)
    ensures var last := if firing then tick - 1 else tick;
            Deadline(tick, firing, 60 * m + s) == 60 * (last / 60 + m) + if s == 0 then 1 else s
  {
    CountsFromLastUnit(tick, firing, 60 * m + s);
    MinutesDown(m, s);
  }

  lemma HourTimer(tick: nat, firing: bool, h: nat, m: nat, s: nat)
    requires 1 <= h < 24 && m < 60 && s < 60 && (firing ==> tick > 0)
    ensures var last := if firing then tick - 1 else tick;
            Deadline(tick, firing, 3600 * h + 60 * m + s)
            == 3600 * (last / 3600 + h) + 60 * (if m == 0 then 1 else m) + if s == 0 then 1 else s
  {
    hide Deadline, Lag;
    CountsFromLastUnit(tick, firing, 3600 * h + 60 * m + s);
    HoursDown(h, m, s);
  }

  lemma DayTimer(tick: nat, firing: bool, d: nat, h: nat, m: nat, s: nat)
    requires 1 <= d <= 30 && h < 24 && m < 60 && s < 60 && (firing ==> tick > 0)
    ensures var last := if firing then tick - 1 else tick;
            Deadline(tick, firing, 86400 * d + 3600 * h + 60 * m + s)
            == 86400 * (last / 86400 + d) + 3600 * (if h == 0 then 1 else h)
               + 60 * (if m == 0 then 1 else m) + if s == 0 then 1 else s
  {
    hide Deadline, Lag;
    CountsFromLastUnit(tick, firing, 86400 * d + 3600 * h + 60 * m + s);
    DaysDown(d, h, m, s);
  }

  /** Days on the dot, set between ticks. */
  lemma WholeDays(tick: nat, d: nat)
    requires 1 <= d <= 30
    ensures Deadline(tick, false, 86400 * d) == 86400 * (tick / 86400 + d) + 3661
  {
    DayTimer(tick, false, d, 0, 0, 0);
  }

  /** How long a period lasts. */
  lemma PeriodInSeconds(interval: nat)
    ensures Period(interval) == if interval == 0 then 1
                                else if interval < 60 then interval
                                else if interval < 3600 then 60 * (interval / 60)
                                else if interval < 86400 then 3600 * (interval / 3600)
                                else 86400 * (interval / 86400)
  {
  }
}
