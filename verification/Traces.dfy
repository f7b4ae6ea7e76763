/**
 Where a reference is while it travels down the tiers: its place at any time
 follows from the insertion that it stems from and from how often the wheels
 have popped. Closures are compared by what they captured, not by identity.
 */
module Traces {
  import opened Deadlines
  import opened Calendar
  import opened WheelSlots

  /** An item without the identity of its closure. */
  datatype Spot = Spot(tier: nat, pop: nat, arg: nat, entry: Entry)

  function SpotOf(it: Item): Spot {
    Spot(it.tier, it.pop, if it.ref.Plain? then 0 else it.ref.arg, it.ref.entry)
  }

  /** Where a tier's insert function puts an entry when that tier has popped `popped` times. */
  function Put(tier: nat, popped: nat, delay: nat, e: Entry): (s: Spot)
    requires tier < TIERS
    ensures s.tier == tier
  {
    Spot(tier, popped + AtLeastOne(delay / Unit(tier)), if tier == 0 then 0 else AtLeastOne(delay % Unit(tier)), e)
  }

  /** The next place after the pop that drops a closure. */
  function Lower(s: Spot): (s': Spot)
    requires 0 < s.tier < TIERS
    ensures s'.tier == s.tier - 1
  {
    Put(s.tier - 1, Unit(s.tier) * s.pop / Unit(s.tier - 1), s.arg, s.entry)
  }

  /** `x` is on the way down from `s`, and the pops that lead there have happened. */
  predicate Reached(s: Spot, x: Spot, pops: seq<nat>)
    requires s.tier < TIERS == |pops|
    decreases s.tier
  {
    x == s || (s.tier > 0 && s.pop <= pops[s.tier] && Reached(Lower(s), x, pops))
  }

  /** The first place on the way down from `s` that no pop has emptied yet. */
  function Rest(s: Spot, pops: seq<nat>): Spot
    requires s.tier < TIERS == |pops|
    decreases s.tier
  {
    if s.tier == 0 || s.pop > pops[s.tier] then s else Rest(Lower(s), pops)
  }

  function DueOf(s: Spot): nat
    requires s.tier < TIERS
  {
    Unit(s.tier) * s.pop + if s.tier == 0 then 0 else Lag(s.tier - 1, s.arg)
  }

  lemma UnitsDivide(tier: nat, n: nat)
    requires 0 < tier < TIERS
    ensures Unit(tier - 1) * (Unit(tier) * n / Unit(tier - 1)) == Unit(tier) * n
  {
  }

  lemma LowerIsDueTheSame(s: Spot)
    requires 0 < s.tier < TIERS
    ensures DueOf(Lower(s)) == DueOf(s)
  {
    UnitsDivide(s.tier, s.pop);
    var unit, popped := Unit(s.tier - 1), Unit(s.tier) * s.pop / Unit(s.tier - 1);
    var whole := AtLeastOne(s.arg / unit);
    assert unit * (popped + whole) == unit * popped + unit * whole;
  }

  lemma {:induction false} ReachedIsDueTheSame(s: Spot, x: Spot, pops: seq<nat>)
    requires s.tier < TIERS == |pops| && Reached(s, x, pops)
    ensures x.tier < TIERS && DueOf(x) == DueOf(s)
    decreases s.tier
  {
    if x != s {
      LowerIsDueTheSame(s);
      ReachedIsDueTheSame(Lower(s), x, pops);
    }
  }

  lemma {:induction false} ReachedFurther(s: Spot, x: Spot, pops: seq<nat>, pops': seq<nat>)
    requires s.tier < TIERS == |pops| == |pops'| && Reached(s, x, pops)
    requires forall t :: 0 <= t < TIERS ==> pops[t] <= pops'[t]
    ensures Reached(s, x, pops')
    decreases s.tier
  {
    if x != s {
      ReachedFurther(Lower(s), x, pops, pops');
    }
  }

  lemma {:induction false} ReachedLower(s: Spot, x: Spot, pops: seq<nat>)
    requires s.tier < TIERS == |pops| && Reached(s, x, pops)
    requires 0 < x.tier < TIERS && x.pop <= pops[x.tier]
    ensures Reached(s, Lower(x), pops)
    decreases s.tier
  {
    if x != s {
      ReachedLower(Lower(s), x, pops);
    } else {
      assert Reached(Lower(s), Lower(x), pops);
    }
  }

  lemma {:induction false} ReachedIsRest(s: Spot, x: Spot, pops: seq<nat>)
    requires s.tier < TIERS == |pops| && Reached(s, x, pops)
    requires x.tier < TIERS && x.pop > pops[x.tier]
    ensures x == Rest(s, pops)
    decreases s.tier
  {
    if x != s {
      ReachedIsRest(Lower(s), x, pops);
    }
  }

  /** Where an insertion in state `s` puts an entry. */
  function PutIn(s: State, delay: nat, e: Entry): (spot: Spot)
    ensures spot.tier < TIERS
  {
    var tier := TierOf(delay);
    Put(tier, PopsAt(tier, s.tick, s.firing), AtLeastOne(delay), e)
  }

  /** Where the `i`-th event, an insertion, put its entry. */
  function Entered(ss: seq<State>, evs: seq<Event>, i: nat): (s: Spot)
    requires i < |evs| && i < |ss| && evs[i].Insert?
    ensures s.tier < TIERS
  {
    PutIn(ss[i], evs[i].delay, evs[i].entry)
  }

  lemma EnteredIsDueAtDeadline(ss: seq<State>, evs: seq<Event>, i: nat)
    requires i < |evs| < |ss| && evs[i].Insert?
    ensures DueOf(Entered(ss, evs, i)) == DeadlineAt(ss, evs, i)
  {
    var delay := evs[i].delay;
    var tier := TierOf(delay);
    var popped, whole := PopsAt(tier, ss[i].tick, ss[i].firing), AtLeastOne(delay / Unit(tier));
    assert Unit(tier) * (popped + whole) == Unit(tier) * popped + Unit(tier) * whole;
  }

  /** An item is where one of the insertions of its entry has got to. */
  ghost predicate Sourced(it: Item, pops: seq<nat>, ss: seq<State>, evs: seq<Event>)
    requires |pops| == TIERS && |evs| < |ss|
  {
    exists i :: 0 <= i < |evs| && evs[i].Insert? && Reached(Entered(ss, evs, i), SpotOf(it), pops)
  }

  /** What the `i`-th event inserted is still there. */
  ghost predicate Present(book: set<Item>, pops: seq<nat>, ss: seq<State>, evs: seq<Event>, i: nat)
    requires |pops| == TIERS && i < |evs| < |ss| && evs[i].Insert?
  {
    exists it :: it in book && Reached(Entered(ss, evs, i), SpotOf(it), pops)
  }

  /** The items are exactly what the insertions whose deadline is to come have led to. */
  ghost predicate Traced(book: set<Item>, pops: seq<nat>, ss: seq<State>, evs: seq<Event>) {
    && |pops| == TIERS && |ss| == |evs| + 1
    && (forall it <- book :: Sourced(it, pops, ss, evs))
    && (forall i :: 0 <= i < |evs| && evs[i].Insert? && DeadlineAt(ss, evs, i) > Last(ss).tick
                    ==> Present(book, pops, ss, evs, i))
  }

  /** What the past has led to is not affected by the next event. */
  lemma PastStays(book: set<Item>, pops: seq<nat>, ss: seq<State>, evs: seq<Event>, s: State, ev: Event)
    requires |pops| == TIERS && |ss| == |evs| + 1
    ensures forall it <- book | Sourced(it, pops, ss, evs) :: Sourced(it, pops, ss + [s], evs + [ev])
    ensures forall i :: 0 <= i < |evs| && evs[i].Insert? ==>
              && DeadlineAt(ss + [s], evs + [ev], i) == DeadlineAt(ss, evs, i)
              && (Present(book, pops, ss, evs, i) ==> Present(book, pops, ss + [s], evs + [ev], i))
  {
    hide Reached, PutIn, Deadline;
    var ss', evs' := ss + [s], evs + [ev];
    assert forall i :: 0 <= i < |evs| ==> evs'[i] == evs[i] && ss'[i] == ss[i];
    forall it <- book | Sourced(it, pops, ss, evs) ensures Sourced(it, pops, ss', evs') {
      var i :| 0 <= i < |evs| && evs[i].Insert? && Reached(Entered(ss, evs, i), SpotOf(it), pops);
      assert Reached(Entered(ss', evs', i), SpotOf(it), pops);
    }
    forall i | 0 <= i < |evs| && evs[i].Insert? && Present(book, pops, ss, evs, i)
      ensures Present(book, pops, ss', evs', i)
    {
      var it :| it in book && Reached(Entered(ss, evs, i), SpotOf(it), pops);
      assert Reached(Entered(ss', evs', i), SpotOf(it), pops);
    }
  }

  lemma TracedAfterEvent(book: set<Item>, pops: seq<nat>, ss: seq<State>, evs: seq<Event>, s: State, ev: Event)
    requires Traced(book, pops, ss, evs) && s.tick >= Last(ss).tick && !ev.Insert?
    ensures Traced(book, pops, ss + [s], evs + [ev])
  {
    hide Sourced, Present, DeadlineAt;
    PastStays(book, pops, ss, evs, s, ev);
  }

  lemma TracedAfterInsert(book: set<Item>, pops: seq<nat>, ss: seq<State>, evs: seq<Event>,
                          it: Item, e: Entry, delay: nat, s: State)
    requires Traced(book, pops, ss, evs) && s.tick == Last(ss).tick
    requires SpotOf(it) == PutIn(Last(ss), delay, e)
    ensures Traced(book + {it}, pops, ss + [s], evs + [Insert(e, delay)])
  {
    hide Deadline, PutIn;
    var ss', evs', n := ss + [s], evs + [Insert(e, delay)], |evs|;
    PastStays(book, pops, ss, evs, s, Insert(e, delay));
    assert Entered(ss', evs', n) == SpotOf(it) && Reached(SpotOf(it), SpotOf(it), pops);
    hide Reached;
    assert Sourced(it, pops, ss', evs');
    forall i | 0 <= i <= n && evs'[i].Insert? && DeadlineAt(ss', evs', i) > s.tick
      ensures Present(book + {it}, pops, ss', evs', i)
    {
      if i < n {
        assert Present(book, pops, ss, evs, i);
      } else {
        assert it in book + {it};
      }
    }
  }

  lemma TracedAfterPop(book: set<Item>, pops: seq<nat>, ss: seq<State>, evs: seq<Event>, pops': seq<nat>)
    requires Traced(book, pops, ss, evs) && |pops'| == TIERS
    requires forall t :: 0 <= t < TIERS ==> pops[t] <= pops'[t]
    ensures Traced(book, pops', ss, evs)
  {
    hide Reached, PutIn, Deadline;
    forall it <- book ensures Sourced(it, pops', ss, evs) {
      var i :| 0 <= i < |evs| && evs[i].Insert? && Reached(Entered(ss, evs, i), SpotOf(it), pops);
      ReachedFurther(Entered(ss, evs, i), SpotOf(it), pops, pops');
    }
    forall i | 0 <= i < |evs| && evs[i].Insert? && DeadlineAt(ss, evs, i) > Last(ss).tick
      ensures Present(book, pops', ss, evs, i)
    {
      var it :| it in book && Reached(Entered(ss, evs, i), SpotOf(it), pops);
      ReachedFurther(Entered(ss, evs, i), SpotOf(it), pops, pops');
    }
  }

  /** An item that is due is no longer needed. */
  lemma TracedAfterDrop(book: set<Item>, pops: seq<nat>, ss: seq<State>, evs: seq<Event>, it: Item)
    requires Traced(book, pops, ss, evs) && it.tier < TIERS && DueOf(SpotOf(it)) <= Last(ss).tick
    ensures Traced(book - {it}, pops, ss, evs)
  {
    hide Reached, PutIn, Deadline, DueOf;
    forall i | 0 <= i < |evs| && evs[i].Insert? && DeadlineAt(ss, evs, i) > Last(ss).tick
      ensures Present(book - {it}, pops, ss, evs, i)
    {
      var x :| x in book && Reached(Entered(ss, evs, i), SpotOf(x), pops);
      ReachedIsDueTheSame(Entered(ss, evs, i), SpotOf(x), pops);
      EnteredIsDueAtDeadline(ss, evs, i);
      assert x in book - {it};
    }
  }

  /** A closure of a pop that has happened may be exchanged for what it hands down. */
  lemma TracedAfterHandover(book: set<Item>, pops: seq<nat>, ss: seq<State>, evs: seq<Event>, from: Item, to: Item)
    requires Traced(book, pops, ss, evs) && from in book
    requires 0 < from.tier < TIERS && from.pop <= pops[from.tier] && SpotOf(to) == Lower(SpotOf(from))
    ensures Traced(book + {to} - {from}, pops, ss, evs)
  {
    hide Reached, PutIn, Deadline, Lower;
    var book' := book + {to} - {from};
    var k :| 0 <= k < |evs| && evs[k].Insert? && Reached(Entered(ss, evs, k), SpotOf(from), pops);
    ReachedLower(Entered(ss, evs, k), SpotOf(from), pops);
    assert Sourced(to, pops, ss, evs);
    forall i | 0 <= i < |evs| && evs[i].Insert? && DeadlineAt(ss, evs, i) > Last(ss).tick
      ensures Present(book', pops, ss, evs, i)
    {
      var x :| x in book && Reached(Entered(ss, evs, i), SpotOf(x), pops);
      if x == from {
        ReachedLower(Entered(ss, evs, i), SpotOf(from), pops);
        assert to in book';
      } else {
        assert x in book';
      }
    }
  }

  /** Between ticks, the places taken are those where the insertions whose deadline is to come have got to. */
  lemma PlacesAreRests(book: set<Item>, pops: seq<nat>, ss: seq<State>, evs: seq<Event>, s: Spot)
    requires Traced(book, pops, ss, evs)
    requires forall it <- book ::
               it.tier < TIERS && it.pop > pops[it.tier] && DueOf(SpotOf(it)) > Last(ss).tick
    ensures (exists it :: it in book && SpotOf(it) == s)
       <==> exists i :: 0 <= i < |evs| && evs[i].Insert? && DeadlineAt(ss, evs, i) > Last(ss).tick
                        && s == Rest(Entered(ss, evs, i), pops)
  {
    hide Reached, PutIn, Deadline, DueOf, Rest;
    if it :| it in book && SpotOf(it) == s {
      assert Sourced(it, pops, ss, evs);
      var i :| 0 <= i < |evs| && evs[i].Insert? && Reached(Entered(ss, evs, i), SpotOf(it), pops);
      ReachedIsDueTheSame(Entered(ss, evs, i), s, pops);
      ReachedIsRest(Entered(ss, evs, i), s, pops);
      EnteredIsDueAtDeadline(ss, evs, i);
    }
    if i :| 0 <= i < |evs| && evs[i].Insert? && DeadlineAt(ss, evs, i) > Last(ss).tick
            && s == Rest(Entered(ss, evs, i), pops) {
      assert Present(book, pops, ss, evs, i);
      var it :| it in book && Reached(Entered(ss, evs, i), SpotOf(it), pops);
      ReachedIsRest(Entered(ss, evs, i), SpotOf(it), pops);
    }
  }
}
