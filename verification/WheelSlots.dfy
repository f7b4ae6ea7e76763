/**
 The contents of the four wheels as values. Slots are addressed by the number
 of the pop that will empty them, which rotation does not change, so an item
 keeps its address and its due tick until it is dropped.
 */
module WheelSlots {
  import opened Deadlines
  import opened Calendar
  import opened Prelude

  /**
   A reference stored in a slot: directly to an entry, or to a closure that
   captured an entry and the remainder to insert it with one tier down. Each
   closure is a new object, told apart by its serial number.
   */
  datatype Ref =
    | Plain(entry: Entry)
    | Cascade(serial: nat, arg: nat, entry: Entry)

  type Slot = set<Ref>
  type Wheel = seq<Slot>

  /** A reference together with the tier and the pop that will drop it. */
  datatype Item = Item(tier: nat, pop: nat, ref: Ref)

  /** The items of a slot that has just been detached. */
  ghost function Detached(tier: nat, pop: nat, slot: Slot): set<Item> {
    set r | r in slot :: Item(tier, pop, r)
  }

  lemma DetachedWithout(tier: nat, pop: nat, slot: Slot, r: Ref)
    requires r in slot
    ensures Item(tier, pop, r) in Detached(tier, pop, slot)
    ensures Detached(tier, pop, slot - {r}) == Detached(tier, pop, slot) - {Item(tier, pop, r)}
  {
  }

  ghost predicate WellFormed(it: Item) {
    && it.tier < TIERS
    && (it.tier == 0 <==> it.ref.Plain?)
    && (it.ref.Cascade? ==> 0 < it.ref.arg < Unit(it.tier))
  }

  /** The tick at which the reference, handed down to the second wheel, is dropped there. */
  ghost function DueTick(it: Item): nat
    requires WellFormed(it)
  {
    Unit(it.tier) * it.pop + if it.tier == 0 then 0 else Lag(it.tier - 1, it.ref.arg)
  }

  predicate Shape(wheels: seq<Wheel>) {
    |wheels| == TIERS && forall t :: 0 <= t < TIERS ==> |wheels[t]| == Slots(t)
  }

  ghost predicate InSlot(wheels: seq<Wheel>, pops: seq<nat>, it: Item)
    requires Shape(wheels) && |pops| == TIERS
  {
    && it.tier < TIERS
    && 0 <= it.pop - pops[it.tier] - 1 < Slots(it.tier)
    && it.ref in wheels[it.tier][it.pop - pops[it.tier] - 1]
  }

  /** All references to an entry, direct or captured. */
  ghost function HoldersOf(book: set<Item>, e: Entry): set<Item> {
    set it | it in book && it.ref.entry == e
  }

  /**
   `book` is the set of all references in the wheels and in the slot that is
   just being destroyed, and `refs` counts them as the shared pointers do.
   */
  ghost predicate Consistent(wheels: seq<Wheel>, pops: seq<nat>, detached: set<Item>, book: set<Item>,
                             refs: map<Entry, nat>, serials: nat)
    requires Shape(wheels) && |pops| == TIERS
  {
    && (forall it :: it in book <==> InSlot(wheels, pops, it) || it in detached)
    && (forall it <- detached :: it.tier < TIERS && it.pop == pops[it.tier])
    && (forall it <- book :: WellFormed(it) && (it.ref.Cascade? ==> it.ref.serial < serials))
    && Counted(refs, book)
  }

  ghost predicate Counted(refs: map<Entry, nat>, book: set<Item>) {
    && (forall it <- book :: it.ref.entry in refs)
    && (forall e <- refs :: refs[e] > 0 && refs[e] == |HoldersOf(book, e)|)
  }

  /** The calendar's tick of an entry is the latest due tick of the references to it. */
  ghost predicate Scheduled(book: set<Item>, due: map<Entry, nat>)
    requires forall it <- book :: WellFormed(it)
  {
    && (forall it <- book :: it.ref.entry in due && DueTick(it) <= due[it.ref.entry])
    && (forall e <- due :: exists it :: it in book && it.ref.entry == e && DueTick(it) == due[e])
  }

  /** Within a tick, the first `done` tiers have already had their turn to pop. */
  ghost predicate Clock(pops: seq<nat>, tick: nat, done: nat) {
    && |pops| == TIERS
    && done <= TIERS
    && (done < TIERS ==> tick > 0)
    && forall t :: 0 <= t < TIERS ==> pops[t] == (if t < done then tick else tick - 1) / Unit(t)
  }

  /** Where the insert function of a tier puts an entry. */
  ghost function Placed(tier: nat, pops: seq<nat>, serial: nat, delay: nat, e: Entry): Item
    requires tier < TIERS && |pops| == TIERS
  {
    var ref := if tier == 0 then Plain(e) else Cascade(serial, AtLeastOne(delay % Unit(tier)), e);
    Item(tier, pops[tier] + AtLeastOne(delay / Unit(tier)), ref)
  }

  lemma PlacedIsDueAfterLag(tier: nat, pops: seq<nat>, serial: nat, delay: nat, e: Entry)
    requires tier < TIERS && |pops| == TIERS
    ensures WellFormed(Placed(tier, pops, serial, delay, e))
    ensures DueTick(Placed(tier, pops, serial, delay, e)) == Unit(tier) * pops[tier] + Lag(tier, delay)
  {
    var whole := AtLeastOne(delay / Unit(tier));
    assert Unit(tier) * (pops[tier] + whole) == Unit(tier) * pops[tier] + Unit(tier) * whole;
    if tier > 0 {
      RemainderInRange(delay, Unit(tier));
    }
  }

  lemma RemainderInRange(delay: nat, unit: nat)
    requires unit > 1
    ensures 0 < AtLeastOne(delay % unit) < unit
  {
  }

  lemma HoldersAfterAdding(book: set<Item>, it: Item, e: Entry)
    ensures HoldersOf(book + {it}, e) == HoldersOf(book, e) + if it.ref.entry == e then {it} else {}
  {
  }

  lemma HoldersAfterRemoving(book: set<Item>, it: Item, e: Entry)
    ensures HoldersOf(book - {it}, e) == HoldersOf(book, e) - {it}
  {
  }

  function AddRef(refs: map<Entry, nat>, e: Entry): map<Entry, nat> {
    refs[e := if e in refs then refs[e] + 1 else 1]
  }

  function DropRef(refs: map<Entry, nat>, e: Entry): map<Entry, nat>
    requires e in refs && refs[e] > 0
  {
    if refs[e] == 1 then refs - {e} else refs[e := refs[e] - 1]
  }

  lemma CountedAfterAdding(refs: map<Entry, nat>, book: set<Item>, it: Item)
    requires Counted(refs, book) && it !in book
    ensures Counted(AddRef(refs, it.ref.entry), book + {it})
  {
    var book', refs' := book + {it}, AddRef(refs, it.ref.entry);
    forall e <- refs' ensures refs'[e] > 0 && refs'[e] == |HoldersOf(book', e)| {
      HoldersAfterAdding(book, it, e);
      if e !in refs {
        assert HoldersOf(book, e) == {};
      }
    }
  }

  lemma CountedAfterRemoving(refs: map<Entry, nat>, book: set<Item>, it: Item)
    requires Counted(refs, book) && it in book
    ensures Counted(DropRef(refs, it.ref.entry), book - {it})
  {
    var x := it.ref.entry;
    var book', refs' := book - {it}, DropRef(refs, x);
    HoldersAfterRemoving(book, it, x);
    forall e <- refs' ensures refs'[e] > 0 && refs'[e] == |HoldersOf(book', e)| {
      HoldersAfterRemoving(book, it, e);
      assert e != x ==> it !in HoldersOf(book, e);
    }
    if refs[x] == 1 {
      OnlyHolder(book, it);
    }
  }

  lemma OnlyHolder(book: set<Item>, it: Item)
    requires it in book && |HoldersOf(book, it.ref.entry)| == 1
    ensures forall other <- book | other.ref.entry == it.ref.entry :: other == it
  {
    var hs := HoldersOf(book, it.ref.entry);
    assert hs - {it} == {} by {
      assert it in hs && |hs - {it}| == 0;
    }
    assert forall other <- book | other.ref.entry == it.ref.entry :: other in hs;
  }

  /** Putting a reference into a slot, unless the slot already has it. */
  lemma Emplaced(wheels: seq<Wheel>, pops: seq<nat>, detached: set<Item>, book: set<Item>,
                 refs: map<Entry, nat>, serials: nat, tier: nat, slot: nat, ref: Ref)
    requires Shape(wheels) && |pops| == TIERS
    requires Consistent(wheels, pops, detached, book, refs, serials)
    requires tier < TIERS && slot < Slots(tier)
    requires WellFormed(Item(tier, pops[tier] + slot + 1, ref)) && (ref.Cascade? ==> ref.serial < serials)
    ensures var it := Item(tier, pops[tier] + slot + 1, ref);
            var wheels' := wheels[tier := wheels[tier][slot := wheels[tier][slot] + {ref}]];
            && (it in book <==> ref in wheels[tier][slot])
            && Shape(wheels')
            && Consistent(wheels', pops, detached, book + {it},
                          if it in book then refs else AddRef(refs, ref.entry), serials)
  {
    var it := Item(tier, pops[tier] + slot + 1, ref);
    var wheels' := wheels[tier := wheels[tier][slot := wheels[tier][slot] + {ref}]];
    assert InSlot(wheels, pops, it) <==> ref in wheels[tier][slot];
    forall x ensures x in book + {it} <==> InSlot(wheels', pops, x) || x in detached {
      assert InSlot(wheels', pops, x) <==> InSlot(wheels, pops, x) || x == it;
    }
    if it in book {
      assert book + {it} == book;
    } else {
      CountedAfterAdding(refs, book, it);
    }
  }

  /** Detaching the front slot and appending an empty one moves no item. */
  lemma Rotated(wheels: seq<Wheel>, pops: seq<nat>, book: set<Item>, refs: map<Entry, nat>, serials: nat, tier: nat)
    requires tier < TIERS && Shape(wheels) && |pops| == TIERS && Consistent(wheels, pops, {}, book, refs, serials)
    ensures var wheels', pops' := wheels[tier := wheels[tier][1..] + [{}]], pops[tier := pops[tier] + 1];
            && Shape(wheels')
            && Consistent(wheels', pops', Detached(tier, pops'[tier], wheels[tier][0]), book, refs, serials)
  {
    var wheels', pops' := wheels[tier := wheels[tier][1..] + [{}]], pops[tier := pops[tier] + 1];
    var detached := Detached(tier, pops'[tier], wheels[tier][0]);
    forall x ensures x in book <==> InSlot(wheels', pops', x) || x in detached {
      if x.tier == tier {
        assert x in detached <==> x.pop == pops'[tier] && x.ref in wheels[tier][0];
      }
    }
  }

  /** A new reference: the entry keeps the later of the two ticks. */
  lemma ScheduledAfterInsert(book: set<Item>, due: map<Entry, nat>, it: Item, tick: nat)
    requires (forall x <- book :: WellFormed(x)) && WellFormed(it)
    requires Scheduled(book, due) && DueTick(it) == tick
    ensures var e := it.ref.entry;
            Scheduled(book + {it}, due[e := if e in due then Max(due[e], tick) else tick])
  {
    var e := it.ref.entry;
    var due' := due[e := if e in due then Max(due[e], tick) else tick];
    forall x <- due' ensures exists i :: i in book + {it} && i.ref.entry == x && DueTick(i) == due'[x] {
      if x != e || (x in due && due[x] >= tick) {
        var i :| i in book && i.ref.entry == x && DueTick(i) == due[x];
        assert i in book + {it};
      } else {
        assert it in book + {it};
      }
    }
  }

  /** Replacing a reference by one that is due at the same tick changes no entry's tick. */
  lemma ScheduledAfterHandover(book: set<Item>, due: map<Entry, nat>, from: Item, to: Item)
    requires (forall x <- book :: WellFormed(x)) && WellFormed(to)
    requires Scheduled(book, due) && from in book && to != from
    requires to.ref.entry == from.ref.entry && DueTick(to) == DueTick(from)
    ensures Scheduled(book + {to} - {from}, due)
  {
    var book' := book + {to} - {from};
    forall x <- due ensures exists i :: i in book' && i.ref.entry == x && DueTick(i) == due[x] {
      var i :| i in book && i.ref.entry == x && DueTick(i) == due[x];
      assert (if i == from then to else i) in book';
    }
  }

  /** Dropping a reference that is not the latest one, or the last one together with its entry. */
  lemma ScheduledAfterDrop(book: set<Item>, due: map<Entry, nat>, it: Item)
    requires forall x <- book :: WellFormed(x)
    requires Scheduled(book, due) && it in book
    requires forall x <- book | x != it && x.ref.entry == it.ref.entry :: DueTick(x) > DueTick(it)
    ensures var e := it.ref.entry;
            if |HoldersOf(book, e)| == 1 then due[e] == DueTick(it) && Scheduled(book - {it}, due - {e})
            else Scheduled(book - {it}, due)
  {
    var e := it.ref.entry;
    if |HoldersOf(book, e)| == 1 {
      OnlyHolder(book, it);
      forall x <- due - {e} ensures exists i :: i in book - {it} && i.ref.entry == x && DueTick(i) == due[x] {
        var i :| i in book && i.ref.entry == x && DueTick(i) == due[x];
        assert i in book - {it};
      }
    } else {
      var hs := HoldersOf(book, e);
      assert it in hs && |hs - {it}| > 0;
      var other :| other in hs - {it};
      forall x <- due ensures exists i :: i in book - {it} && i.ref.entry == x && DueTick(i) == due[x] {
        var i :| i in book && i.ref.entry == x && DueTick(i) == due[x];
        assert x == e ==> DueTick(i) >= DueTick(other);
        assert i in book - {it};
      }
    }
  }

  lemma NotYetPopped(pops: seq<nat>, tick: nat, done: nat, it: Item)
    requires Clock(pops, tick, done) && done > 0 && WellFormed(it)
    requires it.pop > pops[it.tier]
    ensures DueTick(it) > tick
  {
    var unit, n := Unit(it.tier), pops[it.tier];
    assert unit * it.pop >= unit * (n + 1);
    if it.tier > 0 {
      assert Lag(it.tier - 1, it.ref.arg) > 0 by {
        LagPositive(it.tier - 1, it.ref.arg);
      }
    }
  }

  lemma LagPositive(tier: nat, delay: nat)
    requires tier < TIERS
    ensures Lag(tier, delay) > 0
  {
    assert Unit(tier) * AtLeastOne(delay / Unit(tier)) > 0;
  }

  /** At a pop of `tier`, that tier and the next finer one have both reached the current tick. */
  lemma PopsMeet(pops: seq<nat>, tick: nat, tier: nat)
    requires 0 < tier < TIERS && Clock(pops, tick, tier + 1) && tick % Unit(tier) == 0
    ensures Unit(tier) * pops[tier] == tick == Unit(tier - 1) * pops[tier - 1]
  {
  }

  /** Dropping one reference out of the detached slot. */
  lemma Dropped(wheels: seq<Wheel>, pops: seq<nat>, detached: set<Item>, book: set<Item>,
                refs: map<Entry, nat>, serials: nat, it: Item)
    requires Shape(wheels) && |pops| == TIERS
    requires Consistent(wheels, pops, detached, book, refs, serials) && it in detached
    ensures it in book && it.ref.entry in refs && refs[it.ref.entry] > 0
    ensures Consistent(wheels, pops, detached - {it}, book - {it}, DropRef(refs, it.ref.entry), serials)
  {
    assert it in book;
    assert !InSlot(wheels, pops, it);
    CountedAfterRemoving(refs, book, it);
  }

  /** While the second wheel's slot is destroyed, every other reference to an entry is due later. */
  lemma OthersAreDueLater(wheels: seq<Wheel>, pops: seq<nat>, detached: set<Item>, book: set<Item>,
                          refs: map<Entry, nat>, serials: nat, tick: nat, it: Item)
    requires Shape(wheels) && |pops| == TIERS
    requires Consistent(wheels, pops, detached, book, refs, serials) && it in detached
    requires Clock(pops, tick, 1) && forall x <- detached :: x.tier == 0
    ensures WellFormed(it) && DueTick(it) == tick
    ensures forall x <- book | x != it && x.ref.entry == it.ref.entry :: WellFormed(x) && DueTick(x) > DueTick(it)
  {
    assert it in book;
    forall x <- book | x != it && x.ref.entry == it.ref.entry ensures WellFormed(x) && DueTick(x) > tick {
      if InSlot(wheels, pops, x) {
        NotYetPopped(pops, tick, 1, x);
      }
    }
  }

  /** When every tier has had its turn, nothing is left that is due now. */
  lemma AllDueLater(wheels: seq<Wheel>, pops: seq<nat>, book: set<Item>, refs: map<Entry, nat>, serials: nat,
                    tick: nat, due: map<Entry, nat>)
    requires Shape(wheels) && |pops| == TIERS && Consistent(wheels, pops, {}, book, refs, serials)
    requires Clock(pops, tick, TIERS) && Scheduled(book, due)
    ensures forall e <- due :: due[e] > tick
  {
    forall e <- due ensures due[e] > tick {
      var it :| it in book && it.ref.entry == e && DueTick(it) == due[e];
      NotYetPopped(pops, tick, TIERS, it);
    }
  }
}
