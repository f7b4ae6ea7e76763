/**
 The hierarchical timing wheel (src/network/net/TimingWheel.cpp): four deques
 of slots, rotated and filled in place. Destroying the last reference to an
 entry runs its destructor, which runs user code, which inserts again while
 the current second's slot is still being destroyed. Every method is proved to
 extend a run of the flat calendar in Calendar.dfy.
 */
module TimingWheels {
  import opened Deadlines
  import opened Calendar
  import opened Callbacks
  import opened Prelude
  import opened Traces
  import opened WheelSlots

  /** Ticks that `OnTimer(now)` has to make up for; the first timestamp only sets the clock. */
  function Elapsed(lastTs: int, now: int): nat {
    if lastTs == 0 || now <= lastTs then 0 else now - lastTs
  }

  ghost predicate SamePhase(s: State, s': State) {
    s'.tick == s.tick && s'.firing == s.firing && s.born <= s'.born && (s.called ==> s'.called)
  }

  /** Where the current tick stands: which tiers have popped and which slot is being destroyed. */
  ghost predicate Paced(pops: seq<nat>, tick: nat, done: nat, detached: set<Item>, now: State) {
    && now.tick == tick
    && Clock(pops, tick, done)
    && (if now.firing then tick > 0 else done == TIERS && detached == {})
    && (forall it <- detached :: done > 0 && it.tier == done - 1)
  }

  /** Names below `nextId` may have been given out. */
  ghost predicate NamesTaken(now: State, code: map<Entry, seq<Function>>, nextId: nat) {
    && (forall e <- now.born :: e.id < nextId)
    && (forall e <- code :: e.id < nextId)
    && (now.owed.Some? ==> now.owed.value.id < nextId)
  }

  /** Entries without an owner outside the wheel are referenced exactly once. */
  ghost predicate Exclusive(refs: map<Entry, nat>) {
    forall e <- refs | !e.Reusable() :: refs[e] == 1
  }

  /** `InsertEntry` puts an entry where its flat deadline is, in either phase in which user code runs. */
  lemma PlacedAtDeadline(pops: seq<nat>, tick: nat, detached: set<Item>, serial: nat, s: State,
                         e: Entry, delay: nat, done: nat)
    requires Paced(pops, tick, done, detached, s) && (s.firing ==> done == 1)
    ensures |pops| == TIERS
    ensures var it := Placed(TierOf(delay), pops, serial, AtLeastOne(delay), e);
            && WellFormed(it) && DueTick(it) == Deadline(s.tick, s.firing, delay)
            && SpotOf(it) == PutIn(s, delay, e)
  {
    var tier := TierOf(delay);
    PlacedIsDueAfterLag(tier, pops, serial, AtLeastOne(delay), e);
    assert delay == 0 ==> Lag(0, 0) == Lag(0, 1);
    assert pops[tier] == PopsAt(tier, s.tick, s.firing);
  }

  /** The entries that are referenced are the entries that the calendar has scheduled. */
  lemma LiveIsScheduled(book: set<Item>, refs: map<Entry, nat>, due: map<Entry, nat>)
    requires forall it <- book :: WellFormed(it)
    requires Counted(refs, book) && Scheduled(book, due)
    ensures refs.Keys == due.Keys
  {
    forall e <- refs ensures e in due {
      var it :| it in HoldersOf(book, e);
    }
  }

  lemma InsertStaysInPhase(pops: seq<nat>, tick: nat, done: nat, detached: set<Item>, now: State,
                           code: map<Entry, seq<Function>>, nextId: nat, e: Entry, delay: nat)
    requires Paced(pops, tick, done, detached, now) && NamesTaken(now, code, nextId) && e.id < nextId
    ensures var now' := Apply(now, Insert(e, delay));
            Paced(pops, tick, done, detached, now') && NamesTaken(now', code, nextId)
  {
  }

  lemma ItsTurn(pops: seq<nat>, tick: nat, tier: nat)
    requires Clock(pops, tick, tier) && tier < TIERS && tick % Unit(tier) == 0
    ensures Clock(pops[tier := pops[tier] + 1], tick, tier + 1)
  {
    if tier == 1 {
      assert (tick - 1) / MINUTE + 1 == tick / MINUTE;
    } else if tier == 2 {
      assert (tick - 1) / HOUR + 1 == tick / HOUR;
    } else if tier == 3 {
      assert (tick - 1) / DAY + 1 == tick / DAY;
    }
  }

  lemma NotItsTurn(pops: seq<nat>, tick: nat, tier: nat)
    requires Clock(pops, tick, tier) && tier < TIERS && tick % Unit(tier) != 0
    ensures Clock(pops, tick, tier + 1)
  {
    if tier == 1 {
      assert (tick - 1) / MINUTE == tick / MINUTE;
    } else if tier == 2 {
      assert (tick - 1) / HOUR == tick / HOUR;
    } else if tier == 3 {
      assert (tick - 1) / DAY == tick / DAY;
    }
  }

  lemma LiveUnlessNew(s: State, refs: map<Entry, nat>, e: Entry, delay: nat)
    requires MayInsert(s, e, delay) && Sound(s) && refs.Keys == s.due.Keys
    ensures e.Reusable() || e !in refs
  {
  }

  lemma ExclusiveAfterAdding(refs: map<Entry, nat>, e: Entry)
    requires Exclusive(refs) && (e.Reusable() || e !in refs)
    ensures Exclusive(AddRef(refs, e))
  {
  }

  lemma ExclusiveAfterHandover(refs: map<Entry, nat>, e: Entry)
    requires Exclusive(refs) && e in refs && refs[e] > 0
    ensures Exclusive(DropRef(AddRef(refs, e), e)) && e in DropRef(AddRef(refs, e), e)
    ensures refs[e] > 1 ==> Exclusive(DropRef(refs, e)) && e in DropRef(refs, e)
  {
  }

  function NextTs(lastTs: int, now: int): int {
    if lastTs == 0 || lastTs < now then now else lastTs
  }

  /** `last_ts_` and `tick_` after a history of `OnTimer` calls. */
  function Clocked(history: seq<int>): (int, nat) {
    if history == [] then (0, 0)
    else
      var (lastTs, tick) := Clocked(history[..|history| - 1]);
      var now := history[|history| - 1];
      (NextTs(lastTs, now), tick + Elapsed(lastTs, now))
  }

  function Latest(history: seq<int>): int
    requires |history| > 0
  {
    if |history| == 1 then history[0]
    else
      var before, now := Latest(history[..|history| - 1]), history[|history| - 1];
      if before < now then now else before
  }

  /**
   However the seconds are batched into calls, and however the clock steps
   back in between, the wheel has advanced by the greatest timestamp seen
   minus the first one.
   */
  lemma {:induction false} CatchUp(history: seq<int>)
    requires |history| > 0 && history[0] > 0
    ensures Clocked(history) == (Latest(history), Latest(history) - history[0])
    ensures Latest(history) in history && forall i :: 0 <= i < |history| ==> history[i] <= Latest(history)
  {
    if |history| == 1 {
      assert Clocked(history[..0]) == (0, 0);
    } else {
      CatchUp(history[..|history| - 1]);
    }
  }

  /** A call makes up for the whole gap, whatever the new timestamp, if and only if the old one is not zero. */
  lemma GapIsMadeUpUnlessZero(lastTs: int)
    ensures (forall now :: Elapsed(lastTs, now) == if lastTs < now then now - lastTs else 0) <==> lastTs != 0
  {
    assert Elapsed(0, 1) == 0;
  }

  /** Zero doubles as "no timestamp yet", so the law needs a first timestamp above zero. */
  lemma ZeroTimestampLosesTime()
    ensures Clocked([-5, 0, 7]).1 == 5 && Latest([-5, 0, 7]) - (-5) == 12
  {
    var h := [-5, 0, 7];
    assert h[..2] == [-5, 0] && [-5, 0][..1] == [-5] && [-5][..0] == [];
  }

  class TimingWheel {
    var wheels: seq<Wheel>
    var lastTs: int
    var tick: nat
    var refs: map<Entry, nat>  // use counts of the entries' shared pointers
    var nextSerial: nat        // names for closures
    var nextId: nat            // names for entries
    var code: map<Entry, seq<Function>>  // what the entries' destructors run
    var log: seq<Entry>                  // the entries whose destructors have run

    ghost var pops: seq<nat>       // how often each wheel has popped
    ghost var done: nat            // tiers whose turn in the current tick is over
    ghost var detached: set<Item>  // what is left of the slot being destroyed
    ghost var book: set<Item>      // all references in the wheels and in that slot
    ghost var states: seq<State>
    ghost var events: seq<Event>
    ghost var history: seq<int>    // the timestamps of the calls of OnTimer

    /** The slots, their abstraction and the reference counts agree. */
    ghost predicate Held()
      reads `wheels, `refs, `nextSerial, `pops, `detached, `book
    {
      Shape(wheels) && |pops| == TIERS && Consistent(wheels, pops, detached, book, refs, nextSerial)
    }

    /** Holds between any two steps of the wheel, also in the middle of a tick and of a pop. */
    ghost predicate Inv()
      reads `wheels, `tick, `refs, `nextSerial, `nextId, `code, `pops, `done, `detached, `book, `states, `events
    {
      && Held()
      && IsRun(states, events)
      && Scheduled(book, Now().due)
      && Traced(book, pops, states, events)
      && Exclusive(refs)
      && Paced(pops, tick, done, detached, Now())
      && NamesTaken(Now(), code, nextId)
    }

    /** The calendar's view of the present. */
    ghost function Now(): State
      reads `states
    {
      if states == [] then INITIAL else Last(states)
    }

    /** The wheel's past, and what it adds to it. */
    ghost function Past(): Story
      reads `states, `events, `log, `code, `nextId
    {
      Story(states, events, log, code, nextId)
    }

    ghost function Present(): Trail
      reads `events, `nextId, `refs, `code
    {
      Trail(events, nextId, refs.Keys, code)
    }

    /** Every destructor has run its function, and what this asked for was done. */
    ghost predicate Answered()
      reads `states, `events, `log, `code, `nextId
    {
      Continues(Story([INITIAL], [], [], map[], 0), Past())
    }

    /** User code runs only between ticks and in destructors, which belong to the second wheel's part of a tick. */
    ghost predicate Open()
      reads `states, `done
    {
      Now().firing ==> done == 1 && Now().called
    }

    /** The tick count is what the timestamps seen so far make it. */
    ghost predicate OnClock()
      reads `lastTs, `tick, `history
    {
      (lastTs, tick) == Clocked(history)
    }

    /** Between two calls from the event loop. */
    ghost predicate Idle()
      reads `wheels, `tick, `refs, `nextSerial, `nextId, `code, `log, `pops, `done, `detached, `book, `states, `events
    {
      Inv() && !Now().firing && Answered()
    }

    constructor ()
      ensures Idle() && OnClock() && history == [] && lastTs == 0 && tick == 0
      ensures Past() == Story([INITIAL], [], [], map[], 0) && refs == map[]
    {
      wheels := [seq(60, _ => {}), seq(60, _ => {}), seq(24, _ => {}), seq(30, _ => {})];
      lastTs, tick, refs, nextSerial, nextId, code, log := 0, 0, map[], 0, 0, map[], [];
      pops, done, detached, book := [0, 0, 0, 0], TIERS, {}, {};
      states, events, history := [INITIAL], [], [];
    }

    lemma LiveEntries()
      requires Inv()
      ensures forall it <- book :: WellFormed(it)
      ensures refs.Keys == Now().due.Keys && Sound(Now())
      ensures forall e <- refs :: e.id < nextId && (e.Timeout? ==> Accepted(e.idle))
      ensures Now().owed.Some? ==> Now().owed.value.id < nextId
    {
      RunSound(states, events, |events|);
      LiveIsScheduled(book, refs, Now().due);
    }

    ghost method Record(ev: Event)
      requires IsRun(states, events) && Enabled(Now(), ev)
      modifies `states, `events
      ensures IsRun(states, events) && Now() == Apply(old(Now()), ev)
      ensures events == old(events) + [ev] && states == old(states) + [Now()]
    {
      ExtendRun(states, events, ev);
      states, events := states + [Apply(Last(states), ev)], events + [ev];
    }

    /** `wheels_[tier][slot].emplace(ref)`: copying the pointer adds a reference unless the slot has it. */
    method Emplace(tier: nat, slot: nat, ref: Ref)
      requires Held()
      requires tier < TIERS && slot < Slots(tier)
      requires WellFormed(Item(tier, pops[tier] + slot + 1, ref)) && (ref.Cascade? ==> ref.serial < nextSerial)
      modifies `wheels, `refs, `book
      ensures Held() && book == old(book) + {Item(tier, pops[tier] + slot + 1, ref)}
      ensures refs == if book == old(book) then old(refs) else AddRef(old(refs), ref.entry)
    {
      hide Consistent, WellFormed;
      ghost var it := Item(tier, pops[tier] + slot + 1, ref);
      Emplaced(wheels, pops, detached, book, refs, nextSerial, tier, slot, ref);
      if ref in wheels[tier][slot] {
        assert book + {it} == book;
      } else {
        assert it !in book;
        refs := AddRef(refs, ref.entry);
      }
      wheels, book := wheels[tier := wheels[tier][slot := wheels[tier][slot] + {ref}]], book + {it};
    }

    lemma SerialIsNew()
      requires Held()
      ensures forall it <- book | it.ref.Cascade? :: it.ref.serial < nextSerial
      ensures Consistent(wheels, pops, detached, book, refs, nextSerial + 1)
    {
    }

    method InsertSecondEntry(delay: nat, e: Entry)
      requires Held() && delay <= 60
      modifies `wheels, `refs, `book
      ensures Held() && book == old(book) + {Placed(0, pops, nextSerial, delay, e)}
      ensures refs == if book == old(book) then old(refs) else AddRef(old(refs), e)
    {
      hide Consistent;
      var d := delay;
      if d == 0 {
        d := 1;
      }
      Emplace(0, d - 1, Plain(e));
    }

    method InsertMinuteEntry(delay: nat, e: Entry)
      requires Held() && delay / MINUTE <= 60
      modifies `wheels, `refs, `book, `nextSerial
      ensures Held() && book == old(book) + {Placed(1, pops, old(nextSerial), delay, e)}
      ensures Placed(1, pops, old(nextSerial), delay, e) !in old(book)
      ensures refs == AddRef(old(refs), e) && nextSerial == old(nextSerial) + 1
    {
      hide Consistent;
      SerialIsNew();
      var minute, second := delay / MINUTE, delay % MINUTE;
      if second == 0 {
        second := 1;
      }
      if minute == 0 {
        minute := 1;
      }
      var closure := Cascade(nextSerial, second, e);
      nextSerial := nextSerial + 1;
      Emplace(1, minute - 1, closure);
    }

    method InsertHourEntry(delay: nat, e: Entry)
      requires Held() && delay / HOUR <= 24
      modifies `wheels, `refs, `book, `nextSerial
      ensures Held() && book == old(book) + {Placed(2, pops, old(nextSerial), delay, e)}
      ensures Placed(2, pops, old(nextSerial), delay, e) !in old(book)
      ensures refs == AddRef(old(refs), e) && nextSerial == old(nextSerial) + 1
    {
      hide Consistent;
      SerialIsNew();
      var hour, minute := delay / HOUR, delay % HOUR;
      if minute == 0 {
        minute := 1;
      }
      if hour == 0 {
        hour := 1;
      }
      var closure := Cascade(nextSerial, minute, e);
      nextSerial := nextSerial + 1;
      Emplace(2, hour - 1, closure);
    }

    method InsertDayEntry(delay: nat, e: Entry)
      requires Held() && delay / DAY <= 30
      modifies `wheels, `refs, `book, `nextSerial
      ensures Held() && book == old(book) + {Placed(3, pops, old(nextSerial), delay, e)}
      ensures Placed(3, pops, old(nextSerial), delay, e) !in old(book)
      ensures refs == AddRef(old(refs), e) && nextSerial == old(nextSerial) + 1
    {
      hide Consistent;
      SerialIsNew();
      var day, hour := delay / DAY, delay % DAY;
      if hour == 0 {
        hour := 1;
      }
      if day == 0 {
        day := 1;
      }
      var closure := Cascade(nextSerial, hour, e);
      nextSerial := nextSerial + 1;
      Emplace(3, day - 1, closure);
    }

    /** The tier is chosen by the delay; 31 days and more are refused. */
    method ChooseTier(d: nat, e: Entry) returns (accepted: bool)
      requires Held() && d > 0
      modifies `wheels, `refs, `book, `nextSerial
      ensures accepted <==> Accepted(d)
      ensures accepted ==>
                && Held() && book == old(book) + {Placed(TierOf(d), pops, old(nextSerial), d, e)}
                && refs == if book == old(book) then old(refs) else AddRef(old(refs), e)
      ensures !accepted ==>
                && wheels == old(wheels) && refs == old(refs) && book == old(book) && nextSerial == old(nextSerial)
    {
      hide Consistent, Placed, AddRef;
      if d < MINUTE {
        InsertSecondEntry(d, e);
      } else if d < HOUR {
        InsertMinuteEntry(d, e);
      } else if d < DAY {
        InsertHourEntry(d, e);
      } else {
        var day := d / DAY;
        if day > 30 {
          return false;
        }
        InsertDayEntry(d, e);
      }
      return true;
    }

    /**
     Inserts an entry that is either new or still alive. Delays of 31 days and
     more are refused, which leaves the wheel as it was.
     */
    method InsertEntry(delay: nat, e: Entry) returns (accepted: bool)
      requires Inv() && Open()
      requires Accepted(delay) ==> MayInsert(Now(), e, delay) && e.id < nextId
      modifies `wheels, `refs, `book, `nextSerial, `states, `events
      ensures Inv() && Open() && SamePhase(old(Now()), Now())
      ensures accepted <==> Accepted(delay)
      ensures accepted ==> events == old(events) + [Insert(e, delay)]
      ensures accepted ==> Now() == Apply(old(Now()), Insert(e, delay)) && refs.Keys == old(refs.Keys) + {e}
      ensures !accepted ==>
                && events == old(events) && states == old(states)
                && wheels == old(wheels) && refs == old(refs)
      ensures Continues(old(Past()), Past()) && (old(Answered()) ==> Answered())
    {
      hide Consistent, Scheduled, Traced, Exclusive, Paced, NamesTaken, IsRun, MayInsert, Deadline, AddRef, Placed;
      hide Continues, Apply;
      var d := delay;
      if d == 0 {
        d := 1;
      }
      InsertionFits(delay, e);
      accepted := ChooseTier(d, e);
      if accepted {
        Commit(e, delay);
      } else {
        Runs();
        ContinuesItself(Past());
      }
    }

    /** What an insertion does to the slots is what the calendar expects. */
    lemma InsertionFits(delay: nat, e: Entry)
      requires Inv() && Open() && (Accepted(delay) ==> MayInsert(Now(), e, delay))
      ensures var d := AtLeastOne(delay);
              var it, s := Placed(TierOf(d), pops, nextSerial, d, e), Apply(Now(), Insert(e, delay));
              && TierOf(d) == TierOf(delay) && Accepted(d) == Accepted(delay)
              && (forall x <- book + {it} :: WellFormed(x)) && Scheduled(book + {it}, s.due)
              && Traced(book + {it}, pops, states + [s], events + [Insert(e, delay)])
              && (Accepted(delay) ==> Exclusive(AddRef(refs, e)))
      ensures refs.Keys == Now().due.Keys
      ensures var s := Apply(Now(), Insert(e, delay));
              SamePhase(Now(), s) && s.called == Now().called && s.due.Keys == Now().due.Keys + {e}
    {
      hide Consistent, Scheduled, Traced, Exclusive, Paced, NamesTaken, IsRun, MayInsert, Deadline, Sound, DueTick;
      hide AddRef, SpotOf, PutIn;
      Runs();
      LiveEntries();
      var it := Placed(TierOf(delay), pops, nextSerial, AtLeastOne(delay), e);
      PlacedAtDeadline(pops, tick, detached, nextSerial, Now(), e, delay, done);
      if Accepted(delay) {
        LiveUnlessNew(Now(), refs, e, delay);
        ExclusiveAfterAdding(refs, e);
      }
      ScheduledAfterInsert(book, Now().due, it, Deadline(Now().tick, Now().firing, delay));
      TracedAfterInsert(book, pops, states, events, it, e, delay, Apply(Now(), Insert(e, delay)));
    }

    /** The calendar follows an insertion that has been made in the slots. */
    ghost method Commit(e: Entry, delay: nat)
      requires Held() && IsRun(states, events) && Exclusive(refs)
      requires Scheduled(book, Apply(Now(), Insert(e, delay)).due)
      requires Traced(book, pops, states + [Apply(Now(), Insert(e, delay))], events + [Insert(e, delay)])
      requires Paced(pops, tick, done, detached, Now()) && NamesTaken(Now(), code, nextId)
      requires MayInsert(Now(), e, delay) && e.id < nextId
      modifies `states, `events
      ensures Inv() && events == old(events) + [Insert(e, delay)] && Now() == Apply(old(Now()), Insert(e, delay))
      ensures refs.Keys == Now().due.Keys
      ensures Continues(old(Past()), Past()) && (old(Answered()) ==> Answered())
    {
      hide Continues, Consistent, Scheduled, Traced, Exclusive, IsRun, Deadline, MayInsert;
      InsertStaysInPhase(pops, tick, done, detached, Now(), code, nextId, e, delay);
      Record(Insert(e, delay));
      ContinuesByOne(old(Past()), Past(), Insert(e, delay));
      StillAnswered(old(Past()));
      LiveEntries();
    }

    lemma StillAnswered(before: Story)
      requires before.Valid() && Continues(before, Past())
      ensures Continues(Story([INITIAL], [], [], map[], 0), before) ==> Answered()
    {
      if Continues(Story([INITIAL], [], [], map[], 0), before) {
        ContinuesFurther(Story([INITIAL], [], [], map[], 0), before, Past());
      }
    }

    /** `std::make_shared`: an object that nothing has pointed to before, with the function that it takes along. */
    method NewEntry(request: Action) returns (e: Entry)
      requires Inv() && !request.Again?
      modifies `nextId, `code
      ensures Inv() && e == Subject(request, old(nextId)) && nextId == old(nextId) + 1
      ensures code == old(code)[e := Code(request)] && CodeOf(code, e) == FirstOf(Code(request))
      ensures e !in Now().born && e !in refs && e.id == old(nextId) && Now().owed != Some(e)
      ensures Open() ==> if Accepted(Delay(request)) then MayInsert(Now(), e, Delay(request))
                         else Enabled(Now(), Refuse(e))
      ensures Continues(old(Past()), Past()) && (old(Answered()) ==> Answered())
    {
      hide Continues;
      LiveEntries();
      e := Subject(request, nextId);
      code := code[e := Code(request)];
      nextId := nextId + 1;
      ContinuesByName(old(Past()), Past());
      StillAnswered(old(Past()));
    }

    /** User code, in a destructor or between ticks. */
    method RunFunction(f: Function)
      requires Inv() && Open()
      modifies `wheels, `refs, `book, `nextSerial, `nextId, `code, `log, `states, `events
      ensures Inv() && SamePhase(old(Now()), Now()) && Now().owed == old(Now()).owed
      ensures Present() == Requested(f.requests, old(Present())) && Continues(old(Past()), Past())
      decreases f, 0
    {
      hide Inv, Asked, Continues;
      Runs();
      ContinuesItself(Past());
      for i := 0 to |f.requests|
        invariant Inv() && SamePhase(old(Now()), Now()) && Now().owed == old(Now()).owed
        invariant Present() == Requested(f.requests[..i], old(Present())) && Continues(old(Past()), Past())
      {
        ghost var before := Past();
        PastIsValid();
        Perform(f.requests[i]);
        ContinuesFurther(old(Past()), before, Past());
        assert f.requests[..i + 1][..i] == f.requests[..i];
      }
      assert f.requests[..|f.requests|] == f.requests;
    }

    lemma PastIsValid()
      requires Inv()
      ensures Past().Valid()
    {
    }

    /** One request of user code. */
    method Perform(request: Action)
      requires Inv() && Open()
      modifies `wheels, `refs, `book, `nextSerial, `nextId, `code, `log, `states, `events
      ensures Inv() && SamePhase(old(Now()), Now()) && Now().owed == old(Now()).owed
      ensures Present() == Asked(request, old(Present())) && Continues(old(Past()), Past())
      decreases request, 1
    {
      hide Inv, Sound, Continues;
      Runs();
      LiveEntries();
      ContinuesItself(Past());
      if Permitted(request) {
        match request
        case Again(e, delay) =>
          if e in refs {
            var _ := InsertEntry(delay, e);
            LiveEntries();
          }
        case Repeat(interval, cbs) =>
          var _ := RunEvery(interval, cbs);
        case After(_, cb) => Launch(request, cb);
        case Share(_, cb) => Launch(request, cb);
        case Watch(_, cb) => Launch(request, cb);
      }
    }

    /** A new entry with a function of its own is inserted or, if its delay is refused, destroyed. */
    method Launch(request: Action, cb: Function)
      requires Inv() && Open() && !request.Again? && !request.Repeat? && cb == request.cb
      modifies `wheels, `refs, `book, `nextSerial, `nextId, `code, `log, `states, `events
      ensures Inv() && SamePhase(old(Now()), Now()) && Now().owed == old(Now()).owed
      ensures Present() == Asked(request, old(Present())) && Continues(old(Past()), Past())
      ensures var e := Subject(request, old(nextId));
              if Accepted(Delay(request)) then
                && events == old(events) + [Insert(e, Delay(request))]
                && Now() == Apply(old(Now()), Insert(e, Delay(request)))
              else old(events) + [Refuse(e)] <= events && old(log) + [e] <= log && e in Now().born
      ensures old(Answered()) ==> Answered()
      decreases request, 0
    {
      hide Inv, Sound, Continues, Requested, Asked, Endless, MayInsert, Enabled, CodeOf;
      AskedNew(request, Present());
      PastIsValid();
      ghost var before := Past();
      var e := NewEntry(request);
      ghost var named := Past();
      PastIsValid();
      var accepted := InsertEntry(Delay(request), e);
      if !accepted {
        Release(e, cb);
      }
      ContinuesFurther(before, named, Past());
      StillAnswered(before);
    }

    /** The last pointer to an entry that never got into the wheel goes out of scope. */
    method Discard(e: Entry)
      requires Inv() && Open() && Enabled(Now(), Refuse(e)) && e.id < nextId
      modifies `log, `states, `events
      ensures Inv() && Open() && Now() == Apply(old(Now()), Refuse(e))
      ensures events == old(events) + [Refuse(e)] && states == old(states) + [Now()] && log == old(log) + [e]
    {
      hide Consistent, Scheduled, Traced, Exclusive, IsRun, Enabled;
      Runs();
      TracedAfterEvent(book, pops, states, events, Apply(Now(), Refuse(e)), Refuse(e));
      Record(Refuse(e));
      log := log + [e];
    }

    /** ... and takes its function with it. */
    method Release(e: Entry, cb: Function)
      requires Inv() && Open() && Enabled(Now(), Refuse(e)) && e.id < nextId && cb == CodeOf(code, e)
      modifies `wheels, `refs, `book, `nextSerial, `nextId, `code, `log, `states, `events
      ensures Inv() && SamePhase(old(Now()), Now()) && Now().owed == old(Now()).owed
      ensures old(events) + [Refuse(e)] <= events && old(log) + [e] <= log && e in Now().born
      ensures Present() == Requested(cb.requests, old(Present()).(events := old(events) + [Refuse(e)]))
      ensures Continues(old(Past()), Past()) && (old(Answered()) ==> Answered())
      decreases cb, 1
    {
      hide Inv, Sound, Continues, Requested, Enabled, CodeOf;
      PastIsValid();
      LiveEntries();
      ghost var before := Past();
      Discard(e);
      LiveEntries();
      Runs();
      ghost var after := Past();
      PastIsValid();
      RunFunction(cb);
      ContinuesGrows(after, Past());
      ContinuesByDestruction(before, after, Past(), Refuse(e));
      StillAnswered(before);
    }

    method RunAfter(delay: nat, cb: Function)
      requires Inv() && Open()
      modifies `wheels, `refs, `book, `nextSerial, `nextId, `code, `log, `states, `events
      ensures Inv() && SamePhase(old(Now()), Now()) && Now().owed == old(Now()).owed
      ensures Accepted(delay) ==> events == old(events) + [Insert(Once(old(nextId)), delay)] && log == old(log)
      ensures !Accepted(delay) ==> old(events) + [Refuse(Once(old(nextId)))] <= events
      ensures Present() == Asked(After(delay, cb), old(Present())) && (old(Answered()) ==> Answered())
    {
      hide Inv, Continues, Asked;
      PastIsValid();
      Launch(After(delay, cb), cb);
      StillAnswered(old(Past()));
      if Accepted(delay) {
        OnlyInsertion(old(Past()), Past(), Insert(Once(old(nextId)), delay));
      }
    }

    /**
     A refused entry dies at once, and its destructor runs the user's function
     and then calls `RunEvery` with the same interval. There is no end to that:
     of these calls, one inside the other, there are as many as there are
     functions to follow, and none of them schedules anything.
     */
    method RunEvery(interval: nat, cbs: seq<Function>) returns (calls: nat)
      requires Inv() && Open()
      modifies `wheels, `refs, `book, `nextSerial, `nextId, `code, `log, `states, `events
      ensures Inv() && SamePhase(old(Now()), Now()) && Now().owed == old(Now()).owed
      ensures Present() == Asked(Repeat(interval, cbs), old(Present())) && Continues(old(Past()), Past())
      ensures calls == if Accepted(interval) then 0 else |cbs|
      ensures var e := Every(old(nextId), interval, 0);
              if Accepted(interval) then events == old(events) + [Insert(e, interval)] && e in code && code[e] == cbs
              else old(events) + [Refuse(e)] <= events
      ensures old(Answered()) ==> Answered()
      decreases cbs, 2
    {
      hide Inv, Sound, Continues, Requested, Asked, Endless, MayInsert, Enabled, CodeOf, Accepted;
      AskedNew(Repeat(interval, cbs), Present());
      EndlessStep(interval, cbs, Present());
      PastIsValid();
      ghost var before := Past();
      var e := NewEntry(Repeat(interval, cbs));
      ghost var named := Past();
      PastIsValid();
      var accepted := InsertEntry(interval, e);
      calls := 0;
      if !accepted {
        calls := Repeated(interval, cbs, e);
      }
      ContinuesFurther(before, named, Past());
      StillAnswered(before);
    }

    /** The destructor of a refused period's entry. */
    method Repeated(interval: nat, cbs: seq<Function>, e: Entry) returns (calls: nat)
      requires Inv() && Open() && Enabled(Now(), Refuse(e)) && e.id < nextId && !Accepted(interval)
      requires CodeOf(code, e) == FirstOf(cbs)
      modifies `wheels, `refs, `book, `nextSerial, `nextId, `code, `log, `states, `events
      ensures Inv() && SamePhase(old(Now()), Now()) && Now().owed == old(Now()).owed
      ensures Present() == var t := old(Present()).(events := old(events) + [Refuse(e)]);
                           if cbs == [] then t else Endless(interval, cbs[1..], Requested(cbs[0].requests, t))
      ensures Continues(old(Past()), Past()) && calls == |cbs| && old(events) + [Refuse(e)] <= events
      decreases cbs, 1
    {
      hide Inv, Sound, Continues, Requested, Asked, Endless, Enabled, CodeOf, Accepted, Answered;
      PastIsValid();
      LiveEntries();
      ghost var before := Past();
      Discard(e);
      LiveEntries();
      Runs();
      ghost var after := Past();
      PastIsValid();
      NothingRequested(Present());
      calls := FunctionAndAgain(interval, cbs);
      ContinuesGrows(after, Past());
      ContinuesByDestruction(before, after, Past(), Refuse(e));
    }

    /** What that destructor runs: the user's function, and `RunEvery` with the same interval. */
    method FunctionAndAgain(interval: nat, cbs: seq<Function>) returns (calls: nat)
      requires Inv() && Open() && !Accepted(interval)
      modifies `wheels, `refs, `book, `nextSerial, `nextId, `code, `log, `states, `events
      ensures Inv() && SamePhase(old(Now()), Now()) && Now().owed == old(Now()).owed
      ensures Present() == if cbs == [] then old(Present())
                           else Endless(interval, cbs[1..], Requested(cbs[0].requests, old(Present())))
      ensures Continues(old(Past()), Past()) && calls == |cbs|
      ensures cbs != [] ==>
                && Requested(cbs[0].requests, old(Present())).events <= events
                && Included(Requested(cbs[0].requests, old(Present())).code, code)
      decreases cbs, 0
    {
      hide Inv, Sound, Continues, Requested, Asked, Endless, Accepted, Answered;
      Runs();
      ContinuesItself(Past());
      calls := 0;
      if cbs != [] {
        AskedNew(Repeat(interval, cbs[1..]), Requested(cbs[0].requests, Present()));
        RunFunction(cbs[0]);
        ghost var done := Past();
        PastIsValid();
        calls := RunEvery(interval, cbs[1..]);
        calls := calls + 1;
        ContinuesGrows(done, Past());
        ContinuesFurther(old(Past()), done, Past());
      }
    }

    lemma OwedFits()
      requires Inv() && Open() && Now().owed.Some?
      ensures var next := Now().owed.value;
              next.Every? && Accepted(next.interval) && MayInsert(Now(), next, next.interval) && next.id < nextId
    {
      hide Traced, Scheduled, Consistent, IsRun;
      LiveEntries();
    }

    /** `~CallbackEntry`: the user's function, then, for a periodic entry, a new entry for the next period. */
    method RunDestructor(e: Entry)
      requires Inv() && Open() && Now().owed == NextGeneration(e)
      modifies `wheels, `refs, `book, `nextSerial, `nextId, `code, `log, `states, `events
      ensures Inv() && SamePhase(old(Now()), Now()) && Now().owed == None
      ensures Present() == Destructed(e, CodeOf(old(code), e), old(Present()))
      ensures Continues(old(Past()).(log := old(log) + [e]), Past())
    {
      hide Inv, Continues, Requested, CodeOf, Sound, MayInsert;
      log := log + [e];
      ghost var before := Past();
      RunFunction(CodeOf(code, e));
      ghost var done := Past();
      PastIsValid();
      if e.Every? {
        OwedFits();
        var next := Every(e.id, e.interval, e.generation + 1);
        var _ := InsertEntry(e.interval, next);
        LiveEntries();
        ContinuesFurther(before, done, Past());
      }
    }

    /**
     Destroys one pointer of the second wheel's detached slot. The entry's
     destructor runs exactly when this was the last reference to it, and then
     the calendar says that it is due.
     */
    method DropPlain(e: Entry)
      requires Inv() && Now().firing && done == 1 && Now().owed == None && Answered()
      requires Item(0, pops[0], Plain(e)) in detached
      modifies `wheels, `refs, `book, `nextSerial, `nextId, `code, `log, `states, `events, `detached
      ensures Inv() && SamePhase(old(Now()), Now()) && Now().owed == None && Answered()
      ensures detached == old(detached) - {Item(0, pops[0], Plain(e))}
      ensures old(events) <= events && e in old(refs) && Included(old(code), code)
      ensures old(refs)[e] == 1 ==> old(events) + [Fire(e)] <= events && old(log) + [e] <= log
      ensures old(refs)[e] > 1 ==> events == old(events) && log == old(log)
    {
      hide Inv, Continues, Requested, Destructed, CodeOf;
      PastIsValid();
      ghost var before := Past();
      var last := LetGo(e);
      if last {
        Die(e, before);
        StillAnswered(before);
        ContinuesGrows(before, Past());
      } else {
        assert Past() == before;
      }
    }

    /** The destructor of an entry that has just fired. */
    method Die(e: Entry, ghost before: Story)
      requires Inv() && Open() && Now().owed == NextGeneration(e) && e.id < nextId
      requires before.Valid() && Extends(before, Past()) && events == before.events + [Fire(e)] && log == before.log
      modifies `wheels, `refs, `book, `nextSerial, `nextId, `code, `log, `states, `events
      ensures Inv() && SamePhase(old(Now()), Now()) && Now().owed == None
      ensures Continues(before, Past()) && before.events + [Fire(e)] <= events && before.log + [e] <= log
    {
      hide Inv, Continues, Requested, Destructed, CodeOf;
      Runs();
      LiveEntries();
      PastIsValid();
      ghost var after := Past().(log := log + [e]);
      RunDestructor(e);
      ContinuesGrows(after, Past());
      ContinuesByDestruction(before, after, Past(), Fire(e));
    }

    /** One reference less; `last` says whether the destructor is due. */
    method LetGo(e: Entry) returns (last: bool)
      requires Inv() && Now().firing && done == 1 && Now().owed == None
      requires Item(0, pops[0], Plain(e)) in detached
      modifies `refs, `book, `states, `events, `detached
      ensures Inv() && e in old(refs) && (last <==> old(refs)[e] == 1) && e.id < nextId
      ensures detached == old(detached) - {Item(0, pops[0], Plain(e))}
      ensures if last then Now() == Apply(old(Now()), Fire(e)) && events == old(events) + [Fire(e)]
              else Now() == old(Now()) && events == old(events)
      ensures states == old(states) + if last then [Now()] else []
    {
      hide Consistent, Scheduled, Traced, Exclusive, IsRun, Sound;
      ghost var it := Item(0, pops[0], Plain(e));
      DropFits(it);
      LiveEntries();
      refs := DropRef(refs, e);
      book, detached := book - {it}, detached - {it};
      last := e !in refs;
      if last {
        Record(Fire(e));
      }
    }

    /** What remains when one pointer of the second wheel's detached slot is dropped. */
    lemma DropFits(it: Item)
      requires Inv() && Now().firing && done == 1 && it in detached && it.tier == 0 && it.ref.Plain?
      ensures forall x <- book :: WellFormed(x)
      ensures var e := it.ref.entry;
              && e in refs && refs[e] > 0 && e in Now().due
              && Consistent(wheels, pops, detached - {it}, book - {it}, DropRef(refs, e), nextSerial)
              && Exclusive(DropRef(refs, e))
              && Traced(book - {it}, pops, states, events)
              && Traced(book - {it}, pops, states + [Apply(Now(), Fire(e))], events + [Fire(e)])
              && (refs[e] == 1 ==> Now().due[e] == tick)
              && Scheduled(book - {it}, if refs[e] == 1 then Now().due - {e} else Now().due)
    {
      hide Consistent, Scheduled, Traced, Exclusive, IsRun, Sound, NamesTaken;
      Runs();
      LiveEntries();
      OthersAreDueLater(wheels, pops, detached, book, refs, nextSerial, tick, it);
      Dropped(wheels, pops, detached, book, refs, nextSerial, it);
      CountIs(it.ref.entry);
      ScheduledAfterDrop(book, Now().due, it);
      TracedAfterDrop(book, pops, states, events, it);
      TracedAfterEvent(book - {it}, pops, states, events, Apply(Now(), Fire(it.ref.entry)), Fire(it.ref.entry));
    }

    lemma CountIs(e: Entry)
      requires Inv() && e in refs
      ensures refs[e] == |HoldersOf(book, e)|
      ensures Exclusive(DropRef(refs, e))
    {
      hide Traced, IsRun, Scheduled, Paced, NamesTaken;
    }

    /**
     Destroys one closure of a coarser wheel's detached slot: it inserts the
     captured entry one tier down before it lets go of it, so the entry lives
     on, with the same due tick.
     */
    method DropCascade(tier: nat, closure: Ref)
      requires Inv() && Now().firing && 0 < tier < TIERS && done == tier + 1
      requires tick % Unit(tier) == 0
      requires closure.Cascade? && Item(tier, pops[tier], closure) in detached
      modifies `wheels, `refs, `book, `nextSerial, `detached
      ensures Inv()
      ensures detached == old(detached) - {Item(tier, pops[tier], closure)}
      ensures closure.entry in old(refs) && closure.entry in refs
    {
      hide Consistent, Scheduled, Traced, Exclusive, IsRun, Sound, Clock, Placed, DueTick;
      ghost var it := Item(tier, pops[tier], closure);
      ghost var to := HandedDown(it);
      HandoverFits(it);
      ExclusiveAfterHandover(refs, closure.entry);
      if tier == 1 {
        InsertSecondEntry(closure.arg, closure.entry);
      } else if tier == 2 {
        InsertMinuteEntry(closure.arg, closure.entry);
      } else {
        InsertHourEntry(closure.arg, closure.entry);
      }
      assert book == old(book) + {to};
      Dropped(wheels, pops, detached, book, refs, nextSerial, it);
      refs := DropRef(refs, closure.entry);
      book, detached := book - {it}, detached - {it};
    }

    /**
     Detaches the front slot, appends an empty one, then destroys what was
     detached, in any order. Insertions made meanwhile never land in the
     detached slot, so the destruction ends.
     */
    method PopUp(tier: nat)
      requires Inv() && Now().firing && Now().owed == None && Answered()
      requires tier < TIERS && done == tier && detached == {} && tick % Unit(tier) == 0
      modifies `wheels, `refs, `book, `nextSerial, `nextId, `code, `log, `states, `events, `detached, `pops, `done
      ensures Inv() && SamePhase(old(Now()), Now()) && Now().owed == None && Answered()
      ensures done == tier + 1 && detached == {}
      ensures old(events) <= events && Included(old(code), code)
      ensures tier > 0 ==> events == old(events) && states == old(states)
    {
      var tmp := wheels[tier][0];
      hide Inv, Answered, Detached;
      Rotate(tier);
      while tmp != {}
        invariant Draining(tier, tmp) && SamePhase(old(Now()), Now())
        invariant old(events) <= events && Included(old(code), code)
        invariant tier > 0 ==> events == old(events) && states == old(states)
      {
        var r :| r in tmp;
        Destroy(tier, tmp, r);
        tmp := tmp - {r};
      }
    }

    /** Destroys one pointer of the detached slot. */
    method Destroy(tier: nat, slot: Slot, r: Ref)
      requires Draining(tier, slot) && r in slot
      modifies `wheels, `refs, `book, `nextSerial, `nextId, `code, `log, `states, `events, `detached
      ensures Draining(tier, slot - {r}) && SamePhase(old(Now()), Now())
      ensures old(events) <= events && Included(old(code), code)
      ensures tier > 0 ==> events == old(events) && states == old(states)
    {
      hide Inv, Answered, Detached;
      DetachedWithout(tier, pops[tier], slot, r);
      KindOf(Item(tier, pops[tier], r));
      if tier == 0 {
        DropPlain(r.entry);
      } else {
        DropCascade(tier, r);
      }
    }

    /** In the middle of a pop: `slot` is what is left to destroy. */
    ghost predicate Draining(tier: nat, slot: Slot)
      reads this
    {
      && tier < TIERS && |pops| == TIERS
      && Inv() && Now().firing && Now().owed == None && Answered()
      && done == tier + 1 && tick % Unit(tier) == 0
      && detached == Detached(tier, pops[tier], slot)
    }

    /** `swap`, `pop_front`, `push_back`. */
    method Rotate(tier: nat)
      requires Inv() && Now().firing
      requires tier < TIERS && done == tier && detached == {} && tick % Unit(tier) == 0
      modifies `wheels, `detached, `pops, `done
      ensures Inv() && Now() == old(Now()) && done == tier + 1
      ensures |pops| == TIERS && |old(wheels)| == TIERS && |old(wheels)[tier]| > 0
      ensures pops == old(pops)[tier := old(pops)[tier] + 1]
      ensures detached == Detached(tier, pops[tier], old(wheels)[tier][0])
    {
      hide Consistent, Scheduled, Traced, IsRun, Exclusive, NamesTaken, Clock;
      ItsTurn(pops, tick, tier);
      TracedAfterPop(book, pops, states, events, pops[tier := pops[tier] + 1]);
      Rotated(wheels, pops, book, refs, nextSerial, tier);
      wheels, pops := wheels[tier := wheels[tier][1..] + [{}]], pops[tier := pops[tier] + 1];
      detached, done := Detached(tier, pops[tier], old(wheels)[tier][0]), tier + 1;
    }

    lemma KindOf(it: Item)
      requires Inv() && it in detached
      ensures WellFormed(it)
      ensures |pops| == TIERS
    {
      assert it in book;
    }

    /**
     Makes up for all seconds since the last call, one at a time. The clock
     standing still or stepping back does nothing.
     */
    method OnTimer(now: int)
      requires Idle()
      modifies this
      ensures Idle()
      ensures lastTs == NextTs(old(lastTs), now) && tick == old(tick) + Elapsed(old(lastTs), now)
      ensures old(events) <= events && OnlyTicksOutside(states, events, |old(events)|)
      ensures Elapsed(old(lastTs), now) == 0 ==> Past() == old(Past()) && refs == old(refs) && wheels == old(wheels)
      ensures Included(old(code), code)
      ensures history == old(history) + [now] && (old(OnClock()) ==> OnClock())
    {
      hide Inv, Answered, IsRun;
      Runs();
      history := history + [now];
      assert history[..|history| - 1] == old(history);
      if lastTs == 0 {
        lastTs := now;
        return;
      }
      if now <= lastTs {
        return;
      }
      var diff := now - lastTs;
      lastTs := now;
      var i := 0;
      while i < diff
        invariant 0 <= i <= diff && Idle() && |states| == |events| + 1
        invariant old(states) <= states && tick == old(tick) + i && lastTs == now && history == old(history) + [now]
        invariant old(events) <= events && OnlyTicksOutside(states, events, |old(events)|)
        invariant Included(old(code), code)
      {
        Advance();
        Runs();
        i := i + 1;
      }
    }

    /** One second: the tiers pop in the source's order, each only when its unit is complete. */
    method Advance()
      requires Idle()
      modifies `tick, `wheels, `refs, `book, `nextSerial, `nextId, `code, `log, `states, `events
      modifies `detached, `pops, `done
      ensures Idle() && tick == old(tick) + 1
      ensures old(events) + [Tick] <= events && old(states) <= states && Included(old(code), code)
      ensures OnlyTicksOutside(states, events, |old(events)|)
    {
      hide Inv, Answered, IsRun;
      Runs();
      BeginTick();
      PopAll();
      EndTick();
      Runs();
      RunsExtend(old(states), old(events), states, events);
      TickIsWhole(states, events, |old(events)|);
    }

    method PopAll()
      requires Inv() && Now().firing && Now().owed == None && done == 0 && detached == {} && Answered()
      modifies `wheels, `refs, `book, `nextSerial, `nextId, `code, `log, `states, `events, `detached, `pops, `done
      ensures Inv() && SamePhase(old(Now()), Now()) && Now().owed == None && done == TIERS && detached == {}
      ensures Answered()
      ensures old(events) <= events && Included(old(code), code)
    {
      hide Inv, Answered;
      PopUp(0);
      if tick % MINUTE == 0 {
        PopUp(1);
      } else {
        SkipTurn(1);
      }
      if tick % HOUR == 0 {
        PopUp(2);
      } else {
        SkipTurn(2);
      }
      if tick % DAY == 0 {
        PopUp(3);
      } else {
        SkipTurn(3);
      }
    }

    lemma Runs()
      requires Inv()
      ensures IsRun(states, events) && |states| == |events| + 1 && Now() == Last(states) && Now().tick == tick
      ensures forall e <- Now().born :: e.id < nextId
    {
    }

    method BeginTick()
      requires Idle()
      modifies `tick, `done, `states, `events
      ensures Inv() && Now().firing && Now().owed == None && done == 0 && detached == {} && Answered()
      ensures tick == old(tick) + 1 && events == old(events) + [Tick] && Now().tick == old(Now()).tick + 1
    {
      hide Consistent, Scheduled, Traced, IsRun, Exclusive;
      Runs();
      LiveEntries();
      TracedAfterEvent(book, pops, states, events, Apply(Now(), Tick), Tick);
      tick, done := tick + 1, 0;
      Record(Tick);
      ContinuesByOne(old(Past()), Past(), Tick);
      StillAnswered(old(Past()));
    }

    ghost method SkipTurn(tier: nat)
      requires Inv() && Now().firing && tier < TIERS && done == tier && detached == {}
      requires tick % Unit(tier) != 0
      modifies `done
      ensures Inv() && done == tier + 1
    {
      hide Consistent, Scheduled, Traced, IsRun, Exclusive, NamesTaken, Clock;
      NotItsTurn(pops, tick, tier);
      done := done + 1;
    }

    ghost method EndTick()
      requires Inv() && Now().firing && Now().owed == None && done == TIERS && detached == {} && Answered()
      modifies `states, `events
      ensures Idle() && events == old(events) + [Settle] && old(states) <= states
      ensures |states| > |events| > 0 && states[|events| - 1] == old(Now())
    {
      hide Consistent, Scheduled, Traced, Exclusive;
      Runs();
      TracedAfterEvent(book, pops, states, events, Apply(Now(), Settle), Settle);
      AllDueLater(wheels, pops, book, refs, nextSerial, tick, Now().due);
      Record(Settle);
      ContinuesByOne(old(Past()), Past(), Settle);
      StillAnswered(old(Past()));
    }

    /** Where the entry captured by a closure of the detached slot is inserted next. */
    ghost function HandedDown(it: Item): Item
      requires |pops| == TIERS && 0 < it.tier < TIERS && it.ref.Cascade?
      reads this
    {
      Placed(it.tier - 1, pops, nextSerial, it.ref.arg, it.ref.entry)
    }

    lemma HandoverFits(it: Item)
      requires Inv() && Now().firing && 0 < it.tier < TIERS && done == it.tier + 1
      requires tick % Unit(it.tier) == 0
      requires it.ref.Cascade? && it in detached
      ensures it in book && WellFormed(it) && (it.tier > 1 ==> HandedDown(it) !in book)
      ensures HandedDown(it) != it && WellFormed(HandedDown(it)) && DueTick(HandedDown(it)) == DueTick(it)
      ensures Scheduled(book + {HandedDown(it)} - {it}, Now().due)
      ensures Traced(book + {HandedDown(it)} - {it}, pops, states, events)
      ensures it.ref.entry in refs && refs[it.ref.entry] > 0
      ensures (HandedDown(it) in book ==> it.ref.entry.Reusable() && refs[it.ref.entry] > 1)
    {
      hide Consistent, Scheduled, Traced, IsRun, NamesTaken, Exclusive, DueTick, SpotOf, Lower;
      var to := HandedDown(it);
      HeldTwice(wheels, pops, detached, book, refs, nextSerial, it, to);
      HandedDownIsDueTheSame(pops, nextSerial, tick, it);
      ScheduledAfterHandover(book, Now().due, it, to);
      TracedAfterHandover(book, pops, states, events, it, to);
      if to in book {
        OnceUnlessReusable(it.ref.entry);
      }
    }

    lemma OnceUnlessReusable(e: Entry)
      requires Inv() && e in refs && refs[e] > 1
      ensures e.Reusable()
    {
    }
  }

  /** What the reference counts say of a closure of the detached slot and of what it hands down. */
  lemma HeldTwice(wheels: seq<Wheel>, pops: seq<nat>, detached: set<Item>, book: set<Item>,
                  refs: map<Entry, nat>, serials: nat, it: Item, to: Item)
    requires Shape(wheels) && |pops| == TIERS
    requires Consistent(wheels, pops, detached, book, refs, serials) && it in detached
    requires to.tier + 1 == it.tier && to.ref.entry == it.ref.entry
    requires to.ref.Cascade? ==> to.ref.serial == serials
    ensures (forall x <- book :: WellFormed(x)) && it in book && it.pop == pops[it.tier]
    ensures it.ref.entry in refs && refs[it.ref.entry] > 0
    ensures to.ref.Cascade? ==> to !in book
    ensures to in book ==> refs[it.ref.entry] > 1
  {
    assert it in book;
    if to in book {
      TwoHolders(HoldersOf(book, it.ref.entry), it, to);
    }
  }

  lemma HandedDownIsDueTheSame(pops: seq<nat>, serial: nat, tick: nat, it: Item)
    requires WellFormed(it) && it.tier > 0 && Clock(pops, tick, it.tier + 1)
    requires it.pop == pops[it.tier] && tick % Unit(it.tier) == 0
    ensures var to := Placed(it.tier - 1, pops, serial, it.ref.arg, it.ref.entry);
            WellFormed(to) && DueTick(to) == DueTick(it) && SpotOf(to) == Lower(SpotOf(it))
  {
    PopsMeet(pops, tick, it.tier);
    PlacedIsDueAfterLag(it.tier - 1, pops, serial, it.ref.arg, it.ref.entry);
  }

  lemma TwoHolders(hs: set<Item>, a: Item, b: Item)
    requires a in hs && b in hs && a != b
    ensures |hs| > 1
  {
    assert |hs - {a}| > 0 by {
      assert b in hs - {a};
    }
  }

  /**
   No timer is lost: at any moment, also in the middle of a tick and of the
   destruction of a slot, the entry of a `RunAfter` or of a period of
   `RunEvery` is either in exactly one slot, directly or inside one closure
   that is due at its deadline, or has been destroyed exactly once.
   */
  lemma InOneSlotOrReleased(w: TimingWheel, e: Entry) returns (it: Item)
    requires w.Inv() && e in w.Now().born && !e.Reusable()
    ensures (exists i :: Releases(w.events, i, e)) <==> e !in w.refs
    ensures forall i, j :: Releases(w.events, i, e) && Releases(w.events, j, e) ==> i == j
    ensures e in w.refs ==>
              forall x :: (InSlot(w.wheels, w.pops, x) || x in w.detached) && x.ref.entry == e <==> x == it
    ensures e in w.refs ==> WellFormed(it) && IsLatestDeadline(w.states, w.events, |w.events|, e, DueTick(it))
  {
    NoTimerLostOrDuplicated(w.states, w.events, |w.events|, e);
    w.LiveEntries();
    if e in w.refs {
      w.CountIs(e);
      it :| it in w.book && it.ref.entry == e && DueTick(it) == w.Now().due[e];
      OnlyHolder(w.book, it);
      DueIsLatestDeadline(w.states, w.events, |w.events|, e);
    } else {
      it := Item(0, 0, Plain(e));
    }
  }

  /** Between ticks, when no slot is being destroyed, that place is a slot of one of the four wheels. */
  lemma InOneSlotBetweenTicks(w: TimingWheel, e: Entry) returns (it: Item)
    requires w.Idle() && e in w.refs && !e.Reusable()
    ensures forall x :: InSlot(w.wheels, w.pops, x) && x.ref.entry == e <==> x == it
    ensures WellFormed(it) && IsLatestDeadline(w.states, w.events, |w.events|, e, DueTick(it)) && DueTick(it) > w.tick
  {
    w.LiveEntries();
    it := InOneSlotOrReleased(w, e);
    assert w.Now().due[e] > w.tick;
    DueIsLatestDeadline(w.states, w.events, |w.events|, e);
  }

  /** How often the wheels have popped between ticks. */
  function PopsAfter(tick: nat): (pops: seq<nat>)
    ensures |pops| == TIERS
  {
    [tick, tick / 60, tick / 3600, tick / 86400]
  }

  /** Some slot holds a reference at this place, whichever closure it is. */
  ghost predicate Occupied(wheels: seq<Wheel>, tick: nat, s: Spot) {
    Shape(wheels) && exists it :: InSlot(wheels, PopsAfter(tick), it) && SpotOf(it) == s
  }

  /** Some insertion whose deadline is to come has got to this place. */
  ghost predicate LeadsTo(ss: seq<State>, evs: seq<Event>, pops: seq<nat>, s: Spot)
    requires |evs| < |ss| && |pops| == TIERS
  {
    exists i :: 0 <= i < |evs| && evs[i].Insert? && DeadlineAt(ss, evs, i) > Last(ss).tick
                && s == Rest(Entered(ss, evs, i), pops)
  }

  lemma ItemsBetweenTicks(wheels: seq<Wheel>, pops: seq<nat>, book: set<Item>, refs: map<Entry, nat>, serials: nat,
                          tick: nat)
    requires Shape(wheels) && Clock(pops, tick, TIERS) && Consistent(wheels, pops, {}, book, refs, serials)
    ensures pops == PopsAfter(tick)
    ensures forall it :: it in book <==> InSlot(wheels, pops, it)
    ensures forall it <- book :: it.tier < TIERS && it.pop > pops[it.tier] && DueOf(SpotOf(it)) > tick
  {
    assert forall t :: 0 <= t < TIERS ==> pops[t] == tick / Unit(t);
    forall it <- book ensures it.tier < TIERS && it.pop > pops[it.tier] && DueOf(SpotOf(it)) > tick {
      assert InSlot(wheels, pops, it);
      NotYetPopped(pops, tick, TIERS, it);
    }
  }

  /**
   Between ticks, the contents of all slots are a function of the tick count
   and the insertions: a place is taken if and only if an insertion whose
   deadline is to come has got there.
   */
  lemma SlotsFollowInsertions(w: TimingWheel, s: Spot)
    requires w.Idle() && |w.events| < |w.states|
    ensures Occupied(w.wheels, w.tick, s) <==> LeadsTo(w.states, w.events, PopsAfter(w.tick), s)
  {
    hide Consistent, IsRun, Traced, Scheduled, Exclusive, NamesTaken, InSlot, Rest, Entered, DueOf, SpotOf, PopsAfter;
    w.Runs();
    ItemsBetweenTicks(w.wheels, w.pops, w.book, w.refs, w.nextSerial, w.tick);
    PlacesAreRests(w.book, w.pops, w.states, w.events, s);
  }

  lemma SameInsertionsLeadToTheSame(ss: seq<State>, evs: seq<Event>, ss': seq<State>, evs': seq<Event>,
                                    pops: seq<nat>, s: Spot)
    requires |evs| < |ss| && |evs'| < |ss'| && |pops| == TIERS && Last(ss).tick == Last(ss').tick
    requires SameInsertions(ss, evs, ss', evs') && LeadsTo(ss, evs, pops, s)
    ensures LeadsTo(ss', evs', pops, s)
  {
    hide Deadline, Rest, PutIn;
    var i :| 0 <= i < |evs| && evs[i].Insert? && DeadlineAt(ss, evs, i) > Last(ss).tick
             && s == Rest(Entered(ss, evs, i), pops);
    var e, delay := evs[i].entry, evs[i].delay;
    assert Inserts(evs, i, e);
    assert InsertedAt(ss, evs, e, delay, ss[i].tick, ss[i].firing);
    assert InsertedAt(ss', evs', e, delay, ss[i].tick, ss[i].firing);
    var j :| Inserts(evs', j, e) && evs'[j].delay == delay
             && ss'[j].tick == ss[i].tick && ss'[j].firing == ss[i].firing;
    assert PutIn(ss'[j], delay, e) == PutIn(ss[i], delay, e) by {
      SamePlace(ss'[j], ss[i], delay, e);
    }
    assert DeadlineAt(ss', evs', j) == DeadlineAt(ss, evs, i);
  }

  lemma SamePlace(a: State, b: State, delay: nat, e: Entry)
    requires a.tick == b.tick && a.firing == b.firing
    ensures PutIn(a, delay, e) == PutIn(b, delay, e)
  {
  }

  lemma SameInsertionsBack(ss: seq<State>, evs: seq<Event>, ss': seq<State>, evs': seq<Event>)
    requires |evs| < |ss| && |evs'| < |ss'| && SameInsertions(ss, evs, ss', evs')
    ensures SameInsertions(ss', evs', ss, evs)
  {
  }

  /**
   Two wheels that were driven from the same first to the same latest
   timestamp, in whatever batches and with whatever backward steps, and that
   were asked for the same insertions, hold the same entries in the same slots
   for the same ticks and have fired the same entries at the same ticks.
   */
  lemma BatchingIsIrrelevant(w: TimingWheel, w': TimingWheel)
    requires w.Idle() && w.OnClock() && |w.history| > 0 && w.history[0] > 0
    requires w'.Idle() && w'.OnClock() && |w'.history| > 0 && w'.history[0] == w.history[0]
    requires Latest(w.history) == Latest(w'.history)
    requires SameInsertions(w.states, w.events, w'.states, w'.events)
    ensures w.tick == w'.tick && w.refs.Keys == w'.refs.Keys && w.Now().due == w'.Now().due
    ensures forall e, tick: nat | tick <= w.tick ::
              FiredAt(w.states, w.events, e, tick) <==> FiredAt(w'.states, w'.events, e, tick)
    ensures forall s :: Occupied(w.wheels, w.tick, s) <==> Occupied(w'.wheels, w'.tick, s)
  {
    hide TimingWheel.Inv, IsRun, SameInsertions, LeadsTo, Occupied, PopsAfter;
    CatchUp(w.history);
    CatchUp(w'.history);
    w.Runs();
    w'.Runs();
    w.LiveEntries();
    w'.LiveEntries();
    OnlyInsertionsMatter(w.states, w.events, w'.states, w'.events);
    SameInsertionsBack(w.states, w.events, w'.states, w'.events);
    forall s ensures Occupied(w.wheels, w.tick, s) <==> Occupied(w'.wheels, w'.tick, s) {
      SlotsFollowInsertions(w, s);
      SlotsFollowInsertions(w', s);
      if LeadsTo(w.states, w.events, PopsAfter(w.tick), s) {
        SameInsertionsLeadToTheSame(w.states, w.events, w'.states, w'.events, PopsAfter(w.tick), s);
      }
      if LeadsTo(w'.states, w'.events, PopsAfter(w.tick), s) {
        SameInsertionsLeadToTheSame(w'.states, w'.events, w.states, w.events, PopsAfter(w.tick), s);
      }
    }
  }

  /**
   Between ticks, the functions that have run are those of the entries that were
   destroyed, in the order of their destruction, and each of them got what it
   asked for: RequestsAreMet says what that is.
   */
  lemma FunctionsRun(w: TimingWheel)
    requires w.Idle() && |w.states| == |w.events| + 1
    ensures w.log == Destroyed(w.events)
    ensures forall i :: 0 <= i < |w.events| && Destroys(w.events[i]) ==> Carried(w.Past(), i)
    ensures w.Past().Valid()
  {
    assert w.events[0..] == w.events;
    w.PastIsValid();
  }

  lemma InLog(evs: seq<Event>, i: nat)
    requires i < |evs| && Destroys(evs[i])
    ensures evs[i].entry in Destroyed(evs)
  {
    assert evs == evs[..i] + ([evs[i]] + evs[i + 1..]);
    DestroyedAppend(evs[..i], [evs[i]] + evs[i + 1..]);
    DestroyedAppend([evs[i]], evs[i + 1..]);
    assert [evs[i]][..0] == [] && Destroyed([evs[i]]) == [evs[i].entry];
  }

  /** An entry fires in tick `at`, and its function, `f`, has run. */
  ghost predicate RanAt(w: TimingWheel, e: Entry, f: Function, at: nat)
    reads w
  {
    |w.events| < |w.states| && FiredAt(w.states, w.events, e, at) && e in w.log && CodeOf(w.code, e) == f
  }

  /**
   A timer that a timer's function sets: the new entry takes the function `g`
   along, and `g` runs at the deadline computed inside the callback, once that
   is reached.
   */
  lemma SetInCallback(w: TimingWheel, e: Entry, i: nat, r: nat, delay: nat, g: Function) returns (id: nat)
    requires w.Idle() && |w.states| == |w.events| + 1
    requires Fires(w.events, i, e) && r < |CodeOf(w.code, e).requests|
    requires CodeOf(w.code, e).requests[r] == After(delay, g) && Accepted(delay)
    ensures var due := Deadline(w.states[i].tick, true, delay);
            CodeOf(w.code, Once(id)) == g && (due <= w.tick <==> RanAt(w, Once(id), g, due))
  {
    hide TimingWheel.Inv, TimingWheel.Answered, IsRun, Deadline, Sound, Carried;
    w.Runs();
    FunctionsRun(w);
    var places := RequestsAreMet(w.Past(), i);
    var m := places[r];
    assert Honoured(w.Past(), i, m, places[r + 1], After(delay, g));
    id :| Meets(w.events[m], After(delay, g), id) && Knows(w.code, After(delay, g), id);
    FiresInTick(w.states, w.events, i, e);
    RanOnTime(w, m, Once(id));
  }

  lemma FiresInTick(ss: seq<State>, evs: seq<Event>, i: nat, e: Entry)
    requires IsRun(ss, evs) && Fires(evs, i, e)
    ensures ss[i].firing
  {
    assert Enabled(ss[i], evs[i]);
  }

  /** A `RunAfter` entry's function has run at its deadline exactly if that is reached. */
  lemma RanOnTime(w: TimingWheel, k: nat, e: Entry)
    requires w.Idle() && |w.states| == |w.events| + 1 && e.Once? && Inserts(w.events, k, e)
    ensures var due := DeadlineAt(w.states, w.events, k);
            due <= w.tick <==> RanAt(w, e, CodeOf(w.code, e), due)
  {
    hide TimingWheel.Inv, TimingWheel.Answered, IsRun, Deadline, Sound, Carried;
    w.Runs();
    FunctionsRun(w);
    OneShotFiresOnce(w.states, w.events, k, e);
    if j :| Fires(w.events, j, e) {
      InLog(w.events, j);
    }
  }

  /** The function of each period of a `RunEvery` entry runs one period after that of the one before. */
  lemma EachPeriodRuns(w: TimingWheel, k: nat, id: nat, interval: nat, g: nat)
    requires w.Idle() && |w.states| == |w.events| + 1 && Inserts(w.events, k, Every(id, interval, 0))
    ensures var e, due := Every(id, interval, g), PeriodEnd(DeadlineAt(w.states, w.events, k), interval, g);
            due <= w.tick <==> RanAt(w, e, CodeOf(w.code, e), due)
  {
    hide TimingWheel.Inv, TimingWheel.Answered, IsRun, Deadline, Sound, Carried, PeriodEnd, CodeOf;
    w.Runs();
    FunctionsRun(w);
    PeriodicFromStart(w.states, w.events, k, id, interval, g);
    if j :| Fires(w.events, j, Every(id, interval, g)) {
      InLog(w.events, j);
    }
  }

  /** A new wheel whose clock has been set. */
  method Started() returns (w: TimingWheel)
    ensures fresh(w) && w.Idle() && w.tick == 0 && w.lastTs == 100 && w.Now() == INITIAL
    ensures w.events == [] && w.states == [INITIAL] && w.nextId == 0
  {
    hide TimingWheel.Inv, TimingWheel.Answered, IsRun;
    w := new TimingWheel();
    w.OnTimer(100);
    w.Runs();
    EmptyRun(w.states, w.events);
  }

  /** A function in one second, which asks for `g` five seconds later: it runs at tick 1, and `g` at tick 6. */
  method TimerSetByTimer(g: Function) returns (w: TimingWheel, ghost id: nat)
    ensures w.Idle() && w.tick == 6
    ensures RanAt(w, Once(0), Function([After(5, g)]), 1) && RanAt(w, Once(id), g, 6)
  {
    hide TimingWheel.Inv, TimingWheel.Answered, IsRun, Asked, Deadline, RanAt;
    SecondTimer(0, false, 1);
    SecondTimer(1, true, 5);
    w := Started();
    AskedNew(After(1, Function([After(5, g)])), w.Present());
    w.RunAfter(1, Function([After(5, g)]));
    w.Runs();
    ghost var ss, evs := w.states, w.events;
    w.OnTimer(106);
    w.Runs();
    RunsExtend(ss, evs, w.states, w.events);
    id := FirstThenSecond(w, g);
  }

  /** A periodic function every two seconds, whatever it does the first and the second time. */
  method TwoPeriods(f: Function, g: Function) returns (w: TimingWheel)
    ensures w.Idle() && w.tick == 4
    ensures RanAt(w, Every(0, 2, 0), f, 2) && RanAt(w, Every(0, 2, 1), g, 4)
  {
    hide TimingWheel.Inv, TimingWheel.Answered, IsRun, Continues, Asked, Deadline, RanAt;
    SecondTimer(0, false, 2);
    w := Started();
    var _ := w.RunEvery(2, [f, g]);
    w.Runs();
    ghost var ss, evs := w.states, w.events;
    w.OnTimer(104);
    w.Runs();
    RunsExtend(ss, evs, w.states, w.events);
    BothPeriods(w, f, g);
  }

  lemma BothPeriods(w: TimingWheel, f: Function, g: Function)
    requires w.Idle() && |w.states| == |w.events| + 1 && w.tick == 4
    requires Inserts(w.events, 0, Every(0, 2, 0)) && DeadlineAt(w.states, w.events, 0) == 2
    requires Every(0, 2, 0) in w.code && w.code[Every(0, 2, 0)] == [f, g]
    ensures RanAt(w, Every(0, 2, 0), f, 2) && RanAt(w, Every(0, 2, 1), g, 4)
  {
    hide TimingWheel.Inv, TimingWheel.Answered, IsRun, Deadline, RanAt;
    PeriodInSeconds(2);
    EachPeriodRuns(w, 0, 0, 2, 0);
    EachPeriodRuns(w, 0, 0, 2, 1);
  }

  lemma FirstThenSecond(w: TimingWheel, g: Function) returns (id: nat)
    requires w.Idle() && |w.states| == |w.events| + 1 && w.tick == 6
    requires Inserts(w.events, 0, Once(0)) && DeadlineAt(w.states, w.events, 0) == 1
    requires CodeOf(w.code, Once(0)) == Function([After(5, g)])
    ensures RanAt(w, Once(0), Function([After(5, g)]), 1) && RanAt(w, Once(id), g, 6)
  {
    hide TimingWheel.Inv, TimingWheel.Answered, IsRun, Deadline;
    RanOnTime(w, 0, Once(0));
    var i: nat :| Fires(w.events, i, Once(0)) && w.states[i].tick == 1;
    SecondTimer(1, true, 5);
    id := SetInCallback(w, Once(0), i, 0, 5, g);
  }

  lemma EmptyRun(ss: seq<State>, evs: seq<Event>)
    requires IsRun(ss, evs) && evs == []
    ensures Last(ss) == INITIAL
  {
  }

  /** How often the wheels have popped between ticks, in seconds. */
  lemma PopsInSeconds(w: TimingWheel)
    requires w.Idle()
    ensures w.pops == [w.tick, w.tick / 60, w.tick / 3600, w.tick / 86400]
  {
    hide Consistent, Traced, IsRun, Scheduled, Exclusive, NamesTaken, Continues;
    assert forall t :: 0 <= t < TIERS ==> w.pops[t] == w.tick / Unit(t);
  }
}
