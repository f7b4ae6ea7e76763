/**
 The flat deadline calendar: the specification that the timing wheel refines.
 It knows nothing of slots and tiers. It maps every live entry to the tick at
 which its destructor will run, and its runs are sequences of insertions,
 ticks and firings. Everything a caller can rely on is proved here, about all
 runs; TimingWheel.dfy proves that the wheel produces nothing but such runs.
 */
module Calendar {
  import opened Deadlines
  import opened Prelude

  /**
   What a shared pointer in the wheel can point to: the entry of a `RunAfter`,
   one generation of a `RunEvery`, the timeout entry of a connection, or any
   other object handed to `InsertEntry`.
   */
  datatype Entry =
    | Once(id: nat)
    | Every(id: nat, interval: nat, generation: nat)
    | Timeout(id: nat, idle: nat)
    | Shared(id: nat)
  {
    /** Entries that somebody outside the wheel can find again and insert once more. */
    predicate Reusable() {
      Timeout? || Shared?
    }
  }

  datatype Event =
    | Insert(entry: Entry, delay: nat)  // accepted by InsertEntry
    | Refuse(entry: Entry)              // refused while unreferenced: destroyed at once
    | Tick                              // the next second begins, the second wheel pops
    | Fire(entry: Entry)                // last reference dropped, the destructor runs
    | Settle                            // all wheels due in this second have popped

  /**
   `due` maps each live entry to its firing tick, `born` holds every entry ever
   seen, and `owed` is the next generation that the running destructor of a
   periodic entry still has to insert. `called` says that some destructor has
   run since the tick began: in the middle of a tick, only destructors insert.
   */
  datatype State =
    State(tick: nat, firing: bool, called: bool, due: map<Entry, nat>, born: set<Entry>, owed: Option<Entry>)

  const INITIAL := State(0, false, false, map[], {}, None)

  /** The next generation of a periodic entry; nothing for the others. */
  function NextGeneration(e: Entry): Option<Entry> {
    if e.Every? then Some(Every(e.id, e.interval, e.generation + 1)) else None
  }

  predicate MayInsert(s: State, e: Entry, delay: nat) {
    && Accepted(delay)
    && (s.firing ==> s.called)
    && match e
       case Once(_) => e !in s.born
       case Every(_, interval, generation) =>
         delay == interval && e !in s.born && (generation == 0 || s.owed == Some(e))
       case Timeout(_, idle) => delay == idle && (e !in s.born || e in s.due)
       case Shared(_) => e !in s.born || e in s.due
  }

  ghost predicate Enabled(s: State, ev: Event) {
    match ev
    case Insert(e, delay) => MayInsert(s, e, delay)
    case Refuse(e) =>
      && e !in s.born && (e.Timeout? ==> !Accepted(e.idle))
      && (e.Every? ==> e.generation == 0 && !Accepted(e.interval))
      && (s.firing ==> s.called)
    case Tick => !s.firing && s.owed == None
    case Fire(e) => s.firing && s.owed == None && e in s.due && s.due[e] == s.tick
    case Settle => s.firing && s.owed == None && forall e <- s.due :: s.due[e] > s.tick
  }

  /** An entry inserted again keeps the later of its deadlines: every reference to it has to go. */
  function Apply(s: State, ev: Event): State {
    match ev
    case Insert(e, delay) =>
      var deadline := Deadline(s.tick, s.firing, delay);
      s.(due := s.due[e := if e in s.due then Max(s.due[e], deadline) else deadline],
         born := s.born + {e},
         owed := if s.owed == Some(e) then None else s.owed)
    case Refuse(e) => s.(born := s.born + {e})
    case Tick => s.(tick := s.tick + 1, firing := true, called := false)
    case Fire(e) => s.(due := s.due - {e}, owed := NextGeneration(e), called := true)
    case Settle => s.(firing := false)
  }

  /** A run: `ss[i]` is the state before `evs[i]`. */
  ghost predicate IsRun(ss: seq<State>, evs: seq<Event>) {
    && |ss| == |evs| + 1
    && ss[0] == INITIAL
    && forall i :: 0 <= i < |evs| ==> Enabled(ss[i], evs[i]) && ss[i + 1] == Apply(ss[i], evs[i])
  }

  function Last(ss: seq<State>): State
    requires |ss| > 0
  {
    ss[|ss| - 1]
  }

  /** Where the `i`-th event, an insertion, schedules its entry. */
  function DeadlineAt(ss: seq<State>, evs: seq<Event>, i: nat): nat
    requires i < |evs| && i < |ss| && evs[i].Insert?
  {
    Deadline(ss[i].tick, ss[i].firing, evs[i].delay)
  }

  ghost predicate Inserts(evs: seq<Event>, i: int, e: Entry) {
    0 <= i < |evs| && evs[i].Insert? && evs[i].entry == e
  }

  ghost predicate Fires(evs: seq<Event>, i: int, e: Entry) {
    0 <= i < |evs| && evs[i] == Fire(e)
  }

  ghost predicate FiredAt(ss: seq<State>, evs: seq<Event>, e: Entry, tick: nat)
    requires |evs| < |ss|
  {
    exists i :: Fires(evs, i, e) && ss[i].tick == tick
  }

  /** `deadline` is the latest deadline over all insertions of `e` before the `n`-th event. */
  ghost predicate IsLatestDeadline(ss: seq<State>, evs: seq<Event>, n: nat, e: Entry, deadline: nat)
    requires n <= |evs| < |ss|
  {
    && (exists i :: 0 <= i < n && Inserts(evs, i, e) && DeadlineAt(ss, evs, i) == deadline)
    && (forall i :: 0 <= i < n && Inserts(evs, i, e) ==> DeadlineAt(ss, evs, i) <= deadline)
  }

  ghost predicate Sound(s: State) {
    && (s.firing ==> s.tick > 0)
    && s.due.Keys <= s.born
    && (forall e <- s.due :: s.due[e] >= s.tick && (s.due[e] == s.tick ==> s.firing))
    && (s.owed.Some? ==> s.owed.value.Every? && s.owed.value.generation > 0 && s.firing && s.owed.value !in s.born)
    && (s.owed.Some? ==> Accepted(s.owed.value.interval))
    && (forall e <- s.due | e.Every? :: Accepted(e.interval))
    && (forall e <- s.due | e.Timeout? :: Accepted(e.idle))
    && (forall e <- s.due | e.Every? :: OnBeat(s.due[e], e.interval))
    && (forall e <- s.due | e.Every? :: NextGeneration(e).value !in s.born && s.owed != NextGeneration(e))
    && (forall e <- s.born | e.Every? && e.generation > 0 :: Every(e.id, e.interval, e.generation - 1) in s.born)
    && (s.owed.Some? ==> Every(s.owed.value.id, s.owed.value.interval, s.owed.value.generation - 1) in s.born)
    && (s.owed.Some? ==> Every(s.owed.value.id, s.owed.value.interval, s.owed.value.generation - 1) !in s.due)
    && (s.owed.Some? ==> OnBeat(s.tick, s.owed.value.interval))
  }

  lemma StepKeepsSound(s: State, ev: Event)
    requires Sound(s) && Enabled(s, ev)
    ensures Sound(Apply(s, ev))
  {
    if ev.Insert? {
      InsertKeepsSound(s, ev.entry, ev.delay);
    }
  }

  lemma InsertKeepsSound(s: State, e: Entry, delay: nat)
    requires Sound(s) && MayInsert(s, e, delay)
    ensures Sound(Apply(s, Insert(e, delay)))
  {
    DeadlineWindow(s.tick, s.firing, delay);
    DeadlineOnBeat(s.tick, s.firing, delay);
    hide Deadline, OnBeat;
  }

  lemma {:induction false} RunSound(ss: seq<State>, evs: seq<Event>, n: nat)
    requires IsRun(ss, evs) && n <= |evs|
    ensures Sound(ss[n])
  {
    if n > 0 {
      RunSound(ss, evs, n - 1);
      StepKeepsSound(ss[n - 1], evs[n - 1]);
    }
  }

  lemma ExtendRun(ss: seq<State>, evs: seq<Event>, ev: Event)
    requires IsRun(ss, evs) && Enabled(Last(ss), ev)
    ensures IsRun(ss + [Apply(Last(ss), ev)], evs + [ev])
  {
  }

  /** A run's states follow from its events. */
  lemma {:induction false} EventsDetermineStates(ss: seq<State>, evs: seq<Event>,
                                                    ss': seq<State>, evs': seq<Event>, n: nat)
    requires IsRun(ss, evs) && IsRun(ss', evs') && evs <= evs' && n <= |evs|
    ensures ss[n] == ss'[n]
  {
    if n > 0 {
      EventsDetermineStates(ss, evs, ss', evs', n - 1);
    }
  }

  lemma RunsExtend(ss: seq<State>, evs: seq<Event>, ss': seq<State>, evs': seq<Event>)
    requires IsRun(ss, evs) && IsRun(ss', evs') && evs <= evs'
    ensures ss <= ss' && |ss| == |evs| + 1 && ss'[|evs|] == Last(ss)
  {
    forall n | 0 <= n <= |evs| ensures ss[n] == ss'[n] {
      EventsDetermineStates(ss, evs, ss', evs', n);
    }
  }

  /** From the `n`-th event on, everything but the beginning of a tick happens in the middle of one. */
  ghost predicate OnlyTicksOutside(ss: seq<State>, evs: seq<Event>, n: nat)
    requires |evs| < |ss|
  {
    forall i :: n <= i < |evs| && !ss[i].firing ==> evs[i].Tick?
  }

  /** Time and the phase within a tick only move forward. */
  lemma {:induction false} TimeMovesForward(ss: seq<State>, evs: seq<Event>, m: nat, n: nat)
    requires IsRun(ss, evs) && m <= n <= |evs|
    ensures ss[m].tick < ss[n].tick || (ss[m].tick == ss[n].tick && (ss[n].firing ==> ss[m].firing))
    decreases n
  {
    if m < n {
      TimeMovesForward(ss, evs, m, n - 1);
    }
  }

  /** Between the beginning of a tick and its end, everything happens in the middle of it. */
  lemma TickIsWhole(ss: seq<State>, evs: seq<Event>, k: nat)
    requires IsRun(ss, evs) && k + 1 < |evs| && evs[k] == Tick
    requires ss[|evs| - 1].firing && ss[|evs| - 1].tick == ss[k].tick + 1
    ensures OnlyTicksOutside(ss, evs, k)
  {
    forall i | k < i < |evs| ensures ss[i].firing {
      TimeMovesForward(ss, evs, k + 1, i);
      TimeMovesForward(ss, evs, i, |evs| - 1);
    }
  }

  /** Once its destructor has run, an entry is never inserted and never fires again. */
  lemma {:induction false} DeadStaysDead(ss: seq<State>, evs: seq<Event>, m: nat, n: nat, e: Entry)
    requires IsRun(ss, evs) && m <= n <= |evs|
    requires e in ss[m].born && e !in ss[m].due
    ensures e in ss[n].born && e !in ss[n].due
    ensures forall i :: m <= i < n ==> !Inserts(evs, i, e) && !Fires(evs, i, e)
    decreases n
  {
    if m < n {
      DeadStaysDead(ss, evs, m, n - 1, e);
    }
  }

  lemma {:induction false} InsertedIsBorn(ss: seq<State>, evs: seq<Event>, i: nat, n: nat, e: Entry)
    requires IsRun(ss, evs) && i < n <= |evs| && Inserts(evs, i, e)
    ensures e in ss[n].born
    decreases n
  {
    if i < n - 1 {
      InsertedIsBorn(ss, evs, i, n - 1, e);
    }
  }

  lemma {:induction false} BornGrows(ss: seq<State>, evs: seq<Event>, m: nat, n: nat)
    requires IsRun(ss, evs) && m <= n <= |evs|
    ensures ss[m].born <= ss[n].born
    decreases n
  {
    if m < n {
      BornGrows(ss, evs, m, n - 1);
    }
  }

  /** An entry leaves the calendar only by firing. */
  lemma {:induction false} LiveUntilFired(ss: seq<State>, evs: seq<Event>, m: nat, n: nat, e: Entry)
    requires IsRun(ss, evs) && m <= n <= |evs|
    requires e in ss[m].due
    requires forall i :: m <= i < n ==> !Fires(evs, i, e)
    ensures e in ss[n].due
    decreases n
  {
    if m < n {
      LiveUntilFired(ss, evs, m, n - 1, e);
      assert !Fires(evs, n - 1, e);
    }
  }

  /** The calendar's tick for a live entry is the latest of the deadlines of all its insertions. */
  lemma {:induction false} DueIsLatestDeadline(ss: seq<State>, evs: seq<Event>, n: nat, e: Entry)
    requires IsRun(ss, evs) && n <= |evs|
    requires e in ss[n].due
    ensures IsLatestDeadline(ss, evs, n, e, ss[n].due[e])
  {
    hide Deadline;
    var m := n - 1;
    assert Enabled(ss[m], evs[m]) && ss[n] == Apply(ss[m], evs[m]);
    if e in ss[m].due {
      DueIsLatestDeadline(ss, evs, m, e);
      var i :| 0 <= i < m && Inserts(evs, i, e) && DeadlineAt(ss, evs, i) == ss[m].due[e];
      if Inserts(evs, m, e) {
        assert ss[n].due[e] == Max(DeadlineAt(ss, evs, i), DeadlineAt(ss, evs, m));
      }
    } else {
      assert Inserts(evs, m, e);
      forall i | 0 <= i < m && Inserts(evs, i, e) ensures false {
        InsertedIsBorn(ss, evs, i, m, e);
      }
    }
  }

  /** When an entry fires, the tick is the latest deadline of its insertions before and after. */
  lemma FiringTick(ss: seq<State>, evs: seq<Event>, i: nat, e: Entry)
    requires IsRun(ss, evs) && Fires(evs, i, e)
    ensures IsLatestDeadline(ss, evs, |evs|, e, ss[i].tick)
    ensures forall j :: Fires(evs, j, e) ==> j == i
  {
    RunSound(ss, evs, i);
    DueIsLatestDeadline(ss, evs, i, e);
    DeadStaysDead(ss, evs, i + 1, |evs|, e);
    forall j | Fires(evs, j, e) ensures j == i {
      if j < i {
        RunSound(ss, evs, j);
        DeadStaysDead(ss, evs, j + 1, i + 1, e);
      }
    }
  }

  /** Since `s`, nothing has been inserted or fired, and `e` has not missed its tick. */
  ghost predicate StillAhead(s: State, now: State, e: Entry)
    requires e in s.due
  {
    && now.due == s.due
    && (now.firing ==> !now.called)
    && (now.tick < s.due[e] || (now.firing && now.tick == s.due[e]))
  }

  /**
   When nothing is inserted between ticks, the entry that is alone the first to
   be due does fire at its tick: nobody can insert it again before that.
   */
  lemma {:induction false} EarliestFires(ss: seq<State>, evs: seq<Event>, m: nat, n: nat, e: Entry)
    requires IsRun(ss, evs) && m <= n <= |evs| && !ss[m].firing && OnlyTicksOutside(ss, evs, m)
    requires e in ss[m].due && forall x <- ss[m].due | x != e :: ss[m].due[x] > ss[m].due[e]
    ensures (exists i :: m <= i < n && Fires(evs, i, e) && ss[i].tick == ss[m].due[e]) || StillAhead(ss[m], ss[n], e)
    decreases n
  {
    RunSound(ss, evs, m);
    if m < n {
      EarliestFires(ss, evs, m, n - 1, e);
      assert Enabled(ss[n - 1], evs[n - 1]);
      if ss[n - 1].due == ss[m].due && evs[n - 1] == Fire(e) {
        assert Fires(evs, n - 1, e);
      }
    }
  }

  /** Before anything is due, nothing happens but the passing of time. */
  lemma {:induction false} NothingBeforeDue(ss: seq<State>, evs: seq<Event>, m: nat, n: nat)
    requires IsRun(ss, evs) && m <= n <= |evs| && !ss[m].firing && OnlyTicksOutside(ss, evs, m)
    requires forall e <- ss[m].due :: ss[m].due[e] > ss[n].tick
    ensures ss[n].due == ss[m].due && ss[n].born == ss[m].born && (ss[n].firing ==> !ss[n].called)
    ensures forall i :: m <= i < n ==> evs[i] in {Tick, Settle}
    decreases n
  {
    if m < n {
      TimeMovesForward(ss, evs, n - 1, n);
      NothingBeforeDue(ss, evs, m, n - 1);
      assert Enabled(ss[n - 1], evs[n - 1]);
    }
  }

  /**
   Main theorem: an entry fires at most once, at no other tick than the latest
   of the deadlines of its insertions, and between ticks it has fired if and
   only if that deadline has been reached.
   */
  lemma FiresExactlyAtLatestDeadline(ss: seq<State>, evs: seq<Event>, e: Entry, deadline: nat)
    requires IsRun(ss, evs)
    requires IsLatestDeadline(ss, evs, |evs|, e, deadline)
    ensures forall i, j :: Fires(evs, i, e) && Fires(evs, j, e) ==> i == j
    ensures forall i :: Fires(evs, i, e) ==> ss[i].tick == deadline
    ensures !Last(ss).firing ==> ((exists i :: Fires(evs, i, e)) <==> deadline <= Last(ss).tick)
  {
    var n := |evs|;
    forall i | Fires(evs, i, e)
      ensures ss[i].tick == deadline && deadline <= Last(ss).tick
      ensures forall j :: Fires(evs, j, e) ==> j == i
    {
      FiringTick(ss, evs, i, e);
      TimeMovesForward(ss, evs, i, n);
    }
    if !exists i :: Fires(evs, i, e) {
      var k :| 0 <= k < n && Inserts(evs, k, e);
      LiveUntilFired(ss, evs, k + 1, n, e);
      DueIsLatestDeadline(ss, evs, n, e);
      RunSound(ss, evs, n);
      assert Last(ss).due[e] == deadline;
    }
  }

  /** Between ticks, the entries that fired at a past tick are exactly those whose latest deadline it is. */
  lemma FiredAtTick(ss: seq<State>, evs: seq<Event>, tick: nat, e: Entry)
    requires IsRun(ss, evs) && !Last(ss).firing && tick <= Last(ss).tick
    ensures FiredAt(ss, evs, e, tick) <==> IsLatestDeadline(ss, evs, |evs|, e, tick)
  {
    if i :| Fires(evs, i, e) && ss[i].tick == tick {
      FiringTick(ss, evs, i, e);
    }
    if IsLatestDeadline(ss, evs, |evs|, e, tick) {
      FiresExactlyAtLatestDeadline(ss, evs, e, tick);
    }
  }

  /** Between ticks, an entry is scheduled for a tick exactly if that is its latest deadline and still to come. */
  lemma ScheduledExactlyIfToCome(ss: seq<State>, evs: seq<Event>, e: Entry, tick: nat)
    requires IsRun(ss, evs) && !Last(ss).firing
    ensures e in Last(ss).due && Last(ss).due[e] == tick
            <==> IsLatestDeadline(ss, evs, |evs|, e, tick) && tick > Last(ss).tick
  {
    var n := |evs|;
    RunSound(ss, evs, n);
    if e in Last(ss).due {
      DueIsLatestDeadline(ss, evs, n, e);
    } else if IsLatestDeadline(ss, evs, n, e, tick) {
      FiresExactlyAtLatestDeadline(ss, evs, e, tick);
      var i :| 0 <= i < n && Inserts(evs, i, e);
      if tick > Last(ss).tick {
        LiveUntilFired(ss, evs, i + 1, n, e);
        assert false;
      }
    }
  }

  /** `e` was inserted with this delay, at this tick and in this phase of it. */
  ghost predicate InsertedAt(ss: seq<State>, evs: seq<Event>, e: Entry, delay: nat, tick: nat, firing: bool)
    requires |evs| < |ss|
  {
    exists i :: Inserts(evs, i, e) && evs[i].delay == delay && ss[i].tick == tick && ss[i].firing == firing
  }

  ghost predicate SameInsertions(ss: seq<State>, evs: seq<Event>, ss': seq<State>, evs': seq<Event>)
    requires |evs| < |ss| && |evs'| < |ss'|
  {
    forall e, delay, tick, firing ::
      InsertedAt(ss, evs, e, delay, tick, firing) <==> InsertedAt(ss', evs', e, delay, tick, firing)
  }

  lemma SameInsertionsSameDeadline(ss: seq<State>, evs: seq<Event>, ss': seq<State>, evs': seq<Event>,
                                   e: Entry, deadline: nat)
    requires |evs| < |ss| && |evs'| < |ss'| && SameInsertions(ss, evs, ss', evs')
    requires IsLatestDeadline(ss, evs, |evs|, e, deadline)
    ensures IsLatestDeadline(ss', evs', |evs'|, e, deadline)
  {
    hide Deadline;
    var i :| 0 <= i < |evs| && Inserts(evs, i, e) && DeadlineAt(ss, evs, i) == deadline;
    assert InsertedAt(ss, evs, e, evs[i].delay, ss[i].tick, ss[i].firing);
    assert InsertedAt(ss', evs', e, evs[i].delay, ss[i].tick, ss[i].firing);
    forall j | 0 <= j < |evs'| && Inserts(evs', j, e) ensures DeadlineAt(ss', evs', j) <= deadline {
      assert InsertedAt(ss', evs', e, evs'[j].delay, ss'[j].tick, ss'[j].firing);
      assert InsertedAt(ss, evs, e, evs'[j].delay, ss'[j].tick, ss'[j].firing);
    }
  }

  /**
   What is scheduled, and what fired when, is determined by the insertions
   alone: neither the batching of ticks into `OnTimer` calls nor the order in
   which a slot is destroyed makes a difference.
   */
  lemma OnlyInsertionsMatter(ss: seq<State>, evs: seq<Event>, ss': seq<State>, evs': seq<Event>)
    requires IsRun(ss, evs) && IsRun(ss', evs') && !Last(ss).firing && !Last(ss').firing
    requires Last(ss).tick == Last(ss').tick
    requires SameInsertions(ss, evs, ss', evs')
    ensures Last(ss).due == Last(ss').due
    ensures forall e, tick: nat | tick <= Last(ss).tick :: FiredAt(ss, evs, e, tick) <==> FiredAt(ss', evs', e, tick)
  {
    forall e ensures e in Last(ss).due ==> e in Last(ss').due && Last(ss').due[e] == Last(ss).due[e] {
      if e in Last(ss).due {
        SameSchedule(ss, evs, ss', evs', e, Last(ss).due[e]);
      }
    }
    forall e ensures e in Last(ss').due ==> e in Last(ss).due {
      if e in Last(ss').due {
        SameSchedule(ss', evs', ss, evs, e, Last(ss').due[e]);
      }
    }
    forall e, tick: nat | tick <= Last(ss).tick ensures FiredAt(ss, evs, e, tick) <==> FiredAt(ss', evs', e, tick) {
      FiredAtTick(ss, evs, tick, e);
      FiredAtTick(ss', evs', tick, e);
      if IsLatestDeadline(ss, evs, |evs|, e, tick) {
        SameInsertionsSameDeadline(ss, evs, ss', evs', e, tick);
      }
      if IsLatestDeadline(ss', evs', |evs'|, e, tick) {
        SameInsertionsSameDeadline(ss', evs', ss, evs, e, tick);
      }
    }
  }

  lemma SameSchedule(ss: seq<State>, evs: seq<Event>, ss': seq<State>, evs': seq<Event>, e: Entry, tick: nat)
    requires IsRun(ss, evs) && IsRun(ss', evs') && !Last(ss).firing && !Last(ss').firing
    requires Last(ss).tick == Last(ss').tick
    requires SameInsertions(ss, evs, ss', evs')
    requires e in Last(ss).due && Last(ss).due[e] == tick
    ensures e in Last(ss').due && Last(ss').due[e] == tick
  {
    ScheduledExactlyIfToCome(ss, evs, e, tick);
    SameInsertionsSameDeadline(ss, evs, ss', evs', e, tick);
    ScheduledExactlyIfToCome(ss', evs', e, tick);
  }

  /** The first release of any of `ws`, or the length of the run if there is none. */
  ghost function FirstRelease(evs: seq<Event>, ws: set<Entry>): (n: nat)
    ensures n <= |evs|
    ensures n < |evs| ==> exists w <- ws :: Releases(evs, n, w)
    ensures forall i, w | 0 <= i < n && w in ws :: !Releases(evs, i, w)
  {
    if evs == [] then 0
    else
      var m := |evs| - 1;
      var n := FirstRelease(evs[..m], ws);
      assert forall i, w | 0 <= i < m :: Releases(evs[..m], i, w) <==> Releases(evs, i, w);
      if n < m || exists w <- ws :: Releases(evs, m, w) then n else |evs|
  }

  lemma ScheduledIsBorn(s: State)
    requires Sound(s)
    ensures s.due.Keys <= s.born
  {
  }

  ghost predicate Releases(evs: seq<Event>, i: int, e: Entry) {
    0 <= i < |evs| && (evs[i] == Fire(e) || evs[i] == Refuse(e))
  }

  /** Every entry ever seen is in exactly one place: still scheduled, or released exactly once. */
  lemma {:induction false} NoTimerLostOrDuplicated(ss: seq<State>, evs: seq<Event>, n: nat, e: Entry)
    requires IsRun(ss, evs) && n <= |evs|
    ensures e in ss[n].born <==> e in ss[n].due || exists i :: i < n && Releases(evs, i, e)
    ensures e in ss[n].due ==> !exists i :: i < n && Releases(evs, i, e)
    ensures forall i, j :: i < n && j < n && Releases(evs, i, e) && Releases(evs, j, e) ==> i == j
  {
    hide Sound, Deadline;
    if n > 0 {
      NoTimerLostOrDuplicated(ss, evs, n - 1, e);
      RunSound(ss, evs, n - 1);
      ScheduledIsBorn(ss[n - 1]);
      if Releases(evs, n - 1, e) {
        assert e in ss[n].born && e !in ss[n].due;
        assert !exists i :: i < n - 1 && Releases(evs, i, e);
      } else {
        assert forall i :: i < n && Releases(evs, i, e) ==> i < n - 1;
        assert e in ss[n].born <==> e in ss[n - 1].born || Inserts(evs, n - 1, e);
      }
    }
  }

  /** Entries without an outside owner are inserted once. */
  lemma InsertedOnce(ss: seq<State>, evs: seq<Event>, i: nat, e: Entry)
    requires IsRun(ss, evs) && Inserts(evs, i, e) && !e.Reusable()
    ensures forall j :: Inserts(evs, j, e) ==> j == i
    ensures IsLatestDeadline(ss, evs, |evs|, e, DeadlineAt(ss, evs, i))
  {
    forall j | Inserts(evs, j, e) ensures j == i {
      if i < j {
        InsertedIsBorn(ss, evs, i, j, e);
      } else if j < i {
        InsertedIsBorn(ss, evs, j, i, e);
      }
    }
  }

  /** `RunAfter`: one firing, at the deadline computed when it was called. */
  lemma OneShotFiresOnce(ss: seq<State>, evs: seq<Event>, i: nat, e: Entry)
    requires IsRun(ss, evs) && !Last(ss).firing
    requires e.Once? && Inserts(evs, i, e)
    ensures (exists j :: Fires(evs, j, e)) <==> DeadlineAt(ss, evs, i) <= Last(ss).tick
    ensures forall j :: Fires(evs, j, e) ==> ss[j].tick == DeadlineAt(ss, evs, i) > ss[i].tick
    ensures forall j, k :: Fires(evs, j, e) && Fires(evs, k, e) ==> j == k
  {
    RunSound(ss, evs, i);
    InsertedOnce(ss, evs, i, e);
    DeadlineWindow(ss[i].tick, ss[i].firing, evs[i].delay);
    FiresExactlyAtLatestDeadline(ss, evs, e, DeadlineAt(ss, evs, i));
  }

  /** With the same idle time, a later insertion is never due earlier. */
  lemma LastInsertionIsLatest(ss: seq<State>, evs: seq<Event>, i: nat, e: Entry)
    requires IsRun(ss, evs) && e.Timeout? && Inserts(evs, i, e) && forall j :: i < j ==> !Inserts(evs, j, e)
    ensures IsLatestDeadline(ss, evs, |evs|, e, DeadlineAt(ss, evs, i))
    ensures IsLatestDeadline(ss, evs, i + 1, e, DeadlineAt(ss, evs, i))
  {
    forall j | 0 <= j < |evs| && Inserts(evs, j, e) ensures DeadlineAt(ss, evs, j) <= DeadlineAt(ss, evs, i) {
      RunSound(ss, evs, j);
      RunSound(ss, evs, i);
      TimeMovesForward(ss, evs, j, i);
      DeadlineMonotone(ss[j].tick, ss[j].firing, ss[i].tick, ss[i].firing, e.idle);
    }
  }

  lemma InsertedWithIdleTime(ss: seq<State>, evs: seq<Event>, i: nat, e: Entry)
    requires IsRun(ss, evs) && e.Timeout? && Inserts(evs, i, e)
    ensures Accepted(e.idle) && (1 <= e.idle < MINUTE ==> DeadlineAt(ss, evs, i) == ss[i].tick + e.idle)
  {
    assert Enabled(ss[i], evs[i]);
    RunSound(ss, evs, i);
    DeadlineWindow(ss[i].tick, ss[i].firing, e.idle);
  }

  /**
   A connection's timeout entry, however often it was inserted again, fires
   exactly once, at the deadline of the last insertion; for idle times of 1 to
   59 seconds that is the last activity plus the idle time.
   */
  lemma IdleTimeoutFollowsLastActivity(ss: seq<State>, evs: seq<Event>, i: nat, e: Entry)
    requires IsRun(ss, evs) && !Last(ss).firing
    requires e.Timeout? && Inserts(evs, i, e) && forall j :: i < j ==> !Inserts(evs, j, e)
    ensures (exists j :: Fires(evs, j, e)) <==> DeadlineAt(ss, evs, i) <= Last(ss).tick
    ensures forall j :: Fires(evs, j, e) ==> i < j && ss[j].tick == DeadlineAt(ss, evs, i)
    ensures forall j, k :: Fires(evs, j, e) && Fires(evs, k, e) ==> j == k
    ensures 1 <= e.idle < MINUTE ==> DeadlineAt(ss, evs, i) == ss[i].tick + e.idle
  {
    hide Deadline, IsLatestDeadline;
    var deadline := DeadlineAt(ss, evs, i);
    InsertedWithIdleTime(ss, evs, i, e);
    LastInsertionIsLatest(ss, evs, i, e);
    FiresExactlyAtLatestDeadline(ss, evs, e, deadline);
    forall j | Fires(evs, j, e) ensures i < j {
      if j < i {
        RunSound(ss, evs, j);
        DeadStaysDead(ss, evs, j + 1, |evs|, e);
      }
    }
  }

  /** The debt of a periodic callback is paid in the tick in which it arose. */
  lemma {:induction false} OwedIsInserted(ss: seq<State>, evs: seq<Event>, m: nat, e: Entry) returns (i: nat)
    requires IsRun(ss, evs) && m <= |evs|
    requires ss[m].owed == Some(e) && !Last(ss).firing
    ensures m <= i && Inserts(evs, i, e) && ss[i].tick == ss[m].tick && ss[i].firing
    decreases |evs| - m
  {
    RunSound(ss, evs, m);
    if evs[m].Insert? && evs[m].entry == e {
      i := m;
    } else {
      i := OwedIsInserted(ss, evs, m + 1, e);
    }
  }

  /** A later generation exists only because the one before it fired. */
  lemma {:induction false} OwedByFiring(ss: seq<State>, evs: seq<Event>, n: nat, e: Entry) returns (i: nat)
    requires IsRun(ss, evs) && n <= |evs|
    requires e.Every? && ss[n].owed == NextGeneration(e)
    ensures i < n && Fires(evs, i, e)
  {
    if Fires(evs, n - 1, e) {
      i := n - 1;
    } else {
      i := OwedByFiring(ss, evs, n - 1, e);
    }
  }

  /** `RunEvery`: successive firings are always exactly one period apart. */
  lemma PeriodicNeverDrifts(ss: seq<State>, evs: seq<Event>, i: nat, e: Entry)
    requires IsRun(ss, evs) && !Last(ss).firing
    requires e.Every? && Fires(evs, i, e)
    ensures var next := NextGeneration(e).value;
            && ((exists j :: Fires(evs, j, next)) <==> ss[i].tick + Period(e.interval) <= Last(ss).tick)
            && (forall j :: Fires(evs, j, next) ==> ss[j].tick == ss[i].tick + Period(e.interval))
  {
    var next := NextGeneration(e).value;
    RunSound(ss, evs, i);
    var k := OwedIsInserted(ss, evs, i + 1, next);
    InsertedOnce(ss, evs, k, next);
    RearmIsOnePeriodLater(ss[i].tick, e.interval);
    FiresExactlyAtLatestDeadline(ss, evs, next, DeadlineAt(ss, evs, k));
  }

  lemma FiredAfterPrevious(ss: seq<State>, evs: seq<Event>, j: nat, previous: Entry) returns (i: nat)
    requires IsRun(ss, evs) && previous.Every? && Fires(evs, j, NextGeneration(previous).value)
    ensures Fires(evs, i, previous)
  {
    var e := NextGeneration(previous).value;
    DueIsLatestDeadline(ss, evs, j, e);
    var k :| 0 <= k < j && Inserts(evs, k, e);
    i := OwedByFiring(ss, evs, k, previous);
  }

  /** Over a whole run, generation `g` fires `g` periods after the first firing, and never skips. */
  lemma {:induction false} PeriodicSchedule(ss: seq<State>, evs: seq<Event>, i: nat, id: nat, interval: nat, g: nat)
    requires IsRun(ss, evs) && !Last(ss).firing
    requires Fires(evs, i, Every(id, interval, 0))
    ensures (exists j :: Fires(evs, j, Every(id, interval, g))) <==> ss[i].tick + g * Period(interval) <= Last(ss).tick
    ensures forall j :: Fires(evs, j, Every(id, interval, g)) ==> ss[j].tick == ss[i].tick + g * Period(interval)
  {
    if g == 0 {
      FiringTick(ss, evs, i, Every(id, interval, 0));
      TimeMovesForward(ss, evs, i, |evs|);
    } else {
      PeriodicSchedule(ss, evs, i, id, interval, g - 1);
      PeriodAdds(g, Period(interval));
      hide IsRun, Period;
      var previous := Every(id, interval, g - 1);
      if j :| Fires(evs, j, previous) {
        PeriodicNeverDrifts(ss, evs, j, previous);
      } else if j :| Fires(evs, j, Every(id, interval, g)) {
        var f := FiredAfterPrevious(ss, evs, j, previous);
        assert false;
      }
    }
  }

  lemma PeriodAdds(g: nat, period: nat)
    requires g > 0
    ensures g * period == (g - 1) * period + period
  {
  }

  lemma {:induction false} FirstPeriodFired(ss: seq<State>, evs: seq<Event>, j: nat, id: nat, interval: nat, g: nat)
    requires IsRun(ss, evs) && Fires(evs, j, Every(id, interval, g))
    ensures exists i :: Fires(evs, i, Every(id, interval, 0))
    decreases g
  {
    if g > 0 {
      var i := FiredAfterPrevious(ss, evs, j, Every(id, interval, g - 1));
      FirstPeriodFired(ss, evs, i, id, interval, g - 1);
    }
  }

  /** When period number `g` ends that began to be counted at tick `first`. */
  function PeriodEnd(first: nat, interval: nat, g: nat): nat {
    first + g * Period(interval)
  }

  /** The same, counted from the call of `RunEvery`: the first firing is at the deadline computed then. */
  lemma PeriodicFromStart(ss: seq<State>, evs: seq<Event>, k: nat, id: nat, interval: nat, g: nat)
    requires IsRun(ss, evs) && !Last(ss).firing
    requires Inserts(evs, k, Every(id, interval, 0))
    ensures var due := PeriodEnd(DeadlineAt(ss, evs, k), interval, g);
            && ((exists j :: Fires(evs, j, Every(id, interval, g))) <==> due <= Last(ss).tick)
            && (forall j :: Fires(evs, j, Every(id, interval, g)) ==> ss[j].tick == due)
  {
    hide Deadline, Period, IsLatestDeadline;
    var first := Every(id, interval, 0);
    InsertedOnce(ss, evs, k, first);
    FiresExactlyAtLatestDeadline(ss, evs, first, DeadlineAt(ss, evs, k));
    if i :| Fires(evs, i, first) {
      PeriodicSchedule(ss, evs, i, id, interval, g);
    } else if j :| Fires(evs, j, Every(id, interval, g)) {
      FirstPeriodFired(ss, evs, j, id, interval, g);
      assert false;
    }
  }
}
