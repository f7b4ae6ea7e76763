/**
 Idle timeouts of UDP sockets (src/network/net/UdpSocket.cpp, UdpSocket.h): the
 socket keeps only a weak pointer to its timeout entry, and inserts the same
 entry again whenever there is activity. The wheel holds the strong pointers,
 and the entry's destructor, which knows the socket, is the timeout.
 */
module UdpIdle {
  import opened Prelude
  import opened Deadlines
  import opened Calendar
  import opened Callbacks
  import opened TimingWheels

  /** No entry of `ws` was destroyed before tick `at`. */
  ghost predicate NoneReleasedBefore(ss: seq<State>, evs: seq<Event>, ws: set<Entry>, at: nat)
    requires |evs| < |ss|
  {
    forall j, w | w in ws && Releases(evs, j, w) :: ss[j].tick >= at
  }

  ghost predicate SomeReleasedAt(ss: seq<State>, evs: seq<Event>, ws: set<Entry>, at: nat)
    requires |evs| < |ss|
  {
    exists j, w :: w in ws && Releases(evs, j, w) && ss[j].tick == at
  }

  lemma LiveAreNotReleased(ss: seq<State>, evs: seq<Event>, ws: set<Entry>)
    requires IsRun(ss, evs) && ws <= Last(ss).due.Keys
    ensures forall j, w | w in ws :: !Releases(evs, j, w)
  {
    forall j, w | w in ws && Releases(evs, j, w) ensures false {
      NoTimerLostOrDuplicated(ss, evs, |evs|, w);
    }
  }

  lemma NoneEarlier(ss: seq<State>, evs: seq<Event>, ws: set<Entry>, first: nat, at: nat)
    requires |evs| < |ss| && NoneReleasedBefore(ss, evs, ws, first)
    ensures at <= first ==> NoneReleasedBefore(ss, evs, ws, at)
  {
  }

  lemma NoneReleased(ss: seq<State>, evs: seq<Event>, ws: set<Entry>, at: nat)
    requires IsRun(ss, evs) && ws <= Last(ss).due.Keys
    ensures NoneReleasedBefore(ss, evs, ws, at)
  {
    LiveAreNotReleased(ss, evs, ws);
  }

  /** If any of `ws` is gone, there is a tick at which the first of them went. */
  lemma FirstReleaseTick(ss: seq<State>, evs: seq<Event>, ws: set<Entry>)
    requires IsRun(ss, evs) && exists w <- ws :: w in Last(ss).born && w !in Last(ss).due
    ensures var n := FirstRelease(evs, ws);
            n < |evs| && ss[n].tick <= Last(ss).tick
            && SomeReleasedAt(ss, evs, ws, ss[n].tick) && NoneReleasedBefore(ss, evs, ws, ss[n].tick)
  {
    var n := FirstRelease(evs, ws);
    var w :| w in ws && w in Last(ss).born && w !in Last(ss).due;
    NoTimerLostOrDuplicated(ss, evs, |evs|, w);
    TimeMovesForward(ss, evs, n, |evs|);
    forall j, x | x in ws && Releases(evs, j, x) ensures ss[j].tick >= ss[n].tick {
      assert n <= j;
      TimeMovesForward(ss, evs, n, j);
    }
  }

  /** What is known about a closed socket's entries survives the continuation of the run, new entries included. */
  lemma ReleasesPersist(ss: seq<State>, evs: seq<Event>, ws: set<Entry>,
                        ss': seq<State>, evs': seq<Event>, ws': set<Entry>, at: nat)
    requires IsRun(ss, evs) && IsRun(ss', evs') && evs <= evs' && at <= Last(ss).tick
    requires ws <= ws' && forall w <- ws' - ws :: w !in Last(ss).born
    requires NoneReleasedBefore(ss, evs, ws, at)
    ensures NoneReleasedBefore(ss', evs', ws', at) && at <= Last(ss').tick
    ensures SomeReleasedAt(ss, evs, ws, at) ==> SomeReleasedAt(ss', evs', ws', at)
  {
    RunsExtend(ss, evs, ss', evs');
    TimeMovesForward(ss', evs', |evs|, |evs'|);
    forall j, w | w in ws' && Releases(evs', j, w) ensures ss'[j].tick >= at {
      if j < |evs| {
        assert Releases(evs, j, w);
        NoTimerLostOrDuplicated(ss, evs, |evs|, w);
      } else {
        TimeMovesForward(ss', evs', |evs|, j);
      }
    }
    if SomeReleasedAt(ss, evs, ws, at) {
      var j, w :| w in ws && Releases(evs, j, w) && ss[j].tick == at;
      assert Releases(evs', j, w);
    }
  }

  /** What was alive or unknown when the run was `evs` was released later than that. */
  lemma ReleasedSince(ss: seq<State>, evs: seq<Event>, ss': seq<State>, evs': seq<Event>, j: int, w: Entry)
    requires IsRun(ss, evs) && IsRun(ss', evs') && evs <= evs' && Releases(evs', j, w) && !Last(ss).firing
    requires w in Last(ss).due || w !in Last(ss).born
    ensures Last(ss).tick <= ss'[j].tick
    ensures OnlyTicksOutside(ss', evs', |evs|) ==> Last(ss).tick < ss'[j].tick
  {
    RunsExtend(ss, evs, ss', evs');
    if j < |evs| {
      assert Releases(evs, j, w);
      NoTimerLostOrDuplicated(ss, evs, |evs|, w);
    } else {
      TimeMovesForward(ss', evs', |evs|, j);
    }
  }

  /** Between ticks, a timeout entry that is new or alive may be inserted with its own idle time. */
  lemma TimeoutInsertion(s: State, e: Entry)
    requires !s.firing && e.Timeout? && (e !in s.born || e in s.due)
    ensures Accepted(e.idle) ==> MayInsert(s, e, e.idle)
    ensures var s' := Apply(s, Insert(e, e.idle));
            s'.due.Keys == s.due.Keys + {e} && s'.born == s.born + {e} && s'.tick == s.tick && !s'.firing
  {
  }

  class UdpSocket {
    const loop: TimingWheel
    var fd: int
    var closed: bool
    var maxIdleTime: nat
    var timeoutEntry: Option<Entry>  // weak
    var watchers: set<Entry>         // the timeout entries whose weak pointer names this socket
    ghost var closeCalls: nat
    ghost var closedAt: nat
    ghost var timedOut: bool         // closed by the destructor of an entry

    ghost predicate Valid()
      reads this, loop
    {
      && loop.Idle()
      && (timeoutEntry.Some? ==> IsWatcher(timeoutEntry.value))
      && AsOf(loop.states, loop.events, watchers)
    }

    predicate IsWatcher(e: Entry)
      reads `watchers, `maxIdleTime
    {
      e in watchers && e.Timeout? && e.idle == maxIdleTime
    }

    /**
     An open socket's entries are all alive: the first one of them that was
     destroyed closed it, at that very tick.
     */
    ghost predicate AsOf(ss: seq<State>, evs: seq<Event>, ws: set<Entry>)
      reads `closed, `fd, `closeCalls, `closedAt, `timedOut
    {
      && |ss| == |evs| + 1
      && (forall w <- ws :: w.Timeout? && w in Last(ss).born)
      && closeCalls == (if closed then 1 else 0)
      && if closed then fd <= 0 && ClosedAsOf(ss, evs, ws) else ws <= Last(ss).due.Keys
    }

    ghost predicate ClosedAsOf(ss: seq<State>, evs: seq<Event>, ws: set<Entry>)
      requires |evs| < |ss|
      reads `closedAt, `timedOut
    {
      && closedAt <= Last(ss).tick
      && NoneReleasedBefore(ss, evs, ws, closedAt)
      && (timedOut ==> SomeReleasedAt(ss, evs, ws, closedAt))
    }

    constructor (loop: TimingWheel, fd: int)
      requires loop.Idle()
      ensures Valid() && this.loop == loop && this.fd == fd && !closed && timeoutEntry == None && watchers == {}
      ensures maxIdleTime == 30 && closeCalls == 0
    {
      this.loop, this.fd, closed, maxIdleTime, timeoutEntry, watchers := loop, fd, false, 30, None, {};
      closeCalls, closedAt, timedOut := 0, 0, false;
    }

    /**
     Makes a new entry and inserts it; an entry from an earlier call is not
     found again but stays in the wheel with its deadline. If the wheel refuses
     the time, the entry dies with the local pointer and the socket closes.
     `onClose` is what the close callback asks of the wheel if the entry's
     destructor gets to run it.
     */
    method EnableCheckIdleTimeout(maxTime: nat, onClose: Function)
      requires Valid()
      modifies this, loop
      ensures Valid() && timeoutEntry == Some(Timeout(old(loop.nextId), maxTime)) && maxIdleTime == maxTime
      ensures timeoutEntry.value !in old(loop.Now()).born && watchers == old(watchers) + {timeoutEntry.value}
      ensures loop.lastTs == old(loop.lastTs) && loop.tick == old(loop.tick)
      ensures loop.Present() == Asked(Watch(maxTime, onClose), old(loop.Present()))
      ensures fd == if closed && !old(closed) && old(fd) > 0 then -1 else old(fd)
      ensures Accepted(maxTime) ==>
                && closed == old(closed)
                && loop.events == old(loop.events) + [Insert(timeoutEntry.value, maxTime)]
                && loop.Now() == Apply(old(loop.Now()), Insert(timeoutEntry.value, maxTime))
      ensures !Accepted(maxTime) ==> old(loop.events) + [Refuse(timeoutEntry.value)] <= loop.events && closed
      ensures if old(closed) || Accepted(maxTime) then (closedAt, timedOut) == old((closedAt, timedOut))
              else closedAt == loop.tick && timedOut
    {
      hide TimingWheel.Inv, TimingWheel.Answered, Continues, Asked, Sound, IsRun, AsOf, Continued, Apply, Accepted;
      loop.Runs();
      loop.LiveEntries();
      var entry := Timeout(loop.nextId, maxTime);
      TimeoutInsertion(loop.Now(), entry);
      maxIdleTime, timeoutEntry, watchers := maxTime, Some(entry), watchers + {entry};
      loop.Launch(Watch(maxTime, onClose), onClose);
      OneAdded(old(loop.states), old(loop.events), old(watchers), entry);
      if Accepted(maxTime) {
        AllAlive(old(loop.states), old(loop.events), old(watchers));
        Follows(old(loop.states), old(loop.events), old(watchers));
      } else {
        Gone(entry, |old(loop.events)|);
        RunDestructors(old(loop.states), old(loop.events), old(watchers), false, 0);
      }
    }

    /** Does nothing once the entry is gone; otherwise the entry gets a further reference. */
    method ExtendLife()
      requires Valid()
      modifies loop
      ensures Valid() && loop.lastTs == old(loop.lastTs) && loop.tick == old(loop.tick)
      ensures var alive := old(timeoutEntry.Some? && timeoutEntry.value in loop.Now().due);
              if alive then
                && loop.events == old(loop.events) + [Insert(timeoutEntry.value, maxIdleTime)]
                && loop.Now() == Apply(old(loop.Now()), Insert(timeoutEntry.value, maxIdleTime))
              else loop.events == old(loop.events) && loop.Now() == old(loop.Now())
    {
      hide TimingWheel.Inv, TimingWheel.Answered, Continues, Requested, CodeOf, Enabled;
      hide Sound, IsRun, AsOf, Continued, Apply, MayInsert, Accepted;
      loop.Runs();
      loop.LiveEntries();
      if timeoutEntry.Some? && timeoutEntry.value in loop.refs {
        TimeoutInsertion(loop.Now(), timeoutEntry.value);
        var _ := loop.InsertEntry(maxIdleTime, timeoutEntry.value);
      }
      NothingAdded(old(loop.states), old(loop.events));
      AllAlive(old(loop.states), old(loop.events), watchers);
      Follows(old(loop.states), old(loop.events), watchers);
    }

    /** The part of `OnRead` and `OnWrite` that precedes the transfers. */
    method OnActivity()
      requires Valid()
      modifies loop
      ensures Valid() && loop.lastTs == old(loop.lastTs) && loop.tick == old(loop.tick)
      ensures closed || timeoutEntry.None? ==> loop.events == old(loop.events) && loop.Now() == old(loop.Now())
      ensures !closed && timeoutEntry.Some? ==>
                && loop.events == old(loop.events) + [Insert(timeoutEntry.value, maxIdleTime)]
                && loop.Now() == Apply(old(loop.Now()), Insert(timeoutEntry.value, maxIdleTime))
    {
      if closed {
        return;
      }
      ExtendLife();
    }

    /**
     The event loop runs the wheel's timers, and with them the destructors of
     this socket's entries. In the meantime some timer's callback may have
     closed the socket (`forced`), and others may have enabled idle checks for
     it: then those of the entries `enabled` that are new and alive are its own.
     */
    method OnTimer(now: int, forced: bool, enabled: set<Entry>)
      requires Valid() && (forced ==> Elapsed(loop.lastTs, now) > 0)
      modifies this, loop
      ensures Valid()
      ensures watchers == old(watchers) + set e <- enabled | e.Timeout? && e.id >= old(loop.nextId) && e in loop.refs
      ensures if watchers == old(watchers) then timeoutEntry == old(timeoutEntry) && maxIdleTime == old(maxIdleTime)
              else timeoutEntry.Some? && timeoutEntry.value in watchers - old(watchers)
      ensures loop.lastTs == NextTs(old(loop.lastTs), now)
      ensures loop.tick == old(loop.tick) + Elapsed(old(loop.lastTs), now)
      ensures old(loop.events) <= loop.events && OnlyTicksOutside(loop.states, loop.events, |old(loop.events)|)
      ensures closed <==> old(closed) || forced || exists w <- watchers :: w !in loop.Now().due
      ensures if old(closed) then closedAt == old(closedAt) && timedOut == old(timedOut)
              else closed ==> (forced || timedOut) && old(loop.tick) < closedAt <= loop.tick
      ensures fd == if closed && !old(closed) && old(fd) > 0 then -1 else old(fd)
    {
      hide TimingWheel.Inv, TimingWheel.Answered, Continues, IsRun, AsOf, Continued, Sound, Accepted;
      hide OnlyTicksOutside, Included, Elapsed, NextTs;
      loop.Runs();
      var firstId := loop.nextId;
      loop.OnTimer(now);
      loop.Runs();
      loop.LiveEntries();
      var adopted := Adopted(firstId, enabled);
      if !(adopted <= watchers) {
        var e :| e in adopted && e !in watchers;
        maxIdleTime, timeoutEntry, watchers := e.idle, Some(e), watchers + adopted;
      }
      assert watchers == old(watchers) + adopted;
      SomeAdded(old(loop.states), old(loop.events), old(watchers), adopted);
      ghost var at: nat :| forced ==> old(loop.tick) < at <= loop.tick;
      RunDestructors(old(loop.states), old(loop.events), old(watchers), forced, at);
    }

    /** Timeout entries made since the wheel's next name was `firstId`, and still alive. */
    function Adopted(firstId: nat, enabled: set<Entry>): set<Entry>
      reads loop
    {
      set e <- enabled | e.Timeout? && e.id >= firstId && e in loop.refs
    }

    /**
     `~UdpTimeoutEntry` of every entry that the wheel has let go of since the
     run was `evs` and the entries were `ws`: it locks the socket and times it
     out. Only the first one finds it open, and even that one does not if
     somebody closed the socket before, at tick `at`.
     */
    method RunDestructors(ghost ss: seq<State>, ghost evs: seq<Event>, ghost ws: set<Entry>,
                          forced: bool, ghost at: nat)
      requires AsOf(ss, evs, ws) && Continued(ss, evs, ws) && !Last(ss).firing && (forced ==> at <= loop.tick)
      modifies `closed, `closeCalls, `closedAt, `timedOut, `fd
      ensures AsOf(loop.states, loop.events, watchers)
      ensures closed <==> old(closed) || forced || exists w <- watchers :: w !in loop.Now().due
      ensures if old(closed) then closedAt == old(closedAt) && timedOut == old(timedOut)
              else closed ==> if timedOut then InTime(ss, evs) else forced && closedAt == at
      ensures fd == if closed && !old(closed) && old(fd) > 0 then -1 else old(fd)
    {
      hide TimingWheel.Inv, TimingWheel.Answered, Continues, Sound, IsRun, NoneReleasedBefore, SomeReleasedAt;
      loop.Runs();
      loop.LiveEntries();
      BornInTheEnd(ss, evs, ws);
      ghost var was := closed;
      if exists w :: w in watchers && w !in loop.refs {
        FirstReleaseTick(loop.states, loop.events, watchers);
        ghost var first := loop.states[FirstRelease(loop.events, watchers)].tick;
        if forced {
          NoneEarlier(loop.states, loop.events, watchers, first, at);
        }
        CloseAt(if forced && at < first then at else first, !(forced && at < first));
      } else if forced {
        NoneReleased(loop.states, loop.events, watchers, at);
        CloseAt(at, false);
      }
      if was {
        Follows(ss, evs, ws);
      } else {
        OpenUntilThen(ss, evs, ws);
      }
    }

    /** The loop's run continues the run `evs`, and what was added to `ws` is new since then. */
    ghost predicate Continued(ss: seq<State>, evs: seq<Event>, ws: set<Entry>)
      reads `watchers, loop
    {
      && loop.Idle() && IsRun(ss, evs) && evs <= loop.events
      && ws <= watchers
      && forall w <- watchers - ws :: w.Timeout? && w !in Last(ss).born && w in loop.Now().born
    }

    lemma NothingAdded(ss: seq<State>, evs: seq<Event>)
      requires loop.Idle() && IsRun(ss, evs) && evs <= loop.events
      ensures Continued(ss, evs, watchers)
    {
    }

    lemma OneAdded(ss: seq<State>, evs: seq<Event>, ws: set<Entry>, e: Entry)
      requires loop.Idle() && IsRun(ss, evs) && evs <= loop.events
      requires watchers == ws + {e} && e.Timeout? && e !in Last(ss).born && e in loop.Now().born
      ensures Continued(ss, evs, ws)
    {
    }

    lemma SomeAdded(ss: seq<State>, evs: seq<Event>, ws: set<Entry>, es: set<Entry>)
      requires loop.Idle() && IsRun(ss, evs) && evs <= loop.events && watchers == ws + es
      requires forall e <- es :: e.Timeout? && e !in Last(ss).born && e in loop.Now().born
      ensures Continued(ss, evs, ws)
    {
    }

    lemma BornInTheEnd(ss: seq<State>, evs: seq<Event>, ws: set<Entry>)
      requires AsOf(ss, evs, ws) && Continued(ss, evs, ws)
      ensures forall w <- watchers :: w.Timeout? && w in loop.Now().born
    {
      RunsExtend(ss, evs, loop.states, loop.events);
      BornGrows(loop.states, loop.events, |evs|, |loop.events|);
    }

    lemma Follows(ss: seq<State>, evs: seq<Event>, ws: set<Entry>)
      requires AsOf(ss, evs, ws) && Continued(ss, evs, ws)
      requires closed || watchers <= loop.Now().due.Keys
      ensures AsOf(loop.states, loop.events, watchers)
    {
      BornInTheEnd(ss, evs, ws);
      loop.Runs();
      if closed {
        ReleasesPersist(ss, evs, ws, loop.states, loop.events, watchers, closedAt);
      }
    }

    lemma AllAlive(ss: seq<State>, evs: seq<Event>, ws: set<Entry>)
      requires AsOf(ss, evs, ws) && |ss| > 0 && Last(ss).due.Keys <= loop.Now().due.Keys
      requires forall w <- watchers - ws :: w in loop.Now().due
      ensures closed || watchers <= loop.Now().due.Keys
    {
    }

    /** A timeout no earlier than the run `evs` ends and, if only the wheel has made it longer, later. */
    ghost predicate InTime(ss: seq<State>, evs: seq<Event>)
      requires |ss| > 0
      reads `closedAt, loop
    {
      && Last(ss).tick <= closedAt <= loop.tick && |loop.events| < |loop.states|
      && (OnlyTicksOutside(loop.states, loop.events, |evs|) ==> Last(ss).tick < closedAt)
    }

    lemma OpenUntilThen(ss: seq<State>, evs: seq<Event>, ws: set<Entry>)
      requires Continued(ss, evs, ws) && ws <= Last(ss).due.Keys && !Last(ss).firing
      requires AsOf(loop.states, loop.events, watchers)
      ensures closed && timedOut ==> InTime(ss, evs)
    {
      hide TimingWheel.Inv, TimingWheel.Answered, Continues, IsRun, Sound;
      loop.Runs();
      if closed && timedOut {
        var j, w :| w in watchers && Releases(loop.events, j, w) && loop.states[j].tick == closedAt;
        ReleasedSince(ss, evs, loop.states, loop.events, j, w);
      }
    }

    lemma Gone(e: Entry, i: nat)
      requires loop.Idle() && Releases(loop.events, i, e)
      ensures e in loop.Now().born && e !in loop.Now().due
    {
      NoTimerLostOrDuplicated(loop.states, loop.events, |loop.events|, e);
    }

    /** `OnTimeout`, or a close for another reason, at tick `at`. */
    method CloseAt(ghost at: nat, ghost timeout: bool)
      modifies `closed, `closeCalls, `closedAt, `timedOut, `fd
      ensures closed && closeCalls == old(closeCalls) + if old(closed) then 0 else 1
      ensures if old(closed) then unchanged(`closedAt, `timedOut, `fd)
              else closedAt == at && timedOut == timeout && fd == if old(fd) > 0 then -1 else old(fd)
    {
      if !closed {
        closedAt, timedOut := at, timeout;
      }
      OnClose();
    }

    /** Closing for any other reason. */
    method ForceClose()
      requires Valid()
      modifies `closed, `closeCalls, `closedAt, `timedOut, `fd
      ensures Valid() && closed && closeCalls == 1
      ensures if old(closed) then unchanged(`closedAt, `timedOut, `fd)
              else closedAt == loop.tick && !timedOut && fd == if old(fd) > 0 then -1 else old(fd)
    {
      hide TimingWheel.Inv, TimingWheel.Answered, Continues, IsRun;
      loop.Runs();
      if !closed {
        LiveAreNotReleased(loop.states, loop.events, watchers);
      }
      CloseAt(loop.tick, false);
    }

    /** The close callback runs, and the descriptor is closed, for the first close only. */
    method OnClose()
      modifies `closed, `closeCalls, `fd
      ensures closed && closeCalls == old(closeCalls) + if old(closed) then 0 else 1
      ensures fd == if !old(closed) && old(fd) > 0 then -1 else old(fd)
    {
      if !closed {
        closed := true;
        closeCalls := closeCalls + 1;
        if fd > 0 {
          fd := -1;
        }
      }
    }
  }

  /** An accepted timeout entry is released only by firing. */
  lemma ReleasedByFiring(ss: seq<State>, evs: seq<Event>, j: nat, w: Entry)
    requires IsRun(ss, evs) && w.Timeout? && Accepted(w.idle) && Releases(evs, j, w)
    ensures Fires(evs, j, w) && IsLatestDeadline(ss, evs, |evs|, w, ss[j].tick)
  {
    assert Enabled(ss[j], evs[j]);
    FiringTick(ss, evs, j, w);
  }

  /** While a socket is open, the latest deadline of every one of its entries is still to come. */
  lemma OpenSocketIsInTime(s: UdpSocket, w: Entry, deadline: nat)
    requires s.Valid() && !s.closed && w in s.watchers
    requires IsLatestDeadline(s.loop.states, s.loop.events, |s.loop.events|, w, deadline)
    ensures s.loop.tick < deadline
  {
    hide TimingWheel.Inv, TimingWheel.Answered, Continues;
    s.loop.Runs();
    ScheduledExactlyIfToCome(s.loop.states, s.loop.events, w, s.loop.Now().due[w]);
  }

  /** When one of the socket's entries is due. */
  ghost predicate DueAt(s: UdpSocket, w: Entry, deadline: nat)
    requires s.Valid()
    reads s, s.loop
  {
    w in s.watchers && IsLatestDeadline(s.loop.states, s.loop.events, |s.loop.events|, w, deadline)
  }

  /**
   A socket that nobody closes otherwise is closed once the earliest of the
   latest deadlines of its entries is reached, at that very tick.
   */
  lemma ClosesAtEarliestDeadline(s: UdpSocket)
    requires s.Valid() && (s.closed ==> s.timedOut) && forall w <- s.watchers :: Accepted(w.idle)
    ensures s.closed <==> exists w, deadline: nat :: DueAt(s, w, deadline) && deadline <= s.loop.tick
    ensures s.closed ==> (exists w :: DueAt(s, w, s.closedAt)) && s.closeCalls == 1
    ensures s.closed ==> forall w, deadline: nat | DueAt(s, w, deadline) :: s.closedAt <= deadline
  {
    var ss, evs := s.loop.states, s.loop.events;
    s.loop.Runs();
    if s.closed {
      var j, w :| w in s.watchers && Releases(evs, j, w) && ss[j].tick == s.closedAt;
      ReleasedByFiring(ss, evs, j, w);
      assert DueAt(s, w, s.closedAt);
      forall x, deadline: nat | DueAt(s, x, deadline) ensures s.closedAt <= deadline {
        FiresExactlyAtLatestDeadline(ss, evs, x, deadline);
        if i :| Fires(evs, i, x) {
          assert Releases(evs, i, x);
        }
      }
    } else {
      forall w, deadline: nat | DueAt(s, w, deadline) ensures deadline > s.loop.tick {
        OpenSocketIsInTime(s, w, deadline);
      }
    }
  }

  /** The last insertion of the socket's current entry, made while the socket was open and not followed by others. */
  ghost predicate LastActivity(s: UdpSocket, last: nat)
    requires s.Valid()
    reads s, s.loop
  {
    && s.timeoutEntry.Some? && Inserts(s.loop.events, last, s.timeoutEntry.value)
    && (forall j, w | last < j && w in s.watchers :: !Inserts(s.loop.events, j, w))
    && s.watchers <= s.loop.states[last + 1].due.Keys
  }

  /** After the last activity, the calendar's tick of each entry is its latest deadline for good. */
  lemma DueAfterLastActivity(s: UdpSocket, last: nat, w: Entry)
    requires s.Valid() && LastActivity(s, last) && w in s.watchers
    ensures DueAt(s, w, s.loop.states[last + 1].due[w])
    ensures w == s.timeoutEntry.value ==>
              s.loop.states[last + 1].due[w] == DeadlineAt(s.loop.states, s.loop.events, last)
  {
    var ss, evs := s.loop.states, s.loop.events;
    s.loop.Runs();
    DueIsLatestDeadline(ss, evs, last + 1, w);
    if w == s.timeoutEntry.value {
      LastInsertionIsLatest(ss, evs, last, w);
    }
  }

  /**
   After its last activity, a socket whose deadline has come is closed; it was
   closed at the deadline of that activity if and only if, at the time of the
   activity, no other entry of it, left over from an earlier call of
   `EnableCheckIdleTimeout`, was due before that.
   */
  lemma ClosesAtLastActivityIff(s: UdpSocket, last: nat)
    requires s.Valid() && (s.closed ==> s.timedOut) && (forall w <- s.watchers :: Accepted(w.idle))
    requires LastActivity(s, last) && DeadlineAt(s.loop.states, s.loop.events, last) <= s.loop.tick
    ensures var deadline := DeadlineAt(s.loop.states, s.loop.events, last);
            && s.closed && s.closedAt <= deadline
            && (s.closedAt == deadline <==> forall w <- s.watchers :: s.loop.states[last + 1].due[w] >= deadline)
  {
    var deadline := DeadlineAt(s.loop.states, s.loop.events, last);
    ClosesAtEarliestDeadline(s);
    DueAfterLastActivity(s, last, s.timeoutEntry.value);
    assert DueAt(s, s.timeoutEntry.value, deadline);
    forall w <- s.watchers ensures DueAt(s, w, s.loop.states[last + 1].due[w]) {
      DueAfterLastActivity(s, last, w);
    }
    var first :| DueAt(s, first, s.closedAt);
    DueOnce(s, first, s.closedAt, s.loop.states[last + 1].due[first]);
  }

  lemma DueOnce(s: UdpSocket, w: Entry, a: nat, b: nat)
    requires s.Valid() && DueAt(s, w, a) && DueAt(s, w, b)
    ensures a == b
  {
  }

  /** With one `EnableCheckIdleTimeout`: closed exactly from the deadline of the last activity on, at that tick. */
  lemma IdleSocketTimesOut(s: UdpSocket, last: nat)
    requires s.Valid() && (s.closed ==> s.timedOut) && LastActivity(s, last) && s.watchers == {s.timeoutEntry.value}
    ensures var deadline := DeadlineAt(s.loop.states, s.loop.events, last);
            && (s.closed <==> deadline <= s.loop.tick)
            && (s.closed ==> s.closedAt == deadline && s.closeCalls == 1)
            && (1 <= s.maxIdleTime < MINUTE ==> deadline == s.loop.states[last].tick + s.maxIdleTime)
  {
    hide TimingWheel.Inv, TimingWheel.Answered, Continues, IsRun, Sound, Accepted, Deadline, IsLatestDeadline;
    s.loop.Runs();
    var e, deadline := s.timeoutEntry.value, DeadlineAt(s.loop.states, s.loop.events, last);
    InsertedWithIdleTime(s.loop.states, s.loop.events, last, e);
    ClosesAtEarliestDeadline(s);
    DueAfterLastActivity(s, last, e);
    assert DueAt(s, e, deadline);
    forall d: nat | DueAt(s, e, d) ensures d == deadline {
      DueOnce(s, e, d, deadline);
    }
  }

  /** Nothing was due yet, so the wheel holds what it held. */
  lemma StaysQuiet(loop: TimingWheel, ss: seq<State>, evs: seq<Event>)
    requires loop.Idle() && IsRun(ss, evs) && evs <= loop.events && !Last(ss).firing
    requires OnlyTicksOutside(loop.states, loop.events, |evs|)
    requires forall e <- Last(ss).due :: Last(ss).due[e] > loop.tick
    ensures loop.Now().due == Last(ss).due
  {
    hide TimingWheel.Inv, TimingWheel.Answered, Continues, IsRun;
    loop.Runs();
    RunsExtend(ss, evs, loop.states, loop.events);
    NothingBeforeDue(loop.states, loop.events, |evs|, |loop.events|);
  }

  /** The entry that was alone the first to be due has fired. */
  lemma EarliestHasFired(loop: TimingWheel, ss: seq<State>, evs: seq<Event>, e: Entry)
    requires loop.Idle() && IsRun(ss, evs) && evs <= loop.events && !Last(ss).firing
    requires OnlyTicksOutside(loop.states, loop.events, |evs|)
    requires e in Last(ss).due && Last(ss).due[e] <= loop.tick
    requires forall x <- Last(ss).due | x != e :: Last(ss).due[x] > Last(ss).due[e]
    ensures e !in loop.Now().due && exists j :: Fires(loop.events, j, e) && loop.states[j].tick == Last(ss).due[e]
  {
    hide TimingWheel.Inv, TimingWheel.Answered, Continues, IsRun;
    loop.Runs();
    RunsExtend(ss, evs, loop.states, loop.events);
    EarliestFires(loop.states, loop.events, |evs|, |loop.events|, e);
    var j: nat :| Fires(loop.events, j, e) && loop.states[j].tick == Last(ss).due[e];
    FiredIsGone(loop.states, loop.events, j, e);
  }

  lemma FiredIsGone(ss: seq<State>, evs: seq<Event>, j: nat, e: Entry)
    requires IsRun(ss, evs) && Fires(evs, j, e)
    ensures e !in Last(ss).due
  {
    NoTimerLostOrDuplicated(ss, evs, |evs|, e);
    assert Releases(evs, j, e);
  }

  /** Timeout checks enabled twice at tick 0: the wheel holds two entries of one socket. */
  method EnabledTwice() returns (s: UdpSocket, ghost first: Entry, ghost second: Entry)
    ensures s.Valid() && fresh(s) && fresh(s.loop) && !s.closed && s.maxIdleTime == 5
    ensures first != second && s.watchers == {first, second} && s.timeoutEntry == Some(second)
    ensures s.loop.lastTs == 100 && s.loop.tick == 0 && s.loop.Now().due == map[first := 5, second := 5]
  {
    hide TimingWheel.Inv, TimingWheel.Answered, Continues, IsRun, Sound, Deadline, UdpSocket.AsOf;
    DeadlineWindow(0, false, 5);
    var loop := new TimingWheel();
    loop.Runs();
    EmptyRun(loop.states, loop.events);
    loop.OnTimer(100);
    loop.Runs();
    EmptyRun(loop.states, loop.events);
    s := new UdpSocket(loop, 7);
    s.EnableCheckIdleTimeout(5, Function([]));
    first := s.timeoutEntry.value;
    s.EnableCheckIdleTimeout(5, Function([]));
    second := s.timeoutEntry.value;
  }

  /** ... and activity at tick 3 extends the life of the second one only. */
  method ActiveAtThree() returns (s: UdpSocket, ghost first: Entry, ghost last: nat)
    ensures s.Valid() && fresh(s) && fresh(s.loop) && !s.closed && s.maxIdleTime == 5
    ensures s.timeoutEntry.Some? && s.timeoutEntry.value != first && s.watchers == {first, s.timeoutEntry.value}
    ensures s.loop.lastTs == 103 && s.loop.tick == 3
    ensures s.loop.Now().due == map[first := 5, s.timeoutEntry.value := 8]
    ensures Inserts(s.loop.events, last, s.timeoutEntry.value) && last + 1 == |s.loop.events| < |s.loop.states|
    ensures s.loop.states[last].tick == 3 && DeadlineAt(s.loop.states, s.loop.events, last) == 8
  {
    hide TimingWheel.Inv, TimingWheel.Answered, Continues, IsRun, Sound, OnlyTicksOutside, Deadline, UdpSocket.AsOf;
    DeadlineWindow(3, false, 5);
    ghost var second;
    s, first, second := EnabledTwice();
    s.loop.Runs();
    ghost var ss, evs := s.loop.states, s.loop.events;
    s.OnTimer(103, false, {});
    StaysQuiet(s.loop, ss, evs);
    last := |s.loop.events|;
    s.loop.Runs();
    ss, evs := s.loop.states, s.loop.events;
    s.OnActivity();
    s.loop.Runs();
    RunsExtend(ss, evs, s.loop.states, s.loop.events);
  }

  /**
   A busy socket closed too early: idle time 5, enabled twice at tick 0, active
   at tick 3, hence promised until tick 8, and closed at tick 5 all the same.
   */
  method BusySocketClosedByOldEntry() returns (s: UdpSocket, ghost last: nat)
    ensures s.Valid() && s.closed && s.timedOut && s.closedAt == 5 == s.loop.tick && s.maxIdleTime == 5
    ensures s.timeoutEntry.Some? && Inserts(s.loop.events, last, s.timeoutEntry.value)
    ensures s.loop.states[last].tick == 3 && DeadlineAt(s.loop.states, s.loop.events, last) == 8
  {
    hide TimingWheel.Inv, TimingWheel.Answered, Continues, IsRun, Sound, OnlyTicksOutside, Deadline, UdpSocket.AsOf;
    ghost var first;
    s, first, last := ActiveAtThree();
    s.loop.Runs();
    ghost var ss, evs := s.loop.states, s.loop.events;
    s.OnTimer(105, false, {});
    EarliestHasFired(s.loop, ss, evs, first);
    s.loop.Runs();
    RunsExtend(ss, evs, s.loop.states, s.loop.events);
    ClosedByThen(s, first, 5);
    ClosedNotBefore(s, |evs|, 5);
  }

  /** A socket whose entries, at some time in the past, were all due at `tick` or later did not time out before that. */
  lemma ClosedNotBefore(s: UdpSocket, n: nat, tick: nat)
    requires s.Valid() && s.closed && s.timedOut
    requires n <= |s.loop.events| < |s.loop.states|
    requires forall w <- s.watchers :: w in s.loop.states[n].due && s.loop.states[n].due[w] >= tick
    ensures s.closedAt >= tick
  {
    hide TimingWheel.Inv, TimingWheel.Answered, Continues;
    s.loop.Runs();
    RunSound(s.loop.states, s.loop.events, n);
    ClosesAtEarliestDeadline(s);
    var w :| DueAt(s, w, s.closedAt);
    DueIsLatestDeadline(s.loop.states, s.loop.events, n, w);
  }

  lemma ClosedByThen(s: UdpSocket, w: Entry, tick: nat)
    requires s.Valid() && w in s.watchers && s.closed
    requires exists j :: Fires(s.loop.events, j, w) && s.loop.states[j].tick == tick
    ensures s.closedAt <= tick
  {
    var j :| Fires(s.loop.events, j, w) && s.loop.states[j].tick == tick;
    assert Releases(s.loop.events, j, w);
  }
}