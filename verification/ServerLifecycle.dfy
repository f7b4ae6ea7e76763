/**
 Accepting, closing and timing out server connections
 (src/network/TcpServer.cpp, TcpConnection.cpp), over the event loop's registry
 and the flat calendar that the loop's timing wheel refines.
 */
module ServerLifecycle {
  import opened Deadlines
  import opened Calendar
  import Registry
  import opened TimingWheels

  /** The life a server gives its connections, in seconds. */
  const LIFE: nat := 30

  class TcpConnection {
    const id: nat                // which timeout entry watches it
    const channel: Registry.Event
    var closed: bool
    ghost const acceptedAt: nat
    ghost var closeCalls: nat    // runs of the server's close callback
    ghost var closedAt: nat

    constructor (id: nat, channel: Registry.Event, ghost now: nat)
      ensures this.id == id && this.channel == channel && !closed && acceptedAt == now && closeCalls == 0
    {
      this.id, this.channel, closed, acceptedAt, closeCalls, closedAt := id, channel, false, now, 0, 0;
    }

    function Entry(): Calendar.Entry {
      Timeout(id, LIFE)
    }
  }

  /** Connections share neither event objects nor timeout entries. */
  ghost predicate Distinct(all: set<TcpConnection>) {
    forall c <- all, d <- all | c != d :: c.channel != d.channel && c.id != d.id
  }

  lemma WithoutBoth<T>(m: map<int, T>, own: set<int>, fd: int)
    requires fd in own
    ensures m - {fd} - (own - {fd}) == m - own
  {
  }

  class TcpServer {
    const loop: Registry.EventLoop
    var connections: set<TcpConnection>

    ghost var all: set<TcpConnection>  // every connection ever accepted
    ghost var states: seq<State>       // the wheel's run
    ghost var events: seq<Event>

    ghost function Now(): State
      reads this
    {
      if states == [] then INITIAL else Last(states)
    }

    /** Registered, watched for reading, open and known to the server, or closed for good: nothing in between. */
    ghost predicate Alive(c: TcpConnection)
      reads `connections, loop, c, c.channel
    {
      && c in connections && !c.closed && c.closeCalls == 0
      && c.channel.fd > 0 && c.channel.fd in loop.open
      && c.channel.fd in loop.events && loop.events[c.channel.fd] == c.channel
      && c.channel.fd in loop.interest && {Registry.In, Registry.Pri} <= loop.interest[c.channel.fd]
    }

    ghost predicate Dead(c: TcpConnection)
      reads `connections, loop, c, c.channel
    {
      && c !in connections && c.closed && c.closeCalls == 1
      && c.channel.fd == -1
      && forall fd <- loop.events :: loop.events[fd] != c.channel
    }

    /** The registry's side: every connection is alive or dead. */
    ghost predicate Registered()
      reads `connections, `all, loop, loop.events.Values, all, set c <- all :: c.channel
    {
      && loop.Agrees()
      && connections <= all
      && (forall c <- all :: Alive(c) || Dead(c))
      && Distinct(all)
    }

    /** The calendar's side: every connection has a deadline. */
    ghost predicate Timed()
      reads this, all
    {
      IsRun(states, events) && forall c <- all :: Watched(c, Now())
    }

    ghost predicate Valid()
      reads this, loop, loop.events.Values, all, set c <- all :: c.channel
    {
      Registered() && Timed()
    }

    /** The connection's deadline, in the calendar and in what has happened so far. */
    ghost predicate Watched(c: TcpConnection, now: State)
      reads c
    {
      && c.Entry() in now.born
      && (c.Entry() in now.due ==> now.due[c.Entry()] == c.acceptedAt + LIFE)
      && (!c.closed ==> c.Entry() in now.due)
      && c.acceptedAt <= now.tick
      && (c.closed ==> c.acceptedAt <= c.closedAt <= c.acceptedAt + LIFE)
    }

    constructor (loop: Registry.EventLoop)
      requires loop.Agrees()
      ensures Valid() && this.loop == loop && all == {} && events == []
    {
      this.loop, connections, all := loop, {}, {};
      states, events := [INITIAL], [];
    }

    ghost method Record(ev: Event)
      requires IsRun(states, events) && Enabled(Now(), ev)
      modifies this`states, this`events
      ensures IsRun(states, events) && Now() == Apply(old(Now()), ev) && events == old(events) + [ev]
    {
      ExtendRun(states, events, ev);
      states, events := states + [Apply(Last(states), ev)], events + [ev];
    }

    lemma NowIsSound()
      requires IsRun(states, events)
      ensures Sound(Now())
    {
      RunSound(states, events, |events|);
    }

    /** `fd` is what `accept` returned, so it was not in use. */
    method OnAccept(fd: int, id: nat) returns (con: TcpConnection)
      requires Valid() && !Now().firing
      requires fd > 0 && fd !in loop.open && Timeout(id, LIFE) !in Now().born
      modifies this, loop
      ensures Valid() && all == old(all) + {con} && con !in old(all) && fresh(con)
      ensures Alive(con) && con.channel.fd == fd && con.acceptedAt == Now().tick
      ensures connections == old(connections) + {con} && loop.events == old(loop.events)[fd := con.channel]
      ensures loop.open == old(loop.open) + {fd}
      ensures loop.interest == old(loop.interest)[fd := {Registry.In, Registry.Pri, Registry.Edge}]
      ensures con.id == id && con.closeCalls == 0
      ensures events == old(events) + [Insert(Timeout(id, 30), 30)]
    {
      hide IsRun;
      assert forall c <- all :: c.id != id by {
        assert forall c <- all :: c.Entry() in Now().born;
      }
      NowIsSound();
      DeadlineWindow(Now().tick, false, LIFE);
      con := Admit(fd, id);
      EnableCheckTimeout(con);
    }

    method Admit(fd: int, id: nat) returns (con: TcpConnection)
      requires Registered() && fd > 0 && fd !in loop.open && forall c <- all :: c.id != id
      modifies this`connections, this`all, loop
      ensures Registered() && all == old(all) + {con} && con !in old(all) && fresh(con)
      ensures Alive(con) && con.channel.fd == fd && con.id == id && con.acceptedAt == Now().tick
      ensures connections == old(connections) + {con} && loop.events == old(loop.events)[fd := con.channel]
      ensures loop.open == old(loop.open) + {fd}
      ensures loop.interest == old(loop.interest)[fd := {Registry.In, Registry.Pri, Registry.Edge}]
    {
      var channel := Register(fd);
      con := new TcpConnection(id, channel, Now().tick);
      hide Registry.EventLoop.Agrees;
      connections, all := connections + {con}, all + {con};
      forall d <- old(all) ensures Alive(d) || Dead(d) {
        assert old(Alive(d)) || old(Dead(d));
        assert old(allocated(d.channel));
      }
    }

    method Register(fd: int) returns (channel: Registry.Event)
      requires loop.Agrees() && fd > 0 && fd !in loop.open
      modifies loop
      ensures fresh(channel) && channel.fd == fd && loop.Agrees()
      ensures loop.events == old(loop.events)[fd := channel] && loop.open == old(loop.open) + {fd}
      ensures fd !in old(loop.events)
      ensures loop.interest == old(loop.interest)[fd := {Registry.In, Registry.Pri, Registry.Edge}]
    {
      channel := new Registry.Event(fd);
      loop.Open(fd);
      loop.AddEvent(channel);
    }

    method EnableCheckTimeout(con: TcpConnection)
      requires IsRun(states, events) && Sound(Now()) && !Now().firing
      requires Registered() && con in all && Alive(con) && con.acceptedAt == Now().tick && con.Entry() !in Now().born
      requires forall c <- all | c != con :: Watched(c, Now())
      modifies this`states, this`events
      ensures Valid() && Now().tick == old(Now()).tick && events == old(events) + [Insert(con.Entry(), LIFE)]
    {
      hide IsRun, Registered;
      DeadlineWindow(Now().tick, false, LIFE);
      Record(Insert(con.Entry(), LIFE));
    }

    /** The end of a connection, whatever the reason: end of stream, error, forced, timeout. */
    method OnClose(con: TcpConnection)
      requires Valid() && con in all
      modifies this`connections, loop, con, con.channel
      ensures Valid() && Dead(con)
      ensures old(con.closed) ==>
                && connections == old(connections)
                && unchanged(loop) && unchanged(con) && unchanged(con.channel)
      ensures !old(con.closed) ==>
                && connections == old(connections) - {con} && con.closedAt == Now().tick
                && loop.events == old(loop.events) - {old(con.channel.fd)}
                && loop.interest == old(loop.interest) - {old(con.channel.fd)}
                && loop.open == old(loop.open) - {old(con.channel.fd)}
                && Own() == old(Own()) - {old(con.channel.fd)}
    {
      if con.closed {
        return;
      }
      NowIsSound();
      assert Watched(con, Now());
      hide IsRun;
      Shut(con);
      con.closedAt := Now().tick;
    }

    method Shut(con: TcpConnection)
      requires Registered() && con in all && Alive(con)
      modifies this`connections, loop, con`closed, con`closeCalls, con.channel
      ensures Registered() && Dead(con) && connections == old(connections) - {con}
      ensures Own() == old(Own()) - {old(con.channel.fd)}
      ensures loop.events == old(loop.events) - {old(con.channel.fd)}
      ensures loop.interest == old(loop.interest) - {old(con.channel.fd)}
      ensures loop.open == old(loop.open) - {old(con.channel.fd)}
    {
      con.closed := true;
      OnConnectionClose(con);
      loop.Close(con.channel);
      forall d <- all | d != con ensures Alive(d) || Dead(d) {
        assert old(Alive(d)) || old(Dead(d));
        assert old(Alive(d)) ==> d.channel.fd != old(con.channel.fd);
      }
    }

    /** The server's close callback: forget the connection and deregister it, before its descriptor is closed. */
    method OnConnectionClose(con: TcpConnection)
      requires loop.Agrees()
      modifies this`connections, loop`events, loop`interest, con`closeCalls
      ensures loop.Agrees() && connections == old(connections) - {con} && con.closeCalls == old(con.closeCalls) + 1
      ensures loop.events == old(loop.events) - {con.channel.fd}
      ensures loop.interest == old(loop.interest) - {con.channel.fd}
    {
      connections := connections - {con};
      con.closeCalls := con.closeCalls + 1;
      loop.DelEvent(con.channel);
    }

    /**
     The wheel dropped the last reference to a connection's timeout entry. An
     open connection is closed, exactly 30 ticks after it was accepted; for one
     that is closed already nothing happens, whoever has its descriptor now.
     */
    method OnTimeoutEntryDestroyed(con: TcpConnection)
      requires Valid() && con in all && Enabled(Now(), Fire(con.Entry()))
      modifies this`connections, this`states, this`events, loop, con, con.channel
      ensures Valid() && Dead(con) && events == old(events) + [Fire(con.Entry())]
      ensures old(con.closed) ==>
                && connections == old(connections)
                && unchanged(loop) && unchanged(con) && unchanged(con.channel)
      ensures !old(con.closed) ==>
                && con.closedAt == Now().tick == con.acceptedAt + 30 && connections == old(connections) - {con}
                && loop.events == old(loop.events) - {old(con.channel.fd)}
                && loop.interest == old(loop.interest) - {old(con.channel.fd)}
                && loop.open == old(loop.open) - {old(con.channel.fd)}
                && Own() == old(Own()) - {old(con.channel.fd)}
    {
      hide IsRun;
      OnClose(con);
      Record(Fire(con.Entry()));
    }

    /**
     Write interest of a connection on or off. On a closed one it finds
     nothing: the descriptor is -1, whoever has the old one now.
     */
    method EnableWrite(con: TcpConnection, enable: bool) returns (found: bool)
      requires Valid() && con in all
      modifies loop`interest, con.channel
      ensures Valid() && (found <==> !con.closed)
      ensures con.channel.fd == old(con.channel.fd)
      ensures con.channel.mask == if !found then old(con.channel.mask)
                                  else if enable then old(con.channel.mask) + {Registry.Out, Registry.Edge}
                                  else old(con.channel.mask) - {Registry.Out, Registry.Edge}
      ensures loop.interest == if found then old(loop.interest)[con.channel.fd := con.channel.mask]
                               else old(loop.interest)
    {
      hide IsRun;
      assert Alive(con) || Dead(con);
      found := loop.EnableWrite(con.channel, enable);
      forall c <- all ensures Alive(c) || Dead(c) {
        assert old(Alive(c)) || old(Dead(c));
      }
    }

    /** Everything else that the wheel does: it destroys no entry of an open connection, and inserts none of any. */
    ghost method OnOtherWheelEvent(ev: Event)
      requires Valid() && Enabled(Now(), ev) && Foreign(ev)
      requires ev.Fire? ==> forall c <- all | !c.closed :: ev.entry != c.Entry()
      modifies this`states, this`events
      ensures Valid() && events == old(events) + [ev]
    {
      hide IsRun;
      Record(ev);
    }

    /** Insertions and refusals of other owners' entries, and whatever is neither. */
    ghost predicate Foreign(ev: Event)
      reads `all
    {
      ev.Insert? || ev.Refuse? ==> forall c <- all :: ev.entry != c.Entry()
    }

    /** What the loop and the kernel know of each open connection, and of descriptors that are not this server's. */
    ghost function Kept(): map<TcpConnection, (int, set<Registry.Flag>)>
      requires Valid()
      reads this, loop, loop.events.Values, all, set c <- all :: c.channel
    {
      map c <- all | !c.closed :: (c.channel.fd, loop.interest[c.channel.fd])
    }

    /** The other descriptors of the process: which are open, registered, and watched for what. */
    ghost function Others(): (set<int>, map<int, Registry.Event>, map<int, set<Registry.Flag>>)
      reads `connections, loop, set c <- connections :: c.channel
    {
      (loop.open - Own(), loop.events - Own(), loop.interest - Own())
    }

    ghost function Own(): set<int>
      reads `connections, set c <- connections :: c.channel
    {
      set c <- connections :: c.channel.fd
    }

    /** The connections that are open still have their descriptors and what the kernel watches these for. */
    ghost predicate Unaffected(kept: map<TcpConnection, (int, set<Registry.Flag>)>)
      requires Valid()
      reads this, loop, loop.events.Values, all, set c <- all :: c.channel
    {
      forall c <- all | !c.closed :: c in kept && Kept()[c] == kept[c]
    }

    /** The destructor of a timeout entry finds its connection, if that still exists and is open. */
    method Step(ev: Event)
      requires Valid() && Enabled(Now(), ev) && Foreign(ev)
      modifies this`connections, this`states, this`events, loop, all, set c <- all :: c.channel
      ensures Valid() && events == old(events) + [ev] && all == old(all)
      ensures forall c <- all :: c.closed <==> old(c.closed) || ev == Fire(c.Entry())
      ensures forall c <- all | c.closed ::
                c.closedAt == if old(c.closed) then old(c.closedAt) else c.acceptedAt + 30
      ensures connections == set c <- old(connections) | !c.closed
      ensures Unaffected(old(Kept())) && Others() == old(Others())
    {
      hide IsRun;
      assert forall c <- all :: Alive(c) || Dead(c);
      if ev.Fire? && exists c :: c in connections && c.Entry() == ev.entry {
        var con :| con in connections && con.Entry() == ev.entry;
        ghost var fd := con.channel.fd;
        assert fd in Own();
        WithoutBoth(loop.events, Own(), fd);
        WithoutBoth(loop.interest, Own(), fd);
        assert loop.open - {fd} - (Own() - {fd}) == loop.open - Own();
        OnTimeoutEntryDestroyed(con);
      } else {
        OnOtherWheelEvent(ev);
      }
    }

    lemma NextIsEnabled(before: seq<Event>, more: seq<Event>, ahead: seq<State>, i: nat)
      requires IsRun(states, events) && IsRun(ahead, before + more) && i < |more| && events == before + more[..i]
      ensures Enabled(Now(), more[i])
    {
      RunsExtend(states, events, ahead, before + more);
      assert (before + more)[|events|] == more[i];
    }

    /**
     Follows a wheel from the server's calendar on: whatever the wheel has done
     since then, as long as it did not insert a connection's entry again, the
     destructors of the entries that it let go of have closed those connections
     that were still open, each at the end of its life.
     */
    method Follow(more: seq<Event>, ghost ahead: seq<State>)
      requires Valid() && IsRun(ahead, events + more) && forall ev <- more :: Foreign(ev)
      modifies this`connections, this`states, this`events, loop, all, set c <- all :: c.channel
      ensures Valid() && events == old(events) + more && all == old(all)
      ensures forall c <- all :: c.closed <==> old(c.closed) || Fire(c.Entry()) in more
      ensures forall c <- all | c.closed ::
                c.closedAt == if old(c.closed) then old(c.closedAt) else c.acceptedAt + 30
      ensures connections == set c <- old(connections) | !c.closed
      ensures Unaffected(old(Kept())) && Others() == old(Others())
    {
      hide IsRun;
      for i := 0 to |more|
        invariant Valid() && events == old(events) + more[..i] && all == old(all)
        invariant forall c <- all :: c.closed <==> old(c.closed) || Fire(c.Entry()) in more[..i]
        invariant forall c <- all | c.closed ::
                    c.closedAt == if old(c.closed) then old(c.closedAt) else c.acceptedAt + 30
        invariant connections == set c <- old(connections) | !c.closed
        invariant Unaffected(old(Kept())) && Others() == old(Others())
      {
        NextIsEnabled(old(events), more, ahead, i);
        assert more[..i + 1] == more[..i] + [more[i]];
        Step(more[i]);
      }
      assert more[..|more|] == more;
    }
  }

  /** Between ticks, a connection is open only before its 30th tick, and is closed at most once, no later than then. */
  lemma ClosedWithinLife(server: TcpServer, c: TcpConnection)
    requires server.Valid() && c in server.all && !server.Now().firing
    ensures server.Alive(c) ==> server.Now().tick < c.acceptedAt + 30
    ensures server.Now().tick >= c.acceptedAt + 30 ==>
              server.Dead(c) && c.closeCalls == 1 && c.closedAt <= c.acceptedAt + 30
  {
    server.NowIsSound();
    assert server.Watched(c, server.Now());
  }

  /**
   A server that has seen a timing wheel's calendar events is in the wheel's
   state, and the wheel holds the timeout entry of every open connection, due
   at the end of its life.
   */
  lemma OpenConnectionsAreOnTheWheel(server: TcpServer, wheel: TimingWheel)
    requires server.Valid() && wheel.Inv() && server.events == wheel.events
    ensures server.Now() == wheel.Now()
    ensures forall c <- server.all | !c.closed ::
              c.Entry() in wheel.refs && wheel.Now().due[c.Entry()] == c.acceptedAt + LIFE
  {
    wheel.Runs();
    wheel.LiveEntries();
    RunsExtend(server.states, server.events, wheel.states, wheel.events);
    forall c <- server.all | !c.closed
      ensures c.Entry() in wheel.refs && wheel.Now().due[c.Entry()] == c.acceptedAt + LIFE
    {
      assert server.Watched(c, server.Now());
    }
  }
}
