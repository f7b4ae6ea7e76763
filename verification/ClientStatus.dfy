/**
 The connection status machine of a TCP client (src/network/TcpClinet.cpp) on
 top of the connection it inherits from.
 */
module ClientStatus {
  import Registry

  datatype Status = Init | Connecting | Connected | Disconnected

  /** What `connect` reports. */
  datatype Attempt = Done | InProgress | Failed

  class TcpClient {
    const loop: Registry.EventLoop
    const channel: Registry.Event
    var status: Status
    var closed: bool

    ghost var connects: nat        // calls of ConnectInLoop
    ghost var connectedCalls: nat  // calls of the connected callback
    ghost var closeCalls: nat      // calls of the close callback
    ghost var closedEarly: bool    // the client was closed when it got its present socket

    /** The client's event object is in the loop's registry, under its open descriptor. */
    ghost predicate IsRegistered()
      reads loop, channel
    {
      channel.fd in loop.events && loop.events[channel.fd] == channel
    }

    ghost predicate IsUnregistered()
      reads loop, channel
    {
      forall fd <- loop.events :: loop.events[fd] != channel
    }

    /** An open descriptor under which the loop finds the client's event object, although that has another one now. */
    ghost predicate LeftBehind(fd: int)
      reads loop, channel
    {
      fd in loop.open && fd in loop.events && loop.events[fd] == channel && channel.fd != fd
    }

    /** What an event leaves behind, given what was there before; `over` says whether it ended the client's activity. */
    ghost predicate Leaves(over: bool, wasClosed: bool, fd: int, open: set<int>,
                           events: map<int, Registry.Event>, interest: map<int, set<Registry.Flag>>)
      reads `closed, loop, channel`fd
    {
      && closed == (wasClosed || over)
      && channel.fd == (if over && !wasClosed && fd > 0 then -1 else fd)
      && loop.open == open - (if channel.fd == fd then {} else {fd})
      && loop.events == events - (if over then {fd} else {})
      && loop.interest == interest - (if over then {fd} else {})
    }

    ghost predicate Valid()
      reads this, loop, loop.events.Values, channel
    {
      && loop.Agrees()
      && (if status in {Connecting, Connected} then IsRegistered() else IsUnregistered())
      && (if channel.fd >= 0 then channel.fd in loop.open else channel.fd == -1)
      && connectedCalls <= connects
      && (connects == 0 ==> status in {Init, Disconnected} && channel.fd == -1)
      && (status == Init ==> connects == 0 && !closed)
      && (status in {Connecting, Connected} ==> (closed <==> closedEarly))
      && (status == Connecting ==> connectedCalls < connects)
      && (status == Connected ==> connectedCalls > 0)
      && (status == Disconnected ==> closed && (channel.fd > 0 ==> closedEarly))
      && closeCalls == if closed then 1 else 0
    }

    lemma OnlyUnderItsOwn()
      ensures loop.Agrees() ==> forall fd <- loop.events | fd != channel.fd :: loop.events[fd] != channel
      ensures loop.Agrees() ==> loop.events.Keys <= loop.open && -1 !in loop.events
    {
    }

    constructor (loop: Registry.EventLoop)
      requires loop.Agrees()
      ensures Valid() && this.loop == loop && fresh(channel) && status == Init && connects == connectedCalls == 0
      ensures !closed && !closedEarly && channel.fd == -1
    {
      this.loop := loop;
      channel := new Registry.Event(-1);
      status, closed := Init, false;
      connects, connectedCalls, closeCalls, closedEarly := 0, 0, 0, false;
    }

    /**
     `fd` is the new socket, or negative if there is none; `attempt` is the
     result of `connect`. Nothing resets `closed`, so a socket that a client
     gets after its first close is not closed again. All is well afterwards if
     and only if the client was neither connecting nor connected: otherwise it
     leaves its old descriptor behind.
     */
    method ConnectInLoop(fd: int, attempt: Attempt)
      requires Valid() && (fd < 0 || fd !in loop.open)
      modifies this, loop, channel
      ensures Valid() <==> old(status) in {Init, Disconnected}
      ensures old(status) in {Connecting, Connected} ==> LeftBehind(old(channel.fd)) && !loop.Agrees()
      ensures connects == old(connects) + 1 && closedEarly == (fd >= 0 && old(closed))
      ensures status == if fd < 0 || attempt == Failed then Disconnected
                        else if attempt == Done then Connected
                        else Connecting
      ensures connectedCalls == old(connectedCalls) + if status == Connected then 1 else 0
      ensures closed == (old(closed) || status == Disconnected)
      ensures channel.fd == if fd == 0 || (fd > 0 && (status != Disconnected || closedEarly)) then fd else -1
      ensures loop.open == old(loop.open) + if channel.fd >= 0 then {fd} else {}
      ensures channel.mask == if fd < 0 then old(channel.mask)
                              else {Registry.In, Registry.Pri, Registry.Out, Registry.Edge}
      ensures closeCalls == old(closeCalls) + if closed && !old(closed) then 1 else 0
      ensures status != Disconnected ==>
                && loop.events == old(loop.events)[fd := channel]
                && loop.interest == old(loop.interest)[fd := channel.mask]
      ensures status == Disconnected ==> loop.events == old(loop.events) && loop.interest == old(loop.interest)
    {
      if fd < 0 {
        NoSocket();
        return;
      }
      StartConnecting(fd);
      match attempt {
        case Done => UpdateConnectionStatus();
        case InProgress =>
        case Failed => OnClose();
      }
      assert old(status in {Connecting, Connected}) ==> LeftBehind(old(channel.fd));
    }

    method NoSocket()
      requires Valid()
      modifies this, loop, channel
      ensures old(status) in {Init, Disconnected} ==> Valid()
      ensures old(status) in {Connecting, Connected} ==> LeftBehind(old(channel.fd)) && !loop.Agrees()
      ensures status == Disconnected && closed && !closedEarly && connects == old(connects) + 1
      ensures channel.fd == -1 && loop.open == old(loop.open) && connectedCalls == old(connectedCalls)
      ensures loop.events == old(loop.events) && loop.interest == old(loop.interest)
      ensures channel.mask == old(channel.mask)
      ensures closeCalls == old(closeCalls) + if old(closed) then 0 else 1
    {
      channel.fd, closedEarly := -1, false;
      assert old(status) in {Init, Disconnected} ==> Valid();
      OnClose();
      connects := connects + 1;
      assert old(status in {Connecting, Connected}) ==> LeftBehind(old(channel.fd));
    }

    method StartConnecting(fd: int)
      requires Valid() && fd >= 0 && fd !in loop.open
      modifies this, loop, channel
      ensures old(status) in {Init, Disconnected} ==> Valid()
      ensures old(status) in {Connecting, Connected} ==> LeftBehind(old(channel.fd))
      ensures status == Connecting && connects == old(connects) + 1
      ensures closed == closedEarly == old(closed) && connectedCalls == old(connectedCalls)
      ensures channel.fd == fd && channel.mask == {Registry.In, Registry.Pri, Registry.Out, Registry.Edge}
      ensures loop.open == old(loop.open) + {fd} && fd !in old(loop.events)
      ensures loop.events == old(loop.events)[fd := channel] && loop.interest == old(loop.interest)[fd := channel.mask]
      ensures closeCalls == old(closeCalls)
    {
      connects, closedEarly := connects + 1, closed;
      status := Connecting;
      Register(fd);
    }

    method Register(fd: int)
      requires loop.Agrees() && fd >= 0 && fd !in loop.open
      modifies loop, channel
      ensures old(IsUnregistered()) ==> loop.Agrees()
      ensures channel.fd == fd && channel.mask == {Registry.In, Registry.Pri, Registry.Out, Registry.Edge}
      ensures loop.open == old(loop.open) + {fd} && fd !in old(loop.events)
      ensures loop.events == old(loop.events)[fd := channel] && loop.interest == old(loop.interest)[fd := channel.mask]
    {
      loop.Open(fd);
      channel.fd := fd;
      loop.AddEvent(channel);
      var _ := loop.EnableWrite(channel, true);
    }

    method UpdateConnectionStatus()
      requires status == Connecting
      modifies this`status, this`connectedCalls
      ensures status == Connected && connectedCalls == old(connectedCalls) + 1
      ensures old(Valid()) ==> Valid()
    {
      status := Connected;
      connectedCalls := connectedCalls + 1;
    }

    /** Readable or writable while connecting: the attempt is over. `failed` is the socket's pending error. */
    method FinishConnecting(failed: bool)
      requires Valid() && status == Connecting
      modifies this, loop, channel
      ensures Valid() && connects == old(connects)
      ensures status == if failed then Disconnected else Connected
      ensures connectedCalls == old(connectedCalls) + if failed then 0 else 1
      ensures closedEarly == old(closedEarly) && channel.mask == old(channel.mask)
      ensures Leaves(failed, old(closed), old(channel.fd), old(loop.open), old(loop.events), old(loop.interest))
    {
      if failed {
        OnClose();
      } else {
        UpdateConnectionStatus();
      }
    }

    /**
     `reached` says whether the event goes on to the connection's own `OnRead`,
     and `ended` how that ends: in the end of the stream or a fatal error.
     */
    method OnRead(failed: bool, ended: bool) returns (reached: bool)
      requires Valid()
      modifies this, loop, channel
      ensures Valid() && connects == old(connects)
      ensures reached <==> old(status) == Connected
      ensures status == if old(status) == Connecting then (if failed then Disconnected else Connected)
                        else if old(status) == Connected && ended && !old(closed) then Disconnected
                        else old(status)
      ensures closedEarly == old(closedEarly) && channel.mask == old(channel.mask)
      ensures Leaves(status == Disconnected != old(status), old(closed), old(channel.fd), old(loop.open),
                     old(loop.events), old(loop.interest))
      ensures connectedCalls == old(connectedCalls) + if old(status) == Connecting && !failed then 1 else 0
    {
      if status == Connecting {
        FinishConnecting(failed);
        return false;
      }
      reached := status == Connected;
      if reached && !closed && ended {
        OnClose();
      }
    }

    /** `fatal` says whether the connection's own `OnWrite` fails for good. */
    method OnWrite(failed: bool, fatal: bool) returns (reached: bool)
      requires Valid()
      modifies this, loop, channel
      ensures Valid() && connects == old(connects)
      ensures reached <==> old(status) == Connected
      ensures status == if old(status) == Connecting then (if failed then Disconnected else Connected)
                        else if old(status) == Connected && fatal && !old(closed) then Disconnected
                        else old(status)
      ensures closedEarly == old(closedEarly) && channel.mask == old(channel.mask)
      ensures Leaves(status == Disconnected != old(status), old(closed), old(channel.fd), old(loop.open),
                     old(loop.events), old(loop.interest))
      ensures connectedCalls == old(connectedCalls) + if old(status) == Connecting && !failed then 1 else 0
    {
      if status == Connecting {
        FinishConnecting(failed);
        return false;
      }
      reached := status == Connected;
      if reached && !closed && fatal {
        OnClose();
      }
    }

    /**
     Data reaches the connection's send path exactly while connected, and is
     taken there unless the client had been closed before it connected.
     */
    method Send() returns (reached: bool, taken: bool)
      requires Valid()
      ensures reached <==> status == Connected && IsRegistered()
      ensures taken <==> reached && !closedEarly
    {
      reached := status == Connected;
      taken := reached && !closed;
    }

    /**
     Deregisters before closing. The descriptor is closed unless the client
     had been closed already before it got one; then it stays open.
     */
    method OnClose()
      modifies this, loop, channel
      ensures old(Valid()) ==> Valid() && closeCalls == 1
      ensures status == Disconnected && closed && closedEarly == old(closedEarly)
      ensures connects == old(connects) && connectedCalls == old(connectedCalls)
      ensures channel.fd == if old(closed) || old(channel.fd) <= 0 then old(channel.fd) else -1
      ensures loop.open == old(loop.open) - if channel.fd != old(channel.fd) then {old(channel.fd)} else {}
      ensures var active, fd := old(status in {Connecting, Connected}), old(channel.fd);
              && loop.events == old(loop.events) - (if active then {fd} else {})
              && loop.interest == old(loop.interest)
                                  - if (active && fd in old(loop.events)) || (!old(closed) && fd > 0) then {fd} else {}
      ensures closeCalls == old(closeCalls) + (if old(closed) then 0 else 1) && channel.mask == old(channel.mask)
    {
      OnlyUnderItsOwn();
      hide Registry.EventLoop.Agrees;
      if status == Connecting || status == Connected {
        loop.DelEvent(channel);
      }
      status := Disconnected;
      if !closed {
        closed := true;
        closeCalls := closeCalls + 1;
        loop.Close(channel);
      }
    }
  }

  /** At rest, the descriptor is registered exactly while connecting or connected, and then it is open. */
  lemma RegisteredIffActive(client: TcpClient)
    requires client.Valid()
    ensures client.IsRegistered() <==> client.status in {Connecting, Connected}
    ensures client.IsRegistered() ==> client.channel.fd in client.loop.open
    ensures client.status == Disconnected && client.channel.fd > 0 ==> client.closedEarly
    ensures client.status == Connected ==> 0 < client.connectedCalls <= client.connects
  {
  }

  /** Connecting while connecting: the first socket is lost, open and registered under an event that is not its own. */
  method ConnectTwice(fd: int, fd': int, attempt: Attempt) returns (client: TcpClient)
    requires fd >= 0 && fd' >= 0 && fd != fd'
    ensures client.LeftBehind(fd) && !client.loop.Agrees() && client.connects == 2
  {
    var loop := new Registry.EventLoop();
    client := new TcpClient(loop);
    client.ConnectInLoop(fd, InProgress);
    client.ConnectInLoop(fd', attempt);
  }

  /** Whatever a closed client's next socket goes through, closing the client leaves it open. */
  method SocketAfterCloseStaysOpen(client: TcpClient, fd: int, attempt: Attempt)
    requires client.Valid() && client.closed && client.status == Disconnected
    requires fd >= 0 && fd !in client.loop.open
    modifies client, client.loop, client.channel
    ensures client.Valid() && client.status == Disconnected && client.IsUnregistered()
    ensures client.channel.fd == fd && fd in client.loop.open
  {
    client.ConnectInLoop(fd, attempt);
    client.OnClose();
  }

  /** The early close from the start: close, connect, close. */
  method EarlyClose(fd: int) returns (client: TcpClient)
    requires fd >= 0
    ensures client.status == Disconnected && client.connects == 1 && client.channel.fd == fd && fd in client.loop.open
  {
    var loop := new Registry.EventLoop();
    client := new TcpClient(loop);
    client.OnClose();
    client.ConnectInLoop(fd, InProgress);
    client.OnClose();
  }

  /** A reconnect does the same to the second socket: connect, close, connect, close. */
  method Reconnect(fd: int, fd': int) returns (client: TcpClient)
    requires fd >= 0 && fd' >= 0 && fd != fd'
    ensures client.status == Disconnected && client.connects == 2 && client.closeCalls == 1
    ensures client.channel.fd == fd' && fd' in client.loop.open
  {
    var loop := new Registry.EventLoop();
    client := new TcpClient(loop);
    client.ConnectInLoop(fd, Done);
    client.OnClose();
    client.ConnectInLoop(fd', Done);
    client.OnClose();
  }
}
