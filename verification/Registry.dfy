/**
 The event loop's registry (src/network/net/EventLoop.cpp, Event.cpp): a map
 from descriptors to event objects, mirrored by the kernel's interest list.
 */
module Registry {
  datatype Flag = In | Pri | Out | Edge

  const READ: set<Flag> := {In, Pri, Edge}
  const WRITE: set<Flag> := {Out, Edge}

  function Switch(mask: set<Flag>, bits: set<Flag>, enable: bool): set<Flag> {
    if enable then mask + bits else mask - bits
  }

  /**
   Read and write interest share the edge-trigger bit, so switching write
   interest on and off again restores the mask if and only if it had neither
   of the two bits; from plain read interest it leaves level-triggered reads.
   */
  lemma WriteToggle(mask: set<Flag>)
    ensures Switch(Switch(mask, WRITE, true), WRITE, false) == mask <==> mask !! {Out, Edge}
    ensures Switch(Switch(READ, WRITE, true), WRITE, false) == {In, Pri}
  {
    assert Switch(Switch(mask, WRITE, true), WRITE, false) == mask - WRITE;
    assert Out in WRITE && Edge in WRITE;
  }

  class Event {
    var fd: int
    var mask: set<Flag>

    constructor (fd: int)
      ensures this.fd == fd && mask == {}
    {
      this.fd, mask := fd, {};
    }
  }

  /** The event loop together with the part of the kernel it talks to. */
  class EventLoop {
    var events: map<int, Event>
    var interest: map<int, set<Flag>>  // the epoll instance
    var open: set<int>                 // descriptors of the process

    constructor ()
      ensures Agrees() && events == map[] && open == {}
    {
      events, interest, open := map[], map[], {};
    }

    /** Every event is registered under its own descriptor, which is open, and the kernel has its mask. */
    ghost predicate Agrees()
      reads this, events.Values
    {
      && events.Keys == interest.Keys
      && interest.Keys <= open
      && (forall fd <- open :: fd >= 0)
      && forall fd <- events :: events[fd].fd == fd && events[fd].mask == interest[fd]
    }

    /** A second event for the same descriptor is ignored. */
    method AddEvent(event: Event)
      modifies this`events, this`interest, event`mask
      ensures old(event.fd in events) ==>
                events == old(events) && interest == old(interest) && event.mask == old(event.mask)
      ensures old(event.fd !in events) ==>
                && events == old(events)[event.fd := event] && event.mask == {In, Pri, Edge}
                && interest == if event.fd in open && event.fd !in old(interest)
                               then old(interest)[event.fd := {In, Pri, Edge}] else old(interest)
      ensures old(Agrees()) ==> (Agrees() <==> event.fd in old(events) || event.fd in open)
    {
      if event.fd in events {
        return;
      }
      event.mask := READ;
      events := events[event.fd := event];
      if event.fd in open && event.fd !in interest {  // anything else is refused by the kernel
        interest := interest[event.fd := event.mask];
      }
    }

    /** The entry is looked up by descriptor, whoever registered it. */
    method DelEvent(event: Event)
      modifies this`events, this`interest
      ensures events == old(events) - {event.fd}
      ensures interest == if event.fd in old(events) then old(interest) - {event.fd} else old(interest)
      ensures old(Agrees()) ==> Agrees()
    {
      if event.fd !in events {
        return;
      }
      events := events - {event.fd};
      interest := interest - {event.fd};
    }

    /**
     Changes the mask of the event passed in and tells the kernel. Registry and
     kernel still agree if and only if that is the registered event, or the
     registered one happens to have the new mask.
     */
    method EnableWrite(event: Event, enable: bool) returns (found: bool)
      modifies this`interest, event`mask
      ensures found <==> event.fd in events
      ensures event.mask == if !found then old(event.mask)
                            else if enable then old(event.mask) + {Out, Edge}
                            else old(event.mask) - {Out, Edge}
      ensures interest == if found && event.fd in old(interest) then old(interest)[event.fd := event.mask]
                          else old(interest)
      ensures old(Agrees()) ==>
                (Agrees() <==> found ==> events[event.fd] == event || events[event.fd].mask == event.mask)
    {
      if event.fd !in events {
        return false;
      }
      assert Agrees() ==> forall fd <- events | fd != event.fd :: events[fd] != event;
      event.mask := Switch(event.mask, WRITE, enable);
      if event.fd in interest {  // the kernel takes a new mask only for a descriptor that it knows
        interest := interest[event.fd := event.mask];
      }
      return true;
    }

    method EnableRead(event: Event, enable: bool) returns (found: bool)
      modifies this`interest, event`mask
      ensures found <==> event.fd in events
      ensures event.mask == if !found then old(event.mask)
                            else if enable then old(event.mask) + {In, Pri, Edge}
                            else old(event.mask) - {In, Pri, Edge}
      ensures interest == if found && event.fd in old(interest) then old(interest)[event.fd := event.mask]
                          else old(interest)
      ensures old(Agrees()) ==>
                (Agrees() <==> found ==> events[event.fd] == event || events[event.fd].mask == event.mask)
    {
      if event.fd !in events {
        return false;
      }
      assert Agrees() ==> forall fd <- events | fd != event.fd :: events[fd] != event;
      event.mask := Switch(event.mask, READ, enable);
      if event.fd in interest {  // the kernel takes a new mask only for a descriptor that it knows
        interest := interest[event.fd := event.mask];
      }
      return true;
    }

    /** The kernel hands out a descriptor that is not in use. */
    method Open(fd: int)
      requires fd >= 0 && fd !in open
      modifies this`open
      ensures open == old(open) + {fd}
      ensures old(Agrees()) ==> Agrees() && fd !in events
    {
      open := open + {fd};
    }

    /**
     `Event::Close`. Closing a descriptor drops it from the interest list, so
     registry and kernel keep agreeing if and only if it was deregistered first.
     */
    method Close(event: Event)
      modifies this`open, this`interest, event`fd
      ensures old(event.fd) > 0 ==>
                event.fd == -1 && open == old(open) - {old(event.fd)} && interest == old(interest) - {old(event.fd)}
      ensures old(event.fd) <= 0 ==> event.fd == old(event.fd) && open == old(open) && interest == old(interest)
      ensures old(Agrees()) ==> (Agrees() <==> old(event.fd) > 0 ==> old(event.fd) !in events)
    {
      if event.fd > 0 {
        open := open - {event.fd};
        interest := interest - {event.fd};
        event.fd := -1;
      }
    }
  }
}
