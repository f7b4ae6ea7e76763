# tmms network layer: a verified model

The network layer of tmms drives sockets from one event loop per thread. Its
timers live in a hierarchical timing wheel, its bytes in a growable buffer, and
its connections are closed by the destructors of shared timeout entries. This
project models those parts in Dafny and proves what callers rely on.
`dafny verify dfyconfig.toml` checks everything.

**Timers.** `Calendar.dfy` is the specification: a flat map from live entries
to the tick at which their destructor runs, with runs made of insertions, ticks
and firings. `Deadlines.dfy` is the arithmetic that says which tick that is.
`TimingWheel.dfy` is the wheel itself, a class with the source's four rotating
deques, whose methods are proved to produce nothing but runs of the calendar;
`WheelSlots.dfy` relates slots, closures and reference counts to deadlines, and
`Traces.dfy` says where a reference is while it travels down the tiers. A user
function is the list of requests that it makes of the wheel, which may bring
further functions along; `Callbacks.dfy` computes what it adds to a run, and the
wheel's destructors are proved to do exactly that, in the middle of a tick, while
the slot being destroyed is emptied in arbitrary order. The theorems about firing
are proved once, about all runs of the calendar. `UdpIdle.dfy` puts idle sockets on the wheel and follows their entries'
destructors back to the socket.

**Bytes.** `MsgBuffer.dfy` refines a FIFO queue with a memory bound,
`Framing.dfy` is the length-prefixed parser on top of it with a round trip over
all segmentations, and `SendQueue.dfy` is the partial-write queue together with
the kernel's edge-triggered notifications.

**Protocols.** `Registry.dfy` keeps the loop's map and the kernel's interest
list in agreement, `ServerLifecycle.dfy` and `ClientStatus.dfy` are the
connection life cycles over it, and `WakeUp.dfy` is the hand-over of functions
from other threads.

## Where the code does not do what it seems to promise

- A timer of a minute or more does not fire "delay seconds later"
  (src/network/net/TimingWheel.h:50). `Deadlines.ExactlyOnTime` says exactly
  when it does, `Deadlines.DeadlineWindow` how far off it can be; a 60-second
  timer set by a callback at a full minute fires one second later:
  `Deadlines.MinuteTimerAfterOneSecond`.
- `RunEvery` with an interval of 31 days or more calls itself without end
  (src/network/net/TimingWheel.cpp:136-143): `TimingWheels.TimingWheel.RunEvery`.
- A zero timestamp stands for "none yet" (src/network/net/TimingWheel.cpp:88):
  `TimingWheels.GapIsMadeUpUnlessZero` has the condition and
  `TimingWheels.ZeroTimestampLosesTime` an input.
- A second `EnableCheckIdleTimeout` does not take the first entry out of the
  wheel, and that entry closes a busy socket. A socket closes at the deadline of
  its last activity if and only if no other entry of it is due before that:
  `UdpIdle.ClosesAtLastActivityIff`, with the run
  `UdpIdle.BusySocketClosedByOldEntry`.
- Switching write interest off also switches edge triggering off
  (src/network/net/Event.h:10-11): `Registry.WriteToggle`.
- Write interest is edge-triggered, so that it alone does not bring anybody back
  to what is queued. `SendQueue.WaitedForIff`: somebody will come back if and only
  if write interest is on and no notification has been spent, on a read, on the
  end of connecting or on an interrupted write, since the kernel last promised
  one. Runs that strand data with write interest on: `SendQueue.RestAfterReading`
  (an event with room and data goes to the reader only,
  src/network/net/EventLoop.cpp:62-69) and `SendQueue.ListAfterConnect`
  (src/network/TcpClinet.cpp:100-114).
- The list form of `SendInLoop` asks for a notification only if nothing is queued
  afterwards, when there is nothing to send (src/network/net/TcpConnection.cpp:179):
  `SendQueue.SendHalf.SendListInLoop`, with the run `SendQueue.ListNobodyWaitsFor`.
- A failed direct `write` is not recognised, because its result is unsigned
  (src/network/net/TcpConnection.cpp:192-196), and the byte in front of the
  buffer is sent along. The bytes are conserved if and only if the call did not
  try a `write` that fails: `SendQueue.SendHalf.SendInLoop`, with the run
  `SendQueue.FailedWriteSendsForeignByte`.
- The loop of `TcpConnection::OnWrite` ends only on a negative result, so that
  passes over an empty queue report completion again and again
  (src/network/net/TcpConnection.cpp:113-140): `SendQueue.CompletesOverAndOver`,
  with the run `SendQueue.CompletedOnceTooOften`.
- The same loop takes a buffer off the queue only while the count that `writev`
  returned is not used up. An empty buffer at the end of the list is never taken
  off, and what was sent with it is never reported complete:
  `SendQueue.AdvancedCuts`, with the run `SendQueue.EmptyBufferStays`.
- The parser spins when a piece ends inside a body
  (src/network/TestContext.cpp:28): `Framing.FramingRoundTrip` says exactly when,
  and `Framing.FifthByteCutSpins` has the smallest case.
- Nothing resets a client's `closed_`: a client that was closed before it got
  its socket, or that connects again, leaves that socket open later
  (src/network/TcpClinet.cpp:116-124): `ClientStatus.SocketAfterCloseStaysOpen`,
  with the runs `ClientStatus.EarlyClose` and `ClientStatus.Reconnect`.
- A client that connects while it is connecting or connected leaves its old
  descriptor behind, open and registered under an event that has another one.
  All is well after `ConnectInLoop` if and only if the client was neither
  (src/network/TcpClinet.cpp:34-65): `ClientStatus.TcpClient.ConnectInLoop`, with
  the run `ClientStatus.ConnectTwice`.
- `TcpConnection` never extends its life, so the server's 30 seconds are a total
  life time, not an idle time: `ServerLifecycle.ClosedWithinLife`.
- A read error on the wake-up pipe can cost later wake-ups
  (src/network/net/PipeEvent.cpp:61-63): `WakeUp.NoLostWakeUp` has the condition
  and `WakeUp.FailedReadLosesWakeUp` a run, on a kernel that raises no edge for a
  write to a pipe that is not empty.

## Model

| member | source | states |
|---|---|---|
| Deadlines.ExactlyOnTime | src/network/net/TimingWheel.cpp:62-84 | the firing tick is the requested one plus slack minus phase; the timer is exact if and only if the slack of the delay equals the ticks already elapsed in the running unit |
| Deadlines.DeadlineWindow | src/network/net/TimingWheel.cpp:19-84 | firing is strictly in the future, exact below a minute, and within [-59,+1], [-3599,+61], [-86399,+3661] of the request in the coarser tiers; from inside a callback the whole window is one tick earlier |
| Deadlines.WindowIsTight | src/network/net/TimingWheel.cpp:19-84 | every one of those bounds, lower and upper, is reached outside and inside callbacks |
| Deadlines.MinuteTimerAfterOneSecond | src/network/net/TimingWheel.cpp:19-30 | a minute asked for by a callback at a full minute takes one second |
| Deadlines.DeadlineMonotone | src/network/net/TimingWheel.cpp:62-84 | the same delay inserted later never fires earlier, also across the phases of a tick |
| Deadlines.RearmIsOnePeriodLater | src/network/net/TimingWheel.cpp:136-143 | re-arming on firing lands exactly one period later, because it precedes the coarser pops of that tick |
| Deadlines.PeriodIsInterval | src/network/net/TimingWheel.cpp:136-143 | the period equals the interval if and only if the interval is a positive multiple of its tier's unit |
| Deadlines.AcceptedInSeconds | src/network/net/TimingWheel.cpp:76-82 | a delay is accepted if and only if it is below 2678400 seconds |
| Deadlines.SecondTimer | src/network/net/TimingWheel.cpp:13-18 | below 60 seconds a timer is exact, and zero counts as one |
| Deadlines.MinuteTimer | src/network/net/TimingWheel.cpp:19-30 | m minutes and s seconds end at 60 * (last / 60 + m) + s, a zero s counting as one, where `last` is the tick, or inside a callback the one before |
| Deadlines.HourTimer | src/network/net/TimingWheel.cpp:31-42 | h hours, m minutes and s seconds end at 3600 * (last / 3600 + h) + 60 * m + s, each zero of the lower two counting as one |
| Deadlines.DayTimer | src/network/net/TimingWheel.cpp:43-54 | the same for 1 to 30 days and any remainder: 86400 * (last / 86400 + d) + 3600 * h + 60 * m + s, each zero of the lower three counting as one |
| Deadlines.WholeDays | src/network/net/TimingWheel.cpp:43-54 | d days on the dot, set at tick t between ticks, end at 86400 * (t / 86400 + d) + 3661 |
| Deadlines.PeriodInSeconds | src/network/net/TimingWheel.cpp:136-143 | how long a period lasts, in seconds |
| Calendar.DueIsLatestDeadline | src/network/net/TimingWheel.h:27-39 | a live entry's tick is the latest of the deadlines of all its insertions |
| Calendar.FiresExactlyAtLatestDeadline | src/network/net/TimingWheel.cpp:86-121 | in every run an entry fires at most once, only at its latest deadline, and between ticks has fired if and only if that is reached |
| Calendar.FiredAtTick | src/network/net/TimingWheel.cpp:86-121 | the entries fired at a tick are exactly those whose latest deadline is that tick |
| Calendar.NoTimerLostOrDuplicated | src/network/net/TimingWheel.cpp:26-29 | every entry ever seen is either scheduled or released, never both, and released at most once |
| Calendar.OnlyInsertionsMatter | src/network/net/TimingWheel.cpp:86-113 | runs with the same insertions, whatever happens between them and in whatever order slots are destroyed, have the same schedule and the same firing ticks |
| Calendar.EarliestFires | src/network/net/TimingWheel.cpp:86-121 | without insertions from outside, the entry that is alone the first to be due fires at its tick, whatever callbacks do |
| Calendar.NothingBeforeDue | src/network/net/TimingWheel.cpp:86-121 | until the first entry is due, nothing is inserted, fired or refused |
| Calendar.OneShotFiresOnce | src/network/net/TimingWheel.cpp:122-128 | a `RunAfter` entry fires exactly once, at the deadline computed when it was set, strictly later |
| Calendar.IdleTimeoutFollowsLastActivity | src/network/net/UdpSocket.cpp:210-226 | however often a timeout entry is inserted again, it fires exactly once, at the deadline of the last insertion; for 1 to 59 seconds that is last activity plus idle time |
| Calendar.PeriodicNeverDrifts | src/network/net/TimingWheel.cpp:136-150 | the next period fires exactly one period after this one, and does fire |
| Calendar.PeriodicSchedule | src/network/net/TimingWheel.cpp:136-150 | over a whole run, period number g fires exactly g periods after the first one |
| Calendar.PeriodicFromStart | src/network/net/TimingWheel.cpp:136-150 | counted from the call of `RunEvery`: period number g fires g periods after the deadline computed there, and does so if that is reached |
| Callbacks.RequestsAreMet | src/network/net/TimingWheel.cpp:122-151 | when a destructor has run, each request of its function was met at once: in the same tick, after the destruction, in the order of the requests, by an insertion below 31 days and a refusal from there on, the new entry taking its functions along; an entry is inserted again exactly if it is alive; the next period comes after all of them |
| Callbacks.RequestedInOrder | src/network/net/TimingWheel.cpp:122-151 | what the first requests of a function add to the run comes before what the later ones add |
| WheelSlots.PlacedIsDueAfterLag | src/network/net/TimingWheel.cpp:13-54 | the slot and remainder chosen by a tier's insert function are due after that tier's lag |
| WheelSlots.Emplaced | src/network/net/TimingWheel.cpp:17-29 | inserting into a slot adds one reference, or none if the slot has that pointer already |
| WheelSlots.Rotated | src/network/net/TimingWheel.cpp:115-121 | rotating a deque changes no entry's due tick |
| WheelSlots.ScheduledAfterHandover | src/network/net/TimingWheel.cpp:26-28 | exchanging a reference for one a tier down leaves every entry's tick alone |
| WheelSlots.ScheduledAfterDrop | src/network/net/TimingWheel.cpp:115-121 | dropping the last reference happens at the entry's own tick; dropping another changes no tick |
| WheelSlots.AllDueLater | src/network/net/TimingWheel.cpp:100-112 | when all tiers have had their turn, nothing due is left |
| Traces.ReachedIsDueTheSame | src/network/net/TimingWheel.cpp:19-54 | handing down any number of times does not change when a reference is due |
| Traces.TracedAfterHandover | src/network/net/TimingWheel.cpp:26-28 | exchanging a closure of a past pop for what it hands down keeps the items what the insertions have led to |
| Traces.PlacesAreRests | src/network/net/TimingWheel.cpp:13-54 | the places taken are the first ones on each insertion's way down that no pop has emptied |
| TimingWheels.TimingWheel.constructor | src/network/net/TimingWheel.cpp:4-10 | four empty deques of 60, 60, 24 and 30 slots satisfy the invariant |
| TimingWheels.TimingWheel.InsertSecondEntry | src/network/net/TimingWheel.cpp:13-18 | one more reference, in the slot due after the second tier's lag |
| TimingWheels.TimingWheel.InsertMinuteEntry | src/network/net/TimingWheel.cpp:19-30 | one new closure, in the slot and with the remainder of the minute tier |
| TimingWheels.TimingWheel.InsertHourEntry | src/network/net/TimingWheel.cpp:31-42 | one new closure, in the slot and with the remainder of the hour tier |
| TimingWheels.TimingWheel.InsertDayEntry | src/network/net/TimingWheel.cpp:43-54 | one new closure, in the slot and with the remainder of the day tier |
| TimingWheels.TimingWheel.InsertEntry | src/network/net/TimingWheel.cpp:62-84 | is the calendar's insertion in either phase; 31 days or more are refused, which changes nothing |
| TimingWheels.TimingWheel.RunAfter | src/network/net/TimingWheel.cpp:122-135 | one insertion of a new entry that takes the function along, or its immediate destruction if refused, with everything that the function asks for |
| TimingWheels.TimingWheel.RunEvery | src/network/net/TimingWheel.cpp:136-151 | one insertion of a new periodic entry; for a refused interval, nested calls with the same interval, one for each function there is to follow, none of which schedules anything |
| TimingWheels.TimingWheel.FunctionAndAgain | src/network/net/TimingWheel.cpp:136-143 | a refused period's destructor runs the function first and then calls `RunEvery` with the same interval |
| TimingWheels.TimingWheel.RunDestructor | src/network/net/TimingWheel.cpp:138-141 | runs the function that the entry took along, adding exactly what this asks for, then pays the debt of the next period |
| TimingWheels.TimingWheel.NewEntry | src/network/net/TimingWheel.h:27-39 | a new entry has a name that nothing has had before, and knows what its destructor will run |
| TimingWheels.TimingWheel.RunFunction | src/network/net/TimingWheel.h:31-36 | performs the requests of a user function one after the other, and nothing else |
| TimingWheels.TimingWheel.Launch | src/network/net/TimingWheel.cpp:122-135 | a new entry with its function is inserted, or refused and destroyed, which runs the function at once |
| TimingWheels.TimingWheel.Release | src/network/net/TimingWheel.h:31-36 | the destructor of a refused entry: it is recorded, its function is in the log, and exactly what it asks for is added |
| TimingWheels.TimingWheel.Perform | src/network/net/TimingWheel.cpp:122-151 | adds to the run exactly what the request asks for: one insertion, or for a refused delay the destruction of the new entry and what its function asks for, for a refused period again and again; a dead entry is not inserted again |
| TimingWheels.TimingWheel.DropPlain | src/network/net/TimingWheel.h:31-36 | the destructor runs exactly when the last reference goes, and only when the calendar says so; then the firing and the function come next in the run and in the log of functions |
| TimingWheels.TimingWheel.DropCascade | src/network/net/TimingWheel.cpp:26-28 | the closure re-inserts before it lets go, so the entry survives and nothing fires |
| TimingWheels.TimingWheel.PopUp | src/network/net/TimingWheel.cpp:115-121 | rotates, then empties the detached slot in any order; the coarser wheels fire nothing |
| TimingWheels.TimingWheel.Advance | src/network/net/TimingWheel.cpp:101-111 | one second is one complete tick of the calendar |
| TimingWheels.TimingWheel.OnTimer | src/network/net/TimingWheel.cpp:86-113 | makes up for exactly the elapsed seconds, each a complete tick, and does nothing when the clock stands still or steps back |
| TimingWheels.PopsInSeconds | src/network/net/TimingWheel.cpp:86-113 | between ticks at tick t the wheels have popped t, t / 60, t / 3600 and t / 86400 times |
| TimingWheels.FunctionsRun | src/network/net/TimingWheel.h:31-36 | between ticks the functions run so far are exactly those of the destroyed entries, in the order of their destruction, and each had its requests carried out |
| TimingWheels.RanOnTime | src/network/net/TimingWheel.cpp:122-128 | the function of a `RunAfter` entry has run in the tick of its deadline, exactly if that is reached |
| TimingWheels.EachPeriodRuns | src/network/net/TimingWheel.cpp:136-150 | the function of every period of a `RunEvery` entry has run in the tick in which that period ends, exactly if that is reached |
| TimingWheels.SetInCallback | src/network/net/TimingWheel.cpp:122-128 | a timer set by a function that a timer ran: its own function runs at the deadline computed in the middle of that tick, exactly if that is reached |
| TimingWheels.TimerSetByTimer | src/network/net/TimingWheel.cpp:122-128 | a run: a function after one second sets a timer of five, whose function runs at tick 6 |
| TimingWheels.TwoPeriods | src/network/net/TimingWheel.cpp:136-150 | a run: the two first periods of a function every two seconds |
| TimingWheels.CatchUp | src/network/net/TimingWheel.cpp:86-98 | after any history whose first timestamp is positive, the tick count is the greatest timestamp minus the first |
| TimingWheels.GapIsMadeUpUnlessZero | src/network/net/TimingWheel.cpp:88-98 | a call makes up for the gap, for every new timestamp, if and only if the previous timestamp is not zero |
| TimingWheels.ZeroTimestampLosesTime | src/network/net/TimingWheel.cpp:88-91 | a history in which a zero timestamp loses seven seconds |
| TimingWheels.InOneSlotOrReleased | src/network/net/TimingWheel.cpp:26-29 | at any moment, also in the middle of a tick and of a pop, a one-shot or periodic entry is either in exactly one place, due at its deadline, or was released exactly once |
| TimingWheels.InOneSlotBetweenTicks | src/network/net/TimingWheel.cpp:26-29 | between ticks that place is a slot of one of the four wheels |
| TimingWheels.SlotsFollowInsertions | src/network/net/TimingWheel.cpp:13-54 | between ticks, a place in a slot is taken if and only if an insertion whose deadline is to come has got there on its way down the tiers |
| TimingWheels.BatchingIsIrrelevant | src/network/net/TimingWheel.cpp:86-113 | two wheels driven from the same first to the same latest timestamp, in any batches and with any backward steps, with the same insertions, hold the same entries in the same slots and have fired the same entries at the same ticks |
| UdpIdle.UdpSocket.EnableCheckIdleTimeout | src/network/net/UdpSocket.cpp:210-217 | inserts a new entry and leaves every earlier one scheduled as it was; all of them watch the socket from then on; a refused time closes it, and its descriptor, at once |
| UdpIdle.UdpSocket.ExtendLife | src/network/net/UdpSocket.cpp:220-226 | inserts the same entry again exactly if it is still alive |
| UdpIdle.UdpSocket.OnActivity | src/network/net/UdpSocket.cpp:123-129 | extends the life of an open socket that has an entry, and leaves the wheel alone otherwise |
| UdpIdle.UdpSocket.OnTimer | src/network/net/EventLoop.cpp:75-77 | after the timers have run, whatever their callbacks did to the socket, it is closed, and its descriptor with it, if and only if it was before, a callback closed it, or one of its entries is gone; entries that callbacks made for it are its own |
| UdpIdle.UdpSocket.RunDestructors | src/network/net/UdpSocket.h:75-82 | the first entry to be destroyed closes the socket, at its own tick, unless somebody closed it before, and the others find it closed |
| UdpIdle.UdpSocket.CloseAt | src/network/net/UdpSocket.cpp:13-17 | the timeout closes an open socket, and does nothing on a closed one |
| UdpIdle.UdpSocket.ForceClose | src/network/net/UdpSocket.cpp:266-271 | closes now, once |
| UdpIdle.UdpSocket.OnClose | src/network/net/UdpSocket.cpp:156-165 | the close callback runs, and the descriptor is closed, for the first close only |
| UdpIdle.OpenSocketIsInTime | src/network/net/UdpSocket.h:75-82 | while a socket is open, the latest deadline of each of its entries is ahead |
| UdpIdle.ClosesAtEarliestDeadline | src/network/net/UdpSocket.h:75-82 | a socket that nobody closes otherwise is closed exactly from the earliest of its entries' latest deadlines on, at that tick, once |
| UdpIdle.ClosesAtLastActivityIff | src/network/net/UdpSocket.cpp:210-226 | it closes at the deadline of its last activity if and only if no other entry of it was due before that |
| UdpIdle.IdleSocketTimesOut | src/network/net/UdpSocket.h:69-84 | with one `EnableCheckIdleTimeout`, it is closed exactly from the deadline of its last activity on, at that tick; for 1 to 59 seconds that is last activity plus idle time |
| UdpIdle.BusySocketClosedByOldEntry | src/network/net/UdpSocket.cpp:210-226 | a run in which a socket with idle time 5, enabled twice at tick 0 and active at tick 3, is closed at tick 5 |
| MsgBuffers.BigEndianRoundTrip | src/network/base/MsgBuffer.h:208-217 | decoding an encoded length gives it back |
| MsgBuffers.BigEndianSpells | src/network/base/MsgBuffer.h:208-217 | the first byte is the most significant one: each byte of a number is given by division and remainder |
| MsgBuffers.MsgBuffer.constructor | src/network/base/MsgBuffer.h:42-50 | an empty queue with the prepend area in place |
| MsgBuffers.MsgBuffer.Retrieve | src/network/base/MsgBuffer.h:107-118 | removes exactly the oldest bytes |
| MsgBuffers.MsgBuffer.RetrieveAll | src/network/base/MsgBuffer.h:147-151 | empties the queue and frees all room behind the prepend area |
| MsgBuffers.MsgBuffer.RetrieveAsString | src/network/base/MsgBuffer.h:158-164 | returns exactly the bytes it removes |
| MsgBuffers.MsgBuffer.EnsureWritableBytes | src/network/base/MsgBuffer.h:182-189 | makes room without touching the content, and grows if and only if prepend area, content and request exceed the vector |
| MsgBuffers.MsgBuffer.MakeSpace | src/network/base/MsgBuffer.h:242-261 | growth or compaction keeps content and memory bound, and the source's own assertions hold |
| MsgBuffers.MsgBuffer.CopyForward | src/network/base/MsgBuffer.h:254-256 | the overlapping copy to the left moves the old bytes unharmed |
| MsgBuffers.MsgBuffer.Append | src/network/base/MsgBuffer.h:170-175 | appends, with memory at most max(8 + initial size, 7 + twice the largest content) |
| MsgBuffers.MsgBuffer.HasWritten | src/network/base/MsgBuffer.h:197-201 | the bytes stored behind the content become its end |
| MsgBuffers.MsgBuffer.Unwrite | src/network/base/MsgBuffer.h:203-207 | takes back the newest bytes |
| MsgBuffers.MsgBuffer.PeekInt32 | src/network/base/MsgBuffer.h:208-217 | the number whose bytes, the most significant one first, are the first four, or zero when there are fewer |
| MsgBuffers.MsgBuffer.ReadInt32 | src/network/base/MsgBuffer.h:219-224 | the number whose bytes, the most significant one first, are the first four, which it consumes |
| MsgBuffers.MsgBuffer.ReadFd | src/network/base/MsgBuffer.cpp:13-45 | appends exactly the received bytes, whether they fit, spill, or force growth or compaction |
| Framing.TestContext.ParseMessage | src/network/TestContext.cpp:10-44 | the loop stops where the parser function says, having consumed and delivered exactly that, or comes to a state that no pass changes if and only if the function spins |
| Framing.TestContext.Receive | src/network/net/TcpConnection.cpp:58-65 | one read followed by one parse is the parse of what was left and what came |
| Framing.ParsePrefix | src/network/TestContext.cpp:10-44 | on a prefix of an encoded stream the parser delivers the whole messages in it, and spins if and only if the prefix ends inside a body |
| Framing.OnTheWire | src/network/TestContext.cpp:14-21 | on the wire a message is its length in four bytes, the most significant one first, and its bytes; below 256 bytes that starts with three zeros and the length |
| Framing.HeaderAsRead | src/network/TestContext.cpp:14-21 | four bytes alone are taken as the length in two's complement, the most significant one first |
| Framing.NegativeLengthSpins | src/network/TestContext.cpp:14-41 | a length with the sign bit set is negative, and any byte after it makes the parser spin |
| Framing.WithoutCallback | src/network/TestContext.cpp:22-33 | with no callback the bodies of all messages pile up in one string |
| Framing.ParseAppend | src/network/TestContext.cpp:10-44 | parsing a then b is parsing their concatenation |
| Framing.SpinsExactlyAtBodyCuts | src/network/TestContext.cpp:26-41 | a segmented stream spins if and only if some piece ends strictly inside a body |
| Framing.FramingRoundTrip | src/network/TestContext.cpp:10-44 | in every other segmentation exactly the messages are delivered, in order; only a final empty one waits for another byte |
| Framing.Serve | src/network/net/TcpConnection.cpp:52-65 | parser and buffer, run over any pieces, are where the fed stream says, as long as each piece fits one read |
| Framing.Deliver | src/network/net/TcpConnection.cpp:52-65 | run over a segmented stream, they get stuck if and only if some piece so far ends inside a body, and otherwise deliver exactly the messages, unless a piece exceeds one read |
| Framing.FifthByteCutSpins | src/network/TestContext.cpp:26-41 | every message of at least two bytes whose fifth byte on the wire ends a piece makes the parser spin |
| SendQueue.AdvancedDropsPrefix | src/network/net/TcpConnection.cpp:117-126 | the vectors left over hold exactly what follows the accepted prefix |
| SendQueue.AdvancedCuts | src/network/net/TcpConnection.cpp:117-126 | which vectors are left over, and where the first of them is cut: empty ones behind the last byte taken stay |
| SendQueue.SendHalf.SendInLoop | src/network/net/TcpConnection.cpp:186-219 | accepted bytes followed by queued ones stay the submitted ones if and only if it did not try a `write` that failed; what the kernel did not take is queued, and a notification asked for |
| SendQueue.SendHalf.SendListInLoop | src/network/net/TcpConnection.cpp:165-185 | conserves the bytes too; a notification will come if and only if one was to come before, or there is nothing to send |
| SendQueue.SendHalf.OnEvent | src/network/net/EventLoop.cpp:51-69 | one event runs one handler, errors first, then reading, then writing; the notification is consumed whichever it is, and `OnWrite` on an empty queue switches write interest off |
| SendQueue.SendHalf.EnableWrite | src/network/net/EventLoop.cpp:145-167 | asking for write interest makes the kernel promise a notification, dropping it withdraws the promise |
| SendQueue.SendHalf.WriteStep | src/network/net/TcpConnection.cpp:115-139 | takes exactly the accepted prefix off the queue, for every result of `writev`; accepted and queued bytes stay the same stream; only a write that blocks leaves a new promise |
| SendQueue.WaitedForIff | src/network/net/TcpConnection.cpp:106-219 | between handlers, the kernel will report an open connection writable if and only if write interest is on and nothing was spent since the last promise; what can have been spent is a read, the end of connecting or an interrupted write |
| SendQueue.StreamAfterWrite | src/network/net/TcpConnection.cpp:192-218 | for every result of `write`, the range that is queued adds exactly the buffer to the stream, or the buffer and the byte before it if `write` failed |
| SendQueue.FailedWriteSendsForeignByte | src/network/net/TcpConnection.cpp:192-218 | a failed `write` on an idle connection: the stream starts with a byte nobody submitted |
| SendQueue.ListNobodyWaitsFor | src/network/net/TcpConnection.cpp:172-182 | a list sent on an idle connection: it is queued, and nobody comes back for it |
| SendQueue.ListAfterConnect | src/network/TcpClinet.cpp:100-114 | the same for a client's list from its connected callback, with write interest on |
| SendQueue.RestAfterReading | src/network/net/EventLoop.cpp:62-69 | the rest of a buffer is stranded when room and data are reported in one event |
| SendQueue.CompletesOverAndOver | src/network/net/TcpConnection.cpp:113-140 | n results of zero on an empty queue report completion n times, and the loop goes on |
| SendQueue.CompletedOnceTooOften | src/network/net/TcpConnection.cpp:113-140 | a run that gets there: one buffer, sent in one piece |
| SendQueue.EmptyBufferStays | src/network/net/TcpConnection.cpp:113-140 | a run in which an empty buffer at the end of the list is still queued when everything was sent, and no completion is reported |
| Registry.WriteToggle | src/network/net/Event.h:10-11 | write interest on and off restores a mask if and only if it held neither bit |
| Registry.EventLoop.AddEvent | src/network/net/EventLoop.cpp:91-106 | first event per descriptor wins; if map and kernel agreed before, they do afterwards if and only if the descriptor was taken already or is open |
| Registry.EventLoop.DelEvent | src/network/net/EventLoop.cpp:107-120 | removes the descriptor from both sides |
| Registry.EventLoop.EnableRead | src/network/net/EventLoop.cpp:121-143 | if both sides agreed before, they do afterwards if and only if the event is the registered one or its mask happens to match |
| Registry.EventLoop.EnableWrite | src/network/net/EventLoop.cpp:145-167 | the same for write interest |
| Registry.EventLoop.Close | src/network/net/Event.cpp:19-26 | closing keeps agreement if and only if the descriptor was deregistered first |
| ServerLifecycle.TcpServer.OnAccept | src/network/TcpServer.cpp:35-56 | the new connection is known, open, watched by the kernel for reading, edge-triggered, and timed; no other descriptor is affected |
| ServerLifecycle.TcpServer.OnConnectionClose | src/network/TcpServer.cpp:58-69 | forgotten and deregistered, while the descriptor is still open |
| ServerLifecycle.TcpServer.OnClose | src/network/net/TcpConnection.cpp:23-44 | from alive to dead once, with its descriptor closed and no longer watched, and no effect afterwards |
| ServerLifecycle.TcpServer.OnTimeoutEntryDestroyed | src/network/net/TcpConnection.h:71-86 | closes an open connection exactly 30 ticks after it was accepted; a stale entry touches nothing, whoever has the descriptor |
| ServerLifecycle.TcpServer.EnableCheckTimeout | src/network/net/TcpConnection.cpp:236-244 | schedules the one and only deadline of a connection |
| ServerLifecycle.TcpServer.EnableWrite | src/network/net/EventLoop.cpp:145-167 | write interest of an open connection changes as asked; a closed one's finds nothing, whoever has its old descriptor |
| ServerLifecycle.TcpServer.Step | src/network/net/TcpConnection.h:71-86 | an event of the wheel closes exactly the open connection whose entry it destroys, at the end of its life; the others keep their descriptors and what these are watched for |
| ServerLifecycle.TcpServer.Follow | src/network/net/TcpConnection.h:71-86 | whatever a wheel has done since, short of inserting a connection's entry again: exactly the connections whose entries are gone are closed too, each at the end of its life, and nothing else changes |
| ServerLifecycle.ClosedWithinLife | src/network/TcpServer.cpp:35-69 | between ticks every connection is alive only before its 30th tick, and from then on closed, exactly once |
| ServerLifecycle.OpenConnectionsAreOnTheWheel | src/network/net/TcpConnection.cpp:236-244 | once the server has followed a timing wheel, that wheel holds the entry of every open connection, due at the end of its life |
| ClientStatus.TcpClient.ConnectInLoop | src/network/TcpClinet.cpp:34-65 | status, registration, descriptor and callbacks after every outcome of socket and connect, the first time and again; all is well afterwards if and only if the client was neither connecting nor connected, and otherwise its old descriptor is left behind |
| ClientStatus.ConnectTwice | src/network/TcpClinet.cpp:34-65 | the run connect, connect, for every outcome of the second: the first socket is open and registered under an event that is not its own |
| ClientStatus.TcpClient.UpdateConnectionStatus | src/network/TcpClinet.cpp:67-73 | the connected callback runs only on leaving Connecting |
| ClientStatus.TcpClient.FinishConnecting | src/network/TcpClinet.cpp:84-114 | an attempt that fails deregisters and closes the descriptor, unless the client had been closed before it got one; one that succeeds leaves both alone |
| ClientStatus.TcpClient.OnRead | src/network/TcpClinet.cpp:84-98 | reads go to the connection exactly while connected, and may end it there unless it was closed already; descriptor, registration and interest after every outcome |
| ClientStatus.TcpClient.OnWrite | src/network/TcpClinet.cpp:100-114 | writes go to the connection exactly while connected, and may end it there unless it was closed already; descriptor, registration and interest after every outcome |
| ClientStatus.TcpClient.Send | src/network/TcpClinet.cpp:126-138 | data reaches the connection's send path exactly while connected, hence registered, and is taken there unless the client was closed before it got its socket |
| ClientStatus.TcpClient.OnClose | src/network/TcpClinet.cpp:116-124 | deregisters before closing; the descriptor stays open exactly if the client had been closed before it got one |
| ClientStatus.RegisteredIffActive | src/network/TcpClinet.cpp:34-138 | at rest the descriptor is registered if and only if the status is Connecting or Connected |
| ClientStatus.SocketAfterCloseStaysOpen | src/network/TcpClinet.cpp:34-124 | whatever the socket that a closed client gets goes through, closing the client leaves it open and unregistered |
| ClientStatus.EarlyClose | src/network/TcpClinet.cpp:34-124 | the run close, connect, close |
| ClientStatus.Reconnect | src/network/TcpClinet.cpp:34-124 | the run connect, close, connect, close: the second socket stays open |
| WakeUp.NoLostWakeUp | src/network/net/EventLoop.cpp:181-233 | whenever the loop waits with functions queued, the pipe is readable, dropped writes included, and its edge is pending if and only if no failed read has left bytes behind without one; whether a write to a pipe that is not empty raises an edge is left open |
| WakeUp.OnlyFailedReadsBreak | src/network/net/PipeEvent.cpp:35-65 | hence no wake-up is lost in any run without a failed read |
| WakeUp.FailedReadLosesWakeUp | src/network/net/PipeEvent.cpp:61-63 | a run in which one is lost, the kernel raising no edge for the second write |
| WakeUp.NeverEndOfFile | src/network/net/PipeEvent.cpp:47-74 | no read ever finds the end of the file, as only its handler closes the write end |
| WakeUp.ExactlyOnceInOrder | src/network/net/EventLoop.cpp:208-217 | executed functions followed by queued ones are the pushed ones, in order, in every state of every run |
| WakeUp.PushedBeforeTurnIsExecuted | src/network/net/EventLoop.cpp:208-217 | a completed `RunFuctions` has executed everything pushed before it returned, each at its place |
| WakeUp.LoopThread.RunInLoop | src/network/net/EventLoop.cpp:181-193 | a call from another thread is one push step, wake-up included |
| WakeUp.LoopThread.WakeUp | src/network/net/EventLoop.cpp:224-233 | watches the pipe from the first call on and writes once, dropping the write when the pipe is full |
| WakeUp.LoopThread.OnRead | src/network/net/PipeEvent.cpp:35-65 | empties the pipe, whatever other threads push between two reads, unless a read fails, which is one failed read more in the run; at the end of the file it closes the write end |
| WakeUp.LoopThread.RunFuctions | src/network/net/EventLoop.cpp:208-217 | executes all queued functions in order and leaves none |
| WakeUp.LoopThread.Turn | src/network/net/EventLoop.cpp:31-83 | one pass of the loop: after a wait that did not fail, everything pushed by then is executed, and if it was for the pipe and no read failed, the pipe is empty; wake-ups get lost only where a read failed; after a wait that did fail, nothing has changed |
| WakeUp.PushPassesPush | src/network/net/EventLoop.cpp:31-83 | a push, any number of passes in which no read fails, and another push: the wait will return for that one |

## Left out

- Sockets, epoll, `readv`/`writev` and clocks: their results are parameters or steps, restricted only to what the kernel can return.
- Entries held by anybody else while they are in the wheel: in this code base the wheel has the only strong pointers between calls.
- Fractional delays, negative or 32-bit wrapping delays, gaps of 2^31 seconds and the destruction of a wheel.
- Callbacks.Permitted: callbacks insert a timeout entry only with its own idle time, as its connection does.
- UdpIdle.UdpSocket.OnActivity: the transfers that follow, and the UDP send queue, are not modelled.
- SendQueue.SendHalf.OnEvent: what user callbacks send while reading is a call after the event in the model; in the loop of `OnWrite` it is one between two passes.
- ServerLifecycle.TcpServer.Follow: the wheel does not insert a connection's entry again; nothing in the source does.
- Receive loops of connections and the acceptor, which add nothing to the properties above.
- WakeUp.LoopThread.OnRead: other threads push finitely often while the pipe is drained.
- WakeUp.LoopThread.RunInLoop: calls made on the loop thread itself run at once and never enter the queue; they are not modelled.
- Null entries, which every insert function ignores.
- Memory order and races on the registry from other threads: a push with its wake-up is one step under the lock.
- `findCRLF`, `findEOL`, logging, configuration, DNS refresh, thread pools: no deep property.
