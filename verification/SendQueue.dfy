/**
 The sending half of a TCP connection (src/network/net/TcpConnection.cpp):
 what the kernel does not take at once is queued as I/O vectors and handed to
 `writev` whenever the event loop reports the socket writable. Write interest
 is edge-triggered (src/network/net/Event.h), so the kernel's side of the
 notification is part of the state.
 */
module SendQueue {
  import opened MsgBuffers

  /** The bytes of all vectors, in order. */
  function Flatten(vecs: seq<seq<byte>>): seq<byte> {
    if vecs == [] then [] else vecs[0] + Flatten(vecs[1..])
  }

  lemma {:induction false} FlattenAppend(a: seq<seq<byte>>, b: seq<seq<byte>>)
    ensures Flatten(a + b) == Flatten(a) + Flatten(b)
  {
    if a == [] {
      assert a + b == b;
    } else {
      var head, rest := a[0], Flatten(a[1..]);
      assert Flatten(a + b) == head + (rest + Flatten(b)) by {
        assert (a + b)[0] == head && (a + b)[1..] == a[1..] + b;
        FlattenAppend(a[1..], b);
      }
      assert head + (rest + Flatten(b)) == (head + rest) + Flatten(b) by {
        hide Flatten;
      }
    }
  }

  /** The vectors left after the kernel took `n` bytes: whole vectors go, the next one is cut. */
  function Advanced(vecs: seq<seq<byte>>, n: nat): seq<seq<byte>>
    requires n <= |Flatten(vecs)|
  {
    if n == 0 then vecs
    else if |vecs[0]| > n then [vecs[0][n..]] + vecs[1..]
    else Advanced(vecs[1..], n - |vecs[0]|)
  }

  /** Exactly the accepted prefix is gone, across any number of vectors, empty ones included. */
  lemma {:induction false} AdvancedDropsPrefix(vecs: seq<seq<byte>>, n: nat)
    requires n <= |Flatten(vecs)|
    ensures Flatten(Advanced(vecs, n)) == Flatten(vecs)[n..]
  {
    if n == 0 {
    } else if |vecs[0]| > n {
      assert ([vecs[0][n..]] + vecs[1..])[1..] == vecs[1..];
    } else {
      AdvancedDropsPrefix(vecs[1..], n - |vecs[0]|);
    }
  }

  /**
   Which vectors are left: the first `k` are gone, and `cut` bytes of the next.
   As the source stops as soon as the count is used up, empty vectors behind
   the last byte taken stay.
   */
  lemma {:induction false} AdvancedCuts(vecs: seq<seq<byte>>, n: nat) returns (k: nat, cut: nat)
    requires n <= |Flatten(vecs)|
    ensures k <= |vecs| && |Flatten(vecs[..k])| + cut == n
    ensures if cut == 0 then Advanced(vecs, n) == vecs[k..] && (k > 0 ==> vecs[k - 1] != [])
            else k < |vecs| && cut < |vecs[k]| && Advanced(vecs, n) == [vecs[k][cut..]] + vecs[k + 1..]
  {
    if n == 0 {
      k, cut := 0, 0;
    } else if |vecs[0]| > n {
      k, cut := 0, n;
    } else {
      k, cut := AdvancedCuts(vecs[1..], n - |vecs[0]|);
      assert vecs[..k + 1][0] == vecs[0] && vecs[..k + 1][1..] == vecs[1..][..k];
      k := k + 1;
    }
  }

  /** `size_t` has 64 bits. */
  const SIZE_T: nat := 0x1_0000_0000_0000_0000

  /** The offset that adding an unsigned number to a pointer amounts to. */
  function Offset(unsigned: nat): int
    requires unsigned < SIZE_T
  {
    if unsigned < SIZE_T / 2 then unsigned else unsigned - SIZE_T
  }

  /** `len` bytes from `buf + offset` on; `before` is the byte that lies in front of the buffer. */
  function Memory(before: byte, buf: seq<byte>, offset: int, len: nat): seq<byte>
    requires -1 <= offset && offset + len <= |buf|
  {
    ([before] + buf)[offset + 1..offset + 1 + len]
  }

  /** A result of `write` stored in an unsigned variable, and what subtracting that from a size gives. */
  lemma UnsignedResult(size: nat, result: int)
    requires -1 <= result <= size < 0x8000_0000_0000_0000
    ensures var n := result % 0x1_0000_0000_0000_0000;
            Offset(n) == result && (size - n) % 0x1_0000_0000_0000_0000 == size - result
  {
  }

  /** What stays to be sent: the part that `write` did not take or, if it failed, one byte too many. */
  function Unsent(before: byte, buf: seq<byte>, result: int): seq<byte>
    requires -1 <= result <= |buf|
  {
    if result < 0 then [before] + buf else buf[result..]
  }

  /** How a `writev` fails. */
  datatype Failure = WouldBlock | Interrupted | Fatal

  /** On what a notification that the socket is writable was spent. */
  datatype Use = Reading | Connecting | Writing | Interruption

  /**
   The history of that notification: asked for by `EPOLL_CTL_MOD`, promised by
   the kernel because a write blocked, or spent.
   */
  datatype Note = Rearmed | Blocked | Spent(on: Use)

  ghost predicate PromisedAfter(notes: seq<Note>, i: int) {
    exists j :: 0 <= j < |notes| && i < j && !notes[j].Spent?
  }

  /** Whatever was spent, the kernel has promised a notification since then. */
  ghost predicate Unspent(notes: seq<Note>) {
    forall i :: 0 <= i < |notes| && notes[i].Spent? ==> PromisedAfter(notes, i)
  }

  lemma UnspentIsLast(notes: seq<Note>)
    ensures Unspent(notes) <==> notes == [] || !notes[|notes| - 1].Spent?
  {
    assert !PromisedAfter(notes, |notes| - 1);
  }

  class SendHalf {
    var closed: bool
    var connecting: bool       // a client whose connect is not finished
    var vecs: seq<seq<byte>>   // io_vec_list_, each as the bytes it still points to
    var writeEnabled: bool     // interest in writability at the event loop
    var completions: nat       // calls of the write-complete callback

    ghost var writing: bool         // inside the loop of OnWrite
    ghost var edge: bool            // the kernel has a notification pending
    ghost var owed: bool            // the kernel will raise one as soon as there is room
    ghost var notes: seq<Note>
    ghost var accepted: seq<byte>   // bytes that the kernel has taken
    ghost var submitted: seq<byte>  // bytes passed to Send while open

    ghost predicate Valid()
      reads this
    {
      !closed ==>
        && (!writeEnabled ==> !edge && !owed)
        && !(edge && owed)
        && (writeEnabled ==> notes != [] && (Armed() <==> !notes[|notes| - 1].Spent?))
        && (!writing && notes != [] ==> notes[|notes| - 1] != Spent(Writing))
        && (writing ==> !connecting)
    }

    /** What the kernel has, followed by what it will be given. */
    ghost function Stream(): seq<byte>
      reads this
    {
      accepted + Flatten(vecs)
    }

    /** Nothing is lost, repeated or reordered. */
    ghost predicate Conserved()
      reads this
    {
      Stream() == submitted
    }

    /** The kernel will report the socket writable. */
    ghost predicate Armed()
      reads `edge, `owed
    {
      edge || owed
    }

    /** The connection that a server accepts, or that of a client about to connect. */
    constructor (connecting: bool)
      ensures Valid() && Conserved() && vecs == [] && accepted == submitted == [] && notes == []
      ensures this.connecting == connecting && !closed && !writeEnabled && !Armed() && !writing && completions == 0
    {
      closed, this.connecting, vecs, writeEnabled, completions := false, connecting, [], false, 0;
      writing, edge, owed, notes := false, false, false, [];
      accepted, submitted := [], [];
    }

    /** `EPOLL_CTL_MOD` looks at the socket anew; `room` is what it finds. */
    method EnableWrite(enable: bool, ghost room: bool)
      modifies `writeEnabled, `edge, `owed, `notes
      ensures writeEnabled == enable && edge == (enable && room) && owed == (enable && !room)
      ensures notes == old(notes) + if enable then [Rearmed] else []
    {
      writeEnabled := enable;
      edge, owed := enable && room, enable && !room;
      notes := notes + if enable then [Rearmed] else [];
    }

    /** The peer makes room in the socket's buffer, or data that is not waited for fills it. */
    ghost method RoomChanges(room: bool)
      requires Valid() && Armed()
      modifies `edge, `owed
      ensures Valid() && edge == room && owed == !room
    {
      edge, owed := room, !room;
    }

    /**
     `result` is that of the direct `write`, tried only when nothing is queued,
     and `before` the byte in front of the buffer. What is left is queued and
     waited for. A failed `write` is not recognised: the stream then gets a
     byte that nobody submitted, and this is the only way to break it.
     */
    method SendInLoop(buf: seq<byte>, result: int, before: byte, ghost room: bool)
      requires Valid() && -1 <= result <= |buf| < 0x8000_0000_0000_0000
      modifies this
      ensures Valid() && closed == old(closed) && (closed ==> unchanged(this))
      ensures connecting == old(connecting) && writing == old(writing)
      ensures var result' := if old(vecs) == [] then result else 0;
              var rest := Unsent(before, buf, result');
              !closed ==>
                && submitted == old(submitted) + buf
                && accepted == old(accepted) + (if result' > 0 then buf[..result'] else [])
                && vecs == old(vecs) + (if rest == [] then [] else [rest])
                && writeEnabled == (old(writeEnabled) || rest != [])
                && completions == old(completions) + (if old(vecs) == [] && rest == [] then 1 else 0)
                && (if rest == [] then unchanged(`edge, `owed, `notes)
                    else edge == room && owed == !room && notes == old(notes) + [Rearmed])
      ensures old(Conserved()) && !closed ==> (Conserved() <==> !(old(vecs) == [] && result < 0))
    {
      hide Flatten, Offset, Memory, Unsent;
      if closed {
        return;
      }
      submitted := submitted + buf;
      var sendLen, size := 0, |buf|;
      UnsignedResult(|buf|, if vecs == [] then result else 0);
      if vecs == [] {
        StreamAfterWrite(accepted, vecs, before, buf, result);
        sendLen := result % SIZE_T;
        if result > 0 {
          accepted := accepted + buf[..result];
        }
        size := (size - sendLen) % SIZE_T;
        if size == 0 {
          completions := completions + 1;
          return;
        }
      } else {
        StreamAfterWrite(accepted, vecs, before, buf, 0);
      }
      if size > 0 {
        vecs := vecs + [Memory(before, buf, Offset(sendLen), size)];
        EnableWrite(true, room);
      }
    }

    /**
     The list form queues everything, and asks for a notification only if the
     queue is still empty afterwards. So there will be one if and only if there
     was to be one before, or there is nothing to send.
     */
    method SendListInLoop(list: seq<seq<byte>>, ghost room: bool)
      requires Valid()
      modifies this
      ensures Valid() && closed == old(closed) && (closed ==> unchanged(this))
      ensures connecting == old(connecting) && writing == old(writing)
      ensures !closed ==>
                && submitted == old(submitted) + Flatten(list) && vecs == old(vecs) + list
                && accepted == old(accepted) && completions == old(completions)
                && (if old(vecs) == [] && list == []
                    then writeEnabled && edge == room && owed == !room && notes == old(notes) + [Rearmed]
                    else unchanged(`writeEnabled, `edge, `owed, `notes))
      ensures old(Conserved()) ==> Conserved()
      ensures !closed ==> (Armed() <==> (old(vecs) == [] && list == []) || old(Armed()))
    {
      if closed {
        return;
      }
      submitted := submitted + Flatten(list);
      FlattenAppend(vecs, list);
      hide Flatten;
      assert old(Conserved()) ==> accepted + Flatten(vecs + list) == submitted;
      Queue(list);
      if vecs == [] {
        EnableWrite(true, room);
      }
    }

    method Queue(list: seq<seq<byte>>)
      modifies `vecs
      ensures vecs == old(vecs) + list
    {
      for i := 0 to |list|
        invariant vecs == old(vecs) + list[..i]
      {
        vecs := vecs + [list[i]];
      }
      assert list[..|list|] == list;
    }

    /**
     The event loop dispatches an event of this descriptor, with the flags that
     the kernel found. The notification is consumed whichever handler runs, and
     only one handler runs. `over` says that reading or connecting ends in
     closing the connection.
     */
    method OnEvent(error: bool, hangUp: bool, readable: bool, writable: bool, over: bool)
      requires Valid() && !closed && !writing
      requires (writable ==> writeEnabled && !owed) && (edge ==> writable)
      modifies this
      ensures Valid() && vecs == old(vecs) && accepted == old(accepted) && submitted == old(submitted)
      ensures var died := error || (hangUp && !readable);
              var handled := readable || (writable && old(connecting));
              if died then
                closed && unchanged(`connecting, `writeEnabled, `completions, `writing, `owed, `notes) && !edge
              else if handled then
                && closed == over && unchanged(`writeEnabled, `completions, `writing, `owed) && !edge && !connecting
                && var on := if old(connecting) then Connecting else Reading;
                   notes == old(notes) + if old(edge) then [Spent(on)] else []
              else if !writable then unchanged(this)
              else
                && !closed && !connecting && !edge && !owed
                && if vecs == [] then
                     !writeEnabled && !writing && completions == old(completions) + 1 && notes == old(notes)
                   else
                     writeEnabled && writing && unchanged(`completions) && notes == old(notes) + [Spent(Writing)]
    {
      ghost var notified := edge;
      edge := false;
      if error || (hangUp && !readable) {
        closed := true;
      } else if readable || (writable && connecting) {
        if notified {
          notes := notes + [Spent(if connecting then Connecting else Reading)];
        }
        connecting, closed := false, over;
      } else if writable {
        if vecs == [] {
          EnableWrite(false, false);
          completions := completions + 1;
        } else {
          writing, notes := true, notes + [Spent(Writing)];
        }
      }
    }

    /** One pass of the loop in `OnWrite`: `ret` is what `writev` returned, `failure` how it failed if it did. */
    method WriteStep(ret: int, failure: Failure)
      requires Valid() && !closed && writing && ret <= |Flatten(vecs)|
      modifies this
      ensures Valid() && Stream() == old(Stream()) && submitted == old(submitted) && !connecting
      ensures ret >= 0 ==> accepted == old(accepted) + old(Flatten(vecs))[..ret] && vecs == Advanced(old(vecs), ret)
      ensures ret < 0 ==> accepted == old(accepted) && vecs == old(vecs)
      ensures closed <==> ret < 0 && failure.Fatal?
      ensures writing <==> ret >= 0
      ensures ret >= 0 && vecs == [] ==>
                !writeEnabled && completions == old(completions) + 1 && !edge && !owed && notes == old(notes)
      ensures ret < 0 && failure.Fatal? ==> unchanged(`edge, `owed, `notes)
      ensures !(ret >= 0 && vecs == []) ==> writeEnabled == old(writeEnabled) && completions == old(completions)
      ensures ret >= 0 && vecs != [] ==> unchanged(`edge, `owed, `notes)
      ensures ret < 0 && failure.WouldBlock? ==> owed == writeEnabled && !edge && notes == old(notes) + [Blocked]
      ensures ret < 0 && failure.Interrupted? ==>
                && unchanged(`edge, `owed)
                && notes == old(notes) + if Armed() then [] else [Spent(Interruption)]
    {
      if ret >= 0 {
        Take(ret);
        if vecs == [] {
          EnableWrite(false, false);
          completions := completions + 1;
        }
      } else {
        writing := false;
        match failure {
          case WouldBlock => edge, owed, notes := false, writeEnabled, notes + [Blocked];
          case Interrupted => notes := notes + if Armed() then [] else [Spent(Interruption)];
          case Fatal => closed := true;
        }
      }
    }

    /** Cuts the bytes that the kernel has taken off the queue. */
    method Take(ret: nat)
      requires ret <= |Flatten(vecs)|
      modifies `vecs, `accepted
      ensures vecs == Advanced(old(vecs), ret) && accepted == old(accepted) + old(Flatten(vecs))[..ret]
      ensures Stream() == old(Stream())
    {
      AdvancedDropsPrefix(vecs, ret);
      accepted := accepted + Flatten(vecs)[..ret];
      var left: nat := ret;
      while left > 0
        invariant left <= |Flatten(vecs)| && Advanced(vecs, left) == Advanced(old(vecs), ret)
        invariant accepted == old(accepted) + old(Flatten(vecs))[..ret]
        decreases |vecs|
      {
        if |vecs[0]| > left {
          vecs := [vecs[0][left..]] + vecs[1..];
          left := 0;
          break;
        } else {
          left := left - |vecs[0]|;
          vecs := vecs[1..];
        }
      }
      assert old(accepted) + old(Flatten(vecs)) == accepted + old(Flatten(vecs))[ret..];
    }
  }

  lemma FlattenLast(vecs: seq<seq<byte>>, last: seq<byte>)
    ensures Flatten(vecs + if last == [] then [] else [last]) == Flatten(vecs) + last
  {
    FlattenAppend(vecs, [last]);
    assert Flatten([last]) == last && vecs + [] == vecs;
  }

  /** What a buffer adds to the stream, for every result of `write`. */
  lemma StreamAfterWrite(taken: seq<byte>, vecs: seq<seq<byte>>, before: byte, buf: seq<byte>, result: int)
    requires -1 <= result <= |buf| < 0x8000_0000_0000_0000 && (result != 0 ==> vecs == [])
    ensures var rest := Unsent(before, buf, result);
            var taken' := taken + if result > 0 then buf[..result] else [];
            taken' + Flatten(vecs + if rest == [] then [] else [rest])
            == taken + Flatten(vecs) + if result < 0 then [before] + buf else buf
    ensures var rest := Unsent(before, buf, result);
            |rest| == |buf| - result && rest == Memory(before, buf, result, |buf| - result)
  {
    FlattenLast(vecs, Unsent(before, buf, result));
    if result > 0 {
      assert buf[..result] + buf[result..] == buf;
      assert Flatten(vecs) == [];
    }
  }

  /**
   Main theorem: what is queued when no handler runs will be waited for if and
   only if write interest is on and, since the kernel last promised a
   notification, none has been spent on anything; what it can have been spent
   on is a read, the end of connecting, or a write that was interrupted.
   */
  lemma WaitedForIff(c: SendHalf)
    requires c.Valid() && !c.closed && !c.writing
    ensures c.Armed() <==> c.writeEnabled && Unspent(c.notes)
    ensures c.writeEnabled && !c.Armed() ==>
              c.notes != [] && c.notes[|c.notes| - 1] in {Spent(Reading), Spent(Connecting), Spent(Interruption)}
  {
    UnspentIsLast(c.notes);
    if c.writeEnabled && !c.Armed() {
      match c.notes[|c.notes| - 1].on {
        case Reading =>
        case Connecting =>
        case Writing => assert false;
        case Interruption =>
      }
    }
  }

  /** An empty buffer at the end of a list is never taken off the queue: completion is not reported. */
  method EmptyBufferStays(b: byte) returns (c: SendHalf)
    ensures c.Valid() && c.writing && c.accepted == c.submitted == [b] && c.vecs == [[]] && c.completions == 0
  {
    c := new SendHalf(false);
    c.EnableWrite(true, true);
    c.SendListInLoop([[b], []], true);
    var rest: seq<seq<byte>> := [[]];
    assert [[b], []][1..] == rest && rest[1..] == [] && Flatten(rest) == [] && Flatten([[b], []]) == [b];
    c.OnEvent(false, false, false, true, false);
    c.WriteStep(1, WouldBlock);
    c.WriteStep(0, WouldBlock);
  }

  /** A failed `write` on an idle connection: the byte in front of the buffer is sent along. */
  method FailedWriteSendsForeignByte(buf: seq<byte>, before: byte) returns (c: SendHalf)
    requires |buf| < 0x8000_0000_0000_0000
    ensures !c.closed && c.submitted == buf && c.Stream() == [before] + buf && !c.Conserved()
  {
    c := new SendHalf(false);
    c.SendInLoop(buf, -1, before, true);
    assert c.vecs == [[before] + buf] && Flatten(c.vecs) == [before] + buf;
    assert |c.Stream()| != |c.submitted|;
  }

  /** At rest, open and conserving, with `list` queued and nobody coming back for it. */
  ghost predicate Stranded(c: SendHalf, list: seq<seq<byte>>)
    reads c
  {
    c.Valid() && !c.closed && !c.writing && c.vecs == list != [] && c.Conserved() && !c.Armed()
  }

  /** A list sent on an idle connection. */
  method ListNobodyWaitsFor(list: seq<seq<byte>>) returns (c: SendHalf)
    requires list != []
    ensures Stranded(c, list) && !c.writeEnabled
  {
    c := new SendHalf(false);
    c.SendListInLoop(list, true);
  }

  /** A list sent by a client from its connected callback: connecting has used the notification up. */
  method ListAfterConnect(list: seq<seq<byte>>) returns (c: SendHalf)
    requires list != []
    ensures Stranded(c, list) && c.writeEnabled && c.notes == [Rearmed, Spent(Connecting)]
  {
    c := new SendHalf(true);
    c.EnableWrite(true, false);
    c.RoomChanges(true);
    c.OnEvent(false, false, false, true, false);
    c.SendListInLoop(list, true);
  }

  /** The rest of a buffer, when room and data are reported in one event, which goes to the reader. */
  method RestAfterReading(buf: seq<byte>, taken: nat, before: byte) returns (c: SendHalf)
    requires taken < |buf| < 0x8000_0000_0000_0000
    ensures Stranded(c, [buf[taken..]]) && c.writeEnabled && c.notes == [Rearmed, Spent(Reading)]
  {
    c := new SendHalf(false);
    c.SendInLoop(buf, taken, before, false);
    c.RoomChanges(true);
    c.OnEvent(false, false, true, true, false);
  }

  /** The loop of `OnWrite` after everything is sent: `n` results of zero report completion `n` more times. */
  method CompletesOverAndOver(c: SendHalf, n: nat)
    requires c.Valid() && !c.closed && c.writing && c.vecs == []
    modifies c
    ensures c.Valid() && !c.closed && c.writing && c.vecs == [] && c.completions == old(c.completions) + n
    ensures c.accepted == old(c.accepted) && c.submitted == old(c.submitted)
  {
    for i := 0 to n
      invariant c.Valid() && !c.closed && c.writing && c.vecs == [] && c.completions == old(c.completions) + i
      invariant c.accepted == old(c.accepted) && c.submitted == old(c.submitted)
    {
      c.WriteStep(0, WouldBlock);
    }
  }

  /** ... and a buffer that is written in two parts gets there. */
  method CompletedOnceTooOften(buf: seq<byte>, before: byte, n: nat) returns (c: SendHalf)
    requires 0 < |buf| < 0x8000_0000_0000_0000
    ensures c.accepted == c.submitted == buf && c.writing && c.completions == 1 + n
  {
    c := new SendHalf(false);
    c.SendInLoop(buf, 0, before, true);
    c.OnEvent(false, false, false, true, false);
    assert c.vecs == [buf] && Flatten(c.vecs) == buf;
    c.WriteStep(|buf|, WouldBlock);
    CompletesOverAndOver(c, n);
  }
}
