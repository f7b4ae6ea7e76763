/**
 Handing functions to the loop thread (src/network/net/EventLoop.cpp,
 PipeEvent.cpp): producers push under a lock and write to a non-blocking pipe
 that the loop watches edge-triggered. A state machine over the steps of the
 loop and of any number of producers.
 */
module WakeUp {
  /** What a function does is not modelled, only which one it is. */
  type Function = nat

  /** Bytes that a pipe holds before writes are dropped; at least one wake-up fits. */
  const CAPACITY: nat := 65536
  const WAKE_UP: nat := 8

  /**
   Where the loop thread is: in `epoll_wait`, in the dispatch of what it
   returned (possibly still draining the pipe), in `RunFuctions` with the lock
   held, or in the timers.
   */
  datatype Phase = Waiting | Dispatching(draining: bool) | Running | Timers

  /**
   `edge` is the pipe's pending edge-triggered notification. `broken` says that
   some read failed with bytes left in the pipe and no notification pending, and
   that the kernel has not raised one since. `writeEnd` says that the pipe's
   write end is open.
   */
  datatype State = State(phase: Phase, watched: bool, writeEnd: bool, bytes: nat, edge: bool, broken: bool,
                         functions: seq<Function>, pushed: seq<Function>, executed: seq<Function>)

  const INITIAL := State(Waiting, false, true, 0, false, false, [], [], [])

  datatype Step =
    | Push(f: Function, again: bool) // RunInLoop on another thread, the lock held throughout
    | WaitFails                      // the loop goes straight back to waiting
    | WaitReturns(withPipe: bool)    // events or a timeout
    | ReadPipe(n: nat)               // one read of the drain loop
    | PipeEmpty                      // the read that would block
    | ReadEnds                       // the read that finds the end of the file
    | ReadFails                      // the read that fails for another reason
    | StartRunning
    | RunOne
    | EndRunning
    | BackToWait

  ghost predicate Enabled(s: State, step: Step) {
    match step
    case Push(_, _) => s.phase != Running
    case WaitFails => s.phase == Waiting
    case WaitReturns(withPipe) => s.phase == Waiting && (withPipe ==> s.edge)
    case ReadPipe(n) => s.phase == Dispatching(true) && 0 < n <= s.bytes && n <= WAKE_UP
    case PipeEmpty => s.phase == Dispatching(true) && s.bytes == 0 && s.writeEnd
    case ReadEnds => s.phase == Dispatching(true) && s.bytes == 0 && !s.writeEnd
    case ReadFails => s.phase == Dispatching(true)
    case StartRunning => s.phase == Dispatching(false)
    case RunOne => s.phase == Running && s.functions != []
    case EndRunning => s.phase == Running && s.functions == []
    case BackToWait => s.phase == Timers
  }

  /**
   `PipeEvent::Write`: dropped when the pipe is full or its write end closed. A
   write to an empty pipe raises an edge; whether one to a pipe that is not
   empty does so again is the kernel's choice.
   */
  function Write(s: State, again: bool): State {
    if s.bytes + WAKE_UP > CAPACITY || !s.writeEnd then s
    else if s.bytes == 0 || again then s.(bytes := s.bytes + WAKE_UP, edge := true, broken := false)
    else s.(bytes := s.bytes + WAKE_UP)
  }

  ghost function Apply(s: State, step: Step): State
    requires Enabled(s, step)
  {
    match step
    case Push(f, again) =>
      Write(s.(functions := s.functions + [f], pushed := s.pushed + [f], watched := true), again)
    case WaitFails => s
    case WaitReturns(withPipe) => s.(phase := Dispatching(withPipe), edge := s.edge && !withPipe)
    case ReadPipe(n) => s.(bytes := s.bytes - n, edge := s.edge && s.bytes > n)
    case PipeEmpty => s.(phase := Dispatching(false))
    case ReadEnds => s.(phase := Dispatching(false), writeEnd := false)
    case ReadFails => s.(phase := Dispatching(false), broken := s.broken || (s.bytes > 0 && !s.edge))
    case StartRunning => s.(phase := Running)
    case RunOne => s.(executed := s.executed + [s.functions[0]], functions := s.functions[1..])
    case EndRunning => s.(phase := Timers)
    case BackToWait => s.(phase := Waiting)
  }

  ghost predicate IsRun(ss: seq<State>, steps: seq<Step>) {
    && |ss| == |steps| + 1
    && ss[0] == INITIAL
    && forall i :: 0 <= i < |steps| ==> Enabled(ss[i], steps[i]) && ss[i + 1] == Apply(ss[i], steps[i])
  }

  ghost predicate Inv(s: State) {
    && s.pushed == s.executed + s.functions
    && s.writeEnd && (s.edge ==> s.bytes > 0)
    && (s.bytes > 0 ==> s.watched && (s.edge || s.phase == Dispatching(true) || s.broken))
    && (s.broken ==> s.bytes > 0 && !s.edge && s.phase != Dispatching(true))
    && (s.functions != [] && s.phase in {Waiting, Timers} ==> s.bytes > 0)
  }

  lemma StepKeepsInv(s: State, step: Step)
    requires Inv(s) && Enabled(s, step)
    ensures Inv(Apply(s, step))
  {
    if step.Push? {
      assert s.executed + (s.functions + [step.f]) == s.executed + s.functions + [step.f];
    } else if step.RunOne? {
      assert s.functions == [s.functions[0]] + s.functions[1..];
      assert s.executed + [s.functions[0]] + s.functions[1..] == s.executed + s.functions;
    }
  }

  lemma {:induction false} RunKeepsInv(ss: seq<State>, steps: seq<Step>, n: nat)
    requires IsRun(ss, steps) && n <= |steps|
    ensures Inv(ss[n])
  {
    if n > 0 {
      RunKeepsInv(ss, steps, n - 1);
      StepKeepsInv(ss[n - 1], steps[n - 1]);
    }
  }

  /**
   Whenever the loop waits while functions are queued, the pipe is readable,
   and its notification is still pending, so that the wait returns for the
   pipe, if and only if no failed read has left bytes behind without one.
   */
  lemma NoLostWakeUp(ss: seq<State>, steps: seq<Step>, n: nat)
    requires IsRun(ss, steps) && n <= |steps|
    requires ss[n].phase == Waiting && ss[n].functions != []
    ensures ss[n].watched && ss[n].bytes > 0
    ensures Enabled(ss[n], WaitReturns(true)) <==> !ss[n].broken
  {
    RunKeepsInv(ss, steps, n);
  }

  /** Without a failed read, no wake-up is ever lost. */
  lemma {:induction false} OnlyFailedReadsBreak(ss: seq<State>, steps: seq<Step>, n: nat)
    requires IsRun(ss, steps) && n <= |steps| && ReadFails !in steps[..n]
    ensures !ss[n].broken
  {
    if n > 0 {
      assert steps[..n][n - 1] == steps[n - 1];
      assert steps[..n - 1] == steps[..n][..n - 1];
      OnlyFailedReadsBreak(ss, steps, n - 1);
    }
  }

  /** The write end is closed only where the end of the file is found, so that never happens. */
  lemma NeverEndOfFile(ss: seq<State>, steps: seq<Step>)
    requires IsRun(ss, steps)
    ensures ReadEnds !in steps
  {
    forall i | 0 <= i < |steps| ensures steps[i] != ReadEnds {
      RunKeepsInv(ss, steps, i);
      assert Enabled(ss[i], steps[i]);
    }
  }

  /** A failed read after which a push does not wake the loop up: it is found only when the wait times out. */
  lemma FailedReadLosesWakeUp(f: Function, g: Function) returns (ss: seq<State>, steps: seq<Step>)
    ensures IsRun(ss, steps) && ReadFails in steps
    ensures var s := ss[|steps|];
            s.phase == Waiting && s.functions == [g] && s.bytes > 0 && !Enabled(s, WaitReturns(true))
  {
    steps := [Push(f, false), WaitReturns(true), ReadFails,
              StartRunning, RunOne, EndRunning, BackToWait, Push(g, false)];
    var s1 := Apply(INITIAL, steps[0]);
    var s2 := Apply(s1, steps[1]);
    var s3 := Apply(s2, steps[2]);
    var s4 := Apply(s3, steps[3]);
    var s5 := Apply(s4, steps[4]);
    var s6 := Apply(s5, steps[5]);
    var s7 := Apply(s6, steps[6]);
    ss := [INITIAL, s1, s2, s3, s4, s5, s6, s7, Apply(s7, steps[7])];
    assert steps[2] == ReadFails;
  }

  /** Functions are executed in the order of the pushes, none twice and none skipped. */
  lemma ExactlyOnceInOrder(ss: seq<State>, steps: seq<Step>, n: nat)
    requires IsRun(ss, steps) && n <= |steps|
    ensures ss[n].pushed == ss[n].executed + ss[n].functions
    ensures n < |steps| && steps[n] == EndRunning ==> ss[n].executed == ss[n].pushed
  {
    RunKeepsInv(ss, steps, n);
  }

  lemma StepGrows(s: State, step: Step)
    requires Enabled(s, step)
    ensures s.pushed <= Apply(s, step).pushed && s.executed <= Apply(s, step).executed
  {
  }

  /** History only grows. */
  lemma {:induction false} HistoryGrows(ss: seq<State>, steps: seq<Step>, m: nat, n: nat)
    requires IsRun(ss, steps) && m <= n <= |steps|
    ensures ss[m].pushed <= ss[n].pushed && ss[m].executed <= ss[n].executed
    decreases n
  {
    hide Enabled, Apply;
    if m < n {
      HistoryGrows(ss, steps, m, n - 1);
      StepGrows(ss[n - 1], steps[n - 1]);
    }
  }

  /** One turn of the loop executes everything that was pushed before its `RunFuctions` returned. */
  lemma PushedBeforeTurnIsExecuted(ss: seq<State>, steps: seq<Step>, i: nat, turn: nat)
    requires IsRun(ss, steps) && i < turn < |steps|
    requires steps[i].Push? && steps[turn] == EndRunning
    ensures var at := |ss[i].pushed|;
            at < |ss[turn].executed| && ss[turn].executed[at] == steps[i].f
  {
    HistoryGrows(ss, steps, i + 1, turn);
    RunKeepsInv(ss, steps, turn);
    assert ss[i + 1].pushed == ss[i].pushed + [steps[i].f];
    assert ss[turn].executed == ss[turn].pushed;
  }

  /** How many reads of the pipe have failed. */
  function Failures(steps: seq<Step>): nat {
    if steps == [] then 0 else Failures(steps[..|steps| - 1]) + if steps[|steps| - 1] == ReadFails then 1 else 0
  }

  /** The loop's side of the protocol in its own form; every method extends a run of the machine above. */
  class LoopThread {
    var functions: seq<Function>
    var watched: bool                  // pipe_event_ exists and is registered
    var writeEnd: bool                 // write_fd_ is open
    var bytes: nat                     // in the pipe
    var edge: bool                     // the kernel's notification of it
    var executed: seq<Function>
    ghost var phase: Phase
    ghost var broken: bool
    ghost var pushed: seq<Function>
    ghost var states: seq<State>
    ghost var steps: seq<Step>

    ghost function Now(): State
      reads this
    {
      State(phase, watched, writeEnd, bytes, edge, broken, functions, pushed, executed)
    }

    ghost predicate Valid()
      reads this
    {
      IsRun(states, steps) && states[|steps|] == Now()
    }

    constructor ()
      ensures Valid() && Now() == INITIAL && steps == []
    {
      functions, watched, writeEnd, bytes, executed := [], false, true, 0, [];
      phase, edge, broken, pushed, states, steps := Waiting, false, false, [], [INITIAL], [];
    }

    ghost method Record(step: Step)
      requires IsRun(states, steps) && Enabled(states[|steps|], step)
      requires Now() == Apply(states[|steps|], step)
      modifies `states, `steps
      ensures Valid() && steps == old(steps) + [step]
      ensures Failures(steps) == Failures(old(steps)) + if step == ReadFails then 1 else 0
    {
      states, steps := states + [Now()], steps + [step];
    }

    /** On another thread, with the lock held: push, then wake the loop up. `again` is the kernel's choice. */
    method RunInLoop(f: Function, again: bool)
      requires Valid() && phase != Running
      modifies `functions, `watched, `bytes, `edge, `broken, `pushed, `states, `steps
      ensures Valid() && steps == old(steps) + [Push(f, again)] && (broken ==> old(broken))
      ensures functions == old(functions) + [f] && pushed == old(pushed) + [f]
      ensures Failures(steps) == Failures(old(steps))
      ensures watched && (old(bytes) == 0 && writeEnd ==> edge) && (old(edge) ==> edge) && bytes >= old(bytes)
    {
      hide IsRun, Failures;
      functions, pushed := functions + [f], pushed + [f];
      WakeUp(again);
      Record(Push(f, again));
    }

    /** The pipe is made on first use; eight bytes are written unless the pipe, of 64 KiB, is full. */
    method WakeUp(again: bool)
      modifies `watched, `bytes, `edge, `broken
      ensures watched && Now() == Write(old(Now()).(watched := true), again)
      ensures bytes == if old(bytes) + 8 <= 65536 && writeEnd then old(bytes) + 8 else old(bytes)
      ensures edge == (old(edge) || (old(bytes) + 8 <= 65536 && writeEnd && (old(bytes) == 0 || again)))
    {
      if !watched {
        watched := true;
      }
      if bytes + WAKE_UP <= CAPACITY && writeEnd {
        if bytes == 0 || again {
          edge, broken := true, false;
        }
        bytes := bytes + WAKE_UP;
      }
    }

    /**
     `PipeEvent::OnRead`: read until a read would block, finds the end of the
     file or fails. `others` is what other threads push before each read, and
     `fails` the fate of the read that comes after these; `used` says how many
     of them found the loop still reading, and `gaveUp` whether a read failed.
     */
    method OnRead(others: seq<seq<Function>>, fails: bool) returns (used: nat, gaveUp: bool)
      requires Valid() && phase == Dispatching(true)
      modifies this
      ensures Valid() && phase == Dispatching(false) && watched == (old(watched) || |pushed| > |old(pushed)|)
      ensures old(steps) <= steps && executed == old(executed) && used <= |others|
      ensures functions == old(functions) + Concat(others[..used]) && pushed == old(pushed) + Concat(others[..used])
      ensures Failures(steps) == Failures(old(steps)) + if gaveUp then 1 else 0
      ensures gaveUp ==> fails && used == |others|
      ensures !gaveUp ==> bytes == 0 && !edge && (broken ==> old(broken))
      ensures fails && others == [] ==> gaveUp && bytes == old(bytes) && edge == old(edge)
    {
      hide IsRun, Write, Concat, Failures;
      used, gaveUp := 0, false;
      NothingPushed();
      while true
        invariant Valid() && phase == Dispatching(true) && used <= |others| && (broken ==> old(broken))
        invariant watched == (old(watched) || |pushed| > |old(pushed)|)
        invariant old(steps) <= steps && Failures(steps) == Failures(old(steps)) && executed == old(executed)
        invariant functions == old(functions) + Concat(others[..used]) && pushed == old(pushed) + Concat(others[..used])
        invariant others == [] && fails ==> bytes == old(bytes) && edge == old(edge)
        decreases |others| - used, bytes
      {
        if used < |others| {
          ConcatNext(others, used);
          PushAll(others[used]);
          used := used + 1;
        } else if fails {
          LastRead(true);
          return used, true;
        }
        if bytes == 0 {
          LastRead(false);
          return;
        }
        ReadOnce();
      }
    }

    /** The read that ends the loop. */
    method LastRead(fails: bool)
      requires Valid() && phase == Dispatching(true) && (fails || bytes == 0)
      modifies `writeEnd, `phase, `broken, `states, `steps
      ensures Valid() && phase == Dispatching(false) && (broken ==> fails || old(broken)) && old(steps) <= steps
      ensures Failures(steps) == Failures(old(steps)) + if fails then 1 else 0
      ensures bytes == 0 ==> !edge
    {
      hide IsRun, Write, Failures;
      EdgeMeansBytes();
      phase := Dispatching(false);
      if fails {
        broken := broken || (bytes > 0 && !edge);
        Record(ReadFails);
      } else if writeEnd {
        Record(PipeEmpty);
      } else {
        OnClose();
        Record(ReadEnds);
      }
    }

    lemma EdgeMeansBytes()
      requires Valid()
      ensures edge ==> bytes > 0
    {
      RunKeepsInv(states, steps, |steps|);
    }

    method OnClose()
      modifies `writeEnd
      ensures !writeEnd
    {
      if writeEnd {
        writeEnd := false;
      }
    }

    method ReadOnce()
      requires Valid() && phase == Dispatching(true) && bytes > 0
      modifies `bytes, `edge, `states, `steps
      ensures Valid() && bytes == (if old(bytes) < 8 then 0 else old(bytes) - 8)
      ensures steps == old(steps) + [ReadPipe(old(bytes) - bytes)] && Failures(steps) == Failures(old(steps))
    {
      hide IsRun, Write, Failures;
      var n := if bytes < WAKE_UP then bytes else WAKE_UP;
      bytes, edge := bytes - n, edge && bytes > n;
      Record(ReadPipe(n));
    }

    method PushAll(fs: seq<Function>)
      requires Valid() && phase != Running
      modifies `functions, `watched, `bytes, `edge, `broken, `pushed, `states, `steps
      ensures Valid() && (broken ==> old(broken)) && watched == (old(watched) || fs != [])
      ensures old(steps) <= steps && Failures(steps) == Failures(old(steps))
      ensures functions == old(functions) + fs && pushed == old(pushed) + fs
    {
      hide IsRun, Failures;
      for i := 0 to |fs|
        invariant Valid() && (broken ==> old(broken)) && watched == (old(watched) || i > 0)
        invariant old(steps) <= steps && Failures(steps) == Failures(old(steps))
        invariant functions == old(functions) + fs[..i] && pushed == old(pushed) + fs[..i]
      {
        var again: bool := *;
        RunInLoop(fs[i], again);
      }
    }

    /** With the lock held throughout: execute and pop until nothing is queued. */
    method RunFuctions()
      requires Valid() && phase == Dispatching(false)
      modifies `functions, `executed, `phase, `states, `steps
      ensures Valid() && phase == Timers && old(steps) <= steps && Failures(steps) == Failures(old(steps))
      ensures functions == [] && executed == old(executed) + old(functions) == pushed
    {
      hide IsRun, Write, Failures;
      assert pushed == executed + functions by { ExactlyOnceInOrder(states, steps, |steps|); }
      phase := Running;
      Record(StartRunning);
      while functions != []
        invariant Valid() && phase == Running && old(steps) <= steps && Failures(steps) == Failures(old(steps))
        invariant executed + functions == old(executed) + old(functions)
        decreases |functions|
      {
        ExecuteFirst();
      }
      phase := Timers;
      Record(EndRunning);
    }

    method ExecuteFirst()
      requires Valid() && phase == Running && functions != []
      modifies `functions, `executed, `states, `steps
      ensures Valid() && steps == old(steps) + [RunOne] && Failures(steps) == Failures(old(steps))
      ensures executed == old(executed) + old(functions)[..1]
      ensures executed + functions == old(executed) + old(functions) && |functions| < |old(functions)|
    {
      hide IsRun, Write, Failures;
      var f := functions[0];
      assert executed + functions == executed + [f] + functions[1..];
      executed := executed + [f];
      functions := functions[1..];
      Record(RunOne);
    }

    /**
     One pass of `EventLoop::Loop`: `failed` and `withPipe` are what the wait
     reports, the rest is as in `OnRead`. A wait that does not fail ends with
     everything executed that was pushed until then, and if it was for the pipe,
     with the pipe empty.
     */
    method Turn(failed: bool, withPipe: bool, others: seq<seq<Function>>, fails: bool)
      returns (used: nat, gaveUp: bool)
      requires Valid() && phase == Waiting && (withPipe ==> edge)
      modifies this
      ensures Valid() && phase == Waiting && used <= |others|
      ensures failed ==> Now() == old(Now()) && steps == old(steps) + [WaitFails]
      ensures !failed ==> old(steps) + [WaitReturns(withPipe)] <= steps && steps[|steps| - 1] == BackToWait
      ensures !failed ==> functions == [] && executed == pushed == old(pushed) + Concat(others[..used])
      ensures !failed && !withPipe ==>
                used == 0 && (watched, bytes, edge, broken) == old((watched, bytes, edge, broken))
      ensures Failures(steps) == Failures(old(steps)) + if gaveUp then 1 else 0
      ensures gaveUp ==> !failed && withPipe && fails && used == |others|
      ensures !failed && withPipe && !gaveUp ==> bytes == 0 && !edge && !broken
      ensures broken ==> old(broken) || gaveUp
    {
      hide IsRun, Write, Concat, Failures, Enabled;
      NothingPushed();
      used, gaveUp := 0, false;
      if failed {
        WaitFailed();
        return;
      }
      WaitReturned(withPipe);
      if withPipe {
        used, gaveUp := OnRead(others, fails);
      }
      RunFuctions();
      AfterTimers();
    }

    method WaitFailed()
      requires Valid() && phase == Waiting
      modifies `states, `steps
      ensures Valid() && steps == old(steps) + [WaitFails] && Failures(steps) == Failures(old(steps))
    {
      Record(WaitFails);
    }

    method WaitReturned(withPipe: bool)
      requires Valid() && phase == Waiting && (withPipe ==> edge)
      modifies `phase, `edge, `states, `steps
      ensures Valid() && phase == Dispatching(withPipe) && edge == (old(edge) && !withPipe) && (withPipe ==> !broken)
      ensures steps == old(steps) + [WaitReturns(withPipe)] && Failures(steps) == Failures(old(steps))
    {
      hide IsRun, Write, Failures;
      phase, edge := Dispatching(withPipe), edge && !withPipe;
      Record(WaitReturns(withPipe));
      if withPipe {
        NotBroken();
      }
    }

    method AfterTimers()
      requires Valid() && phase == Timers
      modifies `phase, `states, `steps
      ensures Valid() && phase == Waiting
      ensures steps == old(steps) + [BackToWait] && Failures(steps) == Failures(old(steps))
    {
      hide IsRun, Write, Failures;
      phase := Waiting;
      Record(BackToWait);
    }

    lemma NotBroken()
      requires Valid() && phase == Dispatching(true)
      ensures !broken
    {
      RunKeepsInv(states, steps, |steps|);
    }
  }

  function Concat(fs: seq<seq<Function>>): seq<Function> {
    if fs == [] then [] else Concat(fs[..|fs| - 1]) + fs[|fs| - 1]
  }

  lemma NothingPushed()
    ensures Concat([]) == []
  {
  }

  lemma ConcatNext(fs: seq<seq<Function>>, i: nat)
    requires i < |fs|
    ensures Concat(fs[..i + 1]) == Concat(fs[..i]) + fs[i]
  {
    assert fs[..i + 1][..i] == fs[..i];
  }

  /** What one pass of the loop meets. */
  datatype Pass = Pass(failed: bool, forPipe: bool, others: seq<seq<Function>>)

  /**
   A push, any number of passes in which no read fails, and another push: after
   that the pipe is readable and its notification is pending, so the wait
   returns for it.
   */
  method PushPassesPush(loop: LoopThread, f: Function, passes: seq<Pass>, g: Function, again: bool)
    requires loop.Valid() && loop.phase == Waiting && !loop.broken
    modifies loop
    ensures loop.Valid() && loop.phase == Waiting && loop.edge && loop.bytes > 0
    ensures |loop.functions| > 0 && loop.functions[|loop.functions| - 1] == g
    ensures Enabled(loop.Now(), WaitReturns(true))
  {
    hide IsRun, Write, Concat;
    loop.RunInLoop(f, again);
    for i := 0 to |passes|
      invariant loop.Valid() && loop.phase == Waiting && !loop.broken
    {
      var _, _ := loop.Turn(passes[i].failed, passes[i].forPipe && loop.edge, passes[i].others, false);
    }
    loop.RunInLoop(g, again);
    NoLostWakeUp(loop.states, loop.steps, |loop.steps|);
  }
}
