/**
 What the destructors of entries do to the wheel. The function that an entry
 runs is given with the request that makes the entry, as the closures of the
 source are, so that what a run must contain can be computed.
 */
module Callbacks {
  import opened Deadlines
  import opened Calendar

  /** A user function: the requests that it makes, in order. */
  datatype Function = Function(requests: seq<Action>)

  /** A request; `Repeat` comes with what its function does in each period, and does nothing once these are used up. */
  datatype Action =
    | After(delay: nat, cb: Function)
    | Repeat(interval: nat, cbs: seq<Function>)
    | Share(delay: nat, cb: Function)
    | Watch(idle: nat, cb: Function)
    | Again(entry: Entry, delay: nat)

  function Delay(a: Action): nat {
    match a
    case After(delay, _) => delay
    case Repeat(interval, _) => interval
    case Share(delay, _) => delay
    case Watch(idle, _) => idle
    case Again(_, delay) => delay
  }

  /** The entry that a request is about: a new one with the given name, or the one to be inserted again. */
  function Subject(a: Action, id: nat): Entry {
    match a
    case After(_, _) => Once(id)
    case Repeat(interval, _) => Every(id, interval, 0)
    case Share(_, _) => Shared(id)
    case Watch(idle, _) => Timeout(id, idle)
    case Again(e, _) => e
  }

  /** What the request's new entry runs, and in what a periodic one's successors differ. */
  function Code(a: Action): seq<Function> {
    match a
    case After(_, f) => [f]
    case Repeat(_, fs) => fs
    case Share(_, f) => [f]
    case Watch(_, f) => [f]
    case Again(_, _) => []
  }

  function FirstOf(cbs: seq<Function>): Function {
    if cbs == [] then Function([]) else cbs[0]
  }

  /** A timeout entry is always inserted with its own idle time. */
  predicate Permitted(a: Action) {
    match a
    case Again(e, delay) => e.Reusable() && (e.Timeout? ==> delay == e.idle)
    case _ => true
  }

  /** The events so far, the next free name, the entries that are alive, and what the entries' destructors run. */
  datatype Trail = Trail(events: seq<Event>, nextId: nat, live: set<Entry>, code: map<Entry, seq<Function>>)

  /** A new entry is made. */
  function Named(a: Action, t: Trail): Trail {
    t.(nextId := t.nextId + 1, code := t.code[Subject(a, t.nextId) := Code(a)])
  }

  function Inserted(e: Entry, delay: nat, t: Trail): Trail {
    t.(events := t.events + [Insert(e, delay)], live := t.live + {e})
  }

  function Refused(e: Entry, t: Trail): Trail {
    t.(events := t.events + [Refuse(e)])
  }

  /** What a list of requests adds to a run. */
  function Requested(requests: seq<Action>, t: Trail): Trail
    decreases requests
  {
    if requests == [] then t
    else Asked(requests[|requests| - 1], Requested(requests[..|requests| - 1], t))
  }

  /**
   What one request adds: an insertion, or the refusal of the new entry and
   what its function asks for in its turn. A dead entry is not inserted again.
   */
  function Asked(a: Action, t: Trail): Trail
    decreases a
  {
    var e := Subject(a, t.nextId);
    if !Permitted(a) then t
    else if a.Again? then
      if e in t.live && Accepted(a.delay) then Inserted(e, a.delay, t) else t
    else if Accepted(Delay(a)) then Inserted(e, Delay(a), Named(a, t))
    else
      match a
      case After(_, f) => Requested(f.requests, Refused(e, Named(a, t)))
      case Share(_, f) => Requested(f.requests, Refused(e, Named(a, t)))
      case Watch(_, f) => Requested(f.requests, Refused(e, Named(a, t)))
      case Repeat(interval, fs) => Endless(interval, fs, t)
  }

  /**
   A refused period: `RunEvery` is called again, with the same interval, by the
   destructor of its own entry. The source never gets out of that; what it does
   on the way is followed for as long as the function does anything.
   */
  function Endless(interval: nat, fs: seq<Function>, t: Trail): Trail
    decreases fs
  {
    var t' := Refused(Every(t.nextId, interval, 0), Named(Repeat(interval, fs), t));
    if fs == [] then t' else Endless(interval, fs[1..], Requested(fs[0].requests, t'))
  }

  /** What the destructor of `e` adds: what its function asks for, then the next period of a periodic entry. */
  function Destructed(e: Entry, f: Function, t: Trail): Trail {
    var t' := Requested(f.requests, t);
    match NextGeneration(e)
    case None => t'
    case Some(next) => Inserted(next, next.interval, t')
  }

  lemma NothingRequested(t: Trail)
    ensures Requested([], t) == t
  {
  }

  lemma AskedNew(a: Action, t: Trail)
    requires !a.Again?
    ensures var e := Subject(a, t.nextId);
            Asked(a, t)
            == if Accepted(Delay(a)) then Inserted(e, Delay(a), Named(a, t))
               else if a.Repeat? then Endless(a.interval, a.cbs, t)
               else Requested(a.cb.requests, Refused(e, Named(a, t)))
  {
  }

  lemma EndlessStep(interval: nat, cbs: seq<Function>, t: Trail)
    ensures var t' := Refused(Every(t.nextId, interval, 0), Named(Repeat(interval, cbs), t));
            Endless(interval, cbs, t)
            == if cbs == [] then t' else Endless(interval, cbs[1..], Requested(cbs[0].requests, t'))
  {
  }

  predicate Destroys(ev: Event) {
    ev.Fire? || ev.Refuse?
  }

  /** The entries destroyed by a sequence of events, in order. */
  function Destroyed(evs: seq<Event>): seq<Entry> {
    if evs == [] then []
    else
      var last := evs[|evs| - 1];
      Destroyed(evs[..|evs| - 1]) + if Destroys(last) then [last.entry] else []
  }

  lemma {:induction false} DestroyedAppend(a: seq<Event>, b: seq<Event>)
    ensures Destroyed(a + b) == Destroyed(a) + Destroyed(b)
  {
    if b == [] {
      assert a + b == a;
    } else {
      assert (a + b)[..|a + b| - 1] == a + b[..|b| - 1];
      DestroyedAppend(a, b[..|b| - 1]);
    }
  }

  /** What the destructor of an entry runs; the source hands a periodic entry's function on to the next period. */
  function CodeOf(code: map<Entry, seq<Function>>, e: Entry): Function {
    var (first, k) := if e.Every? then (Every(e.id, e.interval, 0), e.generation) else (e, 0);
    if first in code && k < |code[first]| then code[first][k] else Function([])
  }

  /**
   A wheel's past: its run, the functions that were run, by the entries whose
   destructors ran them, what the entries' destructors run, and the next free
   name.
   */
  datatype Story = Story(states: seq<State>, events: seq<Event>, log: seq<Entry>,
                         code: map<Entry, seq<Function>>, nextId: nat)
  {
    ghost predicate Valid() {
      IsRun(states, events) && (forall e <- Last(states).born :: e.id < nextId) && forall e <- code :: e.id < nextId
    }
  }

  /**
   The run up to what the destructor must have done, if the next free name was
   `n`, and `code` what was known of entries, when it began.
   */
  ghost function Answer(s: Story, i: nat, n: nat, code: map<Entry, seq<Function>>): Trail
    requires i < |s.events| < |s.states| && Destroys(s.events[i])
  {
    var e, t := s.events[i].entry, Trail(s.events[..i + 1], n, s.states[i + 1].due.Keys, code);
    if s.events[i].Fire? then Destructed(e, CodeOf(s.code, e), t) else Requested(CodeOf(s.code, e).requests, t)
  }

  ghost predicate Included(a: map<Entry, seq<Function>>, b: map<Entry, seq<Function>>) {
    forall e <- a :: e in b && b[e] == a[e]
  }

  /** What the destructor of the entry that the `i`-th event destroys had to do has been done, at once and in order. */
  ghost predicate Carried(s: Story, i: nat)
    requires i < |s.events| < |s.states| && Destroys(s.events[i])
  {
    exists n: nat, code :: Answer(s, i, n, code).events <= s.events && Included(Answer(s, i, n, code).code, s.code)
  }

  /** What is known of entries that have a name by now does not change. */
  ghost predicate Extends(a: Story, b: Story) {
    && a.states <= b.states && a.events <= b.events && a.nextId <= b.nextId
    && Included(a.code, b.code)
    && (forall e <- b.code | e !in a.code :: e.id >= a.nextId)
  }

  /** `b` continues `a`: every destruction since then ran its function, and what this asked for was done. */
  ghost predicate Continues(a: Story, b: Story) {
    && Extends(a, b) && |b.states| == |b.events| + 1
    && b.log == a.log + Destroyed(b.events[|a.events|..])
    && (forall i :: |a.events| <= i < |b.events| && Destroys(b.events[i]) ==> Carried(b, i))
  }

  lemma DestroyedAreNamed(s: Story, i: nat)
    requires s.Valid() && i < |s.events| && Destroys(s.events[i])
    ensures s.events[i].entry.id < s.nextId
  {
    RunSound(s.states, s.events, i);
    assert Enabled(s.states[i], s.events[i]);
    BornGrows(s.states, s.events, i, |s.events|);
    BornGrows(s.states, s.events, i + 1, |s.events|);
  }

  lemma SameCode(a: Story, b: Story, e: Entry)
    requires Extends(a, b) && e.id < a.nextId
    ensures CodeOf(b.code, e) == CodeOf(a.code, e)
  {
  }

  lemma CarriedStays(a: Story, b: Story, i: nat)
    requires a.Valid() && Extends(a, b) && |b.events| < |b.states|
    requires i < |a.events| && Destroys(a.events[i]) && Carried(a, i)
    ensures Carried(b, i)
  {
    hide CodeOf, Requested, Destructed;
    DestroyedAreNamed(a, i);
    SameCode(a, b, a.events[i].entry);
    var n: nat, code :| Answer(a, i, n, code).events <= a.events && Included(Answer(a, i, n, code).code, a.code);
    assert b.events[..i + 1] == a.events[..i + 1];
    assert Answer(b, i, n, code) == Answer(a, i, n, code);
  }

  lemma ContinuesFurther(a: Story, b: Story, c: Story)
    requires Continues(a, b) && Continues(b, c) && b.Valid()
    ensures Continues(a, c)
  {
    hide Carried, Destroyed;
    assert c.events[|a.events|..] == b.events[|a.events|..] + c.events[|b.events|..];
    DestroyedAppend(b.events[|a.events|..], c.events[|b.events|..]);
    forall i | |a.events| <= i < |c.events| && Destroys(c.events[i]) ensures Carried(c, i) {
      if i < |b.events| {
        CarriedStays(b, c, i);
      }
    }
  }

  lemma ContinuesItself(s: Story)
    requires |s.states| == |s.events| + 1
    ensures Continues(s, s)
  {
  }

  /** Only a name was given out. */
  lemma ContinuesByName(a: Story, b: Story)
    requires Extends(a, b) && b.states == a.states && b.events == a.events && b.log == a.log
    requires |a.states| == |a.events| + 1
    ensures Continues(a, b)
  {
    assert b.events[|a.events|..] == [];
  }

  lemma ContinuesGrows(a: Story, b: Story)
    requires Continues(a, b)
    ensures a.events <= b.events && a.log <= b.log && Extends(a, b) && |b.states| == |b.events| + 1
  {
  }

  /** An event that destroys nothing. */
  lemma ContinuesByOne(a: Story, b: Story, ev: Event)
    requires Extends(a, b) && |b.states| == |b.events| + 1 && b.log == a.log
    requires b.events == a.events + [ev] && !Destroys(ev)
    ensures Continues(a, b)
  {
    assert b.events[|a.events|..] == [ev] && [ev][..0] == [];
  }

  lemma JustCarried(b: Story, c: Story, ev: Event)
    requires |b.events| > 0 && b.events[|b.events| - 1] == ev && Destroys(ev) && |b.states| == |b.events| + 1
    requires Extends(b, c) && |c.states| > |c.events| && ev.entry.id < b.nextId
    requires var t := Trail(b.events, b.nextId, Last(b.states).due.Keys, b.code);
             var f := CodeOf(b.code, ev.entry);
             var t' := if ev.Fire? then Destructed(ev.entry, f, t) else Requested(f.requests, t);
             t'.events <= c.events && Included(t'.code, c.code)
    ensures c.events[|b.events| - 1] == ev && Carried(c, |b.events| - 1)
  {
    hide Requested, Destructed, CodeOf;
    var k := |b.events| - 1;
    SameCode(b, c, ev.entry);
    assert c.events[..k + 1] == b.events && c.events[k] == ev && c.states[k + 1] == Last(b.states);
    assert Answer(c, k, b.nextId, b.code).events <= c.events;
  }

  /**
   A destruction, the first event since `a`, ends when all that it had to do is
   done: `b` is the story right after the event, with the entry in the log.
   */
  lemma ContinuesByDestruction(a: Story, b: Story, c: Story, ev: Event)
    requires Extends(a, b) && b.events == a.events + [ev] && Destroys(ev) && b.log == a.log + [ev.entry]
    requires b.Valid() && Continues(b, c) && ev.entry.id < b.nextId
    requires var t := Trail(b.events, b.nextId, Last(b.states).due.Keys, b.code);
             var f := CodeOf(b.code, ev.entry);
             var t' := if ev.Fire? then Destructed(ev.entry, f, t) else Requested(f.requests, t);
             t'.events <= c.events && Included(t'.code, c.code)
    ensures Continues(a, c)
  {
    hide Carried, Requested, Destructed, CodeOf, Destroyed;
    var k := |a.events|;
    JustCarried(b, c, ev);
    assert c.events[k..] == [ev] + c.events[k + 1..];
    DestroyedAppend([ev], c.events[k + 1..]);
    DestroyedOne(ev);
  }

  lemma DestroyedOne(ev: Event)
    requires Destroys(ev)
    ensures Destroyed([ev]) == [ev.entry]
  {
    assert [ev][..0] == [];
  }

  lemma OnlyInsertion(a: Story, b: Story, ev: Event)
    requires Continues(a, b) && b.events == a.events + [ev] && ev.Insert?
    ensures b.log == a.log
  {
    assert b.events[|a.events|..] == [ev] && [ev][..0] == [] && Destroyed([ev]) == [];
  }

  /** `b` is `a` with insertions and refusals added, and with new entries named. */
  predicate Grown(a: Trail, b: Trail) {
    && a.events <= b.events && a.nextId <= b.nextId
    && (forall e <- a.code | e.id < a.nextId :: e in b.code && b.code[e] == a.code[e])
    && forall k :: |a.events| <= k < |b.events| ==> b.events[k].Insert? || b.events[k].Refuse?
  }

  lemma {:induction false} RequestedGrows(requests: seq<Action>, t: Trail)
    ensures Grown(t, Requested(requests, t))
    decreases requests
  {
    if requests != [] {
      var before := requests[..|requests| - 1];
      RequestedGrows(before, t);
      AskedGrows(requests[|requests| - 1], Requested(before, t));
    }
  }

  lemma {:induction false} AskedGrows(a: Action, t: Trail)
    ensures Grown(t, Asked(a, t))
    decreases a
  {
    if !a.Again? && !Accepted(Delay(a)) {
      var t' := Refused(Subject(a, t.nextId), Named(a, t));
      if a.Repeat? {
        EndlessGrows(a.interval, a.cbs, t);
      } else {
        RequestedGrows(a.cb.requests, t');
      }
    }
  }

  lemma {:induction false} EndlessGrows(interval: nat, cbs: seq<Function>, t: Trail)
    ensures Grown(t, Endless(interval, cbs, t))
    decreases cbs
  {
    if cbs != [] {
      var t' := Refused(Every(t.nextId, interval, 0), Named(Repeat(interval, cbs), t));
      RequestedGrows(cbs[0].requests, t');
      EndlessGrows(interval, cbs[1..], Requested(cbs[0].requests, t'));
    }
  }

  /** What was asked for up to the `r`-th request comes before what is asked for from there on. */
  lemma {:induction false} RequestedInOrder(requests: seq<Action>, r: nat, t: Trail)
    requires r <= |requests|
    ensures Grown(Requested(requests[..r], t), Requested(requests, t))
    decreases |requests| - r
  {
    if r == |requests| {
      assert requests[..r] == requests;
    } else {
      assert requests[..r + 1][..r] == requests[..r];
      AskedGrows(requests[r], Requested(requests[..r], t));
      RequestedInOrder(requests, r + 1, t);
    }
  }

  /**
   The event with which a request for a new entry begins: an insertion if the
   delay is below 31 days, and otherwise a refusal.
   */
  ghost predicate Meets(ev: Event, a: Action, id: nat)
    requires !a.Again?
  {
    match a
    case After(delay, _) => ev == if delay < 2678400 then Insert(Once(id), delay) else Refuse(Once(id))
    case Repeat(interval, _) =>
      ev == if interval < 2678400 then Insert(Every(id, interval, 0), interval) else Refuse(Every(id, interval, 0))
    case Share(delay, _) => ev == if delay < 2678400 then Insert(Shared(id), delay) else Refuse(Shared(id))
    case Watch(idle, _) => ev == if idle < 2678400 then Insert(Timeout(id, idle), idle) else Refuse(Timeout(id, idle))
  }

  /** The entry of the request has taken the request's functions along, one for each time it is destroyed. */
  ghost predicate Knows(code: map<Entry, seq<Function>>, a: Action, id: nat)
    requires !a.Again?
  {
    match a
    case After(_, cb) => CodeOf(code, Once(id)) == cb
    case Repeat(interval, cbs) => forall g: nat :: g < |cbs| ==> CodeOf(code, Every(id, interval, g)) == cbs[g]
    case Share(_, cb) => CodeOf(code, Shared(id)) == cb
    case Watch(idle, cb) => CodeOf(code, Timeout(id, idle)) == cb
  }

  ghost predicate HasCode(code: map<Entry, seq<Function>>, a: Action, id: nat) {
    Subject(a, id) in code && code[Subject(a, id)] == Code(a)
  }

  lemma CodeIsKnown(code: map<Entry, seq<Function>>, a: Action, id: nat)
    requires !a.Again? && HasCode(code, a, id)
    ensures Knows(code, a, id)
  {
  }

  lemma AskedMeets(a: Action, t: Trail)
    requires !a.Again?
    ensures var t' := Asked(a, t);
            && Grown(t, t') && |t.events| < |t'.events| && Meets(t'.events[|t.events|], a, t.nextId)
            && t.nextId < t'.nextId && HasCode(t'.code, a, t.nextId)
  {
    AskedNew(a, t);
    AskedGrows(a, t);
    if !Accepted(Delay(a)) {
      var t' := Refused(Subject(a, t.nextId), Named(a, t));
      if !a.Repeat? {
        RequestedGrows(a.cb.requests, t');
      } else {
        EndlessStep(a.interval, a.cbs, t);
        if a.cbs != [] {
          RequestedGrows(a.cbs[0].requests, t');
          EndlessGrows(a.interval, a.cbs[1..], Requested(a.cbs[0].requests, t'));
        }
      }
    }
  }

  lemma RequestMet(requests: seq<Action>, r: nat, t: Trail)
    requires r < |requests| && !requests[r].Again?
    ensures var before := Requested(requests[..r], t);
            var k := |before.events|;
            && k < |Requested(requests[..r + 1], t).events| <= |Requested(requests, t).events|
            && Meets(Requested(requests, t).events[k], requests[r], before.nextId)
            && HasCode(Requested(requests, t).code, requests[r], before.nextId)
  {
    hide Asked, Meets;
    assert requests[..r + 1][..r] == requests[..r];
    AskedMeets(requests[r], Requested(requests[..r], t));
    RequestedInOrder(requests, r + 1, t);
  }

  /** The trail is part of a run, and knows which entries are alive there. */
  ghost predicate Follows(t: Trail, s: Story) {
    t.events <= s.events && |s.states| == |s.events| + 1 && t.live == s.states[|t.events|].due.Keys
  }

  lemma FollowsOn(t: Trail, s: Story, ev: Event)
    requires s.Valid() && Follows(t, s) && t.events + [ev] <= s.events && (ev.Insert? || ev.Refuse?)
    ensures s.states[|t.events| + 1].due.Keys == t.live + if ev.Insert? then {ev.entry} else {}
  {
    var k := |t.events|;
    assert s.events[k] == (t.events + [ev])[k] == ev;
  }

  lemma {:induction false} RequestedFollows(requests: seq<Action>, t: Trail, s: Story)
    requires s.Valid() && Follows(t, s) && Requested(requests, t).events <= s.events
    ensures Follows(Requested(requests, t), s)
    decreases requests
  {
    if requests != [] {
      var before := requests[..|requests| - 1];
      AskedGrows(requests[|requests| - 1], Requested(before, t));
      RequestedFollows(before, t, s);
      AskedFollows(requests[|requests| - 1], Requested(before, t), s);
    }
  }

  lemma {:induction false} AskedFollows(a: Action, t: Trail, s: Story)
    requires s.Valid() && Follows(t, s) && Asked(a, t).events <= s.events
    ensures Follows(Asked(a, t), s)
    decreases a
  {
    hide Requested, Endless;
    if !Permitted(a) {
    } else if a.Again? {
      if a.entry in t.live && Accepted(a.delay) {
        FollowsOn(t, s, Insert(a.entry, a.delay));
      }
    } else if Accepted(Delay(a)) {
      FollowsOn(t, s, Insert(Subject(a, t.nextId), Delay(a)));
    } else if a.Repeat? {
      EndlessFollows(a.interval, a.cbs, t, s);
    } else {
      var t' := Refused(Subject(a, t.nextId), Named(a, t));
      RequestedGrows(a.cb.requests, t');
      FollowsOn(t, s, Refuse(Subject(a, t.nextId)));
      RequestedFollows(a.cb.requests, t', s);
    }
  }

  lemma {:induction false} EndlessFollows(interval: nat, cbs: seq<Function>, t: Trail, s: Story)
    requires s.Valid() && Follows(t, s) && Endless(interval, cbs, t).events <= s.events
    ensures Follows(Endless(interval, cbs, t), s)
    decreases cbs
  {
    hide Requested, Endless;
    EndlessStep(interval, cbs, t);
    var t' := Refused(Every(t.nextId, interval, 0), Named(Repeat(interval, cbs), t));
    if cbs != [] {
      RequestedGrows(cbs[0].requests, t');
      EndlessGrows(interval, cbs[1..], Requested(cbs[0].requests, t'));
    }
    FollowsOn(t, s, Refuse(Every(t.nextId, interval, 0)));
    if cbs != [] {
      RequestedFollows(cbs[0].requests, t', s);
      EndlessFollows(interval, cbs[1..], Requested(cbs[0].requests, t'), s);
    }
  }

  lemma {:induction false} NoTimePasses(ss: seq<State>, evs: seq<Event>, i: nat, k: nat)
    requires IsRun(ss, evs) && i <= k <= |evs| && forall j :: i <= j < k ==> !evs[j].Tick? && !evs[j].Settle?
    ensures ss[k].tick == ss[i].tick && ss[k].firing == ss[i].firing
    decreases k
  {
    if i < k {
      NoTimePasses(ss, evs, i, k - 1);
    }
  }

  /** The request is met by the `k`-th event, in the tick of the `i`-th and in the same phase of it. */
  ghost predicate MetAt(s: Story, i: nat, k: nat, a: Action)
    requires !a.Again? && i < |s.events| && |s.states| == |s.events| + 1
  {
    && k < |s.events| && s.states[k].tick == s.states[i].tick && s.states[k].firing == s.states[i].firing
    && exists id :: Meets(s.events[k], a, id) && Knows(s.code, a, id)
  }

  /** An entry is inserted again, by the events from `k` to `k'`, exactly if it is alive then. */
  ghost predicate MetAgain(s: Story, k: nat, k': nat, a: Action)
    requires a.Again? && |s.states| == |s.events| + 1 && k <= |s.events|
  {
    if (a.entry.Shared? || (a.entry.Timeout? && a.delay == a.entry.idle)) && a.delay < 2678400
       && a.entry in s.states[k].due then
      k' == k + 1 <= |s.events| && s.events[k] == Insert(a.entry, a.delay)
    else k' == k
  }

  /** The `i`-th event destroyed a periodic entry, whose next period is inserted by the `k`-th, in the same tick. */
  ghost predicate RearmedAt(s: Story, i: nat, k: nat)
    requires i < |s.events| && |s.states| == |s.events| + 1 && Destroys(s.events[i]) && s.events[i].entry.Every?
  {
    var e := s.events[i].entry;
    && k < |s.events| && s.states[k].tick == s.states[i].tick
    && s.events[k] == Insert(Every(e.id, e.interval, e.generation + 1), e.interval)
  }

  lemma AskedAgain(rs: seq<Action>, r: nat, t: Trail)
    requires r < |rs| && rs[r].Again?
    ensures var before := Requested(rs[..r], t);
            Requested(rs[..r + 1], t).events
            == before.events + if Permitted(rs[r]) && Accepted(rs[r].delay) && rs[r].entry in before.live
                               then [Insert(rs[r].entry, rs[r].delay)] else []
  {
    assert rs[..r + 1][..r] == rs[..r];
  }

  /** A request has had its effect, in the events from `k` to `k'`. */
  ghost predicate Honoured(s: Story, i: nat, k: nat, k': nat, a: Action)
    requires i < |s.events| && |s.states| == |s.events| + 1
  {
    k <= k' <= |s.events| && if a.Again? then MetAgain(s, k, k', a) else k < k' && MetAt(s, i, k, a)
  }

  lemma RequestHonoured(s: Story, i: nat, rs: seq<Action>, r: nat, t: Trail)
    requires s.Valid() && Follows(t, s) && Requested(rs, t).events <= s.events && r < |rs|
    requires |t.events| == i + 1 && Destroys(s.events[i]) && Included(Requested(rs, t).code, s.code)
    ensures Honoured(s, i, |Requested(rs[..r], t).events|, |Requested(rs[..r + 1], t).events|, rs[r])
  {
    hide Requested, Asked, IsRun, Meets;
    var before, after := Requested(rs[..r], t), Requested(rs[..r + 1], t).events;
    var k := |before.events|;
    RequestedInOrder(rs, r, t);
    RequestedInOrder(rs, r + 1, t);
    if rs[r].Again? {
      RequestedFollows(rs[..r], t, s);
      AskedAgain(rs, r, t);
      assert k < |after| ==> s.events[k] == after[k];
    } else {
      RequestMet(rs, r, t);
      RequestedGrows(rs[..r], t);
      CodeIsKnown(s.code, rs[r], before.nextId);
      assert s.events[k] == Requested(rs, t).events[k];
      NoTimePasses(s.states, s.events, i, k);
    }
  }

  /**
   When a destructor runs, each request of its function is met at once: their
   effects follow the destruction in the order of the requests, in the same
   tick, and the next period of a periodic entry is inserted after all of them.
   */
  lemma RequestsAreMet(s: Story, i: nat) returns (places: seq<nat>)
    requires s.Valid() && |s.states| == |s.events| + 1
    requires i < |s.events| && Destroys(s.events[i]) && Carried(s, i)
    ensures var e := s.events[i].entry;
            var rs := CodeOf(s.code, e).requests;
            && |places| == |rs| + 1 && places[0] == i + 1
            && (forall r :: 0 <= r < |rs| ==> Honoured(s, i, places[r], places[r + 1], rs[r]))
            && (s.events[i].Fire? && e.Every? ==> RearmedAt(s, i, places[|rs|]))
  {
    hide Requested, Asked, CodeOf, Honoured, IsRun;
    var n: nat, code :| Answer(s, i, n, code).events <= s.events && Included(Answer(s, i, n, code).code, s.code);
    var e, t := s.events[i].entry, Trail(s.events[..i + 1], n, s.states[i + 1].due.Keys, code);
    var rs := CodeOf(s.code, e).requests;
    places := seq(|rs| + 1, r requires 0 <= r <= |rs| => |Requested(rs[..r], t).events|);
    NothingRequested(t);
    assert rs[..0] == [] && rs[..|rs|] == rs;
    RequestedGrows(rs, t);
    forall r | 0 <= r < |rs| ensures Honoured(s, i, places[r], places[r + 1], rs[r]) {
      RequestHonoured(s, i, rs, r, t);
    }
    if s.events[i].Fire? && e.Every? {
      NoTimePasses(s.states, s.events, i, |Requested(rs, t).events|);
    }
  }
}
