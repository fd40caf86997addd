/** klockstat's statistics in terms of calls: which calls of the kernel's lock functions make up
    a cycle, said by function and result alone, and that the rows of both forms of the probes
    are exact for these cycles. */
module KlockstatCalls {
  import opened BpfMap
  import opened Klockstat
  import opened KlockstatForms

  // ----- The reference: cycles of calls -----

  /** The call has taken the lock: always if it cannot fail, with 0 if a signal can interrupt it;
      mutex_trylock says so with anything but 0, the semaphores with 1. */
  predicate Succeeds(fn: Fn, ret: int) {
    match fn
    case MutexLock | DownRead | DownWrite => true
    case MutexLockInterruptible | MutexLockKillable => ret == 0
    case DownReadInterruptible | DownReadKillable | DownWriteKillable => ret == 0
    case MutexTrylock => ret != 0
    case DownReadTrylock | DownWriteTrylock => ret == 1
    case MutexUnlock | UpRead | UpWrite => false
  }

  predicate Unlocks(fn: Fn) {
    fn.MutexUnlock? || fn.UpRead? || fn.UpWrite?
  }

  predicate OnlyTries(fn: Fn) {
    fn.MutexTrylock? || fn.DownReadTrylock? || fn.DownWriteTrylock?
  }

  /** The function that releases what `fn` takes. */
  function UnlockOf(fn: Fn): Fn {
    match fn
    case MutexLock | MutexTrylock | MutexLockInterruptible | MutexLockKillable | MutexUnlock => MutexUnlock
    case DownRead | DownReadTrylock | DownReadInterruptible | DownReadKillable | UpRead => UpRead
    case DownWrite | DownWriteTrylock | DownWriteKillable | UpWrite => UpWrite
  }

  /** Attempts that do not wait and fail are of no interest, nor is where one that succeeds began. */
  predicate Matters(e: Event) {
    if e.Enter? then !OnlyTries(e.fn) else !Unlocks(e.fn) && (OnlyTries(e.fn) ==> Succeeds(e.fn, e.ret))
  }

  /** The history of one lock in the hands of one task. */
  function History(run: seq<Event>, tl: TaskLock): seq<Event> {
    if run == [] then []
    else
      var before, e := History(run[..|run| - 1], tl), run[|run| - 1];
      if e.tl == tl && Matters(e) then before + [e] else before
  }

  /** The task is done with the lock: it has released it or failed to get it. */
  predicate Done(e: Event) {
    if e.Enter? then Unlocks(e.fn) else !Succeeds(e.fn, e.ret)
  }

  /** How a task uses a lock: it asks for it when it is done with it, the call it is in returns, and
      it releases what it got with the function that belongs to it. The first event seen may
      be any, because tracing may start in the middle. */
  predicate InOrder(h: seq<Event>, e: Event) {
    h == [] ||
    var x := h[|h| - 1];
    if e.Enter? && Unlocks(e.fn) then x.Exit? && Succeeds(x.fn, x.ret) && UnlockOf(x.fn) == e.fn
    else if e.Enter? || OnlyTries(e.fn) then Done(x)
    else x.Enter? && x.fn == e.fn
  }

  predicate WellBehaved(run: seq<Event>) {
    run == [] ||
    var before, e := run[..|run| - 1], run[|run| - 1];
    WellBehaved(before) && (Matters(e) ==> InOrder(History(before, e.tl), e))
  }

  /** The task and lock are among those asked for. */
  predicate Watched(cfg: Config, tl: TaskLock) {
    && cfg.targLock in {0, tl.lock} && cfg.targPid in {0, tl.task - tl.task / U32 * U32}
    && (cfg.targTgid == 0 || U32 * cfg.targTgid <= tl.task < U32 * (cfg.targTgid + 1))
  }

  /** The cycle that an event completes: the entry of an unlock, after a call that took the lock
      and that was seen to begin. A trylock is seen to begin where it returns. */
  function CallCycle(cfg: Config, h: seq<Event>, e: Event): Option<Cycle> {
    if !e.Enter? || !Unlocks(e.fn) || !Watched(cfg, e.tl) || h == [] then None
    else
      var x := h[|h| - 1];
      if !x.Exit? || !Succeeds(x.fn, x.ret) then None
      else if OnlyTries(x.fn) then
        if x.stackId < 0 then None else Some(Cycle(e.tl, x.stackId, x.now, x.later, e.now, e.comm))
      else if |h| < 2 || h[|h| - 2].stackId < 0 then None
      else Some(Cycle(e.tl, h[|h| - 2].stackId, h[|h| - 2].now, x.now, e.now, e.comm))
  }

  /** The row a cycle goes to: that of its thread, or of the stack it waited in. */
  function RowOf(cfg: Config, c: Cycle): nat {
    if cfg.perThread then c.tl.task - c.tl.task / U32 * U32 else c.stackId % U32
  }

  /** The cycles of calls in a run that go to a row, in order. */
  function CallsCharged(cfg: Config, run: seq<Event>, key: nat): seq<Cycle> {
    if run == [] then []
    else
      var before, e := run[..|run| - 1], run[|run| - 1];
      CallsCharged(cfg, before, key) + OfRow(cfg, CallCycle(cfg, History(before, e.tl), e), key)
  }

  function OfRow(cfg: Config, c: Option<Cycle>, key: nat): seq<Cycle> {
    if c.Some? && RowOf(cfg, c.value) == key then [c.value] else []
  }

  lemma FiltersAgree(cfg: Config, c: Cycle)
    ensures Watched(cfg, c.tl) <==> cfg.Traces(c.tl)
    ensures RowOf(cfg, c) == StatKey(cfg, c.tl, c.stackId)
  {
    Divided(c.tl.task, cfg.targTgid);
  }

  lemma Divided(task: nat, tgid: nat)
    ensures task % U32 == task - task / U32 * U32
    ensures task / U32 == tgid <==> U32 * tgid <= task < U32 * (tgid + 1)
  {
  }

  // ----- Lock events by task and lock -----

  function ActsOn(acts: seq<Action>, tl: TaskLock): seq<Action> {
    if acts == [] then []
    else
      var before, a := ActsOn(acts[..|acts| - 1], tl), acts[|acts| - 1];
      if a.tl == tl then before + [a] else before
  }

  lemma ActsOnLast(acts: seq<Action>, a: Action, tl: TaskLock)
    ensures ActsOn(acts + [a], tl) == if a.tl == tl then ActsOn(acts, tl) + [a] else ActsOn(acts, tl)
  {
    assert (acts + [a])[..|acts|] == acts;
  }

  lemma {:induction false} PrevIsLast(acts: seq<Action>, tl: TaskLock, n: nat)
    requires n <= |acts|
    ensures var p, h := Prev(acts, tl, n), ActsOn(acts[..n], tl);
            && (p < 0 <==> h == [])
            && (p >= 0 ==> h == ActsOn(acts[..p], tl) + [acts[p]])
  {
    if n > 0 {
      PrevIsLast(acts, tl, n - 1);
      assert acts[..n] == acts[..n - 1] + [acts[n - 1]];
      ActsOnLast(acts[..n - 1], acts[n - 1], tl);
    }
  }

  predicate FollowsIn(h: seq<Action>, a: Action) {
    h == [] ||
    var x := h[|h| - 1];
    match a
    case Try(_, _, _) => x.Release? || x.Abort?
    case Acquire(_, _) => x.Try?
    case Abort(_) => x.Try?
    case Release(_, _, _) => x.Acquire?
  }

  function CycleIn(cfg: Config, h: seq<Action>, a: Action): Option<Cycle> {
    if !a.Release? || !cfg.Traces(a.tl) || |h| < 2 || !h[|h| - 1].Acquire? then None
    else
      var x, y := h[|h| - 1], h[|h| - 2];
      if !y.Try? || y.stackId < 0 then None else Some(Cycle(a.tl, y.stackId, y.now, x.now, a.now, a.comm))
  }

  lemma FollowsIsIn(acts: seq<Action>, n: nat)
    requires n < |acts|
    ensures Follows(acts, n) <==> FollowsIn(ActsOn(acts[..n], acts[n].tl), acts[n])
  {
    hide ActsOn;
    PrevIsLast(acts, acts[n].tl, n);
  }

  lemma CycleIsIn(cfg: Config, acts: seq<Action>, n: nat)
    requires n < |acts|
    ensures CycleAt(cfg, acts, n) == CycleIn(cfg, ActsOn(acts[..n], acts[n].tl), acts[n])
  {
    hide ActsOn;
    var p := Prev(acts, acts[n].tl, n);
    PrevIsLast(acts, acts[n].tl, n);
    if p >= 0 { PrevIsLast(acts, acts[n].tl, p); }
  }

  lemma {:induction false} ChargedPrefix(cfg: Config, acts: seq<Action>, more: seq<Action>, n: nat, key: nat)
    requires n <= |acts|
    ensures Charged(cfg, acts + more, n, key) == Charged(cfg, acts, n, key)
  {
    if n > 0 {
      ChargedPrefix(cfg, acts, more, n - 1, key);
      hide CycleAt, ActsOn, CycleIn;
      CycleIsIn(cfg, acts, n - 1);
      CycleIsIn(cfg, acts + more, n - 1);
      assert (acts + more)[..n - 1] == acts[..n - 1];
    }
  }

  /** One more lock event. */
  lemma ChargedLast(cfg: Config, acts: seq<Action>, a: Action, key: nat)
    ensures Charged(cfg, acts + [a], |acts| + 1, key)
         == Charged(cfg, acts, |acts|, key) + OfRow(cfg, CycleIn(cfg, ActsOn(acts, a.tl), a), key)
  {
    hide CycleAt, ActsOn, CycleIn, RowOf, StatKey;
    ChargedPrefix(cfg, acts, [a], |acts|, key);
    CycleIsIn(cfg, acts + [a], |acts|);
    assert (acts + [a])[..|acts|] == acts;
    var c := CycleIn(cfg, ActsOn(acts, a.tl), a);
    if c.Some? { FiltersAgree(cfg, c.value); }
  }

  lemma ProtocolLast(acts: seq<Action>, a: Action)
    requires Protocol(acts) && FollowsIn(ActsOn(acts, a.tl), a)
    ensures Protocol(acts + [a])
  {
    hide Follows, ActsOn, FollowsIn;
    var longer := acts + [a];
    forall n | 0 <= n < |longer| ensures Follows(longer, n) {
      FollowsIsIn(longer, n);
      if n < |acts| {
        assert longer[..n] == acts[..n];
        FollowsIsIn(acts, n);
      } else {
        assert longer[..n] == acts;
      }
    }
  }

  // ----- From calls to lock events -----

  function Flat(h: seq<Event>): seq<Action> {
    if h == [] then [] else Flat(h[..|h| - 1]) + Actions(h[|h| - 1])
  }

  /** An event that does not matter has no lock event; one that does has one, a trylock two. */
  lemma ActionsOfEvent(e: Event)
    ensures Actions(e) == [] <==> !Matters(e)
    ensures Matters(e) ==>
              var acts := Actions(e);
              if e.Enter? then acts == [if Unlocks(e.fn) then Release(e.tl, e.now, e.comm) else Try(e.tl, e.stackId, e.now)]
              else if OnlyTries(e.fn) then acts == [Try(e.tl, e.stackId, e.now), Acquire(e.tl, e.later)]
              else acts == [if Succeeds(e.fn, e.ret) then Acquire(e.tl, e.now) else Abort(e.tl)]
  {
  }

  lemma {:induction false} ActsOnConcat(acts: seq<Action>, more: seq<Action>, tl: TaskLock)
    ensures ActsOn(acts + more, tl) == ActsOn(acts, tl) + ActsOn(more, tl)
  {
    if more == [] {
      assert acts + more == acts;
    } else {
      ActsOnConcat(acts, more[..|more| - 1], tl);
      assert (acts + more)[..|acts + more| - 1] == acts + more[..|more| - 1];
    }
  }

  lemma {:induction false} ActsOnOne(acts: seq<Action>, one: TaskLock, tl: TaskLock)
    requires forall a | a in acts :: a.tl == one
    ensures ActsOn(acts, tl) == if one == tl then acts else []
  {
    if acts != [] {
      var before, a := acts[..|acts| - 1], acts[|acts| - 1];
      assert acts == before + [a] && a in acts;
      ActsOnOne(before, one, tl);
    }
  }

  lemma ActionsOnOwnLock(e: Event, tl: TaskLock)
    ensures ActsOn(Actions(e), tl) == if e.tl == tl then Actions(e) else []
  {
    hide ActsOn;
    ActsOnOne(Actions(e), e.tl, tl);
  }

  /** The lock events on one lock are those of its history. */
  lemma {:induction false} HistoryFlattens(run: seq<Event>, tl: TaskLock)
    ensures ActsOn(AllActions(run), tl) == Flat(History(run, tl))
  {
    if run != [] {
      var before, e := run[..|run| - 1], run[|run| - 1];
      HistoryFlattens(before, tl);
      hide Actions, Matters, ActsOn;
      ActsOnConcat(AllActions(before), Actions(e), tl);
      ActionsOnOwnLock(e, tl);
      ActionsOfEvent(e);
      assert e.tl == tl && Matters(e) ==> History(run, tl)[..|History(before, tl)|] == History(before, tl);
    }
  }

  /** The history of a lock, event by event, is in order. */
  predicate Behaved(h: seq<Event>) {
    h == [] || (Behaved(h[..|h| - 1]) && Matters(h[|h| - 1]) && InOrder(h[..|h| - 1], h[|h| - 1]))
  }

  lemma {:induction false} HistoryBehaves(run: seq<Event>, tl: TaskLock)
    requires WellBehaved(run)
    ensures Behaved(History(run, tl))
  {
    if run != [] {
      var before, e := run[..|run| - 1], run[|run| - 1];
      HistoryBehaves(before, tl);
      var h := History(before, tl);
      hide Matters, InOrder;
      assert (h + [e])[..|h|] == h;
    }
  }

  /** The last lock event of a history, as its last call says. */
  lemma FlatEnds(h: seq<Event>)
    requires Behaved(h) && h != []
    ensures var x, f := h[|h| - 1], Flat(h);
            && f != []
            && var a := f[|f| - 1];
               && (a.Try? <==> x.Enter? && !Unlocks(x.fn)) && (a.Release? <==> x.Enter? && Unlocks(x.fn))
               && (a.Acquire? <==> x.Exit? && Succeeds(x.fn, x.ret)) && (a.Abort? <==> x.Exit? && !Succeeds(x.fn, x.ret))
               && (a.Try? ==> a.stackId == x.stackId && a.now == x.now)
               && (a.Acquire? ==> a.now == if OnlyTries(x.fn) then x.later else x.now)
  {
    hide Actions;
    ActionsOfEvent(h[|h| - 1]);
  }

  lemma FirstFollows(h: seq<Event>, e: Event)
    requires Behaved(h) && Matters(e) && InOrder(h, e)
    ensures Actions(e) != [] && FollowsIn(Flat(h), Actions(e)[0])
  {
    hide Actions, Flat, Behaved;
    ActionsOfEvent(e);
    if h != [] { FlatEnds(h); } else { FlatNothing(); }
  }

  lemma FlatNothing()
    ensures Flat([]) == []
  {
  }

  /** The last but one, where the last call took the lock. */
  lemma FlatBefore(h: seq<Event>)
    requires Behaved(h) && h != [] && h[|h| - 1].Exit? && Succeeds(h[|h| - 1].fn, h[|h| - 1].ret)
    ensures var x, f := h[|h| - 1], Flat(h);
            if OnlyTries(x.fn) then |f| >= 2 && f[|f| - 2] == Try(x.tl, x.stackId, x.now)
            else if |h| == 1 then |f| == 1
            else |f| >= 2 && f[|f| - 2].Try? && f[|f| - 2].stackId == h[|h| - 2].stackId && f[|f| - 2].now == h[|h| - 2].now
  {
    hide Actions;
    var x, before := h[|h| - 1], h[..|h| - 1];
    ActionsOfEvent(x);
    assert Flat(h) == Flat(before) + Actions(x);
    if before != [] { FlatEnds(before); }
  }

  /** An event completes the same cycle as its lock events do. */
  lemma SameCycle(cfg: Config, h: seq<Event>, e: Event)
    requires Behaved(h) && Matters(e) && InOrder(h, e)
    ensures Actions(e) != [] && CycleIn(cfg, Flat(h), Actions(e)[0]) == CallCycle(cfg, h, e)
  {
    hide Actions, Watched, Flat, Behaved, Succeeds;
    ActionsOfEvent(e);
    FiltersAgree(cfg, Cycle(e.tl, 0, 0, 0, 0, ""));
    FlatNothing();
    if e.Enter? && Unlocks(e.fn) && h != [] {
      FlatEnds(h);
      FlatBefore(h);
    }
  }

  // ----- Both directions over whole runs -----

  /** The lock events of one event. */
  lemma EventLast(cfg: Config, run: seq<Event>, e: Event, key: nat)
    requires Protocol(AllActions(run)) && WellBehaved(run) && (Matters(e) ==> InOrder(History(run, e.tl), e))
    ensures Protocol(AllActions(run) + Actions(e))
    ensures var acts := AllActions(run) + Actions(e);
            Charged(cfg, acts, |acts|, key) == Charged(cfg, AllActions(run), |AllActions(run)|, key)
                                               + OfRow(cfg, CallCycle(cfg, History(run, e.tl), e), key)
  {
    hide Actions, Charged, Protocol, ActsOn, CycleIn, CallCycle, Flat, Succeeds, InOrder, FollowsIn, Behaved;
    var acts, h := AllActions(run), History(run, e.tl);
    ActionsOfEvent(e);
    HistoryFlattens(run, e.tl);
    HistoryBehaves(run, e.tl);
    if !Matters(e) {
      assert acts + Actions(e) == acts;
      NoCycle(cfg, h, e);
    } else {
      var a := Actions(e)[0];
      FirstFollows(h, e);
      SameCycle(cfg, h, e);
      ProtocolLast(acts, a);
      ChargedLast(cfg, acts, a, key);
      if |Actions(e)| == 1 {
        assert acts + Actions(e) == acts + [a];
      } else {
        SecondAction(cfg, acts, e, key);
        assert acts + Actions(e) == acts + [a] + [Actions(e)[1]];
      }
    }
  }

  lemma NoCycle(cfg: Config, h: seq<Event>, e: Event)
    requires !Matters(e)
    ensures CallCycle(cfg, h, e) == None
  {
  }

  /** A trylock that succeeds is a try and an acquisition at once. */
  lemma SecondAction(cfg: Config, acts: seq<Action>, e: Event, key: nat)
    requires Matters(e) && |Actions(e)| == 2 && Protocol(acts + [Actions(e)[0]])
    ensures var longer := acts + [Actions(e)[0]];
            && Protocol(longer + [Actions(e)[1]])
            && Charged(cfg, longer + [Actions(e)[1]], |longer| + 1, key) == Charged(cfg, longer, |longer|, key)
  {
    hide Charged, Protocol, ActsOn, Succeeds;
    ActionsOfEvent(e);
    hide Actions;
    var a, b, longer := Actions(e)[0], Actions(e)[1], acts + [Actions(e)[0]];
    ActsOnLast(acts, a, e.tl);
    ProtocolLast(longer, b);
    ChargedLast(cfg, longer, b, key);
  }

  /** Calls in order give lock events that follow the protocol, and the cycles charged to a row are
      exactly the cycles of calls that go to it. */
  lemma {:induction false} CallsAreCharged(cfg: Config, run: seq<Event>, key: nat)
    requires WellBehaved(run)
    ensures Protocol(AllActions(run))
    ensures Charged(cfg, AllActions(run), |AllActions(run)|, key) == CallsCharged(cfg, run, key)
  {
    if run != [] {
      hide Actions, Charged, Protocol, CallCycle, History, InOrder, Matters;
      var before, e := run[..|run| - 1], run[|run| - 1];
      CallsAreCharged(cfg, before, key);
      EventLast(cfg, before, e, key);
    }
  }

  // ----- The clock -----

  function Finish(e: Event): nat {
    if e.Enter? then e.now else e.later
  }

  /** The clock never runs backwards, within an event and from one to the next, and fits a word. */
  ghost predicate ClockRuns(run: seq<Event>) {
    && (forall i | 0 <= i < |run| :: run[i].now <= Finish(run[i]) < U64)
    && forall i, j | 0 <= i < j < |run| :: Finish(run[i]) <= run[j].now
  }

  lemma {:induction false} TimesBelow(run: seq<Event>, bound: nat)
    requires forall i | 0 <= i < |run| :: run[i].now <= Finish(run[i]) <= bound
    ensures forall a | a in AllActions(run) :: Time(a) <= bound
  {
    if run != [] {
      var before, e := run[..|run| - 1], run[|run| - 1];
      TimesBelow(before, bound);
      assert forall a | a in Actions(e) :: Time(a) <= Finish(e);
    }
  }

  lemma MonotonicConcat(acts: seq<Action>, more: seq<Action>, at: nat)
    requires Monotonic(acts) && Monotonic(more) && (forall a | a in acts :: Time(a) <= at)
    requires forall a | a in more :: a.Abort? || at <= Time(a)
    ensures Monotonic(acts + more)
  {
    var all := acts + more;
    forall i, j | 0 <= i < j < |all| && !all[j].Abort? ensures Time(all[i]) <= Time(all[j]) {
      if i < |acts| <= j {
        assert all[i] in acts && all[j] in more;
      } else if j < |acts| {
        assert Time(acts[i]) <= Time(acts[j]);
      } else {
        assert Time(more[i - |acts|]) <= Time(more[j - |acts|]);
      }
    }
    forall i | 0 <= i < |all| ensures Time(all[i]) < U64 {
      if i < |acts| { assert Time(acts[i]) < U64; } else { assert Time(more[i - |acts|]) < U64; }
    }
  }

  lemma ActionsMonotonic(e: Event)
    requires e.now <= Finish(e) < U64
    ensures Monotonic(Actions(e)) && forall a | a in Actions(e) :: a.Abort? || e.now <= Time(a)
  {
  }

  lemma {:induction false} ClockIsMonotonic(run: seq<Event>)
    requires ClockRuns(run)
    ensures Monotonic(AllActions(run))
  {
    if run != [] {
      hide Actions, Monotonic;
      var before, e := run[..|run| - 1], run[|run| - 1];
      ClockIsMonotonic(before);
      TimesBelow(before, e.now);
      ActionsMonotonic(e);
      MonotonicConcat(AllActions(before), Actions(e), e.now);
    } else {
      assert Monotonic([]);
    }
  }

  // ----- The rows -----

  /** A row for exactly the keys with cycles, each exact for the cycles of calls that go to it. */
  ghost predicate ExactForCalls(cfg: Config, run: seq<Event>, stats: map<nat, LockStat>) {
    && (forall k | k in stats :: RowExact(cfg, stats[k], CallsCharged(cfg, run, k)))
    && (|stats| < MAX_ENTRIES ==> forall k: nat :: k in stats <==> CallsCharged(cfg, run, k) != [])
  }

  /** Over every history of calls in order, with room in the holder map: the rows of the fentry form
      are exact for the cycles of calls, and without calls within calls so are those of the
      kprobe form. */
  lemma StatisticsOfCalls(cfg: Config, run: seq<Event>)
    requires WellBehaved(run) && ClockRuns(run) && Roomy(cfg, AllActions(run))
    ensures ExactForCalls(cfg, run, Fentry(cfg, INIT, run).stats)
    ensures Unnested(run) ==> ExactForCalls(cfg, run, Kprobe(cfg, KState(INIT, map[]), run).base.stats)
  {
    hide Fentry, Kprobe, Run, RowExact, Charged, CallsCharged, WellBehaved, Roomy, Monotonic, Unnested, ClockRuns, AllActions;
    ClockIsMonotonic(run);
    CallsAreCharged(cfg, run, 0);
    FentryIsRun(cfg, INIT, run);
    StatisticsAreExact(cfg, AllActions(run));
    forall k: nat ensures Charged(cfg, AllActions(run), |AllActions(run)|, k) == CallsCharged(cfg, run, k) {
      CallsAreCharged(cfg, run, k);
    }
    if Unnested(run) { KprobeRefinesFentry(cfg, INIT, run); }
  }
}
