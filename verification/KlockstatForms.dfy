/** The two forms of klockstat's probes: fentry/fexit programs, which are handed the
    lock on both sides of a call, and kprobe/kretprobe programs, which carry it from
    entry to return through the side map `locks`. */
module KlockstatForms {
  import opened BpfMap
  import opened Klockstat

  datatype Fn =
    | MutexLock | MutexTrylock | MutexLockInterruptible | MutexLockKillable | MutexUnlock
    | DownRead | DownReadTrylock | DownReadInterruptible | DownReadKillable | UpRead
    | DownWrite | DownWriteTrylock | DownWriteKillable | UpWrite

  datatype Kind = Blocking | Trying | Abortable | Unlocking

  function KindOf(fn: Fn): Kind {
    match fn
    case MutexLock | DownRead | DownWrite => Blocking
    case MutexTrylock | DownReadTrylock | DownWriteTrylock => Trying
    case MutexUnlock | UpRead | UpWrite => Unlocking
    case _ => Abortable
  }

  /** mutex_trylock tests for a non-zero result, the semaphores for 1. */
  predicate Succeeded(fn: Fn, ret: int) {
    if fn.MutexTrylock? then ret != 0 else ret == 1
  }

  /** A traced function is entered or left. `tl` holds the argument of the call; a
      kretprobe is not shown `tl.lock`. */
  datatype Event =
    | Enter(fn: Fn, tl: TaskLock, stackId: int, now: nat, comm: string)
    | Exit(fn: Fn, tl: TaskLock, ret: int, stackId: int, now: nat, later: nat)

  function Tid(tl: TaskLock): nat {
    tl.task % U32
  }

  /** What the fentry/fexit programs do on an event. */
  function Actions(e: Event): seq<Action> {
    match e
    case Enter(fn, tl, stackId, now, comm) =>
      (match KindOf(fn)
       case Blocking => [Try(tl, stackId, now)]
       case Abortable => [Try(tl, stackId, now)]
       case Trying => []
       case Unlocking => [Release(tl, now, comm)])
    case Exit(fn, tl, ret, stackId, now, later) =>
      (match KindOf(fn)
       case Blocking => [Acquire(tl, now)]
       case Abortable => if ret != 0 then [Abort(tl)] else [Acquire(tl, now)]
       case Trying => if Succeeded(fn, ret) then [Try(tl, stackId, now), Acquire(tl, later)] else []
       case Unlocking => [])
  }

  function Fentry(cfg: Config, s: State, run: seq<Event>): State {
    if run == [] then s
    else Run(cfg, Fentry(cfg, s, run[..|run| - 1]), Actions(run[|run| - 1]))
  }

  /** The return as a kretprobe sees it, the lock being whatever `locks` remembers. */
  function Seen(e: Event, lock: nat): Event
    requires e.Exit?
  {
    Exit(e.fn, TaskLock(e.tl.task, lock), e.ret, e.stackId, e.now, e.later)
  }

  datatype KState = KState(base: State, locks: map<nat, nat>)

  function KStep(cfg: Config, k: KState, e: Event): KState {
    if KindOf(e.fn).Unlocking? then k.(base := Run(cfg, k.base, Actions(e)))
    else if e.Enter? then
      KState(Run(cfg, k.base, Actions(e)), Put(k.locks, MAX_ENTRIES, Tid(e.tl), e.tl.lock))
    else if Tid(e.tl) !in k.locks then k
    else
      KState(Run(cfg, k.base, Actions(Seen(e, k.locks[Tid(e.tl)]))), k.locks - {Tid(e.tl)})
  }

  function Kprobe(cfg: Config, k: KState, run: seq<Event>): KState {
    if run == [] then k else KStep(cfg, Kprobe(cfg, k, run[..|run| - 1]), run[|run| - 1])
  }

  datatype Call = Call(fn: Fn, lock: nat)

  /** The traced call each thread is inside of, for the functions with a return probe. */
  function InFlight(run: seq<Event>): map<nat, Call> {
    if run == [] then map[] else Flight(InFlight(run[..|run| - 1]), run[|run| - 1])
  }

  function Flight(m: map<nat, Call>, e: Event): map<nat, Call> {
    if KindOf(e.fn).Unlocking? then m
    else if e.Enter? then m[Tid(e.tl) := Call(e.fn, e.tl.lock)]
    else m - {Tid(e.tl)}
  }

  /** No thread enters a second traced function before its first returns, every return
      matches its entry, and no more calls are in flight than `locks` can hold. */
  predicate Unnested(run: seq<Event>) {
    run == [] || (Unnested(run[..|run| - 1]) && Plain(InFlight(run[..|run| - 1]), run[|run| - 1]))
  }

  function Locks(m: map<nat, Call>): (r: map<nat, nat>)
    ensures r.Keys == m.Keys
  {
    map tid | tid in m :: m[tid].lock
  }

  lemma LocksSize(m: map<nat, Call>)
    ensures |Locks(m)| == |m|
  {
    assert |Locks(m).Keys| == |m.Keys|;
  }

  /** `locks` has room for a call that is entered. */
  predicate Room(m: map<nat, Call>, e: Event) {
    e.Enter? && !KindOf(e.fn).Unlocking? ==> Tid(e.tl) in m || |m| < MAX_ENTRIES
  }

  predicate RoomForLocks(run: seq<Event>) {
    run == [] || (RoomForLocks(run[..|run| - 1]) && Room(InFlight(run[..|run| - 1]), run[|run| - 1]))
  }

  /** An event as the kprobe form gets to know it: a return of a thread with nothing in flight
      is not noticed, any other is taken for one of the lock remembered. */
  function Noticed(m: map<nat, Call>, e: Event): seq<Event> {
    if e.Enter? || KindOf(e.fn).Unlocking? then [e]
    else if Tid(e.tl) in m then [Seen(e, m[Tid(e.tl)].lock)]
    else []
  }

  function AsSeen(run: seq<Event>): seq<Event> {
    if run == [] then [] else AsSeen(run[..|run| - 1]) + Noticed(InFlight(run[..|run| - 1]), run[|run| - 1])
  }

  lemma FentryOne(cfg: Config, s: State, run: seq<Event>, es: seq<Event>)
    requires |es| <= 1
    ensures Fentry(cfg, s, run + es) == if es == [] then Fentry(cfg, s, run) else Run(cfg, Fentry(cfg, s, run), Actions(es[0]))
  {
    if es == [] {
      assert run + es == run;
    } else {
      assert (run + es)[..|run|] == run;
    }
  }

  /** One event in the kprobe form, `locks` holding what is in flight. */
  lemma KStepNoticed(cfg: Config, base: State, m: map<nat, Call>, e: Event)
    requires Room(m, e)
    ensures var k, es := KStep(cfg, KState(base, Locks(m)), e), Noticed(m, e);
            && k.base == (if es == [] then base else Run(cfg, base, Actions(es[0])))
            && k.locks == Locks(Flight(m, e))
  {
    hide Run, Actions;
    LocksSize(m);
  }

  /** For every interleaving of threads and however their calls nest, the kprobe form does
      exactly what the fentry form does on the events as it sees them, and `locks` holds the
      arguments of the calls last entered and not returned from. */
  lemma {:induction false} KprobeIsFentryAsSeen(cfg: Config, s: State, run: seq<Event>)
    requires RoomForLocks(run)
    ensures Kprobe(cfg, KState(s, map[]), run) == KState(Fentry(cfg, s, AsSeen(run)), Locks(InFlight(run)))
  {
    if run != [] {
      hide Run, Actions, KStep, Noticed, Flight, Room, Fentry, Locks;
      var before, e := run[..|run| - 1], run[|run| - 1];
      KprobeIsFentryAsSeen(cfg, s, before);
      KStepNoticed(cfg, Fentry(cfg, s, AsSeen(before)), InFlight(before), e);
      NoticedOne(InFlight(before), e);
      FentryOne(cfg, s, AsSeen(before), Noticed(InFlight(before), e));
    } else {
      assert Locks(map[]) == map[];
    }
  }

  lemma NoticedOne(m: map<nat, Call>, e: Event)
    ensures |Noticed(m, e)| <= 1
  {
  }

  /** What Unnested asks of one event. */
  predicate Plain(m: map<nat, Call>, e: Event) {
    && (e.Enter? && !KindOf(e.fn).Unlocking? ==> Tid(e.tl) !in m && |m| < MAX_ENTRIES)
    && (e.Exit? ==> !KindOf(e.fn).Unlocking? && Tid(e.tl) in m && m[Tid(e.tl)] == Call(e.fn, e.tl.lock))
  }

  lemma PlainIsNoticed(m: map<nat, Call>, e: Event)
    requires Plain(m, e)
    ensures Room(m, e) && Noticed(m, e) == [e]
  {
  }

  lemma {:induction false} UnnestedIsSeen(run: seq<Event>)
    requires Unnested(run)
    ensures RoomForLocks(run) && AsSeen(run) == run
  {
    hide Plain, Room, Noticed, InFlight;
    if run != [] {
      var before, e := run[..|run| - 1], run[|run| - 1];
      UnnestedIsSeen(before);
      PlainIsNoticed(InFlight(before), e);
      assert AsSeen(run) == before + [e];
    }
  }

  /** So without nesting both forms leave the same `lockholder_map` and `stat_map`. */
  lemma KprobeRefinesFentry(cfg: Config, s: State, run: seq<Event>)
    requires Unnested(run)
    ensures Kprobe(cfg, KState(s, map[]), run).base == Fentry(cfg, s, run)
    ensures Kprobe(cfg, KState(s, map[]), run).locks == Locks(InFlight(run))
  {
    UnnestedIsSeen(run);
    KprobeIsFentryAsSeen(cfg, s, run);
  }

  // ----- Calls within calls -----

  /** A call on the stack of a thread, and whether another traced call has completed inside it. */
  datatype Frame = Frame(call: Call, interrupted: bool)

  function Interrupted(frames: seq<Frame>): (r: seq<Frame>)
    ensures |r| == |frames|
  {
    seq(|frames|, i requires 0 <= i < |frames| => frames[i].(interrupted := true))
  }

  /** The calls each thread is inside of, innermost last. */
  function Frames(run: seq<Event>): map<nat, seq<Frame>> {
    if run == [] then map[] else FramesNext(Frames(run[..|run| - 1]), run[|run| - 1])
  }

  function FramesNext(m: map<nat, seq<Frame>>, e: Event): map<nat, seq<Frame>> {
    var tid := Tid(e.tl);
    var mine := if tid in m then m[tid] else [];
    if KindOf(e.fn).Unlocking? then m
    else if e.Enter? then m[tid := mine + [Frame(Call(e.fn, e.tl.lock), false)]]
    else if mine == [] then m
    else m[tid := Interrupted(mine[..|mine| - 1])]
  }

  /** Whether the event is the return of the innermost call of its thread. */
  predicate Returns(m: map<nat, seq<Frame>>, e: Event) {
    var tid := Tid(e.tl);
    e.Exit? && tid in m && m[tid] != [] && m[tid][|m[tid]| - 1].call == Call(e.fn, e.tl.lock)
  }

  /** Every return is that of its thread's innermost call. */
  predicate ProperlyNested(run: seq<Event>) {
    run == [] || (ProperlyNested(run[..|run| - 1]) && Nests(Frames(run[..|run| - 1]), run[|run| - 1]))
  }

  predicate Nests(m: map<nat, seq<Frame>>, e: Event) {
    e.Exit? ==> !KindOf(e.fn).Unlocking? && Returns(m, e)
  }

  /** The run without the returns of calls inside which another traced call completed. */
  function Heard(run: seq<Event>): seq<Event> {
    if run == [] then []
    else if MissedAt(Frames(run[..|run| - 1]), run[|run| - 1]) then Heard(run[..|run| - 1])
    else Heard(run[..|run| - 1]) + [run[|run| - 1]]
  }

  predicate MissedAt(m: map<nat, seq<Frame>>, e: Event) {
    Returns(m, e) && m[Tid(e.tl)][|m[Tid(e.tl)]| - 1].interrupted
  }

  /** What is in flight for a thread is its innermost call, until one inside it completes. */
  predicate InFlightIsTop(inFlight: map<nat, Call>, m: map<nat, seq<Frame>>, tid: nat) {
    var open := tid in m && m[tid] != [] && !m[tid][|m[tid]| - 1].interrupted;
    (tid in inFlight <==> open) && (open ==> inFlight[tid] == m[tid][|m[tid]| - 1].call)
  }

  lemma NoticedUnlessMissed(inFlight: map<nat, Call>, m: map<nat, seq<Frame>>, e: Event)
    requires InFlightIsTop(inFlight, m, Tid(e.tl)) && Nests(m, e)
    ensures Noticed(inFlight, e) == if MissedAt(m, e) then [] else [e]
  {
  }

  lemma TopStep(inFlight: map<nat, Call>, m: map<nat, seq<Frame>>, e: Event, tid: nat)
    requires InFlightIsTop(inFlight, m, tid) && Nests(m, e)
    ensures InFlightIsTop(Flight(inFlight, e), FramesNext(m, e), tid)
  {
  }

  /** In every properly nested run the kprobe form misses exactly the returns of calls inside
      which another traced call completed, and takes every other return for what it is. */
  lemma {:induction false} MissesExactlyInterrupted(run: seq<Event>)
    requires ProperlyNested(run)
    ensures AsSeen(run) == Heard(run)
    ensures forall tid: nat :: InFlightIsTop(InFlight(run), Frames(run), tid)
  {
    if run != [] {
      hide InFlightIsTop, Flight, FramesNext, Noticed, Nests, MissedAt;
      var before, e := run[..|run| - 1], run[|run| - 1];
      MissesExactlyInterrupted(before);
      assert InFlightIsTop(InFlight(before), Frames(before), Tid(e.tl));
      NoticedUnlessMissed(InFlight(before), Frames(before), e);
      forall tid: nat ensures InFlightIsTop(InFlight(run), Frames(run), tid) {
        assert InFlightIsTop(InFlight(before), Frames(before), tid);
        TopStep(InFlight(before), Frames(before), e, tid);
      }
      assert Heard(before) + [] == Heard(before);
    }
  }

  lemma KprobeOnNestedRuns(cfg: Config, s: State, run: seq<Event>)
    requires ProperlyNested(run) && RoomForLocks(run)
    ensures Kprobe(cfg, KState(s, map[]), run).base == Fentry(cfg, s, Heard(run))
  {
    KprobeIsFentryAsSeen(cfg, s, run);
    MissesExactlyInterrupted(run);
  }

  lemma {:induction false} RunConcat(cfg: Config, s: State, xs: seq<Action>, ys: seq<Action>)
    ensures Run(cfg, s, xs + ys) == Run(cfg, Run(cfg, s, xs), ys)
  {
    if ys == [] {
      assert xs + ys == xs;
    } else {
      RunConcat(cfg, s, xs, ys[..|ys| - 1]);
      assert (xs + ys)[..|xs + ys| - 1] == xs + ys[..|ys| - 1];
    }
  }

  function AllActions(run: seq<Event>): seq<Action> {
    if run == [] then [] else AllActions(run[..|run| - 1]) + Actions(run[|run| - 1])
  }

  lemma {:induction false} FentryIsRun(cfg: Config, s: State, run: seq<Event>)
    ensures Fentry(cfg, s, run) == Run(cfg, s, AllActions(run))
  {
    if run != [] {
      FentryIsRun(cfg, s, run[..|run| - 1]);
      RunConcat(cfg, s, AllActions(run[..|run| - 1]), Actions(run[|run| - 1]));
    }
  }

  /** So the statistics of the kprobe form are exact too: its rows are those of the
      cycles in the history of calls, which it saw only through `locks`. */
  lemma KprobeStatisticsAreExact(cfg: Config, run: seq<Event>)
    requires Unnested(run)
    requires var acts := AllActions(run); Protocol(acts) && Monotonic(acts) && Roomy(cfg, acts)
    ensures var acts, stats := AllActions(run), Kprobe(cfg, KState(INIT, map[]), run).base.stats;
            && (forall k | k in stats :: RowExact(cfg, stats[k], Charged(cfg, acts, |acts|, k)))
            && (|stats| < MAX_ENTRIES ==> forall k: nat :: k in stats <==> Charged(cfg, acts, |acts|, k) != [])
  {
    KprobeRefinesFentry(cfg, INIT, run);
    FentryIsRun(cfg, INIT, run);
    StatisticsAreExact(cfg, AllActions(run));
  }

  /** A missed return shows in the maps: when a thread inside one blocking call
      completes a second one, the outer return finds `locks` empty, so the kprobe form
      never records that acquisition, and the fentry form does. */
  lemma NestedCallLosesAcquire(cfg: Config, k: KState, outer: Event, inner: Event, innerExit: Event, outerExit: Event)
    requires outer.Enter? && inner.Enter? && innerExit.Exit? && outerExit.Exit?
    requires KindOf(outer.fn).Blocking? && KindOf(inner.fn).Blocking?
    requires innerExit.fn == inner.fn && innerExit.tl == inner.tl
    requires outerExit.fn == outer.fn && outerExit.tl == outer.tl
    requires inner.tl.task == outer.tl.task && inner.tl.lock != outer.tl.lock
    requires cfg.Traces(outer.tl) && outer.stackId >= 0
    requires |k.base.holders| < MAX_ENTRIES && |k.locks| < MAX_ENTRIES
    ensures var run := [outer, inner, innerExit, outerExit];
            var kp, fe := Kprobe(cfg, k, run).base.holders, Fentry(cfg, k.base, run).holders;
            && outer.tl in kp && kp[outer.tl].acqAt == 0
            && outer.tl in fe && fe[outer.tl].acqAt == outerExit.now
  {
    var tid, o := Tid(outer.tl), outer.tl;
    Kprobe4(cfg, k, outer, inner, innerExit, outerExit);
    Fentry4(cfg, k.base, outer, inner, innerExit, outerExit);
    RunOne(cfg, k.base, Try(o, outer.stackId, outer.now));
    var s1 := Step(cfg, k.base, Try(o, outer.stackId, outer.now));
    RunOne(cfg, s1, Try(inner.tl, inner.stackId, inner.now));
    var s2 := Step(cfg, s1, Try(inner.tl, inner.stackId, inner.now));
    RunOne(cfg, s2, Acquire(inner.tl, innerExit.now));
    var s3 := Step(cfg, s2, Acquire(inner.tl, innerExit.now));
    RunOne(cfg, s3, Acquire(o, outerExit.now));
    StepKeepsOthers(cfg, s1, Try(inner.tl, inner.stackId, inner.now), o);
    StepKeepsOthers(cfg, s2, Acquire(inner.tl, innerExit.now), o);
  }

  lemma RunOne(cfg: Config, s: State, a: Action)
    ensures Run(cfg, s, [a]) == Step(cfg, s, a)
  {
    assert [a][..0] == [];
  }

  lemma Kprobe4(cfg: Config, k: KState, a: Event, b: Event, c: Event, d: Event)
    ensures Kprobe(cfg, k, [a, b, c, d]) == KStep(cfg, KStep(cfg, KStep(cfg, KStep(cfg, k, a), b), c), d)
  {
    hide KStep;
    assert [a, b, c, d][..3] == [a, b, c] && [a, b, c][..2] == [a, b] && [a, b][..1] == [a] && [a][..0] == [];
    assert Kprobe(cfg, k, [a]) == KStep(cfg, k, a);
    assert Kprobe(cfg, k, [a, b]) == KStep(cfg, KStep(cfg, k, a), b);
  }

  lemma Fentry4(cfg: Config, s: State, a: Event, b: Event, c: Event, d: Event)
    ensures Fentry(cfg, s, [a, b, c, d])
         == Run(cfg, Run(cfg, Run(cfg, Run(cfg, s, Actions(a)), Actions(b)), Actions(c)), Actions(d))
  {
    hide Run, Actions;
    assert [a, b, c, d][..3] == [a, b, c] && [a, b, c][..2] == [a, b] && [a, b][..1] == [a] && [a][..0] == [];
    assert Fentry(cfg, s, [a]) == Run(cfg, s, Actions(a));
    assert Fentry(cfg, s, [a, b]) == Run(cfg, Fentry(cfg, s, [a]), Actions(b));
  }

  // ----- The programs as they are written: handlers that update the maps in place -----

  class Program {
    const cfg: Config
    var holders: map<TaskLock, Holder>
    var stats: map<nat, LockStat>
    var locks: map<nat, nat>

    ghost function Base(): State
      reads this
    {
      State(holders, stats)
    }

    constructor (cfg: Config)
      ensures this.cfg == cfg && Base() == INIT && locks == map[]
    {
      this.cfg := cfg;
      holders, stats, locks := map[], map[], map[];
    }

    method LockContended(tl: TaskLock, stackId: int, now: nat)
      modifies this`holders
      ensures Base() == Step(cfg, old(Base()), Try(tl, stackId, now))
    {
      if !cfg.Traces(tl) { return; }
      if stackId < 0 { return; }
      holders := Put(holders, MAX_ENTRIES, tl, Holder(stackId, now, 0));
    }

    method LockAborted(tl: TaskLock)
      modifies this`holders
      ensures Base() == Step(cfg, old(Base()), Abort(tl))
    {
      if !cfg.Traces(tl) { return; }
      holders := holders - {tl};
    }

    method LockAcquired(tl: TaskLock, now: nat)
      modifies this`holders
      ensures Base() == Step(cfg, old(Base()), Acquire(tl, now))
    {
      if !cfg.Traces(tl) || tl !in holders { return; }
      holders := holders[tl := holders[tl].(acqAt := now)];
    }

    method Account(tl: TaskLock, h: Holder, relAt: nat, comm: string)
      modifies this`stats
      ensures stats == Klockstat.Account(cfg, old(stats), tl, h, relAt, comm)
    {
      var key := StatKey(cfg, tl, h.stackId);
      if key !in stats {
        stats := Put(stats, MAX_ENTRIES, key, LockStat(NO_SIDE, NO_SIDE));
        if key !in stats { return; }
        if cfg.perThread {
          stats := stats[key := LockStat(NO_SIDE.(maxComm := comm), NO_SIDE)];
        }
      }
      var delta := Sub64(h.acqAt, h.tryAt);
      var acq := stats[key].acq;
      acq := acq.(count := (acq.count + 1) % U64);
      acq := acq.(total := (acq.total + delta) % U64);
      if delta > acq.max {
        acq := acq.(max := delta, maxId := tl.task, maxLock := tl.lock);
        if !cfg.perThread { acq := acq.(maxComm := comm); }
      }
      delta := Sub64(relAt, h.acqAt);
      var hld := stats[key].hld;
      hld := hld.(count := (hld.count + 1) % U64);
      hld := hld.(total := (hld.total + delta) % U64);
      if delta > hld.max {
        hld := hld.(max := delta, maxId := tl.task, maxLock := tl.lock);
        if !cfg.perThread { hld := hld.(maxComm := comm); }
      }
      stats := stats[key := LockStat(acq, hld)];
    }

    method LockReleased(tl: TaskLock, now: nat, comm: string)
      modifies this`holders, this`stats
      ensures Base() == Step(cfg, old(Base()), Release(tl, now, comm))
    {
      if !cfg.Traces(tl) || tl !in holders { return; }
      Account(tl, holders[tl], now, comm);
      holders := holders - {tl};
    }

    /** The actions of an exit probe that knows the lock; both forms share it. */
    method OnExit(e: Event)
      requires e.Exit?
      modifies this`holders
      ensures Base() == Run(cfg, old(Base()), Actions(e))
    {
      RunOnes(cfg, Base(), Actions(e));
      match KindOf(e.fn)
      case Blocking => LockAcquired(e.tl, e.now);
      case Abortable => if e.ret != 0 { LockAborted(e.tl); } else { LockAcquired(e.tl, e.now); }
      case Trying =>
        if Succeeded(e.fn, e.ret) {
          LockContended(e.tl, e.stackId, e.now);
          LockAcquired(e.tl, e.later);
        }
      case Unlocking =>
    }

    method OnEnter(e: Event)
      requires e.Enter?
      modifies this`holders, this`stats
      ensures Base() == Run(cfg, old(Base()), Actions(e))
    {
      RunOnes(cfg, Base(), Actions(e));
      match KindOf(e.fn)
      case Blocking => LockContended(e.tl, e.stackId, e.now);
      case Abortable => LockContended(e.tl, e.stackId, e.now);
      case Trying =>
      case Unlocking => LockReleased(e.tl, e.now, e.comm);
    }

    /** The kprobe and kretprobe programs. */
    method OnKprobe(e: Event)
      modifies this
      ensures KState(Base(), locks) == KStep(cfg, old(KState(Base(), locks)), e)
    {
      if e.Enter? {
        if !KindOf(e.fn).Unlocking? {
          locks := Put(locks, MAX_ENTRIES, Tid(e.tl), e.tl.lock);
        }
        OnEnter(e);
      } else if !KindOf(e.fn).Unlocking? {
        var tid := Tid(e.tl);
        if tid !in locks { return; }
        var lock := locks[tid];
        locks := locks - {tid};
        OnExit(Seen(e, lock));
      } else {
        RunOnes(cfg, Base(), []);
      }
    }
  }

  lemma RunOnes(cfg: Config, s: State, xs: seq<Action>)
    ensures xs == [] ==> Run(cfg, s, xs) == s
    ensures |xs| == 1 ==> Run(cfg, s, xs) == Step(cfg, s, xs[0])
    ensures |xs| == 2 ==> Run(cfg, s, xs) == Step(cfg, Step(cfg, s, xs[0]), xs[1])
  {
    hide Step;
    if |xs| == 2 { assert xs[..1] == [xs[0]]; }
  }
}
