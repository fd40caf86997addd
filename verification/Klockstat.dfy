/** The lock life cycle of klockstat: `lock_contended`, `lock_acquired`,
    `lock_aborted` and `lock_released` over `lockholder_map` and `stat_map`. */
module Klockstat {
  import opened BpfMap

  const MAX_ENTRIES: nat := 102400

  datatype Config = Config(targTgid: nat, targPid: nat, targLock: nat, perThread: bool) {
    predicate Traces(tl: TaskLock) {
      && (targLock == 0 || targLock == tl.lock)
      && (targTgid == 0 || targTgid == tl.task / U32)
      && (targPid == 0 || targPid == tl.task % U32)
    }
  }

  /** A task (its 64-bit pid_tgid) at work on one lock. */
  datatype TaskLock = TaskLock(task: nat, lock: nat)

  datatype Holder = Holder(stackId: int, tryAt: nat, acqAt: nat)

  /** One half of `struct lock_stat`; the source keeps one for waits and one for holds. */
  datatype Side = Side(count: nat, total: nat, max: nat, maxId: nat, maxLock: nat, maxComm: string)

  datatype LockStat = LockStat(acq: Side, hld: Side)

  const NO_SIDE := Side(0, 0, 0, 0, 0, "")

  /** What happens to a lock; clock values, stack ids and command names are inputs. */
  datatype Action =
    | Try(tl: TaskLock, stackId: int, now: nat)
    | Acquire(tl: TaskLock, now: nat)
    | Abort(tl: TaskLock)
    | Release(tl: TaskLock, now: nat, comm: string)

  datatype State = State(holders: map<TaskLock, Holder>, stats: map<nat, LockStat>)

  const INIT := State(map[], map[])

  function Charge(side: Side, delta: nat, tl: TaskLock, comm: string, perThread: bool): Side {
    var side := side.(count := (side.count + 1) % U64, total := (side.total + delta) % U64);
    if delta <= side.max then side
    else
      var side := side.(max := delta, maxId := tl.task, maxLock := tl.lock);
      if perThread then side else side.(maxComm := comm)
  }

  function StatKey(cfg: Config, tl: TaskLock, stackId: int): nat {
    if cfg.perThread then tl.task % U32 else stackId % U32
  }

  function NewRow(cfg: Config, comm: string): LockStat {
    LockStat(NO_SIDE.(maxComm := if cfg.perThread then comm else ""), NO_SIDE)
  }

  function ChargeRow(cfg: Config, row: LockStat, tl: TaskLock, h: Holder, relAt: nat, comm: string): LockStat {
    LockStat(Charge(row.acq, Sub64(h.acqAt, h.tryAt), tl, comm, cfg.perThread),
             Charge(row.hld, Sub64(relAt, h.acqAt), tl, comm, cfg.perThread))
  }

  function Account(cfg: Config, stats: map<nat, LockStat>, tl: TaskLock, h: Holder, relAt: nat, comm: string)
    : map<nat, LockStat>
  {
    var key := StatKey(cfg, tl, h.stackId);
    var stats := if key in stats then stats else Put(stats, MAX_ENTRIES, key, NewRow(cfg, comm));
    if key !in stats then stats else stats[key := ChargeRow(cfg, stats[key], tl, h, relAt, comm)]
  }

  function Step(cfg: Config, s: State, a: Action): State {
    if !cfg.Traces(a.tl) then s
    else
      match a
      case Try(tl, stackId, now) =>
        if stackId < 0 then s
        else s.(holders := Put(s.holders, MAX_ENTRIES, tl, Holder(stackId, now, 0)))
      case Acquire(tl, now) =>
        if tl !in s.holders then s
        else s.(holders := s.holders[tl := s.holders[tl].(acqAt := now)])
      case Abort(tl) => s.(holders := s.holders - {tl})
      case Release(tl, now, comm) =>
        if tl !in s.holders then s
        else State(s.holders - {tl}, Account(cfg, s.stats, tl, s.holders[tl], now, comm))
  }

  function Run(cfg: Config, s: State, run: seq<Action>): State {
    if run == [] then s else Step(cfg, Run(cfg, s, run[..|run| - 1]), run[|run| - 1])
  }

  // ----- The reference: cycles read off the history, with no maps -----

  /** The last event on `tl` before position `n`, or -1. */
  function Prev(run: seq<Action>, tl: TaskLock, n: nat): (p: int)
    requires n <= |run|
    ensures -1 <= p < n
    ensures p >= 0 ==> run[p].tl == tl
    ensures forall i :: p < i < n ==> run[i].tl != tl
  {
    if n == 0 then -1 else if run[n - 1].tl == tl then n - 1 else Prev(run, tl, n - 1)
  }

  /** A completed try, acquire, release of one lock by one task. */
  datatype Cycle = Cycle(tl: TaskLock, stackId: int, tryAt: nat, acqAt: nat, relAt: nat, comm: string)

  /** The cycle that the event at `n` completes: a release whose previous event on the
      same lock is an acquire, whose own previous event is a try with a usable stack. */
  function CycleAt(cfg: Config, run: seq<Action>, n: nat): Option<Cycle>
    requires n < |run|
  {
    if !run[n].Release? || !cfg.Traces(run[n].tl) then None
    else
      var p := Prev(run, run[n].tl, n);
      if p < 0 || !run[p].Acquire? then None
      else
        var q := Prev(run, run[n].tl, p);
        if q < 0 || !run[q].Try? || run[q].stackId < 0 then None
        else Some(Cycle(run[n].tl, run[q].stackId, run[q].now, run[p].now, run[n].now, run[n].comm))
  }

  /** The cycles completed by the first `n` events and charged to `key`, in order. */
  function Charged(cfg: Config, run: seq<Action>, n: nat, key: nat): seq<Cycle>
    requires n <= |run|
  {
    if n == 0 then []
    else
      var rest := Charged(cfg, run, n - 1, key);
      match CycleAt(cfg, run, n - 1)
      case Some(c) => if StatKey(cfg, c.tl, c.stackId) == key then rest + [c] else rest
      case None => rest
  }

  /** Each task's events on a lock follow try, acquire or abort, release; the first
      one seen may be any of them, because tracing may start mid-cycle. */
  ghost predicate Protocol(run: seq<Action>) {
    forall n | 0 <= n < |run| :: Follows(run, n)
  }

  predicate Follows(run: seq<Action>, n: nat)
    requires n < |run|
  {
    var p := Prev(run, run[n].tl, n);
    p < 0 ||
    match run[n]
    case Try(_, _, _) => run[p].Release? || run[p].Abort?
    case Acquire(_, _) => run[p].Try?
    case Abort(_) => run[p].Try?
    case Release(_, _, _) => run[p].Acquire?
  }

  function Time(a: Action): nat {
    match a
    case Try(_, _, now) => now
    case Acquire(_, now) => now
    case Abort(_) => 0
    case Release(_, now, _) => now
  }

  /** `bpf_ktime_get_ns` never runs backwards and fits a word. */
  ghost predicate Monotonic(run: seq<Action>) {
    && (forall i | 0 <= i < |run| :: Time(run[i]) < U64)
    && forall i, j | 0 <= i < j < |run| && !run[j].Abort? :: Time(run[i]) <= Time(run[j])
  }

  /** `lockholder_map` had room before every step. */
  ghost predicate Roomy(cfg: Config, run: seq<Action>) {
    forall n | 0 <= n < |run| :: |Run(cfg, INIT, run[..n]).holders| < MAX_ENTRIES
  }

  // ----- What a row must say about the cycles charged to it -----

  datatype Sample = Sample(delta: int, tl: TaskLock, comm: string)

  function Waits(cs: seq<Cycle>): (xs: seq<Sample>)
    ensures |xs| == |cs|
  {
    seq(|cs|, i requires 0 <= i < |cs| => Sample(cs[i].acqAt - cs[i].tryAt, cs[i].tl, cs[i].comm))
  }

  function Holds(cs: seq<Cycle>): (xs: seq<Sample>)
    ensures |xs| == |cs|
  {
    seq(|cs|, i requires 0 <= i < |cs| => Sample(cs[i].relAt - cs[i].acqAt, cs[i].tl, cs[i].comm))
  }

  function Sum(xs: seq<Sample>): int {
    if xs == [] then 0 else Sum(xs[..|xs| - 1]) + xs[|xs| - 1].delta
  }

  /** `i` is the first sample to reach the maximum, and the row names its task and lock. */
  predicate Names(side: Side, xs: seq<Sample>, perThread: bool, i: nat) {
    && i < |xs|
    && xs[i].delta == side.max && xs[i].tl == TaskLock(side.maxId, side.maxLock)
    && (perThread || xs[i].comm == side.maxComm)
    && forall j | 0 <= j < i :: xs[j].delta < side.max
  }

  predicate SumsExact(side: Side, xs: seq<Sample>) {
    side.count == |xs| % U64 && side.total == Sum(xs) % U64
  }

  ghost predicate MaxExact(side: Side, xs: seq<Sample>, perThread: bool) {
    && (forall i | 0 <= i < |xs| :: 0 <= xs[i].delta <= side.max)
    && (side.max == 0 ==> side.maxId == 0 && side.maxLock == 0)
    && (side.max > 0 ==> exists i: nat :: Names(side, xs, perThread, i))
  }

  ghost predicate SideExact(side: Side, xs: seq<Sample>, perThread: bool) {
    SumsExact(side, xs) && MaxExact(side, xs, perThread)
  }

  /** Counts, totals, maxima and names of one row are those of the cycles `cs`; with
      per-thread keys the row carries the command name of the first of them. */
  ghost predicate RowExact(cfg: Config, row: LockStat, cs: seq<Cycle>) {
    && |cs| > 0
    && SideExact(row.acq, Waits(cs), cfg.perThread)
    && SideExact(row.hld, Holds(cs), cfg.perThread)
    && (cfg.perThread ==> row.acq.maxComm == cs[0].comm)
  }

  lemma SumLast(xs: seq<Sample>, x: Sample)
    ensures Sum(xs + [x]) == Sum(xs) + x.delta
  {
    assert (xs + [x])[..|xs|] == xs;
  }

  lemma ChargeSums(side: Side, xs: seq<Sample>, x: Sample, perThread: bool)
    requires SumsExact(side, xs) && x.delta >= 0
    ensures SumsExact(Charge(side, x.delta, x.tl, x.comm, perThread), xs + [x])
  {
    hide Sum;
    SumLast(xs, x);
  }

  lemma NamesKept(side: Side, side': Side, xs: seq<Sample>, x: Sample, perThread: bool, i: nat)
    requires Names(side, xs, perThread, i)
    requires side'.max == side.max && side'.maxId == side.maxId && side'.maxLock == side.maxLock && side'.maxComm == side.maxComm
    ensures Names(side', xs + [x], perThread, i)
  {
    var ys := xs + [x];
    assert forall j | 0 <= j < |xs| :: ys[j] == xs[j];
  }

  lemma NamesLast(side: Side, xs: seq<Sample>, x: Sample, perThread: bool)
    requires x.delta == side.max && x.tl == TaskLock(side.maxId, side.maxLock) && (perThread || x.comm == side.maxComm)
    requires forall j | 0 <= j < |xs| :: xs[j].delta < side.max
    ensures Names(side, xs + [x], perThread, |xs|)
  {
    var ys := xs + [x];
    assert ys[|xs|] == x && forall j | 0 <= j < |xs| :: ys[j] == xs[j];
  }

  lemma ChargeMax(side: Side, xs: seq<Sample>, x: Sample, perThread: bool)
    requires MaxExact(side, xs, perThread) && x.delta >= 0
    ensures MaxExact(Charge(side, x.delta, x.tl, x.comm, perThread), xs + [x], perThread)
  {
    hide Names;
    var side' := Charge(side, x.delta, x.tl, x.comm, perThread);
    if x.delta > side.max {
      NamesLast(side', xs, x, perThread);
    } else if side.max > 0 {
      var i: nat :| Names(side, xs, perThread, i);
      NamesKept(side, side', xs, x, perThread, i);
    }
  }

  lemma ChargeExact(side: Side, xs: seq<Sample>, x: Sample, perThread: bool)
    requires SideExact(side, xs, perThread) && x.delta >= 0
    ensures SideExact(Charge(side, x.delta, x.tl, x.comm, perThread), xs + [x], perThread)
    ensures perThread ==> Charge(side, x.delta, x.tl, x.comm, perThread).maxComm == side.maxComm
  {
    hide SumsExact, MaxExact;
    ChargeSums(side, xs, x, perThread);
    ChargeMax(side, xs, x, perThread);
  }

  lemma NoSideExact(comm: string, perThread: bool)
    ensures SideExact(NO_SIDE.(maxComm := comm), [], perThread)
  {
  }

  lemma SamplesAppend(cs: seq<Cycle>, c: Cycle)
    ensures Waits(cs + [c]) == Waits(cs) + [Sample(c.acqAt - c.tryAt, c.tl, c.comm)]
    ensures Holds(cs + [c]) == Holds(cs) + [Sample(c.relAt - c.acqAt, c.tl, c.comm)]
  {
  }

  /** `account` on a row that is exact for `cs`, or just created when `cs` is empty. */
  lemma RowCharged(cfg: Config, row: LockStat, c: Cycle, cs: seq<Cycle>)
    requires c.tryAt <= c.acqAt <= c.relAt < U64
    requires RowExact(cfg, row, cs) || (cs == [] && row == NewRow(cfg, c.comm))
    ensures RowExact(cfg, ChargeRow(cfg, row, c.tl, Holder(c.stackId, c.tryAt, c.acqAt), c.relAt, c.comm), cs + [c])
  {
    hide SideExact, Charge;
    Sub64Exact(c.acqAt, c.tryAt);
    Sub64Exact(c.relAt, c.acqAt);
    if cs == [] {
      NoSideExact(row.acq.maxComm, cfg.perThread);
      NoSideExact("", cfg.perThread);
      assert Waits(cs) == [] && Holds(cs) == [];
    }
    ChargeExact(row.acq, Waits(cs), Sample(c.acqAt - c.tryAt, c.tl, c.comm), cfg.perThread);
    ChargeExact(row.hld, Holds(cs), Sample(c.relAt - c.acqAt, c.tl, c.comm), cfg.perThread);
    SamplesAppend(cs, c);
  }

  // ----- The run invariant -----

  /** The entry of `lockholder_map` that the history up to `n` calls for. */
  function OpenAt(cfg: Config, run: seq<Action>, n: nat, tl: TaskLock): Option<Holder>
    requires n <= |run|
  {
    var p := Prev(run, tl, n);
    if !cfg.Traces(tl) || p < 0 then None
    else if run[p].Try? then
      if run[p].stackId < 0 then None else Some(Holder(run[p].stackId, run[p].now, 0))
    else if run[p].Acquire? then
      var q := Prev(run, tl, p);
      if q < 0 || !run[q].Try? || run[q].stackId < 0 then None
      else Some(Holder(run[q].stackId, run[q].now, run[p].now))
    else None
  }

  ghost predicate HoldersExact(cfg: Config, run: seq<Action>, n: nat, holders: map<TaskLock, Holder>)
    requires n <= |run|
  {
    forall tl :: OpenAt(cfg, run, n, tl) == if tl in holders then Some(holders[tl]) else None
  }

  /** Every row present is exact; a key that has cycles but no row was turned away by a
      full `stat_map`, which never empties again. */
  ghost predicate StatsExact(cfg: Config, run: seq<Action>, n: nat, stats: map<nat, LockStat>)
    requires n <= |run|
  {
    && (forall k | k in stats :: RowExact(cfg, stats[k], Charged(cfg, run, n, k)))
    && (|stats| < MAX_ENTRIES ==> forall k: nat | k !in stats :: Charged(cfg, run, n, k) == [])
  }

  lemma OpenStep(cfg: Config, run: seq<Action>, n: nat, s: State)
    requires n < |run| && Follows(run, n) && |s.holders| < MAX_ENTRIES
    requires var p := Prev(run, run[n].tl, n); p >= 0 ==> Follows(run, p)
    requires var tl := run[n].tl; OpenAt(cfg, run, n, tl) == if tl in s.holders then Some(s.holders[tl]) else None
    ensures var tl, after := run[n].tl, Step(cfg, s, run[n]).holders;
            OpenAt(cfg, run, n + 1, tl) == if tl in after then Some(after[tl]) else None
  {
    assert Prev(run, run[n].tl, n + 1) == n;
  }

  lemma OpenKept(cfg: Config, run: seq<Action>, n: nat, t: TaskLock)
    requires n < |run| && t != run[n].tl
    ensures OpenAt(cfg, run, n + 1, t) == OpenAt(cfg, run, n, t)
  {
  }

  lemma HoldersStep(cfg: Config, run: seq<Action>, n: nat, s: State)
    requires n < |run| && Protocol(run)
    requires HoldersExact(cfg, run, n, s.holders) && |s.holders| < MAX_ENTRIES
    ensures HoldersExact(cfg, run, n + 1, Step(cfg, s, run[n]).holders)
  {
    hide Step, OpenAt, Follows;
    var tl, after := run[n].tl, Step(cfg, s, run[n]).holders;
    assert Follows(run, n);
    assert OpenAt(cfg, run, n, tl) == if tl in s.holders then Some(s.holders[tl]) else None;
    OpenStep(cfg, run, n, s);
    forall t | t != tl ensures OpenAt(cfg, run, n + 1, t) == if t in after then Some(after[t]) else None {
      OpenKept(cfg, run, n, t);
      assert OpenAt(cfg, run, n, t) == if t in s.holders then Some(s.holders[t]) else None;
      StepKeepsOthers(cfg, s, run[n], t);
    }
  }

  lemma StepKeepsOthers(cfg: Config, s: State, a: Action, t: TaskLock)
    requires t != a.tl
    ensures var after := Step(cfg, s, a).holders;
            (t in after <==> t in s.holders) && (t in after ==> after[t] == s.holders[t])
  {
  }

  /** A release finds a holder exactly when the history completes a cycle there. */
  lemma ReleaseSeesCycle(cfg: Config, run: seq<Action>, n: nat, s: State)
    requires n < |run| && Protocol(run) && run[n].Release? && cfg.Traces(run[n].tl)
    requires HoldersExact(cfg, run, n, s.holders)
    ensures CycleAt(cfg, run, n).Some? <==> run[n].tl in s.holders
    ensures run[n].tl in s.holders ==>
              var c, h := CycleAt(cfg, run, n).value, s.holders[run[n].tl];
              h == Holder(c.stackId, c.tryAt, c.acqAt) && c.tl == run[n].tl
              && c.relAt == run[n].now && c.comm == run[n].comm
  {
    var tl := run[n].tl;
    assert Follows(run, n);
    assert OpenAt(cfg, run, n, tl) == if tl in s.holders then Some(s.holders[tl]) else None;
  }

  lemma CycleOrdered(cfg: Config, run: seq<Action>, n: nat)
    requires n < |run| && Monotonic(run) && CycleAt(cfg, run, n).Some?
    ensures var c := CycleAt(cfg, run, n).value; c.tryAt <= c.acqAt <= c.relAt < U64 && c.stackId >= 0
  {
    var p := Prev(run, run[n].tl, n);
    var q := Prev(run, run[n].tl, p);
    assert Time(run[q]) <= Time(run[p]) <= Time(run[n]) < U64;
  }

  lemma StatsUntouched(cfg: Config, run: seq<Action>, n: nat, stats: map<nat, LockStat>)
    requires n < |run| && StatsExact(cfg, run, n, stats) && CycleAt(cfg, run, n).None?
    ensures StatsExact(cfg, run, n + 1, stats)
  {
    assert forall k: nat :: Charged(cfg, run, n + 1, k) == Charged(cfg, run, n, k);
  }

  lemma AccountShape(cfg: Config, stats: map<nat, LockStat>, tl: TaskLock, h: Holder, relAt: nat, comm: string)
    ensures var key, after := StatKey(cfg, tl, h.stackId), Account(cfg, stats, tl, h, relAt, comm);
            var row := if key in stats then stats[key] else NewRow(cfg, comm);
            && |stats| <= |after|
            && (key !in stats && |stats| >= MAX_ENTRIES ==> after == stats)
            && (key in stats || |stats| < MAX_ENTRIES ==>
                  after == stats[key := ChargeRow(cfg, row, tl, h, relAt, comm)])
  {
    hide ChargeRow, NewRow;
    var key, after := StatKey(cfg, tl, h.stackId), Account(cfg, stats, tl, h, relAt, comm);
    if key in stats { assert after.Keys == stats.Keys; }
    if key !in stats && |stats| < MAX_ENTRIES { assert after.Keys == stats.Keys + {key}; }
  }

  lemma StatsCharged(cfg: Config, run: seq<Action>, n: nat, stats: map<nat, LockStat>, c: Cycle)
    requires n < |run| && StatsExact(cfg, run, n, stats) && CycleAt(cfg, run, n) == Some(c)
    requires c.tryAt <= c.acqAt <= c.relAt < U64
    ensures StatsExact(cfg, run, n + 1,
                       Account(cfg, stats, c.tl, Holder(c.stackId, c.tryAt, c.acqAt), c.relAt, c.comm))
  {
    hide RowExact, ChargeRow, NewRow, Account, StatKey, CycleAt;
    var key := StatKey(cfg, c.tl, c.stackId);
    var h := Holder(c.stackId, c.tryAt, c.acqAt);
    var after := Account(cfg, stats, c.tl, h, c.relAt, c.comm);
    AccountShape(cfg, stats, c.tl, h, c.relAt, c.comm);
    if key in stats || |stats| < MAX_ENTRIES {
      RowCharged(cfg, if key in stats then stats[key] else NewRow(cfg, c.comm), c, Charged(cfg, run, n, key));
    }
  }

  lemma StatsStep(cfg: Config, run: seq<Action>, n: nat, s: State)
    requires n < |run| && Protocol(run) && Monotonic(run)
    requires HoldersExact(cfg, run, n, s.holders) && StatsExact(cfg, run, n, s.stats)
    ensures StatsExact(cfg, run, n + 1, Step(cfg, s, run[n]).stats)
  {
    hide HoldersExact, StatsExact, Account, Protocol, Monotonic;
    if run[n].Release? && cfg.Traces(run[n].tl) {
      ReleaseSeesCycle(cfg, run, n, s);
      if run[n].tl in s.holders {
        CycleOrdered(cfg, run, n);
        StatsCharged(cfg, run, n, s.stats, CycleAt(cfg, run, n).value);
        return;
      }
    }
    StatsUntouched(cfg, run, n, s.stats);
  }

  lemma {:induction false} RunExact(cfg: Config, run: seq<Action>, n: nat)
    requires n <= |run| && Protocol(run) && Monotonic(run) && Roomy(cfg, run)
    ensures HoldersExact(cfg, run, n, Run(cfg, INIT, run[..n]).holders)
    ensures StatsExact(cfg, run, n, Run(cfg, INIT, run[..n]).stats)
  {
    if n > 0 {
      hide HoldersExact, StatsExact, Step, Protocol, Monotonic;
      var s := Run(cfg, INIT, run[..n - 1]);
      assert run[..n][..n - 1] == run[..n - 1];
      assert Run(cfg, INIT, run[..n]) == Step(cfg, s, run[n - 1]);
      RunExact(cfg, run, n - 1);
      HoldersStep(cfg, run, n - 1, s);
      StatsStep(cfg, run, n - 1, s);
    }
  }

  /** Over every run that follows the lock protocol: a row of `stat_map` counts exactly
      the completed cycles charged to its key, its totals are the summed waits and holds
      modulo a word, its maxima are attained and named, and while `stat_map` has room
      every key that completed a cycle has a row. */
  lemma StatisticsAreExact(cfg: Config, run: seq<Action>)
    requires Protocol(run) && Monotonic(run) && Roomy(cfg, run)
    ensures var stats := Run(cfg, INIT, run).stats;
            && (forall k | k in stats :: RowExact(cfg, stats[k], Charged(cfg, run, |run|, k)))
            && (|stats| < MAX_ENTRIES ==>
                  forall k: nat :: k in stats <==> Charged(cfg, run, |run|, k) != [])
  {
    RunExact(cfg, run, |run|);
    assert run[..|run|] == run;
  }
}
