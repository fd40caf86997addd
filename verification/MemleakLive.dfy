/** What memleak's table of live allocations holds, read off the events alone: for each address
    the last allocation, unless it was freed since. */
module MemleakLive {
  import opened BpfMap
  import opened Memleak

  // ----- The reference: live allocations in a history of events -----

  /** The size is looked for and the moment is one of those sampled. */
  predicate Selected(cfg: Config, size: nat, now: nat) {
    cfg.minSize <= size <= cfg.maxSize && (cfg.sampleRate <= 1 || now % cfg.sampleRate == 0)
  }

  /** The thread asks for memory of this size and is followed up. */
  function Asks(cfg: Config, e: Event, tid: nat): Option<nat> {
    match e
    case Enter(t, size, now) => if t == tid && Selected(cfg, size, now) then Some(size) else None
    case ReallocEnter(_, t, size, now) => if t == tid && Selected(cfg, size, now) then Some(size) else None
    case MemalignEnter(_, t, size, now) => if t == tid && Selected(cfg, size, now) then Some(size) else None
    case _ => None
  }

  /** Whether the thread's last posix_memalign has not returned. */
  predicate InMemalign(run: seq<Event>, tid: nat) {
    run != [] &&
    var e := run[|run| - 1];
    if e.MemalignEnter? && e.tid == tid then true
    else if e.MemalignExit? && e.tid == tid then false
    else InMemalign(run[..|run| - 1], tid)
  }

  /** The event is the end of the thread's request. */
  predicate Settles(before: seq<Event>, e: Event, tid: nat) {
    match e
    case Exit(t, _, _, _) => t == tid
    case MemalignExit(t, found, _, _) => t == tid && InMemalign(before, tid) && found.Some?
    case Kernel(_, t, _, _, _) => t == tid
    case Page(_, t, _, _, _) => t == tid
    case _ => false
  }

  /** The size of the thread's last request that was followed up and has not come to an end. */
  function Requested(cfg: Config, run: seq<Event>, tid: nat): Option<nat> {
    if run == [] then None
    else
      var before, e := run[..|run| - 1], run[|run| - 1];
      if Asks(cfg, e, tid).Some? then Asks(cfg, e, tid)
      else if Settles(before, e, tid) then None
      else Requested(cfg, before, tid)
  }

  /** The size that a kernel allocation is listed with. */
  function KernelSize(cfg: Config, before: seq<Event>, tid: nat, size: nat, now: nat): Option<nat> {
    if Selected(cfg, size, now) then Some(size) else Requested(cfg, before, tid)
  }

  /** The allocation that the event brings, if any. */
  function Allocated(cfg: Config, before: seq<Event>, e: Event): Option<(nat, Info)> {
    match e
    case Exit(tid, address, now, stackId) =>
      var size := Requested(cfg, before, tid);
      if size.Some? && address != 0 then Some((address, Info(size.value, now, stackId))) else None
    case MemalignExit(tid, found, now, stackId) =>
      var size := Requested(cfg, before, tid);
      if InMemalign(before, tid) && found.Some? && size.Some? && found.value != 0
      then Some((found.value, Info(size.value, now, stackId))) else None
    case Kernel(address, tid, size, now, stackId) =>
      var size := KernelSize(cfg, before, tid, size, now);
      if size.Some? && address != 0 then Some((address, Info(size.value, now, stackId))) else None
    case Page(address, tid, size, now, stackId) =>
      var size := KernelSize(cfg, before, tid, size, now);
      if size.Some? && address != 0 then Some((address, Info(size.value, now, stackId))) else None
    case _ => None
  }

  /** The event gives the address back: a free, a realloc of it, or with the workaround for missed
      frees a kernel allocation that returns it. */
  predicate Returned(cfg: Config, e: Event, address: nat) {
    match e
    case Free(a) => a == address
    case ReallocEnter(a, _, _, _) => a == address
    case Kernel(a, _, _, _, _) => a == address && cfg.waMissingFree
    case _ => false
  }

  /** The last allocation of the address, unless it was given back since. */
  function Live(cfg: Config, run: seq<Event>, address: nat): Option<Info> {
    if run == [] then None
    else
      var before, e := run[..|run| - 1], run[|run| - 1];
      var made := Allocated(cfg, before, e);
      if made.Some? && made.value.0 == address then Some(made.value.1)
      else if Returned(cfg, e, address) then None
      else Live(cfg, before, address)
  }

  // ----- The maps -----

  function At<V>(m: map<nat, V>, k: nat): Option<V> {
    if k in m then Some(m[k]) else None
  }

  /** The maps say what the history says. */
  ghost predicate Tells(cfg: Config, run: seq<Event>, s: State) {
    && (forall tid: nat :: At(s.sizes, tid) == Requested(cfg, run, tid))
    && (forall tid: nat :: tid in s.memptrs <==> InMemalign(run, tid))
    && (forall address: nat :: At(s.allocs, address) == Live(cfg, run, address))
  }

  /** No map is full. */
  predicate Roomy(s: State) {
    |s.sizes| < SIZES_MAX && |s.memptrs| < SIZES_MAX && |s.allocs| < ALLOCS_MAX
  }

  lemma PutAt<V>(m: map<nat, V>, capacity: nat, key: nat, value: V, k: nat)
    requires |m| < capacity
    ensures At(Put(m, capacity, key, value), k) == if k == key then Some(value) else At(m, k)
  {
  }

  lemma EnterAt(cfg: Config, s: State, tid: nat, size: nat, now: nat, t: nat)
    requires |s.sizes| < SIZES_MAX
    ensures var s' := AllocEnter(cfg, s, tid, size, now);
            && s'.allocs == s.allocs && s'.memptrs == s.memptrs
            && At(s'.sizes, t) == if t == tid && Selected(cfg, size, now) then Some(size) else At(s.sizes, t)
  {
    PutAt(s.sizes, SIZES_MAX, tid, size, t);
  }

  lemma ExitAt(s: State, tid: nat, address: nat, now: nat, stackId: int, t: nat, a: nat)
    requires |s.allocs| < ALLOCS_MAX
    ensures var s' := AllocExit(s, tid, address, now, stackId);
            && s'.memptrs == s.memptrs
            && At(s'.sizes, t) == (if t == tid then None else At(s.sizes, t))
            && At(s'.allocs, a) == if tid in s.sizes && address != 0 && a == address
                                   then Some(Info(s.sizes[tid], now, stackId)) else At(s.allocs, a)
  {
    hide AddStat;
    if tid in s.sizes { PutAt(s.allocs, ALLOCS_MAX, address, Info(s.sizes[tid], now, stackId), a); }
  }

  lemma FreeAt(s: State, address: nat, a: nat)
    ensures var s' := FreeEnter(s, address);
            && s'.memptrs == s.memptrs && s'.sizes == s.sizes && |s'.allocs| <= |s.allocs|
            && At(s'.allocs, a) == if a == address then None else At(s.allocs, a)
  {
    hide DelStat;
    assert (s.allocs - {address}).Keys == s.allocs.Keys - {address};
  }

  /** What one event does, to the request of thread `t` and to address `a`. */
  predicate Effect(cfg: Config, s: State, s': State, e: Event, t: nat, a: nat) {
    var asked, made := Asks(cfg, e, t), Makes(cfg, s, e);
    && At(s'.sizes, t) == (if asked.Some? then asked else if Ends(s, e, t) then None else At(s.sizes, t))
    && (t in s'.memptrs <==> if e.MemalignEnter? && e.tid == t then true
                             else if e.MemalignExit? && e.tid == t then false else t in s.memptrs)
    && At(s'.allocs, a) == if made.Some? && made.value.0 == a then Some(made.value.1)
                           else if Returned(cfg, e, a) then None else At(s.allocs, a)
  }

  lemma UserAt(cfg: Config, s: State, e: Event, t: nat, a: nat)
    requires Roomy(s) && (e.Enter? || e.Exit? || e.Free? || e.ReallocEnter?)
    ensures Effect(cfg, s, Step(cfg, s, e), e, t, a)
  {
    hide AllocEnter, AllocExit, FreeEnter, Selected;
    match e
    case Enter(tid, size, now) => EnterAt(cfg, s, tid, size, now, t);
    case Exit(tid, address, now, stackId) => ExitAt(s, tid, address, now, stackId, t, a);
    case Free(address) => FreeAt(s, address, a);
    case ReallocEnter(address, tid, size, now) =>
      FreeAt(s, address, a);
      EnterAt(cfg, FreeEnter(s, address), tid, size, now, t);
  }

  lemma PutKeys<V>(m: map<nat, V>, capacity: nat, key: nat, value: V, k: nat)
    requires |m| < capacity
    ensures k in Put(m, capacity, key, value) <==> k == key || k in m
  {
  }

  lemma MemalignEnterAt(cfg: Config, s: State, memptr: nat, tid: nat, size: nat, now: nat, t: nat, a: nat)
    requires Roomy(s)
    ensures var e := MemalignEnter(memptr, tid, size, now); Effect(cfg, s, Step(cfg, s, e), e, t, a)
  {
    hide AllocEnter, Selected, Put;
    var s1 := s.(memptrs := Put(s.memptrs, SIZES_MAX, tid, memptr));
    PutKeys(s.memptrs, SIZES_MAX, tid, memptr, t);
    EnterAt(cfg, s1, tid, size, now, t);
  }

  lemma MemalignExitAt(cfg: Config, s: State, tid: nat, found: Option<nat>, now: nat, stackId: int, t: nat, a: nat)
    requires Roomy(s)
    ensures var e := MemalignExit(tid, found, now, stackId); Effect(cfg, s, Step(cfg, s, e), e, t, a)
  {
    hide AllocExit;
    if tid in s.memptrs && found.Some? {
      ExitAt(s.(memptrs := s.memptrs - {tid}), tid, found.value, now, stackId, t, a);
    }
  }

  lemma KernelStepAt(cfg: Config, s: State, address: nat, tid: nat, size: nat, now: nat, stackId: int, t: nat, a: nat)
    requires Roomy(s)
    ensures var e := Kernel(address, tid, size, now, stackId); Effect(cfg, s, Step(cfg, s, e), e, t, a)
  {
    hide AllocEnter, AllocExit, FreeEnter, Selected;
    FreeAt(s, address, a);
    KernelAt(cfg, if cfg.waMissingFree then FreeEnter(s, address) else s, address, tid, size, now, stackId, t, a);
  }

  lemma PageStepAt(cfg: Config, s: State, address: nat, tid: nat, size: nat, now: nat, stackId: int, t: nat, a: nat)
    requires Roomy(s)
    ensures var e := Page(address, tid, size, now, stackId); Effect(cfg, s, Step(cfg, s, e), e, t, a)
  {
    hide AllocEnter, AllocExit, Selected;
    KernelAt(cfg, s, address, tid, size, now, stackId, t, a);
  }

  lemma StepAt(cfg: Config, s: State, e: Event, t: nat, a: nat)
    requires Roomy(s)
    ensures Effect(cfg, s, Step(cfg, s, e), e, t, a)
  {
    hide Effect, Step, Roomy;
    match e
    case MemalignEnter(memptr, tid, size, now) => MemalignEnterAt(cfg, s, memptr, tid, size, now, t, a);
    case MemalignExit(tid, found, now, stackId) => MemalignExitAt(cfg, s, tid, found, now, stackId, t, a);
    case Kernel(address, tid, size, now, stackId) => KernelStepAt(cfg, s, address, tid, size, now, stackId, t, a);
    case Page(address, tid, size, now, stackId) => PageStepAt(cfg, s, address, tid, size, now, stackId, t, a);
    case _ => UserAt(cfg, s, e, t, a);
  }

  lemma KernelAt(cfg: Config, s: State, address: nat, tid: nat, size: nat, now: nat, stackId: int, t: nat, a: nat)
    requires |s.sizes| < SIZES_MAX && |s.allocs| < ALLOCS_MAX
    ensures var s' := AllocExit(AllocEnter(cfg, s, tid, size, now), tid, address, now, stackId);
            && s'.memptrs == s.memptrs && At(s'.sizes, t) == (if t == tid then None else At(s.sizes, t))
            && var size := if Selected(cfg, size, now) then Some(size) else At(s.sizes, tid);
               At(s'.allocs, a) == if size.Some? && address != 0 && a == address
                                   then Some(Info(size.value, now, stackId)) else At(s.allocs, a)
  {
    hide AllocEnter, AllocExit;
    EnterAt(cfg, s, tid, size, now, t);
    EnterAt(cfg, s, tid, size, now, tid);
    ExitAt(AllocEnter(cfg, s, tid, size, now), tid, address, now, stackId, t, a);
  }

  /** Settles and Allocated with the maps in place of the history. */
  predicate Ends(s: State, e: Event, tid: nat) {
    match e
    case Exit(t, _, _, _) => t == tid
    case MemalignExit(t, found, _, _) => t == tid && tid in s.memptrs && found.Some?
    case Kernel(_, t, _, _, _) => t == tid
    case Page(_, t, _, _, _) => t == tid
    case _ => false
  }

  function Makes(cfg: Config, s: State, e: Event): Option<(nat, Info)> {
    match e
    case Exit(tid, address, now, stackId) => Listed(At(s.sizes, tid), address, now, stackId)
    case MemalignExit(tid, found, now, stackId) =>
      if tid in s.memptrs && found.Some? then Listed(At(s.sizes, tid), found.value, now, stackId) else None
    case Kernel(address, tid, size, now, stackId) =>
      Listed(if Selected(cfg, size, now) then Some(size) else At(s.sizes, tid), address, now, stackId)
    case Page(address, tid, size, now, stackId) =>
      Listed(if Selected(cfg, size, now) then Some(size) else At(s.sizes, tid), address, now, stackId)
    case _ => None
  }

  function Listed(size: Option<nat>, address: nat, now: nat, stackId: int): Option<(nat, Info)> {
    if size.Some? && address != 0 then Some((address, Info(size.value, now, stackId))) else None
  }

  lemma MapsForHistory(cfg: Config, run: seq<Event>, s: State, e: Event, t: nat)
    requires Tells(cfg, run, s)
    ensures Ends(s, e, t) == Settles(run, e, t) && Makes(cfg, s, e) == Allocated(cfg, run, e)
  {
    hide Requested, InMemalign, Live;
  }

  lemma HistoryLast(cfg: Config, run: seq<Event>, e: Event, t: nat, a: nat)
    ensures var longer, asked, made := run + [e], Asks(cfg, e, t), Allocated(cfg, run, e);
            && Requested(cfg, longer, t) ==
               (if asked.Some? then asked else if Settles(run, e, t) then None else Requested(cfg, run, t))
            && (InMemalign(longer, t) <==> if e.MemalignEnter? && e.tid == t then true
                                           else if e.MemalignExit? && e.tid == t then false else InMemalign(run, t))
            && Live(cfg, longer, a) ==
               if made.Some? && made.value.0 == a then Some(made.value.1)
               else if Returned(cfg, e, a) then None else Live(cfg, run, a)
  {
    hide Asks, Settles, Allocated, Returned;
    assert (run + [e])[..|run|] == run;
  }

  lemma StepTells(cfg: Config, run: seq<Event>, s: State, e: Event)
    requires Tells(cfg, run, s) && Roomy(s)
    ensures Tells(cfg, run + [e], Step(cfg, s, e))
  {
    hide Step, Asks, Settles, Allocated, Ends, Makes, Returned, Requested, InMemalign, Live, Roomy, At;
    var s', longer := Step(cfg, s, e), run + [e];
    forall t: nat ensures At(s'.sizes, t) == Requested(cfg, longer, t) && (t in s'.memptrs <==> InMemalign(longer, t)) {
      StepAt(cfg, s, e, t, 0);
      HistoryLast(cfg, run, e, t, 0);
      MapsForHistory(cfg, run, s, e, t);
    }
    forall a: nat ensures At(s'.allocs, a) == Live(cfg, longer, a) {
      StepAt(cfg, s, e, 0, a);
      HistoryLast(cfg, run, e, 0, a);
      MapsForHistory(cfg, run, s, e, 0);
    }
  }

  ghost predicate RoomyRun(cfg: Config, run: seq<Event>) {
    forall n | 0 <= n < |run| :: Roomy(Run(cfg, run[..n]))
  }

  lemma {:induction false} RunTells(cfg: Config, run: seq<Event>)
    requires RoomyRun(cfg, run)
    ensures Tells(cfg, run, Run(cfg, run))
  {
    if run != [] {
      hide Tells, Step, Roomy;
      var before, e := run[..|run| - 1], run[|run| - 1];
      assert forall n | 0 <= n < |before| :: before[..n] == run[..n];
      RunTells(cfg, before);
      assert run == before + [e];
      StepTells(cfg, before, Run(cfg, before), e);
    }
  }

  /** Over every run in which no map is full the table is exactly the live allocations of the
      history: each address that was allocated and not given back since, with the size, time
      and stack of its last allocation. Addresses may be reused. */
  lemma TableIsLive(cfg: Config, run: seq<Event>, address: nat)
    requires RoomyRun(cfg, run)
    ensures address in Run(cfg, run).allocs <==> Live(cfg, run, address).Some?
    ensures address in Run(cfg, run).allocs ==> Run(cfg, run).allocs[address] == Live(cfg, run, address).value
  {
    hide Live, Run;
    RunTells(cfg, run);
    assert At(Run(cfg, run).allocs, address) == Live(cfg, run, address);
  }

  /** In particular what is freed is gone, whatever came before. */
  lemma FreedIsGone(cfg: Config, run: seq<Event>, address: nat)
    requires RoomyRun(cfg, run + [Free(address)])
    ensures address !in Run(cfg, run + [Free(address)]).allocs
  {
    TableIsLive(cfg, run + [Free(address)], address);
    HistoryLast(cfg, run, Free(address), 0, address);
  }
}
