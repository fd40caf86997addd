/** futexctn loses no call: what the counters of a histogram say, against the calls started,
    under every interleaving. */
module FutexctnCounts {
  import opened BpfMap
  import opened Sums
  import opened Futexctn

  // ----- Counters against the operations on the cell -----

  /** The deltas counted in a slot, in order. */
  function Recorded(log: seq<Exit>): seq<nat> {
    if log == [] then []
    else
      var before, e := Recorded(log[..|log| - 1]), log[|log| - 1];
      if e.stage.Got? then before + [e.delta] else before
  }

  function InSlot(ds: seq<nat>, k: nat): nat {
    if ds == [] then 0 else InSlot(ds[..|ds| - 1], k) + if SlotOf(ds[|ds| - 1]) == k then 1 else 0
  }

  lemma InSlotLast(ds: seq<nat>, d: nat, k: nat)
    ensures InSlot(ds + [d], k) == InSlot(ds, k) + if SlotOf(d) == k then 1 else 0
  {
    assert (ds + [d])[..|ds|] == ds;
  }

  /** The three things a call adds to. */
  datatype Tally = Slots | Count | Time

  function Weight(t: Tally, delta: nat): nat {
    if t.Time? then delta else 1
  }

  /** The operation that makes the addition. */
  predicate Books(t: Tally, stage: Stage) {
    match t case Slots => stage.Got? case Count => stage.Slotted? case Time => stage.Counted?
  }

  /** The addition is still to come. */
  predicate Due(t: Tally, stage: Stage) {
    match stage
    case Missed => true
    case Tried => true
    case Got => true
    case Slotted => !t.Slots?
    case Counted => t.Time?
    case _ => false
  }

  function Booked(log: seq<Exit>, t: Tally): nat {
    if log == [] then 0
    else Booked(log[..|log| - 1], t) + if Books(t, log[|log| - 1].stage) then Weight(t, log[|log| - 1].delta) else 0
  }

  lemma BookedLast(log: seq<Exit>, e: Exit, t: Tally)
    ensures Booked(log + [e], t) == Booked(log, t) + if Books(t, e.stage) then Weight(t, e.delta) else 0
  {
    assert (log + [e])[..|log|] == log;
  }

  lemma {:induction false} RecordedAreBooked(log: seq<Exit>)
    ensures |Recorded(log)| == Booked(log, Slots)
  {
    if log != [] { RecordedAreBooked(log[..|log| - 1]); }
  }

  /** Each counter of a histogram is what was booked, modulo its width. */
  ghost predicate Tallied(h: Hist, log: seq<Exit>) {
    && |h.slots| == MAX_SLOTS
    && (forall k | 0 <= k < MAX_SLOTS :: h.slots[k] == InSlot(Recorded(log), k) % U32)
    && h.contended == Booked(log, Count) % U64 && h.total == Booked(log, Time) % U64
  }

  lemma RecordedLast(log: seq<Exit>, e: Exit)
    ensures Recorded(log + [e]) == if e.stage.Got? then Recorded(log) + [e.delta] else Recorded(log)
  {
    assert (log + [e])[..|log|] == log;
  }

  lemma SlotsTallied(h: Hist, log: seq<Exit>, e: Exit, k: nat)
    requires Tallied(h, log) && k < MAX_SLOTS
    ensures Touch(h, e).0.slots[k] == InSlot(Recorded(log + [e]), k) % U32
  {
    hide SlotOf, InSlot, Booked, Recorded;
    RecordedLast(log, e);
    InSlotLast(Recorded(log), e.delta, k);
  }

  lemma TouchTallies(h: Hist, log: seq<Exit>, e: Exit)
    requires Tallied(h, log)
    ensures Tallied(Touch(h, e).0, log + [e])
  {
    hide SlotOf, InSlot, Booked, Recorded;
    BookedLast(log, e, Count);
    BookedLast(log, e, Time);
    forall k: nat | k < MAX_SLOTS ensures Touch(h, e).0.slots[k] == InSlot(Recorded(log + [e]), k) % U32 {
      SlotsTallied(h, log, e, k);
    }
  }

  lemma {:induction false} ReplayTallies(log: seq<Exit>)
    ensures Tallied(Replay(log), log)
  {
    if log != [] {
      hide Tallied, Touch;
      var before, e := log[..|log| - 1], log[|log| - 1];
      ReplayTallies(before);
      TouchTallies(Replay(before), before, e);
      assert log == before + [e];
    }
  }

  /** The slots of a histogram added up. */
  function SlotSum(slots: seq<nat>, n: nat): nat
    requires n <= |slots|
  {
    if n == 0 then 0 else SlotSum(slots, n - 1) + slots[n - 1]
  }

  function Below(ds: seq<nat>, n: nat): nat {
    if ds == [] then 0 else Below(ds[..|ds| - 1], n) + if SlotOf(ds[|ds| - 1]) < n then 1 else 0
  }

  lemma {:induction false} BelowSplits(ds: seq<nat>, n: nat)
    ensures Below(ds, n + 1) == Below(ds, n) + InSlot(ds, n)
    ensures Below(ds, 0) == 0 && Below(ds, MAX_SLOTS) == |ds| && InSlot(ds, n) <= |ds|
  {
    if ds != [] { BelowSplits(ds[..|ds| - 1], n); }
  }

  lemma {:induction false} SlotsAddUp(h: Hist, log: seq<Exit>, n: nat)
    requires Tallied(h, log) && |Recorded(log)| < U32 && n <= MAX_SLOTS
    ensures SlotSum(h.slots, n) == Below(Recorded(log), n)
  {
    hide Below, InSlot;
    BelowSplits(Recorded(log), 0);
    if n > 0 {
      SlotsAddUp(h, log, n - 1);
      BelowSplits(Recorded(log), n - 1);
    }
  }

  // ----- Calls against additions -----

  /** What the calls of `key` that were started bring. */
  function Started(run: seq<Move>, key: nat, t: Tally): nat {
    if run == [] then 0
    else Started(run[..|run| - 1], key, t) + StartedBy(Run(run[..|run| - 1]), run[|run| - 1], key, t)
  }

  function StartedBy(s: State, m: Move, key: nat, t: Tally): nat {
    if m.cpu !in s.exits && m.key == key then Weight(t, m.delta) else 0
  }

  /** What the calls of `key` given up at a full map would have brought. */
  function Refused(run: seq<Move>, key: nat, t: Tally): nat {
    if run == [] then 0
    else Refused(run[..|run| - 1], key, t) + RefusedBy(Run(run[..|run| - 1]), run[|run| - 1], key, t)
  }

  function RefusedBy(s: State, m: Move, key: nat, t: Tally): nat {
    if m.cpu in s.exits && s.exits[m.cpu].key == key && Refuses(s, s.exits[m.cpu]) then Weight(t, s.exits[m.cpu].delta)
    else 0
  }

  /** What a call of `key` in progress is still to add. */
  ghost function Pending(key: nat, t: Tally): Exit -> int {
    (e: Exit) => if e.key == key && Due(t, e.stage) then Weight(t, e.delta) else 0
  }

  /** The operations on the cell of a key, none if it has no cell. */
  function KeyLog(run: seq<Move>, key: nat): seq<Exit> {
    var s := Run(run);
    if key in s.table then Log(run, s.table[key]) else []
  }

  function BookedBy(s: State, m: Move, key: nat, t: Tally): nat {
    if m.cpu in s.exits && s.exits[m.cpu].Holds() && s.exits[m.cpu].key == key && Books(t, s.exits[m.cpu].stage)
    then Weight(t, s.exits[m.cpu].delta) else 0
  }

  /** The exits after a step: at most the one of the moving CPU changes. */
  lemma StepSum(s: State, m: Move, key: nat, t: Tally)
    requires WellFormed(s)
    ensures SumBy(Step(s, m).exits, Pending(key, t)) + RefusedBy(s, m, key, t) + BookedBy(s, m, key, t)
         == SumBy(s.exits, Pending(key, t)) + StartedBy(s, m, key, t)
  {
    hide SumBy, Rooted, NewHist, SlotOf;
    var f, s' := Pending(key, t), Step(s, m);
    if m.cpu in s.exits { assert Sited(s, s.exits[m.cpu]); }
    StepExits(s, m);
    if m.cpu in s'.exits {
      SumUpdate(s.exits, f, m.cpu, s'.exits[m.cpu]);
      StepWeighs(s, m, key, t);
    } else {
      SumDrop(s.exits, f, m.cpu);
      StepWeighs(s, m, key, t);
    }
  }

  lemma StepExits(s: State, m: Move)
    requires WellFormed(s)
    ensures var after := Step(s, m).exits;
            after == if m.cpu in after then s.exits[m.cpu := after[m.cpu]] else s.exits - {m.cpu}
  {
    hide NewHist, SlotOf, Rooted;
    if m.cpu in s.exits { assert Sited(s, s.exits[m.cpu]); }
  }

  /** What the call of the moving CPU is still to add, before and after. */
  lemma StepWeighs(s: State, m: Move, key: nat, t: Tally)
    requires WellFormed(s)
    ensures var f, after := Pending(key, t), Step(s, m).exits;
            (if m.cpu in after then f(after[m.cpu]) else 0) + RefusedBy(s, m, key, t) + BookedBy(s, m, key, t)
            == (if m.cpu in s.exits then f(s.exits[m.cpu]) else 0) + StartedBy(s, m, key, t)
  {
    hide NewHist, SlotOf, Rooted;
    if m.cpu in s.exits { assert Sited(s, s.exits[m.cpu]); }
  }

  /** A step adds to the log of a key what the CPU that moves does to the key's cell. */
  lemma KeyLogStep(run: seq<Move>, m: Move, key: nat)
    ensures var s := Run(run);
            KeyLog(run + [m], key) == KeyLog(run, key) +
            if m.cpu in s.exits && s.exits[m.cpu].Holds() && s.exits[m.cpu].key == key then [s.exits[m.cpu]] else []
  {
    var s, longer := Run(run), run + [m];
    assert longer[..|run|] == run;
    var s' := Run(longer);
    StepMoves(s, m);
    if m.cpu in s.exits { assert Sited(s, s.exits[m.cpu]); }
    if key in s'.table {
      var c := s'.table[key];
      CellIsReplay(run, c);
      assert Log(longer, c) == Log(run, c) + Toucher(s, m, c);
    }
  }

  /** What was started was booked on the cell of its key, is still to be booked, or was refused. */
  ghost predicate Conserved(run: seq<Move>, key: nat, t: Tally) {
    Started(run, key, t) == Booked(KeyLog(run, key), t) + SumBy(Run(run).exits, Pending(key, t)) + Refused(run, key, t)
  }

  lemma RunLast(run: seq<Move>, m: Move, key: nat, t: Tally)
    ensures Run(run + [m]) == Step(Run(run), m)
    ensures Started(run + [m], key, t) == Started(run, key, t) + StartedBy(Run(run), m, key, t)
    ensures Refused(run + [m], key, t) == Refused(run, key, t) + RefusedBy(Run(run), m, key, t)
  {
    hide Step, StartedBy, RefusedBy, WellFormed;
    assert (run + [m])[..|run|] == run;
  }

  lemma ConservedAtFirst(key: nat, t: Tally)
    ensures Conserved([], key, t)
  {
    assert Run([]).exits == map[];
  }

  lemma ConservedStep(run: seq<Move>, m: Move, key: nat, t: Tally)
    requires Conserved(run, key, t)
    ensures Conserved(run + [m], key, t)
  {
    hide Step, SumBy, WellFormed, Booked, KeyLog, Pending, Run, Started, Refused, StartedBy, RefusedBy, BookedBy;
    RunLast(run, m, key, t);
    StepSum(Run(run), m, key, t);
    KeyLogStep(run, m, key);
    BookedStep(KeyLog(run, key), Run(run), m, key, t);
  }

  lemma {:induction false} CallsAreConserved(run: seq<Move>, key: nat, t: Tally)
    ensures Conserved(run, key, t)
  {
    hide Conserved;
    if run == [] {
      ConservedAtFirst(key, t);
    } else {
      var before, m := run[..|run| - 1], run[|run| - 1];
      CallsAreConserved(before, key, t);
      ConservedStep(before, m, key, t);
      assert run == before + [m];
    }
  }

  lemma BookedStep(log: seq<Exit>, s: State, m: Move, key: nat, t: Tally)
    ensures var es := if m.cpu in s.exits && s.exits[m.cpu].Holds() && s.exits[m.cpu].key == key then [s.exits[m.cpu]] else [];
            Booked(log + es, t) == Booked(log, t) + BookedBy(s, m, key, t)
  {
    if m.cpu in s.exits && s.exits[m.cpu].Holds() && s.exits[m.cpu].key == key {
      BookedLast(log, s.exits[m.cpu], t);
    } else {
      assert log + [] == log;
    }
  }

  /** Nothing is refused before the map is full. */
  lemma {:induction false} RefusedOnlyWhenFull(run: seq<Move>, key: nat, t: Tally)
    requires |Run(run).table| < MAX_ENTRIES
    ensures Refused(run, key, t) == 0
  {
    if run != [] {
      var before, m := run[..|run| - 1], run[|run| - 1];
      StepMoves(Run(before), m);
      hide Step, Weight;
      RefusedOnlyWhenFull(before, key, t);
    }
  }

  /** Under every interleaving, for every key that has a histogram: each counter is what all the
      calls started for the key bring, without those still to make that addition and those
      refused by a full map, modulo its width. A key without a histogram has only such calls. */
  lemma EveryCallIsCounted(run: seq<Move>, key: nat)
    ensures var s := Run(run);
            && (key in s.table ==>
                  && s.table[key] in s.cells
                  && var h := s.cells[s.table[key]];
                     && h.contended == (Started(run, key, Count) - SumBy(s.exits, Pending(key, Count)) - Refused(run, key, Count)) % U64
                     && h.total == (Started(run, key, Time) - SumBy(s.exits, Pending(key, Time)) - Refused(run, key, Time)) % U64)
            && (key !in s.table ==>
                  forall t: Tally :: Started(run, key, t) == SumBy(s.exits, Pending(key, t)) + Refused(run, key, t))
  {
    var s := Run(run);
    hide Run, SumBy, Started, Refused, Pending, Replay;
    CallsAreConserved(run, key, Count);
    CallsAreConserved(run, key, Time);
    if key in s.table {
      assert s.table[key] in s.cells;
      CellIsReplay(run, s.table[key]);
      ReplayTallies(Log(run, s.table[key]));
    } else {
      forall t: Tally ensures Started(run, key, t) == SumBy(s.exits, Pending(key, t)) + Refused(run, key, t) {
        CallsAreConserved(run, key, t);
      }
    }
  }

  /** Exits of a key between the slot add and the count add. */
  ghost function Between(key: nat): Exit -> int {
    (e: Exit) => if e.stage.Slotted? && e.key == key then 1 else 0
  }

  lemma CellOf(run: seq<Move>, key: nat)
    requires key in Run(run).table
    ensures var s := Run(run); s.table[key] in s.cells && Tallied(s.cells[s.table[key]], KeyLog(run, key))
  {
    hide Run, Replay;
    var s := Run(run);
    assert s.table[key] in s.cells;
    CellIsReplay(run, s.table[key]);
    ReplayTallies(Log(run, s.table[key]));
  }

  /** Under every interleaving, while no counter wraps: the slots of a histogram add up to
      `contended` plus the number of exits between those two adds, and to the calls started
      without those not yet counted in a slot and those refused. */
  lemma SlotsExceedCountByInFlight(run: seq<Move>, key: nat)
    requires key in Run(run).table && Started(run, key, Slots) < U32
    ensures var s := Run(run);
            && s.table[key] in s.cells && |s.cells[s.table[key]].slots| == MAX_SLOTS
            && var h := s.cells[s.table[key]];
               && SlotSum(h.slots, MAX_SLOTS) - h.contended == SumBy(s.exits, Between(key))
               && SlotSum(h.slots, MAX_SLOTS)
                  == Started(run, key, Slots) - SumBy(s.exits, Pending(key, Slots)) - Refused(run, key, Slots)
  {
    hide Run, SumBy, Refused, Replay, Booked, SlotSum, KeyLog, Recorded, Started, Pending, Between;
    var s, log := Run(run), KeyLog(run, key);
    CellOf(run, key);
    CallsAreConserved(run, key, Slots);
    CallsAreConserved(run, key, Count);
    StartedAlike(run, key);
    PendingSums(s.exits, key);
    SlotsAreBooked(s.cells[s.table[key]], log);
  }

  lemma PendingSums(exits: map<nat, Exit>, key: nat)
    ensures SumBy(exits, Pending(key, Count)) - SumBy(exits, Pending(key, Slots)) == SumBy(exits, Between(key))
    ensures SumBy(exits, Pending(key, Slots)) >= 0 && SumBy(exits, Pending(key, Count)) >= 0
  {
    hide SumBy;
    SumDifference(exits, Pending(key, Count), Pending(key, Slots), Between(key));
    SumNonNegative(exits, Pending(key, Slots));
    SumNonNegative(exits, Pending(key, Count));
  }

  lemma SlotsAreBooked(h: Hist, log: seq<Exit>)
    requires Tallied(h, log) && Booked(log, Slots) < U32
    ensures SlotSum(h.slots, MAX_SLOTS) == Booked(log, Slots) && h.contended == Booked(log, Count) % U64
  {
    hide Booked, Below, InSlot, SlotSum, Recorded;
    RecordedAreBooked(log);
    BelowSplits(Recorded(log), 0);
    SlotsAddUp(h, log, MAX_SLOTS);
  }

  lemma {:induction false} StartedAlike(run: seq<Move>, key: nat)
    ensures Started(run, key, Count) == Started(run, key, Slots) && Refused(run, key, Count) == Refused(run, key, Slots)
  {
    if run != [] { StartedAlike(run[..|run| - 1], key); }
  }

  /** When all CPUs are idle and the map has never been full, nothing is missing at all: slots and
      count are the calls started for the key, and the total is the sum of their deltas. */
  lemma NothingLostWhenIdle(run: seq<Move>, key: nat)
    requires key in Run(run).table && Run(run).exits == map[] && |Run(run).table| < MAX_ENTRIES
    requires Started(run, key, Slots) < U32 && Started(run, key, Time) < U64
    ensures var s := Run(run);
            && s.table[key] in s.cells && |s.cells[s.table[key]].slots| == MAX_SLOTS
            && var h := s.cells[s.table[key]];
               && SlotSum(h.slots, MAX_SLOTS) == h.contended == Started(run, key, Count)
               && h.total == Started(run, key, Time)
  {
    hide Run, Started, Refused, SlotSum;
    SlotsExceedCountByInFlight(run, key);
    EveryCallIsCounted(run, key);
    StartedAlike(run, key);
    RefusedOnlyWhenFull(run, key, Slots);
    RefusedOnlyWhenFull(run, key, Time);
  }
}
