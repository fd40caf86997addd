/** The minimum and maximum that futexctn keeps with one compare-and-swap each: what they are
    under every interleaving, and exactly when a delta is lost. */
module FutexctnExtremes {
  import opened BpfMap
  import opened Futexctn
  import opened FutexctnCounts

  // ----- Swaps -----

  /** How an exit fared with its maximum or minimum: it is lost if it wanted to swap and found
      another value than the one it had read. */
  datatype Swap = Swap(delta: nat, lost: bool)

  function Swapped(h: Hist, e: Exit, max: bool): seq<Swap> {
    if max && e.stage.MaxRead? then [Swap(e.delta, e.stage.seen < e.delta && h.max != e.stage.seen)]
    else if !max && e.stage.MinRead? then
      [Swap(e.delta, (e.stage.seen == 0 || e.stage.seen > e.delta) && h.min != e.stage.seen)]
    else []
  }

  /** The swaps among the operations on a cell. */
  function Swaps(log: seq<Exit>, max: bool): seq<Swap> {
    if log == [] then []
    else Swaps(log[..|log| - 1], max) + Swapped(Replay(log[..|log| - 1]), log[|log| - 1], max)
  }

  /** The maximum is the largest delta not lost, 0 if there is none. */
  predicate IsMax(x: nat, swaps: seq<Swap>) {
    (x == 0 || Swap(x, false) in swaps) && forall i | 0 <= i < |swaps| && !swaps[i].lost :: swaps[i].delta <= x
  }

  /** The minimum is the smallest delta not lost, 0 if there is none. */
  predicate IsMin(x: nat, swaps: seq<Swap>) {
    (x == 0 || Swap(x, false) in swaps) && forall i | 0 <= i < |swaps| && !swaps[i].lost :: 0 < x <= swaps[i].delta
  }

  /** `pos` says that all deltas are positive; a minimum of 0 reads as none. */
  ghost predicate Settled(log: seq<Exit>, pos: bool) {
    IsMax(Replay(log).max, Swaps(log, true)) && (pos ==> IsMin(Replay(log).min, Swaps(log, false)))
  }

  /** What an exit has read is still a bound: the maximum has not fallen below it, nor a
      non-zero minimum risen above it. */
  ghost predicate Informed(h: Hist, recorded: seq<nat>, e: Exit, pos: bool) {
    && (e.Holds() && !e.stage.Got? ==> e.delta in recorded)
    && (e.stage.MaxRead? ==> e.stage.seen <= h.max)
    && (pos ==> e.delta > 0 && (e.stage.MinRead? && e.stage.seen != 0 ==> 0 < h.min <= e.stage.seen))
  }

  /** How a cell may change. */
  ghost predicate Monotone(h: Hist, h': Hist, pos: bool) {
    h.max <= h'.max && (pos && h.min > 0 ==> 0 < h'.min <= h.min)
  }

  /** The swap step leaves the maximum at or above the delta exactly if it is still the one read,
      or already that high. */
  lemma MaxSwapIff(h: Hist, e: Exit)
    requires |h.slots| == MAX_SLOTS && e.stage.MaxRead? && e.stage.seen <= h.max
    ensures Touch(h, e).0.max >= e.delta <==> h.max == e.stage.seen || h.max >= e.delta
    ensures Touch(h, e).0.max >= e.delta || Swapped(h, e, true) == [Swap(e.delta, true)]
  {
  }

  /** And the minimum at or below it exactly if it is still the one read, or already that low. */
  lemma MinSwapIff(h: Hist, e: Exit)
    requires |h.slots| == MAX_SLOTS && e.stage.MinRead? && e.delta > 0
    requires e.stage.seen != 0 ==> 0 < h.min <= e.stage.seen
    ensures var x := Touch(h, e).0.min; 0 < x <= e.delta <==> h.min == e.stage.seen || 0 < h.min <= e.delta
    ensures 0 < Touch(h, e).0.min <= e.delta || Swapped(h, e, false) == [Swap(e.delta, true)]
  {
  }

  lemma MaxLast(x: nat, swaps: seq<Swap>, w: Swap)
    requires IsMax(x, swaps)
    ensures IsMax(if w.lost || w.delta <= x then x else w.delta, swaps + [w])
  {
    var after := swaps + [w];
    assert after[|swaps|] == w && forall y | y in swaps :: y in after;
  }

  lemma MinLast(x: nat, swaps: seq<Swap>, w: Swap)
    requires IsMin(x, swaps) && w.delta > 0
    ensures IsMin(if w.lost || 0 < x <= w.delta then x else w.delta, swaps + [w])
  {
    var after := swaps + [w];
    assert after[|swaps|] == w && forall y | y in swaps :: y in after;
  }

  lemma SwapsLast(log: seq<Exit>, e: Exit, max: bool)
    ensures Swaps(log + [e], max) == Swaps(log, max) + Swapped(Replay(log), e, max)
  {
    assert (log + [e])[..|log|] == log;
  }

  lemma TouchSettles(log: seq<Exit>, e: Exit, pos: bool)
    requires Settled(log, pos) && Informed(Replay(log), Recorded(log), e, pos)
    ensures Settled(log + [e], pos)
  {
    hide SlotOf, IsMax, IsMin, Replay, Swaps, Recorded;
    ReplayLast(log, e);
    SwapsLast(log, e, true);
    SwapsLast(log, e, false);
    var h := Replay(log);
    NothingAdded(Swaps(log, true));
    NothingAdded(Swaps(log, false));
    if e.stage.MaxRead? {
      MaxLast(h.max, Swaps(log, true), Swapped(h, e, true)[0]);
    } else if e.stage.MinRead? && pos {
      MinLast(h.min, Swaps(log, false), Swapped(h, e, false)[0]);
    }
  }

  lemma NothingAdded(swaps: seq<Swap>)
    ensures swaps + [] == swaps
  {
  }

  lemma TouchInforms(h: Hist, recorded: seq<nat>, e: Exit, pos: bool)
    requires |h.slots| == MAX_SLOTS && e.Holds() && Informed(h, recorded, e, pos)
    ensures var r := Touch(h, e);
            && Monotone(h, r.0, pos)
            && (r.1.Some? ==>
                  Informed(r.0, if e.stage.Got? then recorded + [e.delta] else recorded, e.(stage := r.1.value), pos))
  {
    hide SlotOf;
  }

  lemma StaysInformed(h: Hist, ds: seq<nat>, h': Hist, ds': seq<nat>, e: Exit, pos: bool)
    requires Informed(h, ds, e, pos) && Monotone(h, h', pos) && forall d | d in ds :: d in ds'
    ensures Informed(h', ds', e, pos)
  {
  }

  // ----- Steps, seen from one cell -----

  /** Who holds cell `c` after a step: those who did, the CPU that just got it, and the CPU that
      just made an operation on it, one stage on. */
  lemma StepHolders(s: State, m: Move, c: nat, cpu: nat)
    requires WellFormed(s) && cpu in Step(s, m).exits && c in s.cells
    ensures var e' := Step(s, m).exits[cpu];
            e'.Holds() && e'.cell == c ==>
              if cpu != m.cpu then cpu in s.exits && s.exits[cpu] == e'
              else if Toucher(s, m, c) == [] then
                e'.stage.Got? && e'.delta == if cpu in s.exits then s.exits[cpu].delta else m.delta
              else
                var e := s.exits[cpu];
                |s.cells[c].slots| == MAX_SLOTS && Touch(s.cells[c], e).1.Some?
                && e' == e.(stage := Touch(s.cells[c], e).1.value)
  {
    hide NewHist, SlotOf;
    if m.cpu in s.exits { assert Sited(s, s.exits[m.cpu]); }
  }

  /** The other way round: nobody else lets go of it. */
  lemma HoldersStay(s: State, m: Move, c: nat, cpu: nat)
    requires WellFormed(s) && cpu in s.exits && s.exits[cpu].Holds() && s.exits[cpu].cell == c
    ensures c in s.cells && |s.cells[c].slots| == MAX_SLOTS
    ensures var e, s' := s.exits[cpu], Step(s, m);
            if cpu != m.cpu then cpu in s'.exits && s'.exits[cpu] == e
            else Toucher(s, m, c) == [e] &&
                 var stage := Touch(s.cells[c], e).1;
                 stage.Some? ==> cpu in s'.exits && s'.exits[cpu] == e.(stage := stage.value)
  {
    hide NewHist, SlotOf;
    assert Sited(s, s.exits[cpu]);
    if m.cpu in s.exits { assert Sited(s, s.exits[m.cpu]); }
  }

  // ----- Every run -----

  ghost predicate Positive(run: seq<Move>) {
    forall i | 0 <= i < |run| :: run[i].delta > 0
  }

  lemma {:induction false} ExitsPositive(run: seq<Move>)
    requires Positive(run)
    ensures forall cpu | cpu in Run(run).exits :: Run(run).exits[cpu].delta > 0
  {
    if run != [] {
      ExitsPositive(run[..|run| - 1]);
      StepKeepsPositive(Run(run[..|run| - 1]), run[|run| - 1]);
      hide Step;
    }
  }

  lemma StepKeepsPositive(s: State, m: Move)
    requires WellFormed(s) && m.delta > 0 && forall cpu | cpu in s.exits :: s.exits[cpu].delta > 0
    ensures forall cpu | cpu in Step(s, m).exits :: Step(s, m).exits[cpu].delta > 0
  {
    hide NewHist, SlotOf, Rooted;
    if m.cpu in s.exits { assert Sited(s, s.exits[m.cpu]); }
  }

  /** The extremes of cell `c` are settled and all that hold it are informed. */
  ghost predicate Right(s: State, c: nat, log: seq<Exit>, pos: bool) {
    && Settled(log, pos) && SwapsRecorded(log, true) && SwapsRecorded(log, false)
    && forall cpu | cpu in s.exits :: HolderInformed(s.exits[cpu], c, log, pos)
  }

  /** Whatever was swapped was recorded in a slot before. */
  ghost predicate SwapsRecorded(log: seq<Exit>, max: bool) {
    forall w | w in Swaps(log, max) :: w.delta in Recorded(log)
  }

  lemma TouchRecords(log: seq<Exit>, e: Exit, max: bool)
    requires SwapsRecorded(log, max) && e.Holds() && (!e.stage.Got? ==> e.delta in Recorded(log))
    ensures SwapsRecorded(log + [e], max)
  {
    hide Swaps, Recorded, Replay;
    SwapsLast(log, e, max);
    RecordedLast(log, e);
  }

  ghost predicate HolderInformed(e: Exit, c: nat, log: seq<Exit>, pos: bool) {
    e.Holds() && e.cell == c ==> Informed(Replay(log), Recorded(log), e, pos)
  }

  lemma LogLast(run: seq<Move>, m: Move, c: nat)
    ensures Run(run + [m]) == Step(Run(run), m)
    ensures Log(run + [m], c) == Log(run, c) + Toucher(Run(run), m, c)
  {
    hide Step, Toucher, WellFormed;
    assert (run + [m])[..|run|] == run;
  }

  lemma RightStep(run: seq<Move>, m: Move, c: nat, pos: bool)
    requires Right(Run(run), c, Log(run, c), pos)
    requires pos ==> Positive(run + [m])
    ensures Right(Run(run + [m]), c, Log(run + [m], c), pos)
    ensures Monotone(Replay(Log(run, c)), Replay(Log(run + [m], c)), pos)
  {
    hide Run, Log, Step, Settled, SwapsRecorded, Informed, Replay, Recorded, Monotone, Touch, WellFormed;
    LogLast(run, m, c);
    CellIsReplay(run, c);
    var s, log := Run(run), Log(run, c);
    if pos { ExitsPositive(run + [m]); }
    var es := Toucher(s, m, c);
    if es == [] {
      assert log + es == log;
      MonotoneSame(Replay(log), pos);
      forall cpu | cpu in Step(s, m).exits ensures HolderInformed(Step(s, m).exits[cpu], c, log, pos) {
        QuietHolder(run, m, c, cpu, pos);
      }
    } else {
      TouchRight(run, m, c, pos);
    }
  }

  lemma MonotoneSame(h: Hist, pos: bool)
    ensures Monotone(h, h, pos)
  {
  }

  lemma QuietHolder(run: seq<Move>, m: Move, c: nat, cpu: nat, pos: bool)
    requires Right(Run(run), c, Log(run, c), pos) && Toucher(Run(run), m, c) == []
    requires cpu in Step(Run(run), m).exits && (pos ==> Step(Run(run), m).exits[cpu].delta > 0)
    ensures HolderInformed(Step(Run(run), m).exits[cpu], c, Log(run, c), pos)
  {
    hide Run, Log, Settled, SwapsRecorded, Replay, Recorded, Touch;
    var s := Run(run);
    if c in s.cells {
      StepHolders(s, m, c, cpu);
      assert cpu in s.exits ==> HolderInformed(s.exits[cpu], c, Log(run, c), pos);
    } else {
      NewCellUnheld(s, m, c, cpu);
    }
  }

  /** A cell that does not exist yet is held by nobody after the step either. */
  lemma NewCellUnheld(s: State, m: Move, c: nat, cpu: nat)
    requires WellFormed(s) && c !in s.cells && cpu in Step(s, m).exits
    ensures !(Step(s, m).exits[cpu].Holds() && Step(s, m).exits[cpu].cell == c)
  {
    hide NewHist, SlotOf;
    if m.cpu in s.exits { assert Sited(s, s.exits[m.cpu]); }
    if cpu in s.exits { assert Sited(s, s.exits[cpu]); }
  }

  lemma TouchRight(run: seq<Move>, m: Move, c: nat, pos: bool)
    requires Right(Run(run), c, Log(run, c), pos) && Toucher(Run(run), m, c) != []
    ensures Right(Step(Run(run), m), c, Log(run, c) + Toucher(Run(run), m, c), pos)
    ensures Monotone(Replay(Log(run, c)), Replay(Log(run, c) + Toucher(Run(run), m, c)), pos)
  {
    var s, log := Run(run), Log(run, c);
    var e := s.exits[m.cpu];
    hide Run, Log, Step, Settled, SwapsRecorded, Replay, Recorded, Touch, WellFormed, Informed, Monotone;
    HoldersStay(s, m, c, m.cpu);
    CellIsReplay(run, c);
    assert HolderInformed(e, c, log, pos);
    InformedIsRecorded(Replay(log), Recorded(log), e, pos);
    TouchRecords(log, e, true);
    TouchRecords(log, e, false);
    TouchSettles(log, e, pos);
    TouchInforms(Replay(log), Recorded(log), e, pos);
    ReplayLast(log, e);
    RecordedLast(log, e);
    forall cpu | cpu in Step(s, m).exits ensures HolderInformed(Step(s, m).exits[cpu], c, log + [e], pos) {
      StepHolders(s, m, c, cpu);
      if cpu != m.cpu && cpu in s.exits && s.exits[cpu].Holds() && s.exits[cpu].cell == c {
        assert HolderInformed(s.exits[cpu], c, log, pos);
        StaysInformed(Replay(log), Recorded(log), Replay(log + [e]), Recorded(log + [e]), s.exits[cpu], pos);
      }
    }
  }

  lemma InformedIsRecorded(h: Hist, recorded: seq<nat>, e: Exit, pos: bool)
    requires Informed(h, recorded, e, pos) && e.Holds()
    ensures !e.stage.Got? ==> e.delta in recorded
  {
  }

  lemma RightAtFirst(c: nat, pos: bool)
    ensures Right(Run([]), c, Log([], c), pos)
  {
  }

  lemma {:induction false} RunRight(run: seq<Move>, c: nat, pos: bool)
    requires pos ==> Positive(run)
    ensures Right(Run(run), c, Log(run, c), pos)
  {
    hide Right, Run, Log;
    if run == [] {
      RightAtFirst(c, pos);
    } else {
      var before, m := run[..|run| - 1], run[|run| - 1];
      RunRight(before, c, pos);
      assert run == before + [m];
      RightStep(before, m, c, pos);
    }
  }

  /** Under every interleaving the maximum of a cell is the largest delta whose swap did not find
      it changed, and with positive deltas the minimum is the smallest: a delta that counts
      for less was lost in its one swap. */
  lemma ExtremesUnlessLost(run: seq<Move>, c: nat, pos: bool)
    requires c in Run(run).cells && (pos ==> Positive(run))
    ensures IsMax(Run(run).cells[c].max, Swaps(Log(run, c), true))
    ensures pos ==> IsMin(Run(run).cells[c].min, Swaps(Log(run, c), false))
    ensures SwapsRecorded(Log(run, c), true) && SwapsRecorded(Log(run, c), false)
  {
    hide Run, Log, Swaps, IsMax, IsMin, SwapsRecorded;
    RunRight(run, c, pos);
    CellIsReplay(run, c);
  }

  lemma {:induction false} LogMonotone(run: seq<Move>, n: nat, c: nat, pos: bool)
    requires n <= |run| && (pos ==> Positive(run))
    ensures Monotone(Replay(Log(run[..n], c)), Replay(Log(run, c)), pos)
  {
    if n == |run| {
      assert run[..n] == run;
    } else {
      hide Right, Run, Log, Replay;
      var before, m := run[..|run| - 1], run[|run| - 1];
      assert before[..n] == run[..n] && run == before + [m];
      LogMonotone(before, n, c, pos);
      RunRight(before, c, pos);
      RightStep(before, m, c, pos);
    }
  }

  /** Under every interleaving the maximum never falls, and is 0 or a delta recorded on that cell;
      if all deltas are positive, a non-zero minimum never rises, and is one too. */
  lemma ExtremesNeverGoBack(run: seq<Move>, n: nat, c: nat, pos: bool)
    requires n <= |run| && c in Run(run[..n]).cells && (pos ==> Positive(run))
    ensures c in Run(run).cells
    ensures var h, h', recorded := Run(run[..n]).cells[c], Run(run).cells[c], Recorded(Log(run, c));
            && h.max <= h'.max && (h'.max == 0 || h'.max in recorded)
            && (pos ==> h'.min == 0 || h'.min in recorded) && (pos && h.min > 0 ==> 0 < h'.min <= h.min)
  {
    hide Run, Log, Replay, Swaps, Recorded;
    RunExtends(run, n);
    LogMonotone(run, n, c, pos);
    CellIsReplay(run[..n], c);
    CellIsReplay(run, c);
    ExtremesUnlessLost(run, c, pos);
  }

  // ----- When nothing is lost -----

  predicate Reads(e: Exit, c: nat, max: bool) {
    e.Holds() && e.cell == c && if max then e.stage.MaxRead? else e.stage.MinRead?
  }

  /** At most one exit is between reading the maximum of a cell and swapping it, and at most one
      between reading and swapping the minimum. */
  ghost predicate Alone(s: State, c: nat, max: bool) {
    forall a, b | a in s.exits && b in s.exits && Reads(s.exits[a], c, max) && Reads(s.exits[b], c, max) :: a == b
  }

  /** No two exits of the run overlap there. */
  ghost predicate NeverOverlap(run: seq<Move>, c: nat, max: bool) {
    forall n | 0 <= n <= |run| :: Alone(Run(run[..n]), c, max)
  }

  function Extreme(h: Hist, max: bool): nat {
    if max then h.max else h.min
  }

  /** What was read is still there. */
  ghost predicate Steady(s: State, c: nat, h: Hist, max: bool) {
    forall cpu | cpu in s.exits && Reads(s.exits[cpu], c, max) :: s.exits[cpu].stage.seen == Extreme(h, max)
  }

  ghost predicate NoneLost(log: seq<Exit>, max: bool) {
    forall w | w in Swaps(log, max) :: !w.lost
  }

  lemma TouchSteady(h: Hist, e: Exit, max: bool)
    requires |h.slots| == MAX_SLOTS && e.Holds()
    ensures var r := Touch(h, e);
            && (!(if max then e.stage.MaxRead? else e.stage.MinRead?) ==> Extreme(r.0, max) == Extreme(h, max))
            && (r.1.Some? && Reads(e.(stage := r.1.value), e.cell, max) ==> r.1.value.seen == Extreme(r.0, max))
  {
    hide SlotOf;
  }

  lemma SteadyStep(run: seq<Move>, m: Move, c: nat, max: bool)
    requires var s, h := Run(run), Replay(Log(run, c)); Alone(s, c, max) && Steady(s, c, h, max) && NoneLost(Log(run, c), max)
    ensures Steady(Run(run + [m]), c, Replay(Log(run + [m], c)), max) && NoneLost(Log(run + [m], c), max)
  {
    var s, log := Run(run), Log(run, c);
    hide Run, Log, Step, Replay, Touch, WellFormed, Swaps;
    LogLast(run, m, c);
    CellIsReplay(run, c);
    var es := Toucher(s, m, c);
    if es == [] {
      assert log + es == log;
      forall cpu | cpu in Step(s, m).exits && Reads(Step(s, m).exits[cpu], c, max)
        ensures Step(s, m).exits[cpu].stage.seen == Extreme(Replay(log), max)
      {
        if c in s.cells { StepHolders(s, m, c, cpu); } else { NewCellUnheld(s, m, c, cpu); }
      }
    } else {
      var e := es[0];
      HoldersStay(s, m, c, m.cpu);
      ReplayLast(log, e);
      SwapsLast(log, e, max);
      TouchSteady(Replay(log), e, max);
      forall cpu | cpu in Step(s, m).exits && Reads(Step(s, m).exits[cpu], c, max)
        ensures Step(s, m).exits[cpu].stage.seen == Extreme(Replay(log + [e]), max)
      {
        StepHolders(s, m, c, cpu);
      }
    }
  }

  lemma SteadyAtFirst(c: nat, max: bool)
    ensures Steady(Run([]), c, Replay(Log([], c)), max) && NoneLost(Log([], c), max)
  {
  }

  lemma {:induction false} AloneLosesNone(run: seq<Move>, c: nat, max: bool)
    requires NeverOverlap(run, c, max)
    ensures Steady(Run(run), c, Replay(Log(run, c)), max) && NoneLost(Log(run, c), max)
  {
    hide Run, Log, Steady, NoneLost, Replay, Alone;
    if run == [] {
      SteadyAtFirst(c, max);
    } else {
      var before, m := run[..|run| - 1], run[|run| - 1];
      assert forall n | 0 <= n <= |before| :: before[..n] == run[..n];
      AloneLosesNone(before, c, max);
      assert run == before + [m] && before[..|before|] == before;
      SteadyStep(before, m, c, max);
    }
  }

  // ----- Every recorded delta gets to its swap -----

  ghost predicate Ended(log: seq<Exit>, max: bool, d: nat) {
    exists w :: w in Swaps(log, max) && w.delta == d
  }

  /** An exit that recorded delta `d` and has the swap still before it. */
  predicate Waits(e: Exit, c: nat, max: bool, d: nat) {
    && e.Holds() && e.cell == c && e.delta == d && !e.stage.Got?
    && (max || !(e.stage.MinDone? || e.stage.MaxRead?))
  }

  ghost predicate Coming(s: State, c: nat, max: bool, d: nat) {
    exists cpu :: cpu in s.exits && Waits(s.exits[cpu], c, max, d)
  }

  ghost predicate Followed(s: State, c: nat, log: seq<Exit>, max: bool) {
    forall d | d in Recorded(log) :: Ended(log, max, d) || Coming(s, c, max, d)
  }

  lemma TouchWaits(h: Hist, e: Exit, max: bool)
    requires |h.slots| == MAX_SLOTS && e.Holds() && (e.stage.Got? || Waits(e, e.cell, max, e.delta))
    ensures var r := Touch(h, e);
            || (Swapped(h, e, max) != [] && Swapped(h, e, max)[0].delta == e.delta)
            || (r.1.Some? && Waits(e.(stage := r.1.value), e.cell, max, e.delta))
  {
    hide SlotOf;
  }

  lemma EndedStays(log: seq<Exit>, e: Exit, max: bool, d: nat)
    requires Ended(log, max, d) || (Swapped(Replay(log), e, max) != [] && Swapped(Replay(log), e, max)[0].delta == d)
    ensures Ended(log + [e], max, d)
  {
    hide Replay, Swaps, Swapped;
    SwapsLast(log, e, max);
    var all, ws := Swaps(log + [e], max), Swapped(Replay(log), e, max);
    if Ended(log, max, d) {
      var w :| w in Swaps(log, max) && w.delta == d;
      assert w in all;
    } else {
      assert ws[0] in all;
    }
  }

  lemma ComingStays(s: State, m: Move, c: nat, max: bool, d: nat, log: seq<Exit>)
    requires WellFormed(s) && Coming(s, c, max, d) && (c in s.cells ==> s.cells[c] == Replay(log))
    ensures Coming(Step(s, m), c, max, d) || (Toucher(s, m, c) != [] && Ended(log + Toucher(s, m, c), max, d))
  {
    hide Replay, Step, Touch, WellFormed, Swapped, Ended;
    var cpu :| cpu in s.exits && Waits(s.exits[cpu], c, max, d);
    HoldersStay(s, m, c, cpu);
    if cpu == m.cpu {
      var e := s.exits[cpu];
      TouchWaits(s.cells[c], e, max);
      var r := Touch(s.cells[c], e);
      if r.1.Some? && Waits(e.(stage := r.1.value), c, max, d) {
        assert Waits(Step(s, m).exits[cpu], c, max, d);
      } else {
        EndedStays(log, e, max, d);
      }
    } else {
      assert Waits(Step(s, m).exits[cpu], c, max, d);
    }
  }

  lemma RecordedComes(s: State, m: Move, c: nat, max: bool)
    requires WellFormed(s) && Toucher(s, m, c) != [] && s.exits[m.cpu].stage.Got?
    ensures Coming(Step(s, m), c, max, s.exits[m.cpu].delta)
  {
    hide Step, WellFormed, SlotOf;
    HoldersStay(s, m, c, m.cpu);
    assert Waits(Step(s, m).exits[m.cpu], c, max, s.exits[m.cpu].delta);
  }

  lemma FollowedStep(run: seq<Move>, m: Move, c: nat, max: bool)
    requires Followed(Run(run), c, Log(run, c), max)
    ensures Followed(Run(run + [m]), c, Log(run + [m], c), max)
  {
    var s, log := Run(run), Log(run, c);
    hide Run, Log, Step, Replay, Touch, WellFormed, Ended, Coming, Recorded;
    LogLast(run, m, c);
    CellIsReplay(run, c);
    var es := Toucher(s, m, c);
    if es == [] { assert log + es == log; } else { RecordedLast(log, es[0]); }
    forall d | d in Recorded(log + es) ensures Ended(log + es, max, d) || Coming(Step(s, m), c, max, d) {
      if d in Recorded(log) {
        if Ended(log, max, d) {
          if es != [] { EndedStays(log, es[0], max, d); }
        } else {
          ComingStays(s, m, c, max, d, log);
        }
      } else {
        RecordedComes(s, m, c, max);
      }
    }
  }

  lemma FollowedAtFirst(c: nat, max: bool)
    ensures Followed(Run([]), c, Log([], c), max)
  {
  }

  lemma {:induction false} RunFollows(run: seq<Move>, c: nat, max: bool)
    ensures Followed(Run(run), c, Log(run, c), max)
  {
    hide Run, Log, Followed;
    if run == [] {
      FollowedAtFirst(c, max);
    } else {
      var before, m := run[..|run| - 1], run[|run| - 1];
      RunFollows(before, c, max);
      assert run == before + [m];
      FollowedStep(before, m, c, max);
    }
  }

  /** If no two exits of a cell overlap between reading its maximum and swapping it, then once
      nobody holds the cell the maximum is the largest of all recorded deltas. */
  lemma MaxExactWhenAlone(run: seq<Move>, c: nat)
    requires c in Run(run).cells && NeverOverlap(run, c, true)
    requires forall cpu | cpu in Run(run).exits :: !(Run(run).exits[cpu].Holds() && Run(run).exits[cpu].cell == c)
    ensures var max, ds := Run(run).cells[c].max, Recorded(Log(run, c));
            (max == 0 || max in ds) && forall d | d in ds :: d <= max
  {
    hide Run, Log, Swaps, Recorded, NeverOverlap;
    var log := Log(run, c);
    ExtremesUnlessLost(run, c, false);
    AloneLosesNone(run, c, true);
    RunFollows(run, c, true);
    forall d | d in Recorded(log) ensures d <= Run(run).cells[c].max {
      assert Ended(log, true, d);
      var w :| w in Swaps(log, true) && w.delta == d;
    }
  }

  /** Likewise the minimum is the smallest, if deltas are positive. */
  lemma MinExactWhenAlone(run: seq<Move>, c: nat)
    requires c in Run(run).cells && NeverOverlap(run, c, false) && Positive(run)
    requires forall cpu | cpu in Run(run).exits :: !(Run(run).exits[cpu].Holds() && Run(run).exits[cpu].cell == c)
    ensures var min, ds := Run(run).cells[c].min, Recorded(Log(run, c));
            (min == 0 || min in ds) && forall d | d in ds :: 0 < min <= d
  {
    hide Run, Log, Swaps, Recorded, NeverOverlap;
    var log := Log(run, c);
    ExtremesUnlessLost(run, c, true);
    AloneLosesNone(run, c, false);
    RunFollows(run, c, false);
    forall d | d in Recorded(log) ensures 0 < Run(run).cells[c].min <= d {
      assert Ended(log, false, d);
      var w :| w in Swaps(log, false) && w.delta == d;
    }
  }

  // ----- When something is -----

  /** Two exits that have read the same maximum: the larger delta is lost if the smaller one
      swaps first. */
  lemma LargerDeltaCanLose(s: State, small: Move, large: Move)
    requires WellFormed(s) && small.cpu != large.cpu && small.cpu in s.exits && large.cpu in s.exits
    requires var a, b := s.exits[small.cpu], s.exits[large.cpu];
             && a.stage.MaxRead? && b.stage == a.stage && a.cell == b.cell && a.stage.seen < a.delta < b.delta
             && a.cell in s.cells && s.cells[a.cell].max == a.stage.seen
    ensures WellFormed(Step(s, small))
    ensures var s' := Step(Step(s, small), large);
            var a, b := s.exits[small.cpu], s.exits[large.cpu];
            && a.cell in s'.cells && s'.cells[a.cell].max == a.delta < b.delta
            && s'.exits == s.exits - {small.cpu} - {large.cpu}
  {
    StepWellFormed(s, small);
    assert Sited(s, s.exits[small.cpu]) && Sited(s, s.exits[large.cpu]);
  }

  /** One CPU alone takes `n` steps. */
  function Repeat(s: State, m: Move, n: nat): (r: State)
    requires WellFormed(s)
    ensures WellFormed(r)
  {
    if n == 0 then s
    else
      var r := Repeat(s, m, n - 1);
      StepWellFormed(r, m);
      Step(r, m)
  }

  function Times(m: Move, n: nat): (ms: seq<Move>)
    ensures |ms| == n
  {
    if n == 0 then [] else Times(m, n - 1) + [m]
  }

  lemma RepeatNext(s: State, m: Move, n: nat)
    requires WellFormed(s)
    ensures Repeat(s, m, 0) == s && Repeat(s, m, n + 1) == Step(Repeat(s, m, n), m)
  {
    hide Step, WellFormed;
  }

  lemma TimesNext(run: seq<Move>, m: Move, n: nat)
    ensures run + Times(m, n + 1) == (run + Times(m, n)) + [m]
  {
  }

  lemma {:induction false} RunRepeats(run: seq<Move>, m: Move, n: nat)
    ensures Run(run + Times(m, n)) == Repeat(Run(run), m, n)
  {
    hide Step, WellFormed, Run, Repeat;
    if n == 0 {
      RepeatNext(Run(run), m, 0);
      assert run + Times(m, 0) == run;
    } else {
      RunRepeats(run, m, n - 1);
      TimesNext(run, m, n - 1);
      LogLast(run + Times(m, n - 1), m, 0);
      RepeatNext(Run(run), m, n - 1);
    }
  }

  /** The order of the stages of an exit that holds a cell. */
  function Following(stage: Stage, h: Hist): Stage {
    match stage
    case Got => Slotted
    case Slotted => Counted
    case Counted => Timed
    case Timed => MinRead(h.min)
    case MinRead(_) => MinDone
    case _ => MaxRead(h.max)
  }

  lemma Turn(s: State, m: Move)
    requires WellFormed(s) && m.cpu in s.exits && s.exits[m.cpu].Holds() && !s.exits[m.cpu].stage.MaxRead?
    ensures var e, s' := s.exits[m.cpu], Step(s, m);
            && WellFormed(s') && e.cell in s.cells && e.cell in s'.cells && s'.table == s.table
            && s'.exits == s.exits[m.cpu := e.(stage := Following(e.stage, s.cells[e.cell]))]
            && s'.cells[e.cell].max == s.cells[e.cell].max
  {
    hide SlotOf;
    StepWellFormed(s, m);
    assert Sited(s, s.exits[m.cpu]);
  }

  /** From getting its cell to having read the maximum. */
  lemma SixTurns(s: State, m: Move)
    requires WellFormed(s) && m.cpu in s.exits && s.exits[m.cpu].stage.Got?
    ensures var e, s' := s.exits[m.cpu], Repeat(s, m, 6);
            && e.cell in s.cells && e.cell in s'.cells && s'.table == s.table
            && s'.exits == s.exits[m.cpu := e.(stage := MaxRead(s.cells[e.cell].max))]
            && s'.cells[e.cell].max == s.cells[e.cell].max
  {
    hide Step, WellFormed, Repeat;
    RepeatNext(s, m, 0);
    Turn(s, m);
    RepeatNext(s, m, 1);
    Turn(Repeat(s, m, 1), m);
    RepeatNext(s, m, 2);
    Turn(Repeat(s, m, 2), m);
    RepeatNext(s, m, 3);
    Turn(Repeat(s, m, 3), m);
    RepeatNext(s, m, 4);
    Turn(Repeat(s, m, 4), m);
    RepeatNext(s, m, 5);
    Turn(Repeat(s, m, 5), m);
  }

  const ONE_CELL := map[0 := 0]

  lemma FirstLookup(s: State, a: nat)
    requires WellFormed(s) && s == INIT
    ensures Step(s, Move(0, 0, a)) == State(map[], map[], map[0 := Exit(Missed, 0, a, 0)])
  {
  }

  lemma FirstInsert(s: State, a: nat)
    requires WellFormed(s) && s == State(map[], map[], map[0 := Exit(Missed, 0, a, 0)])
    ensures Step(s, Move(0, 0, a)) == State(ONE_CELL, map[0 := NewHist()], map[0 := Exit(Tried, 0, a, 0)])
  {
    hide NewHist;
  }

  lemma SecondLookup(s: State, a: nat)
    requires WellFormed(s) && s == State(ONE_CELL, map[0 := NewHist()], map[0 := Exit(Tried, 0, a, 0)])
    ensures Step(s, Move(0, 0, a)) == State(ONE_CELL, map[0 := NewHist()], map[0 := Exit(Got, 0, a, 0)])
  {
    hide NewHist;
  }

  lemma FirstThree(a: nat)
    ensures WellFormed(INIT)
    ensures Repeat(INIT, Move(0, 0, a), 3) == State(ONE_CELL, map[0 := NewHist()], map[0 := Exit(Got, 0, a, 0)])
  {
    EmptyRun();
    hide Step, WellFormed, Repeat, NewHist;
    var m := Move(0, 0, a);
    RepeatNext(INIT, m, 0);
    FirstLookup(Repeat(INIT, m, 0), a);
    RepeatNext(INIT, m, 1);
    FirstInsert(Repeat(INIT, m, 1), a);
    RepeatNext(INIT, m, 2);
    SecondLookup(Repeat(INIT, m, 2), a);
  }

  /** The run that loses a delta: one exit goes as far as reading the maximum, a second one of the
      same key too, then both swap. */
  function OverlappingRun(a: nat, b: nat): seq<Move> {
    var small, large := Move(0, 0, a), Move(1, 0, b);
    Times(small, 3) + Times(small, 6) + [large] + Times(large, 6) + [small] + [large]
  }

  lemma UpToTheRead(a: nat)
    ensures var s := Run(Times(Move(0, 0, a), 3) + Times(Move(0, 0, a), 6));
            && s.table == ONE_CELL && 0 in s.cells && s.cells[0].max == 0
            && s.exits == map[0 := Exit(MaxRead(0), 0, a, 0)]
  {
    hide Step, Run, WellFormed, Repeat;
    var m := Move(0, 0, a);
    assert [] + Times(m, 3) == Times(m, 3);
    RunRepeats([], m, 3);
    EmptyRun();
    FirstThree(a);
    RunRepeats(Times(m, 3), m, 6);
    SixTurns(Run(Times(m, 3)), m);
  }

  lemma EmptyRun()
    ensures Run([]) == INIT && WellFormed(INIT)
  {
  }

  lemma SecondGets(s: State, m: Move)
    requires WellFormed(s) && m.cpu !in s.exits && m.key in s.table
    ensures Step(s, m) == s.(exits := s.exits[m.cpu := Exit(Got, m.key, m.delta, s.table[m.key])])
  {
  }

  /** From the empty map, with any two deltas 0 < a < b, the run ends idle with both calls made
      and a maximum of `a`. */
  lemma OverlapLosesLarger(a: nat, b: nat)
    requires 0 < a < b
    ensures var s := Run(OverlappingRun(a, b)); s.exits == map[] && 0 in s.cells && s.cells[0].max == a
  {
    hide Step, Run, WellFormed, Repeat, Times;
    var small, large := Move(0, 0, a), Move(1, 0, b);
    var run0 := Times(small, 3) + Times(small, 6);
    UpToTheRead(a);
    var s0 := Run(run0);
    LogLast(run0, large, 0);
    SecondGets(s0, large);
    var s1 := Run(run0 + [large]);
    RunRepeats(run0 + [large], large, 6);
    SixTurns(s1, large);
    var run2 := run0 + [large] + Times(large, 6);
    var s2 := Run(run2);
    LargerDeltaCanLose(s2, small, large);
    LogLast(run2, small, 0);
    LogLast(run2 + [small], large, 0);
  }
}
