/** futexctn's `futex_exit` on many CPUs at once. Each map operation and each atomic
    operation is one step; CPUs interleave between any two of them. The first three
    steps are `bpf_map_lookup_or_try_init` of maps.bpf.h. */
module Futexctn {
  import opened BpfMap
  import Histogram

  const MAX_SLOTS: nat := 36
  const MAX_ENTRIES: nat := 10240

  datatype Hist = Hist(slots: seq<nat>, contended: nat, total: nat, min: nat, max: nat)

  /** `initial_hist`. */
  function NewHist(): (h: Hist)
    ensures |h.slots| == MAX_SLOTS && (forall k | 0 <= k < MAX_SLOTS :: h.slots[k] == 0)
    ensures h.contended == h.total == h.min == h.max == 0
  {
    Hist(seq(MAX_SLOTS, _ => 0), 0, 0, 0, 0)
  }

  /** How far an exit has come; `seen` is what the last atomic read returned. */
  datatype Stage =
    | Missed | Tried
    | Got | Slotted | Counted | Timed | MinRead(seen: nat) | MinDone | MaxRead(seen: nat)

  /** `cell` is the address the lookup returned, meaningful from `Got` on. */
  datatype Exit = Exit(stage: Stage, key: nat, delta: nat, cell: nat) {
    predicate Holds() {
      !stage.Missed? && !stage.Tried?
    }
  }

  /** The map, the histograms by address, and what each busy CPU is doing. */
  datatype State = State(table: map<nat, nat>, cells: map<nat, Hist>, exits: map<nat, Exit>)

  const INIT := State(map[], map[], map[])

  /** CPU `cpu` takes its next step; an idle one starts an exit for `key` after `delta`. */
  datatype Move = Move(cpu: nat, key: nat, delta: nat)

  function SlotOf(delta: nat): (k: nat)
    ensures k < MAX_SLOTS
  {
    Histogram.Slot(delta, MAX_SLOTS)
  }

  /** An exit whose lookup returned `key`'s cell, if there is one. */
  function Lookup(s: State, cpu: nat, e: Exit, otherwise: Option<Stage>): State {
    if e.key in s.table then s.(exits := s.exits[cpu := e.(stage := Got, cell := s.table[e.key])])
    else if otherwise.Some? then s.(exits := s.exits[cpu := e.(stage := otherwise.value)])
    else s.(exits := s.exits - {cpu})
  }

  /** Insert unless present; a full map ends the exit. */
  function Insert(s: State, cpu: nat, e: Exit): State {
    var tried := s.exits[cpu := e.(stage := Tried)];
    if e.key in s.table then s.(exits := tried)
    else if |s.table| >= MAX_ENTRIES then s.(exits := s.exits - {cpu})
    else
      var cell := |s.table|;
      State(s.table[e.key := cell], s.cells[cell := NewHist()], tried)
  }

  /** One atomic operation on the cell of an exit that holds one. */
  function Touch(h: Hist, e: Exit): (r: (Hist, Option<Stage>))
    requires |h.slots| == MAX_SLOTS
    ensures |r.0.slots| == MAX_SLOTS
    ensures r.1.Some? ==> !r.1.value.Missed? && !r.1.value.Tried?
  {
    match e.stage
    case Missed => (h, None)
    case Tried => (h, None)
    case Got => (h.(slots := h.slots[SlotOf(e.delta) := (h.slots[SlotOf(e.delta)] + 1) % U32]), Some(Slotted))
    case Slotted => (h.(contended := (h.contended + 1) % U64), Some(Counted))
    case Counted => (h.(total := (h.total + e.delta) % U64), Some(Timed))
    case Timed => (h, Some(MinRead(h.min)))
    case MinRead(seen) =>
      (if (seen == 0 || seen > e.delta) && h.min == seen then h.(min := e.delta) else h, Some(MinDone))
    case MinDone => (h, Some(MaxRead(h.max)))
    case MaxRead(seen) => (if seen < e.delta && h.max == seen then h.(max := e.delta) else h, None)
  }

  function Next(exits: map<nat, Exit>, cpu: nat, e: Exit, stage: Option<Stage>): map<nat, Exit> {
    if stage.None? then exits - {cpu} else exits[cpu := e.(stage := stage.value)]
  }

  function Step(s: State, m: Move): State
    requires WellFormed(s)
  {
    if m.cpu !in s.exits then Lookup(s, m.cpu, Exit(Missed, m.key, m.delta, 0), Some(Missed))
    else
      var e := s.exits[m.cpu];
      if e.stage.Missed? then Insert(s, m.cpu, e)
      else if e.stage.Tried? then Lookup(s, m.cpu, e, None)
      else
        assert Sited(s, e);
        var (h, stage) := Touch(s.cells[e.cell], e);
        s.(cells := s.cells[e.cell := h], exits := Next(s.exits, m.cpu, e, stage))
  }

  // ----- One cell per key -----

  /** An exit that has tried to insert will find its key; one that holds a cell holds the one its
      key has in the table. */
  predicate Sited(s: State, e: Exit) {
    && (e.stage.Tried? ==> e.key in s.table)
    && (e.Holds() ==> e.key in s.table && s.table[e.key] == e.cell && e.cell in s.cells)
  }

  ghost predicate Numbered(table: map<nat, nat>, n: nat) {
    && (forall k | k in table :: table[k] < n)
    && (forall k, l | k in table && l in table && k != l :: table[k] != table[l])
  }

  ghost predicate Complete(cells: map<nat, Hist>, n: nat) {
    && (forall c: nat :: c in cells <==> c < n)
    && forall c | c in cells :: |cells[c].slots| == MAX_SLOTS
  }

  /** Cells are numbered in order of creation, one for each key of the table. */
  ghost predicate Rooted(s: State) {
    Numbered(s.table, |s.table|) && Complete(s.cells, |s.table|)
  }

  ghost predicate WellFormed(s: State) {
    Rooted(s) && forall cpu | cpu in s.exits :: Sited(s, s.exits[cpu])
  }

  /** No step moves a key to another cell or drops a cell. */
  ghost predicate Extends(s: State, s': State) {
    && (forall k | k in s.table :: k in s'.table && s'.table[k] == s.table[k])
    && (forall c | c in s.cells :: c in s'.cells)
    && |s.table| <= |s'.table|
  }

  /** What a step of `cpu` may do. */
  ghost predicate Moved(s: State, s': State, cpu: nat) {
    && Rooted(s') && Extends(s, s')
    && (forall k | k in s'.table && k !in s.table :: s'.table[k] !in s.cells)
    && (forall o | o in s'.exits && o != cpu :: o in s.exits && s'.exits[o] == s.exits[o])
    && (forall o | o in s.exits && o != cpu :: o in s'.exits)
    && (cpu in s'.exits ==> Sited(s', s'.exits[cpu]))
  }

  lemma SitedKept(s: State, s': State, e: Exit)
    requires Sited(s, e) && Extends(s, s')
    ensures Sited(s', e)
  {
  }

  lemma LookupMoves(s: State, cpu: nat, e: Exit, otherwise: Option<Stage>)
    requires Rooted(s) && (otherwise == None || otherwise == Some(Missed))
    ensures Moved(s, Lookup(s, cpu, e, otherwise), cpu)
  {
  }

  lemma NumberedNext(table: map<nat, nat>, n: nat, key: nat)
    requires Numbered(table, n) && key !in table
    ensures Numbered(table[key := n], n + 1)
  {
  }

  lemma CompleteNext(cells: map<nat, Hist>, n: nat)
    requires Complete(cells, n)
    ensures Complete(cells[n := NewHist()], n + 1)
  {
  }

  lemma NewCellRooted(s: State, key: nat, exits: map<nat, Exit>)
    requires Rooted(s) && key !in s.table
    ensures var c := |s.table|;
            Rooted(State(s.table[key := c], s.cells[c := NewHist()], exits)) && |s.table[key := c]| == c + 1
            && c !in s.cells
  {
    var c := |s.table|;
    assert c !in s.cells;
    hide NewHist, Numbered, Complete;
    assert s.table[key := c].Keys == s.table.Keys + {key};
    NumberedNext(s.table, c, key);
    CompleteNext(s.cells, c);
  }

  lemma InsertMoves(s: State, cpu: nat, e: Exit)
    requires Rooted(s) && e.stage.Missed?
    ensures Moved(s, Insert(s, cpu, e), cpu)
  {
    hide Rooted, NewHist;
    if e.key in s.table || |s.table| >= MAX_ENTRIES {
      RootedFrame(s, Insert(s, cpu, e));
    } else {
      NewCellRooted(s, e.key, s.exits[cpu := e.(stage := Tried)]);
    }
  }

  lemma RootedFrame(s: State, s': State)
    requires Rooted(s) && s'.table == s.table && s'.cells == s.cells
    ensures Rooted(s')
  {
  }

  lemma TouchMoves(s: State, cpu: nat, h: Hist, e: Exit, stage: Option<Stage>)
    requires Rooted(s) && Sited(s, e) && e.Holds() && |h.slots| == MAX_SLOTS
    requires stage.Some? ==> !stage.value.Missed? && !stage.value.Tried?
    ensures Moved(s, s.(cells := s.cells[e.cell := h], exits := Next(s.exits, cpu, e, stage)), cpu)
  {
  }

  lemma StepMoves(s: State, m: Move)
    requires WellFormed(s)
    ensures Moved(s, Step(s, m), m.cpu)
  {
    hide Rooted, Moved, Lookup, Insert, Touch;
    if m.cpu !in s.exits {
      LookupMoves(s, m.cpu, Exit(Missed, m.key, m.delta, 0), Some(Missed));
    } else {
      var e := s.exits[m.cpu];
      assert Sited(s, e);
      if e.stage.Missed? {
        InsertMoves(s, m.cpu, e);
      } else if e.stage.Tried? {
        LookupMoves(s, m.cpu, e, None);
      } else {
        CellsHaveSlots(s, e);
        var r := Touch(s.cells[e.cell], e);
        TouchMoves(s, m.cpu, r.0, e, r.1);
      }
    }
  }

  lemma CellsHaveSlots(s: State, e: Exit)
    requires Rooted(s) && Sited(s, e) && e.Holds()
    ensures |s.cells[e.cell].slots| == MAX_SLOTS
  {
  }

  lemma StepWellFormed(s: State, m: Move)
    requires WellFormed(s)
    ensures WellFormed(Step(s, m))
  {
    var s' := Step(s, m);
    StepMoves(s, m);
    hide Step, Rooted, Sited, Extends;
    forall cpu | cpu in s'.exits ensures Sited(s', s'.exits[cpu]) {
      if cpu != m.cpu { SitedKept(s, s', s.exits[cpu]); }
    }
  }

  /** Every interleaving, from an empty map. */
  function Run(run: seq<Move>): (s: State)
    ensures WellFormed(s)
  {
    if run == [] then INIT
    else
      var s := Run(run[..|run| - 1]);
      StepWellFormed(s, run[|run| - 1]);
      Step(s, run[|run| - 1])
  }

  /** Lookup-or-init under any interleaving: a key keeps the one cell it was ever given, so
      whatever two CPUs hold for the same key, now or later, is the same cell, and cells of
      different keys differ. */
  lemma {:induction false} OneCellPerKey(run: seq<Move>, n: nat, a: nat, b: nat)
    requires n <= |run| && a in Run(run[..n]).exits && b in Run(run).exits
    requires Run(run[..n]).exits[a].Holds() && Run(run).exits[b].Holds()
    ensures Run(run[..n]).exits[a].cell == Run(run).exits[b].cell
       <==> Run(run[..n]).exits[a].key == Run(run).exits[b].key
  {
    RunExtends(run, n);
    var s, s' := Run(run[..n]), Run(run);
    hide Run;
    assert Sited(s, s.exits[a]) && Sited(s', s'.exits[b]);
  }

  lemma {:induction false} RunExtends(run: seq<Move>, n: nat)
    requires n <= |run|
    ensures Extends(Run(run[..n]), Run(run))
  {
    if n == |run| {
      assert run[..n] == run;
    } else {
      var before := run[..|run| - 1];
      assert before[..n] == run[..n];
      RunExtends(before, n);
      hide Step;
      StepMoves(Run(before), run[|run| - 1]);
    }
  }

  /** The insert of an exit meets a full map that has not got its key. */
  predicate Refuses(s: State, e: Exit) {
    e.stage.Missed? && e.key !in s.table && |s.table| >= MAX_ENTRIES
  }

  /** Every caller of lookup-or-init gets the cell of its key, unless the map is full: an exit
      without a cell is given up exactly when its insert is refused, otherwise it goes on
      from lookup to insert to the cell. */
  lemma CallerGetsCell(run: seq<Move>, m: Move)
    requires m.cpu in Run(run).exits ==> !Run(run).exits[m.cpu].Holds()
    ensures var s := Run(run);
            var s' := Step(s, m);
            var e := if m.cpu in s.exits then s.exits[m.cpu] else Exit(Missed, m.key, m.delta, 0);
            && (m.cpu in s.exits && e.stage.Tried? ==> e.key in s.table)
            && (m.cpu !in s'.exits <==> m.cpu in s.exits && Refuses(s, e))
            && (m.cpu in s'.exits ==>
                  var e' := s'.exits[m.cpu];
                  && e'.key == e.key && e'.delta == e.delta
                  && (e'.Holds() ==> e'.stage.Got? && e.key in s'.table && e'.cell == s'.table[e.key])
                  && (m.cpu in s.exits ==> if e.stage.Missed? then e'.stage.Tried? else e'.Holds()))
  {
    hide Run, Rooted;
    var s := Run(run);
    assert m.cpu in s.exits ==> Sited(s, s.exits[m.cpu]);
  }

  // ----- A cell is its initial value with every touch applied, in order -----

  /** The exit whose atomic operation on cell `c` the move is. */
  function Toucher(s: State, m: Move, c: nat): seq<Exit> {
    if m.cpu in s.exits && s.exits[m.cpu].Holds() && s.exits[m.cpu].cell == c then [s.exits[m.cpu]] else []
  }

  /** The operations made on cell `c` in a run, as the exits that made them. */
  function Log(run: seq<Move>, c: nat): seq<Exit> {
    if run == [] then [] else Log(run[..|run| - 1], c) + Toucher(Run(run[..|run| - 1]), run[|run| - 1], c)
  }

  function Replay(log: seq<Exit>): (h: Hist)
    ensures |h.slots| == MAX_SLOTS
  {
    if log == [] then NewHist() else Touch(Replay(log[..|log| - 1]), log[|log| - 1]).0
  }

  lemma ReplayLast(log: seq<Exit>, e: Exit)
    ensures Replay(log + [e]) == Touch(Replay(log), e).0
  {
    assert (log + [e])[..|log|] == log;
  }

  /** What a step does to one cell: create it, or apply the operation of the CPU that holds it. */
  lemma StepCell(s: State, m: Move, c: nat)
    requires WellFormed(s)
    ensures var s', es := Step(s, m), Toucher(s, m, c);
            && (c in s.cells ==> c in s'.cells && |s.cells[c].slots| == MAX_SLOTS
                                 && s'.cells[c] == if es == [] then s.cells[c] else Touch(s.cells[c], es[0]).0)
            && (c !in s.cells ==> es == [] && (c in s'.cells ==> s'.cells[c] == NewHist()))
  {
    hide NewHist, Touch;
    if m.cpu in s.exits { assert Sited(s, s.exits[m.cpu]); }
  }

  /** Under every interleaving no update is lost and no cell is initialised twice: a histogram is
      the initial one with the operations of all CPUs on it applied one after the other. */
  lemma {:induction false} CellIsReplay(run: seq<Move>, c: nat)
    ensures c in Run(run).cells ==> Run(run).cells[c] == Replay(Log(run, c))
    ensures c !in Run(run).cells ==> Log(run, c) == []
  {
    if run != [] {
      var before, m := run[..|run| - 1], run[|run| - 1];
      CellIsReplay(before, c);
      StepCell(Run(before), m, c);
      hide Step, Touch, WellFormed;
      var es := Toucher(Run(before), m, c);
      if es == [] {
        assert Log(before, c) + es == Log(before, c);
      } else {
        ReplayLast(Log(before, c), es[0]);
      }
    }
  }
}
