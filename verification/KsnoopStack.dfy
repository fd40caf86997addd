/** The per-task shadow call stack of ksnoop: the part of `get_trace` that pushes the
    probed function's address on entry and pops it on return. */
module KsnoopStack {
  import opened BpfMap

  const FUNC_MAX_STACK_DEPTH: nat := 16
  const MAX_TASKS: nat := 2048

  /** `ips` has one slot more in use than `depth`: the slot above the top keeps the
      last function that returned to the one on top. */
  datatype Stack = Stack(ips: seq<nat>, depth: nat) {
    predicate Valid() {
      |ips| == FUNC_MAX_STACK_DEPTH && depth < FUNC_MAX_STACK_DEPTH
    }
  }

  const EMPTY := Stack([0, 0, 0, 0, 0, 0, 0, 0, 0, 0, 0, 0, 0, 0, 0, 0], 0)

  datatype Event = Enter(ip: nat) | Return

  /** What a probe learns: the function it belongs to and the linked one (`last_ip`). */
  datatype Seen = Seen(ip: nat, lastIp: nat)

  function Push(s: Stack, ip: nat): (r: (Stack, Option<Seen>))
    requires s.Valid()
    ensures r.0.Valid()
  {
    if s.depth >= FUNC_MAX_STACK_DEPTH - 1 then (s, None)
    else
      var lastIp := if s.depth == 0 then 0 else s.ips[s.depth - 1];
      (Stack(s.ips[s.depth := ip][s.depth + 1 := 0], s.depth + 1), Some(Seen(ip, lastIp)))
  }

  function Pop(s: Stack): (r: (Stack, Option<Seen>))
    requires s.Valid()
    ensures r.0.Valid()
  {
    if s.depth == 0 then (s, None)
    else (s.(depth := s.depth - 1), Some(Seen(s.ips[s.depth - 1], s.ips[s.depth])))
  }

  function Step(s: Stack, e: Event): (r: (Stack, Option<Seen>))
    requires s.Valid()
    ensures r.0.Valid()
  {
    match e case Enter(ip) => Push(s, ip) case Return => Pop(s)
  }

  /** The stack after a run; in every run the depth stays in 0..15. */
  function Exec(s: Stack, run: seq<Event>): (r: Stack)
    requires s.Valid()
    ensures r.Valid()
    decreases |run|
  {
    if run == [] then s else Exec(Step(s, run[0]).0, run[1..])
  }

  function Observe(s: Stack, run: seq<Event>): (r: seq<Option<Seen>>)
    requires s.Valid()
    ensures |r| == |run|
    decreases |run|
  {
    if run == [] then [] else [Step(s, run[0]).1] + Observe(Step(s, run[0]).0, run[1..])
  }

  lemma {:induction false} Concat(s: Stack, a: seq<Event>, b: seq<Event>)
    requires s.Valid()
    ensures Exec(s, a + b) == Exec(Exec(s, a), b)
    ensures Observe(s, a + b) == Observe(s, a) + Observe(Exec(s, a), b)
    decreases |a|
  {
    if a == [] {
      assert a + b == b;
    } else {
      assert (a + b)[1..] == a[1..] + b;
      Concat(Step(s, a[0]).0, a[1..], b);
    }
  }

  // ----- The reference: a tree of probed calls -----

  /** The calls one function makes in order: a call of `ip` with its own calls, then the rest. */
  datatype Calls = Nil | Cons(ip: nat, body: Calls, rest: Calls)

  function Events(c: Calls): seq<Event> {
    match c
    case Nil => []
    case Cons(ip, body, rest) => [Enter(ip)] + Events(body) + [Return] + Events(rest)
  }

  function Height(c: Calls): nat {
    match c
    case Nil => 0
    case Cons(_, body, rest) => if Height(body) + 1 > Height(rest) then Height(body) + 1 else Height(rest)
  }

  /** The last function called directly, 0 if none. */
  function LastCallee(c: Calls): nat {
    match c
    case Nil => 0
    case Cons(ip, _, rest) => if rest.Nil? then ip else LastCallee(rest)
  }

  /** What the probes should learn: an entry its caller, a return its last direct callee. */
  function Expected(c: Calls, caller: nat): seq<Option<Seen>> {
    match c
    case Nil => []
    case Cons(ip, body, rest) =>
      [Some(Seen(ip, caller))] + Expected(body, ip) + [Some(Seen(ip, LastCallee(body)))] + Expected(rest, caller)
  }

  predicate CallerIs(s: Stack, caller: nat)
    requires s.Valid()
  {
    caller == if s.depth == 0 then 0 else s.ips[s.depth - 1]
  }

  /** Everything at and below the caller is as it was, and the slot above names the last callee. */
  predicate Restored(s: Stack, after: Stack, c: Calls)
    requires s.Valid() && after.Valid()
  {
    && after.depth == s.depth && after.ips[..s.depth] == s.ips[..s.depth]
    && after.ips[s.depth] == if c.Nil? then s.ips[s.depth] else LastCallee(c)
  }

  lemma PushThenPop(s: Stack, ip: nat, body: Calls, inner: Stack)
    requires s.Valid() && s.depth < FUNC_MAX_STACK_DEPTH - 1 && inner.Valid()
    requires Restored(Push(s, ip).0, inner, body)
    ensures Pop(inner).1 == Some(Seen(ip, LastCallee(body)))
    ensures var after := Pop(inner).0;
            after.Valid() && after.depth == s.depth && after.ips[..s.depth] == s.ips[..s.depth]
            && after.ips[s.depth] == ip
  {
    var p := Push(s, ip).0;
    assert inner.ips[s.depth] == inner.ips[..p.depth][s.depth] == p.ips[..p.depth][s.depth] == ip;
    assert forall i | 0 <= i < s.depth :: inner.ips[i] == inner.ips[..p.depth][i] == p.ips[..p.depth][i] == s.ips[i];
    assert inner.ips[..s.depth] == s.ips[..s.depth];
  }

  lemma CallerKept(s: Stack, after: Stack, caller: nat)
    requires s.Valid() && after.Valid() && CallerIs(s, caller)
    requires after.depth == s.depth && after.ips[..s.depth] == s.ips[..s.depth]
    ensures CallerIs(after, caller)
  {
    if s.depth > 0 { assert after.ips[..s.depth][s.depth - 1] == s.ips[..s.depth][s.depth - 1]; }
  }

  /** A call's events: the entry, the body's events, the return, then the siblings'. */
  lemma EventsSplit(s: Stack, ip: nat, body: Calls, rest: Calls)
    requires s.Valid()
    ensures var c, p := Cons(ip, body, rest), Push(s, ip);
            var after := Pop(Exec(p.0, Events(body)));
            && Exec(s, Events(c)) == Exec(after.0, Events(rest))
            && Observe(s, Events(c)) == [p.1] + Observe(p.0, Events(body)) + [after.1] + Observe(after.0, Events(rest))
  {
    hide Push, Pop, Exec, Observe;
    var p, xs, ys := Push(s, ip), Events(body), Events(rest);
    var inner := Exec(p.0, xs);
    assert Events(Cons(ip, body, rest)) == [Enter(ip)] + (xs + ([Return] + ys));
    Concat(s, [Enter(ip)], xs + ([Return] + ys));
    One(s, Enter(ip));
    Concat(p.0, xs, [Return] + ys);
    Concat(inner, [Return], ys);
    One(inner, Return);
  }

  lemma ExecNothing(s: Stack)
    requires s.Valid()
    ensures Exec(s, []) == s && Observe(s, []) == []
  {
  }

  lemma One(s: Stack, e: Event)
    requires s.Valid()
    ensures Exec(s, [e]) == Step(s, e).0 && Observe(s, [e]) == [Step(s, e).1]
  {
    hide Step;
    assert [e][1..] == [];
  }

  /** Calls nested no deeper than the stack has room for: the probes learn exactly the
      caller/callee links of the tree, and the stack is back where it was. */
  lemma {:induction false} MirrorsCallTree(s: Stack, c: Calls, caller: nat)
    requires s.Valid() && CallerIs(s, caller) && s.depth + Height(c) <= FUNC_MAX_STACK_DEPTH - 1
    ensures Observe(s, Events(c)) == Expected(c, caller)
    ensures Restored(s, Exec(s, Events(c)), c)
    decreases c
  {
    match c
    case Nil =>
    case Cons(ip, body, rest) =>
      EventsSplit(s, ip, body, rest);
      var p := Push(s, ip).0;
      MirrorsCallTree(p, body, ip);
      var inner := Exec(p, Events(body));
      PushThenPop(s, ip, body, inner);
      var after := Pop(inner).0;
      CallerKept(s, after, caller);
      MirrorsCallTree(after, rest, caller);
  }

  /** One call deeper and some entry goes unseen. */
  lemma {:induction false} TooDeepIsMissed(s: Stack, c: Calls, caller: nat)
    requires s.Valid() && CallerIs(s, caller) && s.depth + Height(c) > FUNC_MAX_STACK_DEPTH - 1
    ensures None in Observe(s, Events(c))
    decreases c
  {
    match c
    case Cons(ip, body, rest) =>
      EventsSplit(s, ip, body, rest);
      if s.depth < FUNC_MAX_STACK_DEPTH - 1 {
        var p := Push(s, ip).0;
        if p.depth + Height(body) > FUNC_MAX_STACK_DEPTH - 1 {
          TooDeepIsMissed(p, body, ip);
        } else {
          MirrorsCallTree(p, body, ip);
          var inner := Exec(p, Events(body));
          PushThenPop(s, ip, body, inner);
          var after := Pop(inner).0;
          CallerKept(s, after, caller);
          TooDeepIsMissed(after, rest, caller);
        }
      }
  }

  lemma {:induction false} ExpectedSeesAll(c: Calls, caller: nat)
    ensures None !in Expected(c, caller)
  {
    match c
    case Nil =>
    case Cons(ip, body, rest) =>
      ExpectedSeesAll(body, ip);
      ExpectedSeesAll(rest, caller);
  }

  /** The shadow stack of a task mirrors a tree of calls exactly when the tree is at
      most 15 calls deep. */
  lemma MirrorsExactlyUpTo15(c: Calls)
    ensures Observe(EMPTY, Events(c)) == Expected(c, 0) <==> Height(c) <= FUNC_MAX_STACK_DEPTH - 1
  {
    if Height(c) <= FUNC_MAX_STACK_DEPTH - 1 {
      MirrorsCallTree(EMPTY, c, 0);
    } else {
      TooDeepIsMissed(EMPTY, c, 0);
      ExpectedSeesAll(c, 0);
    }
  }

  // ----- Stack mode: which probes a trace lets through -----

  /** A traced function with the caller and the callee it insists on, 0 for none. */
  datatype Link = Link(ip: nat, prevIp: nat, nextIp: nat)

  /** The tests of `get_trace` on what a probe learnt. */
  predicate Passes(t: Link, e: Event, seen: Option<Seen>) {
    seen.Some? && seen.value.ip == t.ip &&
    match e
    case Enter(_) => t.prevIp == 0 || t.prevIp == seen.value.lastIp
    case Return => t.nextIp == 0 || t.nextIp == seen.value.lastIp
  }

  function Verdicts(t: Link, run: seq<Event>, seen: seq<Option<Seen>>): seq<bool>
    requires |run| == |seen|
  {
    seq(|run|, i requires 0 <= i < |run| => Passes(t, run[i], seen[i]))
  }

  /** The same decisions read off the tree. */
  function TreeVerdicts(t: Link, c: Calls, caller: nat): seq<bool> {
    match c
    case Nil => []
    case Cons(ip, body, rest) =>
      [ip == t.ip && (t.prevIp == 0 || t.prevIp == caller)] + TreeVerdicts(t, body, ip)
      + [ip == t.ip && (t.nextIp == 0 || t.nextIp == LastCallee(body))] + TreeVerdicts(t, rest, caller)
  }

  lemma {:induction false} ExpectedVerdicts(t: Link, c: Calls, caller: nat)
    ensures |Expected(c, caller)| == |Events(c)|
    ensures Verdicts(t, Events(c), Expected(c, caller)) == TreeVerdicts(t, c, caller)
    decreases c
  {
    match c
    case Nil =>
    case Cons(ip, body, rest) =>
      ExpectedVerdicts(t, body, ip);
      ExpectedVerdicts(t, rest, caller);
      hide Verdicts;
      var enter, leave := [Some(Seen(ip, caller))], [Some(Seen(ip, LastCallee(body)))];
      VerdictsSplit(t, [Enter(ip)], enter, Events(body), Expected(body, ip));
      VerdictsSplit(t, [Enter(ip)] + Events(body), enter + Expected(body, ip), [Return], leave);
      VerdictsSplit(t, [Enter(ip)] + Events(body) + [Return], enter + Expected(body, ip) + leave,
                    Events(rest), Expected(rest, caller));
      VerdictOne(t, Enter(ip), enter[0]);
      VerdictOne(t, Return, leave[0]);
  }

  lemma VerdictOne(t: Link, e: Event, x: Option<Seen>)
    ensures Verdicts(t, [e], [x]) == [Passes(t, e, x)]
  {
  }

  lemma VerdictsSplit(t: Link, a: seq<Event>, x: seq<Option<Seen>>, b: seq<Event>, y: seq<Option<Seen>>)
    requires |a| == |x| && |b| == |y|
    ensures Verdicts(t, a + b, x + y) == Verdicts(t, a, x) + Verdicts(t, b, y)
  {
  }

  /** In stack mode a trace lets an entry through exactly when the function was called
      directly by the one named before it, and a return exactly when the last function
      called directly is the one named after it. */
  lemma LinksAreTested(t: Link, c: Calls)
    requires Height(c) <= FUNC_MAX_STACK_DEPTH - 1
    ensures Verdicts(t, Events(c), Observe(EMPTY, Events(c))) == TreeVerdicts(t, c, 0)
  {
    MirrorsCallTree(EMPTY, c, 0);
    ExpectedVerdicts(t, c, 0);
  }

  // ----- Many tasks: the map ksnoop_func_stack -----

  datatype TaskEvent = TaskEvent(task: nat, event: Event)

  predicate AllValid(m: map<nat, Stack>) {
    forall t | t in m :: m[t].Valid()
  }

  function StepTask(m: map<nat, Stack>, e: TaskEvent): (r: (map<nat, Stack>, Option<Seen>))
    requires AllValid(m)
    ensures AllValid(r.0)
  {
    var known := if e.task in m then m else Put(m, MAX_TASKS, e.task, EMPTY);
    if e.task !in known then (known, None)
    else
      var r := Step(known[e.task], e.event);
      (known[e.task := r.0], r.1)
  }

  function Tasks(run: seq<TaskEvent>): (m: map<nat, Stack>)
    ensures AllValid(m)
  {
    if run == [] then map[] else StepTask(Tasks(run[..|run| - 1]), run[|run| - 1]).0
  }

  /** What one task's probes learn in an interleaved run. */
  function SeenBy(run: seq<TaskEvent>, t: nat): seq<Option<Seen>> {
    if run == [] then []
    else
      var before, e := run[..|run| - 1], run[|run| - 1];
      if e.task == t then SeenBy(before, t) + [StepTask(Tasks(before), e).1] else SeenBy(before, t)
  }

  function Projection(run: seq<TaskEvent>, t: nat): seq<Event> {
    if run == [] then []
    else
      var before, e := run[..|run| - 1], run[|run| - 1];
      if e.task == t then Projection(before, t) + [e.event] else Projection(before, t)
  }

  /** However tasks interleave, each task that got a stack behaves as if alone; a task
      without one met a full map on its first probe, and the map never empties. */
  lemma {:induction false} TasksAreIndependent(run: seq<TaskEvent>, t: nat)
    ensures var m, mine := Tasks(run), Projection(run, t);
            && (t in m ==> m[t] == Exec(EMPTY, mine) && SeenBy(run, t) == Observe(EMPTY, mine))
            && (t !in m ==> mine == [] || |m| >= MAX_TASKS)
  {
    if run != [] {
      hide Step, Exec, Observe;
      var before, e := run[..|run| - 1], run[|run| - 1];
      TasksAreIndependent(before, t);
      var m := Tasks(before);
      TaskMapGrows(m, e);
      ExecNothing(EMPTY);
      if e.task == t {
        Concat(EMPTY, Projection(before, t), [e.event]);
        var s := if t in m then m[t] else EMPTY;
        One(s, e.event);
        if t !in m && |m| < MAX_TASKS { NoStackNothingSeen(before, t); }
      }
    }
  }

  lemma TaskMapGrows(m: map<nat, Stack>, e: TaskEvent)
    requires AllValid(m)
    ensures var m' := StepTask(m, e).0;
            && |m| <= |m'| && (forall t | t in m :: t in m')
            && (e.task !in m' ==> m' == m && |m| >= MAX_TASKS)
            && (forall t | t != e.task :: (t in m' <==> t in m) && (t in m ==> m'[t] == m[t]))
  {
    hide Step;
    var m' := StepTask(m, e).0;
    PutSize(m, MAX_TASKS, e.task, EMPTY);
    if e.task in m' {
      assert m'.Keys == m.Keys + {e.task};
      if e.task in m { assert m'.Keys == m.Keys; }
    }
  }

  lemma {:induction false} NoStackNothingSeen(run: seq<TaskEvent>, t: nat)
    requires t !in Tasks(run) && |Tasks(run)| < MAX_TASKS
    ensures Projection(run, t) == [] && SeenBy(run, t) == []
  {
    if run != [] {
      TaskMapGrows(Tasks(run[..|run| - 1]), run[|run| - 1]);
      NoStackNothingSeen(run[..|run| - 1], t);
    }
  }

  // ----- The stack as it is written: an array updated in place -----

  class FuncStack {
    const ips: array<nat>
    var depth: nat

    ghost predicate Valid()
      reads this
    {
      ips.Length == FUNC_MAX_STACK_DEPTH && depth < FUNC_MAX_STACK_DEPTH
    }

    ghost function Value(): (s: Stack)
      requires Valid()
      reads this, ips
      ensures s.Valid()
    {
      Stack(ips[..], depth)
    }

    constructor ()
      ensures Valid() && Value() == EMPTY
    {
      ips := new nat[FUNC_MAX_STACK_DEPTH](_ => 0);
      depth := 0;
      new;
      assert ips[..] == EMPTY.ips;
    }

    /** The arithmetic is that of 8-bit unsigned words. */
    method Enter(ip: nat) returns (seen: Option<Seen>)
      requires Valid()
      modifies this, ips
      ensures Valid() && (Value(), seen) == Push(old(Value()), ip)
    {
      if depth >= FUNC_MAX_STACK_DEPTH - 1 { return None; }
      var lastIp := 0;
      var last := (depth - 1) % 256;
      if last < FUNC_MAX_STACK_DEPTH { lastIp := ips[last]; }
      ips[depth] := ip;
      depth := (depth + 1) % FUNC_MAX_STACK_DEPTH;
      if depth < FUNC_MAX_STACK_DEPTH { ips[depth] := 0; }
      seen := Some(Seen(ip, lastIp));
    }

    method Return() returns (seen: Option<Seen>)
      requires Valid()
      modifies this`depth
      ensures Valid() && (Value(), seen) == Pop(old(Value()))
    {
      if depth == 0 { return None; }
      var lastIp := ips[depth];
      depth := (depth - 1) % FUNC_MAX_STACK_DEPTH;
      seen := Some(Seen(ips[depth], lastIp));
    }
  }
}
