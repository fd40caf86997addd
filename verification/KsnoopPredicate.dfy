/** ksnoop's predicate language: `predicate_to_value` turns `==`, `!=`, `>`, `>=`, `<`,
    `<=` into flag bits, `parse_trace` decides when to stash, and the probes evaluate
    the bits on entry and on return. */
module KsnoopPredicate {
  import opened BpfMap
  import opened KsnoopTrace
  import opened KsnoopPacking

  // ----- Compiling a predicate -----

  predicate OperatorText(s: string) {
    s != "" && forall c | c in s :: c in "!=><"
  }

  type Operator = s: string | OperatorText(s) witness "="

  /** What sscanf makes of a predicate: operator characters, then a signed number, or nothing. */
  datatype Pred = Pred(op: Operator, number: int) | Malformed

  predicate SameType(a: Value, b: Value) {
    a.isReturn == b.isReturn && a.typeId == b.typeId && a.ptr == b.ptr && a.member == b.member && a.size == b.size
  }

  /** `predicate_to_value` on a predicate; None is -EINVAL. */
  function Encode(pred: Pred, v: Value): (r: Option<Value>)
    ensures r.Some? ==> SameType(r.value, v) && (v.ptr || 0 < v.size <= 8)
  {
    if pred.Malformed? then None
    else if !v.ptr && (v.size == 0 || v.size > 8) then None
    else
      var v := v.(operand := pred.number % U64);
      if pred.op == "==" then Some(v.(eq := true))
      else if pred.op == "!=" then Some(v.(ne := true))
      else
        var v := if pred.op[0] == '>' then v.(gt := true) else if pred.op[0] == '<' then v.(lt := true) else v;
        if |pred.op| == 1 then Some(v)
        else if pred.op[1] != '=' then None
        else Some(v.(eq := true))
  }

  datatype Cmp = Eq | Ne | Gt | Ge | Lt | Le

  function Text(c: Cmp): Operator {
    match c case Eq => "==" case Ne => "!=" case Gt => ">" case Ge => ">=" case Lt => "<" case Le => "<="
  }

  /** The comparison of 64-bit unsigned words the operator stands for. */
  predicate Compare(c: Cmp, a: nat, b: nat) {
    match c
    case Eq => a == b
    case Ne => a != b
    case Gt => a > b
    case Ge => a >= b
    case Lt => a < b
    case Le => a <= b
  }

  /** Each documented operator, once compiled, accepts exactly the words that compare. */
  lemma OperatorsMeanComparisons(c: Cmp, number: int, v: Value, raw: nat)
    requires !v.Tested() && (v.ptr || 0 < v.size <= 8)
    ensures var r := Encode(Pred(Text(c), number), v);
            r.Some? && r.value.Tested() && (r.value.Accepts(raw) <==> Compare(c, raw, number % U64))
  {
  }

  predicate Accepted(op: Operator) {
    |op| == 1 || op[1] == '='
  }

  /** What an accepted operator text compares for: once the second character is `=` the first
      alone decides, so `!==` stands for equality, and a lone `=` or `!` for no test at all. */
  function Meaning(op: Operator): Option<Cmp> {
    if op == "!=" then Some(Ne)
    else if op == ">" then Some(Gt)
    else if op == "<" then Some(Lt)
    else if |op| == 1 then None
    else if op[0] == '>' then Some(Ge)
    else if op[0] == '<' then Some(Le)
    else Some(Eq)
  }

  lemma SixOperatorsAccepted(c: Cmp)
    ensures Accepted(Text(c)) && Meaning(Text(c)) == Some(c)
  {
  }

  /** Exactly which operator texts are accepted, and what the bits then test. */
  lemma OperatorsAccepted(op: Operator, number: int, v: Value, raw: nat)
    requires !v.Tested() && (v.ptr || 0 < v.size <= 8)
    ensures var r := Encode(Pred(op, number), v);
            && (r.Some? <==> Accepted(op))
            && (r.Some? ==> (r.value.Tested() <==> Meaning(op).Some?))
            && (r.Some? ==> (r.value.Accepts(raw) <==> Meaning(op).Some? && Compare(Meaning(op).value, raw, number % U64)))
  {
    assert op[0] in "!=><";
  }

  /** The predicate as written holds of a word. */
  predicate Holds(pred: Pred, raw: nat) {
    pred.Pred? && Meaning(pred.op).Some? ==> Compare(Meaning(pred.op).value, raw, pred.number % U64)
  }

  method PredicateToValue(pred: Option<Pred>, v: Value) returns (ok: bool, r: Value)
    ensures pred.None? ==> ok && r == v
    ensures pred.Some? ==> (ok <==> Encode(pred.value, v).Some?) && (ok ==> r == Encode(pred.value, v).value)
  {
    r := v;
    if pred.None? { return true, r; }
    if pred.value.Malformed? { return false, r; }
    var op := pred.value.op;
    if !v.ptr && (v.size == 0 || v.size > 8) { return false, r; }
    r := r.(operand := pred.value.number % U64);
    if op == "==" { return true, r.(eq := true); }
    if op == "!=" { return true, r.(ne := true); }
    if op[0] == '>' {
      r := r.(gt := true);
    } else if op[0] == '<' {
      r := r.(lt := true);
    }
    if |op| == 1 { return true, r; }
    if op[1] != '=' { return false, r; }
    ok, r := true, r.(eq := true);
  }

  // ----- Compiling a trace -----

  /** A traced argument or result: its value as resolved from the types, and its predicate. */
  datatype Arg = Arg(value: Value, pred: Option<Pred>)

  /** Resolving types leaves no predicate bits; the size stored for void is none, or an error
      code taken for an unsigned number, so it cannot be compared. */
  predicate Resolved(a: Arg) {
    !a.value.Tested() && (a.value.Unused() ==> a.value.size == 0 || a.value.size > 8)
  }

  function Compile1(a: Arg): (r: Option<Value>)
    ensures r.Some? ==> SameType(r.value, a.value) && (a.pred.Some? ==> a.value.ptr || 0 < a.value.size <= 8)
  {
    hide Encode;
    match a.pred
    case None => Some(a.value)
    case Some(pred) => Encode(pred, a.value)
  }

  predicate Compiles(args: seq<Arg>) {
    |args| <= MAX_TRACES && forall a | a in args :: Compile1(a).Some?
  }

  /** The values of a trace with arguments given, padded with unused ones. */
  function Values(args: seq<Arg>): (vs: seq<Value>)
    requires Compiles(args)
    ensures |vs| == MAX_TRACES
  {
    seq(MAX_TRACES, i requires 0 <= i < MAX_TRACES => if i < |args| then Compile1(args[i]).value else NO_VALUE)
  }

  /** `parse_trace`: stash when a predicate is given and both sides of the call are traced. */
  predicate Stashes(args: seq<Arg>) {
    && (exists i | 0 <= i < |args| :: args[i].pred.Some?)
    && (exists i | 0 <= i < |args| :: !args[i].value.isReturn)
    && (exists i | 0 <= i < |args| :: args[i].value.isReturn)
  }

  function Compile(args: seq<Arg>, filterPid: nat): (spec: Spec)
    requires Compiles(args)
    ensures spec.Valid()
  {
    Spec(Values(args), Stashes(args), filterPid, 0, 0)
  }

  /** The argument loop of `parse_trace` with its three counters. */
  method ParseTrace(args: seq<Arg>, filterPid: nat) returns (r: Option<Spec>)
    requires forall i | 0 <= i < |args| :: Resolved(args[i])
    ensures r.Some? <==> Compiles(args)
    ensures r.Some? ==> r.value == Compile(args, filterPid)
    ensures r.Some? ==>
              (r.value.stash <==>
                && (exists i | 0 <= i < |args| :: args[i].pred.Some?)
                && (exists i | 0 <= i < |args| :: args[i].value.isReturn)
                && (exists i | 0 <= i < |args| :: !args[i].value.isReturn))
  {
    hide Encode, OperatorText;
    var values: seq<Value> := [];
    var nrPredicates, nrEntry, nrReturn := 0, 0, 0;
    for i := 0 to |args|
      invariant |values| == i <= MAX_TRACES
      invariant forall k | 0 <= k < i :: Compile1(args[k]) == Some(values[k])
      invariant nrPredicates > 0 <==> exists k | 0 <= k < i :: args[k].pred.Some?
      invariant nrEntry > 0 <==> exists k | 0 <= k < i :: !args[k].value.isReturn
      invariant nrReturn > 0 <==> exists k | 0 <= k < i :: args[k].value.isReturn
      invariant nrPredicates >= 0 && nrEntry >= 0 && nrReturn >= 0
    {
      if i >= MAX_TRACES { return None; }
      var a := args[i];
      assert a in args;
      var ok, v := PredicateToValue(a.pred, a.value);
      if !ok { return None; }
      values := values + [v];
      if a.pred.Some? { nrPredicates := nrPredicates + 1; }
      if v.isReturn { nrReturn := nrReturn + 1; } else { nrEntry := nrEntry + 1; }
    }
    while |values| < MAX_TRACES
      invariant |args| <= |values| <= MAX_TRACES
      invariant forall k | 0 <= k < |args| :: Compile1(args[k]) == Some(values[k])
      invariant forall k | |args| <= k < |values| :: values[k] == NO_VALUE
    {
      values := values + [NO_VALUE];
    }
    assert values == Values(args);
    r := Some(Spec(values, nrPredicates > 0 && nrEntry > 0 && nrReturn > 0, filterPid, 0, 0));
  }

  // ----- Running a compiled trace -----

  /** Every pointer, member and buffer read of a hit succeeds. */
  predicate ReadsSucceed(hit: Hit) {
    forall i | 0 <= i < |hit.probes| :: hit.probes[i].deref.Some? && hit.probes[i].copied.Some?
  }

  /** The word a traced value amounts to in a hit. */
  function Word(v: Value, p: Probe): nat {
    Raw(v, p, 0)
  }

  /** Memory by address, in bytes, and the words in it. */
  type Memory = nat -> byte

  function LittleEndian(mem: Memory, at: nat, n: nat): nat
    decreases n
  {
    if n == 0 then 0 else mem(at) + 256 * LittleEndian(mem, at + 1, n - 1)
  }

  /** The reads that a probe makes for a value whose member, if it is one, is `offset` bytes into
      what the argument points to: of a pointer there, and of as many bytes as the value has. */
  function ReadsOf(mem: Memory, v: Value, arg: nat, offset: nat, copied: Option<seq<byte>>): Probe {
    var at := (arg + offset) % U64;
    Probe(arg, Some(LittleEndian(mem, at, 8)), LittleEndian(mem, at, v.size), copied)
  }

  /** The word compared is the argument itself, or the pointer or number that the member holds. */
  lemma WordIsInMemory(mem: Memory, v: Value, arg: nat, offset: nat, copied: Option<seq<byte>>)
    requires v.member && !v.ptr ==> v.size <= 8
    ensures Word(v, ReadsOf(mem, v, arg, offset, copied)) ==
            if v.member then LittleEndian(mem, (arg + offset) % U64, if v.ptr then 8 else v.size) else arg
  {
  }

  /** Every predicate on the values of one phase holds of what the hit read. */
  predicate AllHold(args: seq<Arg>, hit: Hit)
    requires |args| <= |hit.probes|
  {
    forall i | 0 <= i < |args| && args[i].value.isReturn != hit.entry && args[i].pred.Some? ::
      Holds(args[i].pred.value, Word(args[i].value, hit.probes[i]))
  }

  /** The phase has a value that fills at least a byte. */
  predicate Fills(args: seq<Arg>, entry: bool) {
    exists i | 0 <= i < |args| :: args[i].value.isReturn != entry && !args[i].value.Unused() && args[i].value.size > 0
  }

  // The same on compiled values.

  predicate Passes(spec: Spec, hit: Hit, i: nat)
    requires spec.Valid() && |hit.probes| == MAX_TRACES && i < MAX_TRACES
  {
    var v := spec.values[i];
    spec.InPhase(i, hit.entry) && v.Tested() ==> v.Accepts(Word(v, hit.probes[i]))
  }

  predicate Copied(spec: Spec, i: nat, entry: bool)
    requires spec.Valid() && i < MAX_TRACES
  {
    spec.InPhase(i, entry) && !spec.values[i].Unused() && spec.values[i].size > 0
  }

  /** How many values of a phase are at or after `i`. */
  function Left(spec: Spec, i: nat, entry: bool): (n: nat)
    requires spec.Valid() && i <= MAX_TRACES
    ensures n <= MAX_TRACES - i
    decreases MAX_TRACES - i
  {
    if i == MAX_TRACES then 0 else Left(spec, i + 1, entry) + if spec.InPhase(i, entry) then 1 else 0
  }

  lemma {:induction false} PhasesShare(spec: Spec, i: nat)
    requires spec.Valid() && i <= MAX_TRACES
    ensures Left(spec, i, true) + Left(spec, i, false) == MAX_TRACES - i
    decreases MAX_TRACES - i
  {
    if i < MAX_TRACES { PhasesShare(spec, i + 1); }
  }

  /** Compiled values: an unused one is not tested, a tested one is a word. */
  predicate Sound(spec: Spec) {
    spec.Valid() && forall i | 0 <= i < MAX_TRACES ::
      spec.values[i].Tested() ==> !spec.values[i].Unused() && (spec.values[i].ptr || spec.values[i].size <= 8)
  }

  /** What one turn of the loop does when reads succeed. */
  lemma CollectOutcome(spec: Spec, t: Trace, i: nat, hit: Hit)
    requires Sound(spec) && t.Valid() && hit.Valid(spec) && ReadsSucceed(hit) && i < MAX_TRACES
    requires t.bufLen < MAX_TRACE_BUF
    ensures var r := Collect(spec, t, i, hit.entry, hit.probes[i]);
            && (r.Reject? <==> !Passes(spec, hit, i))
            && (r.Full? ==> t.bufLen >= MAX_TRACE_BUF - MAX_TRACE_DATA && spec.InPhase(i, hit.entry)
                            && r.trace.bufLen == t.bufLen)
            && (r.Go? ==> r.trace.bufLen == t.bufLen + if Copied(spec, i, hit.entry) then spec.values[i].Take() else 0)
  {
    assert spec.values[i].Tested() ==> !spec.values[i].Unused();
  }

  predicate AllPass(spec: Spec, hit: Hit, i: nat)
    requires spec.Valid() && |hit.probes| == MAX_TRACES && i <= MAX_TRACES
    decreases MAX_TRACES - i
  {
    i == MAX_TRACES || (Passes(spec, hit, i) && AllPass(spec, hit, i + 1))
  }

  predicate AnyCopied(spec: Spec, entry: bool, i: nat)
    requires spec.Valid() && i <= MAX_TRACES
    decreases MAX_TRACES - i
  {
    i < MAX_TRACES && (Copied(spec, i, entry) || AnyCopied(spec, entry, i + 1))
  }

  lemma {:induction false} AllPassIsForall(spec: Spec, hit: Hit, i: nat)
    requires spec.Valid() && |hit.probes| == MAX_TRACES && i <= MAX_TRACES
    ensures AllPass(spec, hit, i) <==> forall j | i <= j < MAX_TRACES :: Passes(spec, hit, j)
    decreases MAX_TRACES - i
  {
    hide Passes;
    if i < MAX_TRACES { AllPassIsForall(spec, hit, i + 1); }
  }

  lemma {:induction false} AnyCopiedIsExists(spec: Spec, entry: bool, i: nat)
    requires spec.Valid() && i <= MAX_TRACES
    ensures AnyCopied(spec, entry, i) <==> exists j | i <= j < MAX_TRACES :: Copied(spec, j, entry)
    decreases MAX_TRACES - i
  {
    hide Copied;
    if i < MAX_TRACES { AnyCopiedIsExists(spec, entry, i + 1); }
  }

  /** The loop evaluates every predicate of its phase: it can stop early only when the
      buffer is full, and `room` for the values still to come says that is the last one. */
  lemma {:induction false} LoopSeesAll(spec: Spec, t: Trace, i: nat, hit: Hit, room: nat)
    requires Sound(spec) && t.Valid() && hit.Valid(spec) && ReadsSucceed(hit) && i <= MAX_TRACES
    requires t.bufLen < MAX_TRACE_BUF
    requires t.bufLen + MAX_TRACE_DATA * (Left(spec, i, hit.entry) + room) <= MAX_TRACE_BUF
    ensures var r := Loop(spec, t, i, hit);
            && (r.1 <==> AllPass(spec, hit, i))
            && (r.1 ==> r.0.bufLen < MAX_TRACE_BUF && r.0.bufLen + MAX_TRACE_DATA * room <= MAX_TRACE_BUF)
            && (r.1 ==> (r.0.bufLen > 0 <==> t.bufLen > 0 || AnyCopied(spec, hit.entry, i)))
    decreases MAX_TRACES - i
  {
    if i < MAX_TRACES {
      hide Collect, Passes, Copied, Sound, ReadsSucceed;
      SoundIsValid(spec);
      CollectOutcome(spec, t, i, hit);
      CollectRoom(spec, t, i, hit);
      var r := Collect(spec, t, i, hit.entry, hit.probes[i]);
      if r.Go? {
        LoopSeesAll(spec, r.trace, i + 1, hit, room);
      } else if r.Full? {
        NoneLeftPasses(spec, hit, i + 1);
      }
    }
  }

  lemma SoundIsValid(spec: Spec)
    requires Sound(spec)
    ensures spec.Valid()
  {
  }

  lemma {:induction false} NoneLeftPasses(spec: Spec, hit: Hit, i: nat)
    requires spec.Valid() && |hit.probes| == MAX_TRACES && i <= MAX_TRACES && Left(spec, i, hit.entry) == 0
    ensures AllPass(spec, hit, i)
    decreases MAX_TRACES - i
  {
    if i < MAX_TRACES { NoneLeftPasses(spec, hit, i + 1); }
  }

  lemma CollectRoom(spec: Spec, t: Trace, i: nat, hit: Hit)
    requires Sound(spec) && t.Valid() && hit.Valid(spec) && ReadsSucceed(hit) && i < MAX_TRACES
    requires t.bufLen < MAX_TRACE_BUF
    ensures var r := Collect(spec, t, i, hit.entry, hit.probes[i]);
            && (r.Go? ==> r.trace.bufLen < MAX_TRACE_BUF)
            && (r.Go? && spec.InPhase(i, hit.entry) ==> r.trace.bufLen <= t.bufLen + MAX_TRACE_DATA)
            && (r.Go? && !spec.InPhase(i, hit.entry) ==> r.trace.bufLen == t.bufLen)
            && (r.Go? ==> (r.trace.bufLen > t.bufLen <==> Copied(spec, i, hit.entry)) && r.trace.bufLen >= t.bufLen)
  {
    CollectOutcome(spec, t, i, hit);
  }

  lemma CompiledIsSound(args: seq<Arg>, filterPid: nat)
    requires Compiles(args) && forall i | 0 <= i < |args| :: Resolved(args[i])
    ensures Sound(Compile(args, filterPid))
  {
    var spec := Compile(args, filterPid);
    hide Encode;
    forall i | 0 <= i < MAX_TRACES
      ensures spec.values[i].Tested() ==> !spec.values[i].Unused() && (spec.values[i].ptr || spec.values[i].size <= 8)
    {
      if i < |args| {
        assert args[i] in args && Resolved(args[i]);
      }
    }
  }

  lemma EncodedIsScanned(pred: Pred, v: Value)
    ensures Encode(pred, v).Some? ==> pred.Pred?
  {
  }

  lemma PassIsHold(args: seq<Arg>, filterPid: nat, hit: Hit, i: nat)
    requires Compiles(args) && i < |args| && Resolved(args[i]) && |hit.probes| == MAX_TRACES
    ensures Passes(Compile(args, filterPid), hit, i) <==>
            (args[i].value.isReturn != hit.entry && args[i].pred.Some? ==>
               Holds(args[i].pred.value, Word(args[i].value, hit.probes[i])))
    ensures Copied(Compile(args, filterPid), i, hit.entry) <==>
            args[i].value.isReturn != hit.entry && !args[i].value.Unused() && args[i].value.size > 0
  {
    hide Encode, Compare, Meaning, OperatorText;
    var a, v := args[i], Values(args)[i];
    assert a in args && v == Compile1(a).value;
    if a.pred.Some? {
      EncodedIsScanned(a.pred.value, a.value);
      OperatorsAccepted(a.pred.value.op, a.pred.value.number, a.value, Word(a.value, hit.probes[i]));
      assert Word(v, hit.probes[i]) == Word(a.value, hit.probes[i]);
    }
  }

  /** The compiled form says what the predicates as written say. */
  lemma CompiledMeans(args: seq<Arg>, filterPid: nat, hit: Hit)
    requires Compiles(args) && (forall i | 0 <= i < |args| :: Resolved(args[i])) && |hit.probes| == MAX_TRACES
    ensures var spec := Compile(args, filterPid);
            && (AllPass(spec, hit, 0) <==> AllHold(args, hit))
            && (AnyCopied(spec, hit.entry, 0) <==> Fills(args, hit.entry))
  {
    hide Passes, Copied, Holds, Word, Compile1;
    var spec := Compile(args, filterPid);
    AllPassIsForall(spec, hit, 0);
    AnyCopiedIsExists(spec, hit.entry, 0);
    forall i | 0 <= i < |args|
      ensures Passes(spec, hit, i) <==>
              (args[i].value.isReturn != hit.entry && args[i].pred.Some? ==>
                 Holds(args[i].pred.value, Word(args[i].value, hit.probes[i])))
      ensures Copied(spec, i, hit.entry) <==>
              args[i].value.isReturn != hit.entry && !args[i].value.Unused() && args[i].value.size > 0
    {
      PassIsHold(args, filterPid, hit, i);
    }
    forall i | |args| <= i < MAX_TRACES ensures Passes(spec, hit, i) && !Copied(spec, i, hit.entry) {
      PaddingIsIdle(spec, hit, i);
    }
  }

  lemma PaddingIsIdle(spec: Spec, hit: Hit, i: nat)
    requires spec.Valid() && |hit.probes| == MAX_TRACES && i < MAX_TRACES && spec.values[i] == NO_VALUE
    ensures Passes(spec, hit, i) && !Copied(spec, i, hit.entry)
  {
  }

  predicate Wanted(spec: Spec, hit: Hit) {
    spec.filterPid == 0 || spec.filterPid == hit.pid
  }

  /** A stashing entry leaves a stash behind exactly when its predicates hold and it has
      something to show, and then leaves room for the return values. */
  lemma StashEntry(spec: Spec, t: Trace, e: Hit)
    requires Sound(spec) && spec.stash && spec.prevIp == spec.nextIp == 0 && t.Valid()
    requires e.Valid(spec) && e.entry && ReadsSucceed(e)
    ensures var t1 := Handle(spec, t, e).0;
            && (t1.stashed <==> Wanted(spec, e) && AllPass(spec, e, 0) && AnyCopied(spec, true, 0))
            && (t1.stashed ==> !t1.stash && 0 < t1.bufLen < MAX_TRACE_BUF
                               && t1.bufLen + MAX_TRACE_DATA * Left(spec, 0, false) <= MAX_TRACE_BUF)
  {
    hide Loop, AllPass, AnyCopied, Left, Sound, ReadsSucceed;
    SoundIsValid(spec);
    var t0 := Clear(t).(stash := true, entry := true, ret := false);
    PhasesShare(spec, 0);
    LoopSeesAll(spec, t0, 0, e, Left(spec, 0, false));
    LoopKeeps(spec, t0, 0, e);
  }

  /** The hit comes through the direct link that the trace asks for. */
  predicate Linked(spec: Spec, hit: Hit) {
    if hit.entry then spec.prevIp == 0 || spec.prevIp == hit.lastIp else spec.nextIp == 0 || spec.nextIp == hit.lastIp
  }

  lemma ReadyIffLinked(spec: Spec, t: Trace, hit: Hit)
    requires t.Valid() && !Continues(spec, hit)
    ensures Ready(spec, t, hit).1 <==> Linked(spec, hit)
    ensures var r := Ready(spec, t, hit);
            && r.0.bufLen == 0 && !r.0.stashed
            && (r.1 ==> (r.0.stash <==> if hit.entry then spec.nextIp != 0 || spec.stash else spec.prevIp != 0))
  {
  }

  /** What becomes of any hit that starts afresh: an entry, or a return of a trace that does not
      stash; stack mode included. It has something to show if it is linked, wanted, passes
      its predicates and fills a byte. Then it is held back if there is more of the stack to
      come (after an entry the next function, after a return the previous one) or if the
      trace stashes, and sent otherwise. At the last function of a stack this happens only
      if the walk over the stashed traces gets there; if not, the trace is left as it is,
      neither sent nor stashed. A hit with nothing to show leaves nothing. */
  lemma HitOutcome(spec: Spec, t: Trace, hit: Hit)
    requires Sound(spec) && t.Valid() && hit.Valid(spec) && ReadsSucceed(hit) && !Continues(spec, hit)
    ensures var (t', out) := Handle(spec, t, hit);
            var shows := Linked(spec, hit) && Wanted(spec, hit) && AllPass(spec, hit, 0) && AnyCopied(spec, hit.entry, 0);
            var held := if hit.entry then spec.nextIp != 0 || spec.stash else spec.prevIp != 0;
            var last := if hit.entry then spec.prevIp != 0 && spec.nextIp == 0 else spec.nextIp != 0 && spec.prevIp == 0;
            && (out.Some? <==> shows && !held && (last ==> hit.reached))
            && (t'.stashed <==> shows && held && (last ==> hit.reached))
            && (t'.bufLen > 0 <==> shows && (held || (last && !hit.reached)))
  {
    hide Loop, AllPass, AnyCopied, Left, Sound, ReadsSucceed, Ready, Linked;
    SoundIsValid(spec);
    ReadyIffLinked(spec, t, hit);
    var t0 := Start(spec, t, hit);
    PhasesShare(spec, 0);
    LoopSeesAll(spec, t0, 0, hit, 0);
    LoopKeeps(spec, t0, 0, hit);
  }

  /** And of a return of a stashing trace: nothing without a stash; with one that has room left for
      the return values it goes on from there, and is held back again if there is a previous
      function in the stack. */
  lemma ContinuedOutcome(spec: Spec, t: Trace, r: Hit)
    requires Sound(spec) && t.Valid() && r.Valid(spec) && ReadsSucceed(r) && Continues(spec, r)
    requires t.stashed ==>
               !t.stash && 0 < t.bufLen < MAX_TRACE_BUF
               && t.bufLen + MAX_TRACE_DATA * Left(spec, 0, false) <= MAX_TRACE_BUF
    ensures var (t', out) := Handle(spec, t, r);
            var shows := t.stashed && Linked(spec, r) && Wanted(spec, r) && AllPass(spec, r, 0);
            var last := spec.nextIp != 0 && spec.prevIp == 0;
            && (out.Some? <==> shows && spec.prevIp == 0 && (last ==> r.reached))
            && (shows && spec.prevIp != 0 ==> t'.stashed && t'.bufLen >= t.bufLen)
            && (!t.stashed ==> t' == t)
  {
    hide Loop, AllPass, AnyCopied, Left, Sound, ReadsSucceed;
    SoundIsValid(spec);
    if t.stashed {
      var t0 := Start(spec, t, r);
      LoopSeesAll(spec, t0, 0, r, 0);
      LoopKeeps(spec, t0, 0, r);
      LoopGrows(spec, t0, 0, r);
    }
  }

  lemma {:induction false} LoopGrows(spec: Spec, t: Trace, i: nat, hit: Hit)
    requires spec.Valid() && t.Valid() && i <= MAX_TRACES && hit.Valid(spec) && t.bufLen < MAX_TRACE_BUF
    ensures t.bufLen <= Loop(spec, t, i, hit).0.bufLen < MAX_TRACE_BUF
    decreases MAX_TRACES - i
  {
    if i < MAX_TRACES {
      hide Collect, Bad;
      CollectGrows(spec, t, i, hit);
      var v := Collect(spec, t, i, hit.entry, hit.probes[i]);
      if v.Go? { LoopGrows(spec, v.trace, i + 1, hit); }
    }
  }

  lemma ReturnSends(spec: Spec, t: Trace, r: Hit)
    requires Sound(spec) && spec.prevIp == spec.nextIp == 0 && t.Valid() && r.Valid(spec) && !r.entry && ReadsSucceed(r)
    requires spec.stash && t.stashed ==>
               !t.stash && 0 < t.bufLen < MAX_TRACE_BUF
               && t.bufLen + MAX_TRACE_DATA * Left(spec, 0, false) <= MAX_TRACE_BUF
    ensures Handle(spec, t, r).1.Some? <==>
            && Wanted(spec, r) && AllPass(spec, r, 0)
            && if spec.stash then t.stashed else AnyCopied(spec, false, 0)
  {
    hide Loop, AllPass, AnyCopied, Left, Sound, ReadsSucceed;
    SoundIsValid(spec);
    if spec.stash && !t.stashed { return; }
    var t0 := (if spec.stash then t else Clear(t)).(entry := false, ret := true);
    PhasesShare(spec, 0);
    LoopSeesAll(spec, t0, 0, r, 0);
    LoopKeeps(spec, t0, 0, r);
  }

  /** The counterpart for entries, outside stack mode: an entry event is sent exactly when the trace
      does not hold it back for the return, every predicate on the arguments holds, the
      process is wanted and there is something to show. */
  lemma EntryEventIffAllHold(args: seq<Arg>, filterPid: nat, t: Trace, e: Hit)
    requires Compiles(args) && (forall i | 0 <= i < |args| :: Resolved(args[i])) && t.Valid()
    requires e.Valid(Compile(args, filterPid)) && e.entry && ReadsSucceed(e)
    ensures Handle(Compile(args, filterPid), t, e).1.Some? <==>
            !Stashes(args) && (filterPid == 0 || filterPid == e.pid) && AllHold(args, e) && Fills(args, true)
  {
    hide Handle, AllHold, Fills, AllPass, AnyCopied, Sound, Values, Stashes, ReadsSucceed;
    CompiledIsSound(args, filterPid);
    CompiledMeans(args, filterPid, e);
    HitOutcome(Compile(args, filterPid), t, e);
  }

  lemma UnstashedEntryHolds(args: seq<Arg>, e: Hit)
    requires !Stashes(args) && e.entry && |args| <= |e.probes|
    ensures AllHold(args, e) || !Fills(args, false)
  {
  }

  /** Across one call, from any earlier state of its trace: a return event is sent exactly
      when every predicate on the arguments held on entry, every predicate on the result
      held on return, the process is wanted and there is something to show. */
  lemma ReturnEventIffAllHold(args: seq<Arg>, filterPid: nat, t: Trace, e: Hit, r: Hit)
    requires Compiles(args) && (forall i | 0 <= i < |args| :: Resolved(args[i])) && t.Valid()
    requires var spec := Compile(args, filterPid); e.Valid(spec) && r.Valid(spec)
    requires e.entry && !r.entry && e.pid == r.pid && ReadsSucceed(e) && ReadsSucceed(r)
    ensures var spec := Compile(args, filterPid);
            Handle(spec, Handle(spec, t, e).0, r).1.Some? <==>
            && (filterPid == 0 || filterPid == e.pid)
            && AllHold(args, e) && AllHold(args, r) && Fills(args, Stashes(args))
  {
    hide Handle, AllHold, Fills, AllPass, AnyCopied, Left, Sound, Values, Stashes;
    var spec := Compile(args, filterPid);
    CompiledIsSound(args, filterPid);
    CompiledMeans(args, filterPid, e);
    CompiledMeans(args, filterPid, r);
    if spec.stash { StashEntry(spec, t, e); } else { UnstashedEntryHolds(args, e); }
    ReturnSends(spec, Handle(spec, t, e).0, r);
  }
}
