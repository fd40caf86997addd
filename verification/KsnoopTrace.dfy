/** One traced function of ksnoop: what `get_trace`, `ksnoop` and `output_trace` do to
    its `struct trace`, from a probe hit to the event sent to user space. */
module KsnoopTrace {
  import opened BpfMap

  const MAX_TRACES: nat := 6
  const MAX_TRACE_DATA: nat := 2048
  const MAX_TRACE_BUF: nat := 12288
  /** Layout of `struct trace`: where `buf` starts, and the size with its padding. */
  const BUF_START: nat := 4002
  const SIZEOF_TRACE: nat := 16296

  type byte = x: int | 0 <= x < 256

  /** `struct value`; each bit of `flags` is a field of its own. */
  datatype Value = Value(isReturn: bool, typeId: nat, ptr: bool, member: bool, size: nat,
                         eq: bool, ne: bool, gt: bool, lt: bool, operand: nat)
  {
    predicate Tested() {
      eq || ne || gt || lt
    }

    predicate Accepts(raw: nat) {
      (eq && raw == operand) || (ne && raw != operand) || (gt && raw > operand) || (lt && raw < operand)
    }

    predicate Unused() {
      typeId == 0 && !ptr
    }

    /** At most MAX_TRACE_DATA bytes are copied. */
    function Take(): (n: nat)
      ensures n <= size && n <= MAX_TRACE_DATA && (n == size || n == MAX_TRACE_DATA)
    {
      if size > MAX_TRACE_DATA then MAX_TRACE_DATA else size
    }
  }

  const NO_VALUE := Value(false, 0, false, false, 0, false, false, false, false, 0)

  /** The part of `struct trace` fixed by user space. */
  datatype Spec = Spec(values: seq<Value>, stash: bool, filterPid: nat, prevIp: nat, nextIp: nat) {
    predicate Valid() {
      |values| == MAX_TRACES
    }

    predicate InPhase(i: nat, entry: bool)
      requires i < |values|
    {
      values[i].isReturn != entry
    }
  }

  datatype Data = Data(raw: nat, err: bool, off: nat, len: nat)

  const NO_DATA := Data(0, false, 0, 0)

  /** The part written by the probes. */
  datatype Trace = Trace(data: seq<Data>, entry: bool, ret: bool, stash: bool, stashed: bool,
                         bufLen: nat, buf: seq<byte>)
  {
    predicate Valid() {
      |data| == MAX_TRACES && |buf| == MAX_TRACE_BUF
    }
  }

  /** The reads made for one value: the argument register, the pointer or the member
      behind it (a failed member read leaves 0), and the bytes copied. */
  datatype Probe = Probe(arg: nat, deref: Option<nat>, member: nat, copied: Option<seq<byte>>)

  /** One execution of the probe. `reached` says whether `output_stashed_traces` gets
      to the current trace. */
  datatype Hit = Hit(entry: bool, lastIp: nat, pid: nat, probes: seq<Probe>, reached: bool) {
    predicate Valid(spec: Spec)
      requires spec.Valid()
    {
      |probes| == MAX_TRACES &&
      forall i | 0 <= i < MAX_TRACES :: probes[i].copied.Some? ==> |probes[i].copied.value| == spec.values[i].Take()
    }
  }

  datatype Event = Event(trace: Trace, len: nat)

  function Clear(t: Trace): Trace {
    Trace([NO_DATA, NO_DATA, NO_DATA, NO_DATA, NO_DATA, NO_DATA], false, false, false, false, 0, t.buf)
  }

  /** The value compared by a predicate. */
  function Raw(v: Value, p: Probe, old_: nat): nat {
    if !v.member then p.arg
    else if v.ptr then (if p.deref.Some? then p.deref.value else old_)
    else if v.size <= 8 then p.member
    else old_
  }

  function Splice(buf: seq<byte>, at: nat, bytes: seq<byte>): (r: seq<byte>)
    requires at + |bytes| <= |buf|
    ensures |r| == |buf|
  {
    buf[..at] + bytes + buf[at + |bytes|..]
  }

  datatype Verdict = Go(trace: Trace) | Full(trace: Trace) | Reject(trace: Trace)

  /** The body of the loop over values. */
  function Collect(spec: Spec, t: Trace, i: nat, entry: bool, p: Probe): (r: Verdict)
    requires spec.Valid() && t.Valid() && i < MAX_TRACES
    requires p.copied.Some? ==> |p.copied.value| == spec.values[i].Take()
    ensures r.trace.Valid()
  {
    var v := spec.values[i];
    if !spec.InPhase(i, entry) || v.Unused() then Go(t)
    else if v.member && v.ptr && p.deref.None? then Go(t.(data := t.data[i := t.data[i].(err := true)]))
    else
      var d := t.data[i].(raw := Raw(v, p, t.data[i].raw));
      if v.Tested() && !v.Accepts(d.raw) then Reject(t.(data := t.data[i := d]))
      else if t.bufLen + MAX_TRACE_DATA >= MAX_TRACE_BUF then Full(t.(data := t.data[i := d]))
      else if p.copied.None? then Go(t.(data := t.data[i := d.(off := t.bufLen, err := true)]))
      else
        Go(t.(data := t.data[i := d.(off := t.bufLen, len := v.Take())],
              buf := Splice(t.buf, t.bufLen, p.copied.value),
              bufLen := (t.bufLen + v.Take()) % U16))
  }

  /** The loop from value `i` on; false when a predicate fails. */
  function Loop(spec: Spec, t: Trace, i: nat, hit: Hit): (r: (Trace, bool))
    requires spec.Valid() && t.Valid() && i <= MAX_TRACES && hit.Valid(spec)
    ensures r.0.Valid()
    decreases MAX_TRACES - i
  {
    if i == MAX_TRACES then (t, true)
    else
      match Collect(spec, t, i, hit.entry, hit.probes[i])
      case Go(t') => Loop(spec, t', i + 1, hit)
      case Full(t') => (t', true)
      case Reject(t') => (t', false)
  }

  /** The end of `get_trace`; false when the probe is not to be traced. */
  function Ready(spec: Spec, t: Trace, hit: Hit): (r: (Trace, bool))
    requires t.Valid()
    ensures r.0.Valid()
  {
    if !hit.entry && spec.stash && !t.stashed then (t, false)
    else
      var t := if !hit.entry && spec.stash then t else Clear(t);
      if hit.entry then
        if spec.prevIp != 0 && spec.prevIp != hit.lastIp then (t, false)
        else (t.(stash := t.stash || spec.nextIp != 0 || spec.stash), true)
      else
        if spec.nextIp != 0 && spec.nextIp != hit.lastIp then (t, false)
        else (t.(stash := t.stash || spec.prevIp != 0), true)
  }

  /** `output_trace`. */
  function Output(t: Trace): (r: (Trace, Option<Event>))
    requires t.Valid()
    ensures r.0.Valid()
  {
    if t.bufLen == 0 then (Clear(t), None)
    else if t.stash then (t.(stash := false, stashed := true), None)
    else
      var t := t.(stashed := false);
      var len := (SIZEOF_TRACE + t.bufLen - MAX_TRACE_BUF) % U16;
      (Clear(t), if len <= SIZEOF_TRACE then Some(Event(t, len)) else None)
  }

  /** `ksnoop`: one probe hit. */
  function Handle(spec: Spec, t: Trace, hit: Hit): (r: (Trace, Option<Event>))
    requires spec.Valid() && t.Valid() && hit.Valid(spec)
    ensures r.0.Valid()
  {
    var (t, ok) := Ready(spec, t, hit);
    if !ok || (spec.filterPid != 0 && spec.filterPid != hit.pid) then (t, None)
    else
      var (t, ok) := Loop(spec, t.(entry := hit.entry, ret := !hit.entry), 0, hit);
      if !ok then (Clear(t), None)
      else if Chained(spec, hit.entry) && !hit.reached then (t, None)
      else Output(t)
  }

  /** At the last function of a stack on entry, the first on return: the stashed traces go first. */
  predicate Chained(spec: Spec, entry: bool) {
    if entry then spec.prevIp != 0 && spec.nextIp == 0 else spec.nextIp != 0 && spec.prevIp == 0
  }

  // ----- The probe as it is written: a struct trace updated in place -----

  class Cell {
    const spec: Spec
    const data: array<Data>
    const buf: array<byte>
    var entry: bool
    var ret: bool
    var stash: bool
    var stashed: bool
    var bufLen: nat

    ghost predicate Valid() {
      spec.Valid() && data.Length == MAX_TRACES && buf.Length == MAX_TRACE_BUF
    }

    ghost function Value(): (t: Trace)
      requires Valid()
      reads this, data, buf
      ensures t.Valid()
    {
      Trace(data[..], entry, ret, stash, stashed, bufLen, buf[..])
    }

    method ClearTrace()
      requires Valid()
      modifies this, data
      ensures Value() == Clear(old(Value()))
    {
      for i := 0 to MAX_TRACES
        invariant forall j | 0 <= j < i :: data[j] == NO_DATA
      {
        data[i] := NO_DATA;
      }
      entry, ret, stash, stashed := false, false, false, false;
      bufLen := 0;
      assert data[..] == [NO_DATA, NO_DATA, NO_DATA, NO_DATA, NO_DATA, NO_DATA];
    }

    method GetTrace(hit: Hit) returns (ok: bool)
      requires Valid() && bufLen < MAX_TRACE_BUF
      modifies this, data
      ensures (Value(), ok) == Ready(spec, old(Value()), hit) && bufLen < MAX_TRACE_BUF
    {
      if !hit.entry && spec.stash {
        if !stashed { return false; }
      } else {
        ClearTrace();
      }
      if hit.entry {
        if spec.prevIp != 0 && spec.prevIp != hit.lastIp { return false; }
        if spec.nextIp != 0 { stash := true; }
        if spec.stash { stash := true; }
      } else {
        if spec.nextIp != 0 && spec.nextIp != hit.lastIp { return false; }
        if spec.prevIp != 0 { stash := true; }
      }
      ok := true;
    }

    method OutputTrace() returns (out: Option<Event>)
      requires Valid() && bufLen < MAX_TRACE_BUF
      modifies this, data
      ensures (Value(), out) == Output(old(Value())) && bufLen < MAX_TRACE_BUF
    {
      out := None;
      if bufLen != 0 {
        if stash {
          stash, stashed := false, true;
          return;
        }
        if stashed { stashed := false; }
        var len := (SIZEOF_TRACE + bufLen - MAX_TRACE_BUF) % U16;
        if len <= SIZEOF_TRACE {
          out := Some(Event(Trace(data[..], entry, ret, stash, stashed, bufLen, buf[..]), len));
        }
      }
      ClearTrace();
    }

    method CopyIn(bytes: seq<byte>)
      requires Valid() && bufLen + |bytes| <= MAX_TRACE_BUF
      modifies buf
      ensures buf[..] == Splice(old(buf[..]), bufLen, bytes)
    {
      forall k | 0 <= k < |bytes| { buf[bufLen + k] := bytes[k]; }
    }

    /** Reads the value to compare; false when its pointer cannot be read. */
    method ReadRaw(i: nat, p: Probe) returns (ok: bool)
      requires Valid() && i < MAX_TRACES
      modifies data
      ensures ok == !(spec.values[i].member && spec.values[i].ptr && p.deref.None?)
      ensures var d := old(data[i]);
              data[..] == old(data[..])[i := if ok then d.(raw := Raw(spec.values[i], p, d.raw)) else d.(err := true)]
    {
      ok := true;
      var v := spec.values[i];
      if v.member {
        if v.ptr {
          if p.deref.None? {
            data[i] := data[i].(err := true);
            return false;
          }
          data[i] := data[i].(raw := p.deref.value);
        } else if v.size <= 8 {
          data[i] := data[i].(raw := p.member);
        }
      } else {
        data[i] := data[i].(raw := p.arg);
      }
    }

    method Copy(i: nat, p: Probe)
      requires Valid() && i < MAX_TRACES && bufLen + MAX_TRACE_DATA < MAX_TRACE_BUF
      requires p.copied.Some? ==> |p.copied.value| == spec.values[i].Take()
      modifies this`bufLen, data, buf
      ensures var d := old(data[i]).(off := old(bufLen));
              data[..] == old(data[..])[i := if p.copied.Some? then d.(len := spec.values[i].Take()) else d.(err := true)]
      ensures p.copied.Some? ==> buf[..] == Splice(old(buf[..]), old(bufLen), p.copied.value)
                                 && bufLen == (old(bufLen) + spec.values[i].Take()) % U16
      ensures p.copied.None? ==> buf[..] == old(buf[..]) && bufLen == old(bufLen)
    {
      data[i] := data[i].(off := bufLen);
      if p.copied.None? {
        data[i] := data[i].(err := true);
      } else {
        CopyIn(p.copied.value);
        data[i] := data[i].(len := |p.copied.value|);
        bufLen := (bufLen + |p.copied.value|) % U16;
      }
    }

    method Passes(v: Value, raw: nat) returns (ok: bool)
      ensures ok == (v.Tested() ==> v.Accepts(raw))
    {
      if !v.eq && !v.ne && !v.gt && !v.lt { return true; }
      ok := false;
      if v.eq && raw == v.operand { ok := true; }
      if v.ne && raw != v.operand { ok := true; }
      if v.gt && raw > v.operand { ok := true; }
      if v.lt && raw < v.operand { ok := true; }
    }

    /** One turn of the loop over values. */
    method CollectValue(i: nat, hitEntry: bool, p: Probe) returns (go: bool, reject: bool)
      requires Valid() && i < MAX_TRACES && bufLen < MAX_TRACE_BUF
      requires p.copied.Some? ==> |p.copied.value| == spec.values[i].Take()
      modifies this`bufLen, data, buf
      ensures var r := Collect(spec, old(Value()), i, hitEntry, p);
              r == if reject then Reject(Value()) else if go then Go(Value()) else Full(Value())
      ensures bufLen < MAX_TRACE_BUF
    {
      go, reject := true, false;
      var v := spec.values[i];
      if v.isReturn == hitEntry || (v.typeId == 0 && !v.ptr) { return; }
      var ok := ReadRaw(i, p);
      if !ok { return; }
      ok := Passes(v, data[i].raw);
      if !ok { reject := true; return; }
      if bufLen + MAX_TRACE_DATA >= MAX_TRACE_BUF { go := false; return; }
      Copy(i, p);
    }

    method Ksnoop(hit: Hit) returns (out: Option<Event>)
      requires Valid() && hit.Valid(spec) && bufLen < MAX_TRACE_BUF
      modifies this, data, buf
      ensures (Value(), out) == Handle(spec, old(Value()), hit)
      ensures bufLen < MAX_TRACE_BUF
    {
      out := None;
      var ok := GetTrace(hit);
      if !ok || (spec.filterPid != 0 && spec.filterPid != hit.pid) { return; }
      entry, ret := hit.entry, !hit.entry;
      ok := CollectAll(hit);
      if !ok { ClearTrace(); return; }
      if (hit.entry && spec.prevIp != 0 && spec.nextIp == 0) || (!hit.entry && spec.nextIp != 0 && spec.prevIp == 0) {
        if hit.reached { out := OutputTrace(); }
      } else {
        out := OutputTrace();
      }
    }

    method CollectAll(hit: Hit) returns (ok: bool)
      requires Valid() && hit.Valid(spec) && bufLen < MAX_TRACE_BUF
      modifies this`bufLen, data, buf
      ensures (Value(), ok) == Loop(spec, old(Value()), 0, hit) && bufLen < MAX_TRACE_BUF
    {
      var i := 0;
      while i < MAX_TRACES
        invariant i <= MAX_TRACES && bufLen < MAX_TRACE_BUF
        invariant Loop(spec, old(Value()), 0, hit) == Loop(spec, Value(), i, hit)
      {
        var go, reject := CollectValue(i, hit.entry, hit.probes[i]);
        if reject { return false; }
        if !go { return true; }
        i := i + 1;
      }
      ok := true;
    }
  }
}
