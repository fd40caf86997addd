/** The values of one ksnoop event share a buffer: where each was put, and that the
    trimmed event carries them all intact. */
module KsnoopPacking {
  import opened BpfMap
  import opened KsnoopTrace

  predicate Apart(a: Data, b: Data) {
    a.len == 0 || b.len == 0 || a.off + a.len <= b.off || b.off + b.len <= a.off
  }

  /** Value `i` occupies a segment of the used part of the buffer that still holds `bytes`. */
  predicate Stored(t: Trace, i: nat, bytes: seq<byte>)
    requires t.Valid() && i < MAX_TRACES && t.bufLen <= MAX_TRACE_BUF
  {
    var d := t.data[i];
    d.len == |bytes| && d.off + d.len <= t.bufLen && t.buf[d.off..d.off + d.len] == bytes
  }

  /** `rec[i]` is what was last copied for value `i` since the trace was cleared. */
  ghost predicate Packed(t: Trace, rec: seq<seq<byte>>) {
    && t.Valid() && |rec| == MAX_TRACES && t.bufLen < MAX_TRACE_BUF
    && (forall i | 0 <= i < MAX_TRACES :: Stored(t, i, rec[i]))
    && forall i, j | 0 <= i < j < MAX_TRACES :: Apart(t.data[i], t.data[j])
  }

  const NOTHING: seq<seq<byte>> := [[], [], [], [], [], []]

  lemma ClearPacks(t: Trace)
    requires t.Valid()
    ensures Packed(Clear(t), NOTHING)
  {
  }

  /** Whether the loop body gets as far as copying value `i`. */
  predicate Copies(spec: Spec, t: Trace, i: nat, entry: bool, p: Probe)
    requires spec.Valid() && t.Valid() && i < MAX_TRACES
  {
    var v := spec.values[i];
    && spec.InPhase(i, entry) && !v.Unused() && !(v.member && v.ptr && p.deref.None?)
    && !(v.Tested() && !v.Accepts(Raw(v, p, t.data[i].raw)))
    && t.bufLen + MAX_TRACE_DATA < MAX_TRACE_BUF
  }

  function Record(spec: Spec, t: Trace, rec: seq<seq<byte>>, i: nat, entry: bool, p: Probe): (r: seq<seq<byte>>)
    requires spec.Valid() && t.Valid() && i < MAX_TRACES && |rec| == MAX_TRACES
    ensures |r| == MAX_TRACES
  {
    if Copies(spec, t, i, entry, p) && p.copied.Some? then rec[i := p.copied.value] else rec
  }

  lemma SpliceKeeps(buf: seq<byte>, at: nat, bytes: seq<byte>, lo: nat, hi: nat)
    requires at + |bytes| <= |buf| && lo <= hi <= at
    ensures Splice(buf, at, bytes)[lo..hi] == buf[lo..hi]
    ensures Splice(buf, at, bytes)[at..at + |bytes|] == bytes
  {
  }

  lemma CopyPacks(t: Trace, rec: seq<seq<byte>>, i: nat, d: Data, bytes: seq<byte>)
    requires Packed(t, rec) && i < MAX_TRACES && |bytes| <= MAX_TRACE_DATA
    requires t.bufLen + MAX_TRACE_DATA < MAX_TRACE_BUF
    ensures Packed(t.(data := t.data[i := d.(off := t.bufLen, len := |bytes|)],
                      buf := Splice(t.buf, t.bufLen, bytes), bufLen := t.bufLen + |bytes|),
                   rec[i := bytes])
  {
    var t' := t.(data := t.data[i := d.(off := t.bufLen, len := |bytes|)],
                 buf := Splice(t.buf, t.bufLen, bytes), bufLen := t.bufLen + |bytes|);
    var rec' := rec[i := bytes];
    forall j | 0 <= j < MAX_TRACES ensures Stored(t', j, rec'[j]) {
      assert Stored(t, j, rec[j]);
      SpliceKeeps(t.buf, t.bufLen, bytes, t.data[j].off, t.data[j].off + t.data[j].len);
    }
    forall j, k | 0 <= j < k < MAX_TRACES ensures Apart(t'.data[j], t'.data[k]) {
      assert Apart(t.data[j], t.data[k]);
      assert Stored(t, j, rec[j]) && Stored(t, k, rec[k]);
    }
  }

  lemma RelabelPacks(t: Trace, rec: seq<seq<byte>>, i: nat, d: Data)
    requires Packed(t, rec) && i < MAX_TRACES && d.len == t.data[i].len
    requires d.off == t.data[i].off || (d.off == t.bufLen && d.len == 0)
    ensures Packed(t.(data := t.data[i := d]), rec)
  {
    var t' := t.(data := t.data[i := d]);
    assert Stored(t, i, rec[i]);
    forall j | 0 <= j < MAX_TRACES ensures Stored(t', j, rec[j]) {
      assert Stored(t, j, rec[j]);
      assert d.len == 0 ==> t.buf[d.off..d.off + d.len] == [];
    }
  }

  /** A value that was recorded before is collected again and its copy fails. */
  predicate Bad(spec: Spec, t: Trace, i: nat, entry: bool, p: Probe)
    requires spec.Valid() && t.Valid() && i < MAX_TRACES
  {
    Copies(spec, t, i, entry, p) && p.copied.None? && t.data[i].len != 0
  }

  /** The loop body keeps the buffer packed, unless a second copy of a value fails. */
  lemma CollectPacks(spec: Spec, t: Trace, rec: seq<seq<byte>>, i: nat, entry: bool, p: Probe)
    requires spec.Valid() && i < MAX_TRACES && Packed(t, rec) && !Bad(spec, t, i, entry, p)
    requires p.copied.Some? ==> |p.copied.value| == spec.values[i].Take()
    ensures !Collect(spec, t, i, entry, p).Reject? ==>
              Packed(Collect(spec, t, i, entry, p).trace, Record(spec, t, rec, i, entry, p))
  {
    hide Packed;
    PackedBounds(t, rec);
    var r, v := Collect(spec, t, i, entry, p), spec.values[i];
    if r.Reject? || !spec.InPhase(i, entry) || v.Unused() {
    } else if v.member && v.ptr && p.deref.None? {
      RelabelPacks(t, rec, i, t.data[i].(err := true));
    } else {
      var d := t.data[i].(raw := Raw(v, p, t.data[i].raw));
      if t.bufLen + MAX_TRACE_DATA >= MAX_TRACE_BUF {
        RelabelPacks(t, rec, i, d);
      } else if p.copied.None? {
        RelabelPacks(t, rec, i, d.(off := t.bufLen, err := true));
      } else {
        CopyPacks(t, rec, i, d, p.copied.value);
      }
    }
  }

  lemma PackedBounds(t: Trace, rec: seq<seq<byte>>)
    requires Packed(t, rec)
    ensures t.Valid() && |rec| == MAX_TRACES && t.bufLen < MAX_TRACE_BUF
  {
  }

  /** Some segment sticks out of the used part, or starts where another one does. */
  predicate Misplaced(t: Trace, x: nat, y: nat)
    requires t.Valid() && x < MAX_TRACES && y < MAX_TRACES
  {
    && t.data[x].len > 0
    && (t.data[x].off + t.data[x].len > t.bufLen || (x != y && t.data[y].len > 0 && t.data[y].off == t.data[x].off))
  }

  lemma MisplacedIsNotPacked(t: Trace, x: nat, y: nat, rec: seq<seq<byte>>)
    requires t.Valid() && x < MAX_TRACES && y < MAX_TRACES && Misplaced(t, x, y)
    ensures !Packed(t, rec)
  {
    hide Packed, Misplaced;
    if Packed(t, rec) { PackedIsPlaced(t, x, y, rec); }
  }

  lemma PackedIsPlaced(t: Trace, x: nat, y: nat, rec: seq<seq<byte>>)
    requires Packed(t, rec) && x < MAX_TRACES && y < MAX_TRACES
    ensures !Misplaced(t, x, y)
  {
    assert Stored(t, x, rec[x]);
    assert x < y ==> Apart(t.data[x], t.data[y]);
    assert y < x ==> Apart(t.data[y], t.data[x]);
  }

  function LoopRecord(spec: Spec, t: Trace, rec: seq<seq<byte>>, i: nat, hit: Hit): (r: seq<seq<byte>>)
    requires spec.Valid() && t.Valid() && i <= MAX_TRACES && hit.Valid(spec) && |rec| == MAX_TRACES
    ensures |r| == MAX_TRACES
    decreases MAX_TRACES - i
  {
    if i == MAX_TRACES then rec
    else
      var rec' := Record(spec, t, rec, i, hit.entry, hit.probes[i]);
      match Collect(spec, t, i, hit.entry, hit.probes[i])
      case Go(t') => LoopRecord(spec, t', rec', i + 1, hit)
      case Full(_) => rec'
      case Reject(_) => rec
  }

  /** No turn of the loop from `i` on is a second copy that fails. */
  predicate LoopClean(spec: Spec, t: Trace, i: nat, hit: Hit)
    requires spec.Valid() && t.Valid() && i <= MAX_TRACES && hit.Valid(spec)
    decreases MAX_TRACES - i
  {
    i == MAX_TRACES ||
    (!Bad(spec, t, i, hit.entry, hit.probes[i]) &&
     var v := Collect(spec, t, i, hit.entry, hit.probes[i]);
     v.Go? ==> LoopClean(spec, v.trace, i + 1, hit))
  }

  lemma {:induction false} LoopPacks(spec: Spec, t: Trace, rec: seq<seq<byte>>, i: nat, hit: Hit)
    requires spec.Valid() && i <= MAX_TRACES && hit.Valid(spec) && Packed(t, rec) && LoopClean(spec, t, i, hit)
    ensures var r := Loop(spec, t, i, hit); r.1 ==> Packed(r.0, LoopRecord(spec, t, rec, i, hit))
    decreases MAX_TRACES - i
  {
    hide Packed, Collect, Record, Bad;
    PackedBounds(t, rec);
    if i < MAX_TRACES {
      CollectPacks(spec, t, rec, i, hit.entry, hit.probes[i]);
      var v := Collect(spec, t, i, hit.entry, hit.probes[i]);
      if v.Go? {
        LoopPacks(spec, v.trace, Record(spec, t, rec, i, hit.entry, hit.probes[i]), i + 1, hit);
      }
    }
  }

  // ----- And exactly then -----

  lemma CollectLocal(spec: Spec, t: Trace, i: nat, hit: Hit)
    requires spec.Valid() && t.Valid() && i < MAX_TRACES && hit.Valid(spec)
    ensures var t' := Collect(spec, t, i, hit.entry, hit.probes[i]).trace;
            forall j | 0 <= j < MAX_TRACES && j != i :: t'.data[j] == t.data[j]
  {
  }

  lemma {:induction false} LoopLocal(spec: Spec, t: Trace, i: nat, hit: Hit)
    requires spec.Valid() && t.Valid() && i <= MAX_TRACES && hit.Valid(spec)
    ensures forall j | 0 <= j < i :: Loop(spec, t, i, hit).0.data[j] == t.data[j]
    decreases MAX_TRACES - i
  {
    if i < MAX_TRACES {
      hide Collect;
      CollectLocal(spec, t, i, hit);
      var v := Collect(spec, t, i, hit.entry, hit.probes[i]);
      if v.Go? { LoopLocal(spec, v.trace, i + 1, hit); }
    }
  }

  /** A turn leaves the used length alone or records a segment that starts where it ended. */
  lemma CollectGrows(spec: Spec, t: Trace, i: nat, hit: Hit)
    requires spec.Valid() && t.Valid() && i < MAX_TRACES && hit.Valid(spec) && t.bufLen < MAX_TRACE_BUF
    ensures var t' := Collect(spec, t, i, hit.entry, hit.probes[i]).trace;
            && t.bufLen <= t'.bufLen < MAX_TRACE_BUF
            && (t'.bufLen > t.bufLen ==> t'.data[i].off == t.bufLen && t'.data[i].len > 0)
            && (Bad(spec, t, i, hit.entry, hit.probes[i]) ==>
                  t'.bufLen == t.bufLen == t'.data[i].off && t'.data[i].len > 0)
  {
  }

  /** A segment left at the end of the used part sticks out, or is soon overwritten. */
  lemma {:induction false} StaysMisplaced(spec: Spec, t: Trace, i: nat, hit: Hit, x: nat) returns (y: nat)
    requires spec.Valid() && t.Valid() && x < i <= MAX_TRACES && hit.Valid(spec) && t.bufLen < MAX_TRACE_BUF
    requires t.data[x].off == t.bufLen && t.data[x].len > 0 && Loop(spec, t, i, hit).1
    ensures y < MAX_TRACES && Misplaced(Loop(spec, t, i, hit).0, x, y)
    decreases MAX_TRACES - i
  {
    y := x;
    if i < MAX_TRACES {
      CollectLocal(spec, t, i, hit);
      CollectGrows(spec, t, i, hit);
      hide Collect, Bad;
      var v := Collect(spec, t, i, hit.entry, hit.probes[i]);
      if v.trace.bufLen > t.bufLen {
        y := i;
        if v.Go? { LoopLocal(spec, v.trace, i + 1, hit); }
      } else if v.Go? {
        y := StaysMisplaced(spec, v.trace, i + 1, hit, x);
      }
    }
  }

  lemma {:induction false} DirtyLoopMisplaces(spec: Spec, t: Trace, i: nat, hit: Hit) returns (x: nat, y: nat)
    requires spec.Valid() && t.Valid() && i <= MAX_TRACES && hit.Valid(spec) && t.bufLen < MAX_TRACE_BUF
    requires !LoopClean(spec, t, i, hit) && Loop(spec, t, i, hit).1
    ensures x < MAX_TRACES && y < MAX_TRACES && Misplaced(Loop(spec, t, i, hit).0, x, y)
    decreases MAX_TRACES - i
  {
    CollectGrows(spec, t, i, hit);
    BadGoesOn(spec, t, i, hit);
    hide Collect, Bad, Misplaced;
    var v := Collect(spec, t, i, hit.entry, hit.probes[i]);
    if Bad(spec, t, i, hit.entry, hit.probes[i]) {
      x := i;
      y := StaysMisplaced(spec, v.trace, i + 1, hit, i);
    } else {
      x, y := DirtyLoopMisplaces(spec, v.trace, i + 1, hit);
    }
  }

  lemma BadGoesOn(spec: Spec, t: Trace, i: nat, hit: Hit)
    requires spec.Valid() && t.Valid() && i < MAX_TRACES && hit.Valid(spec)
    ensures Bad(spec, t, i, hit.entry, hit.probes[i]) ==> Collect(spec, t, i, hit.entry, hit.probes[i]).Go?
  {
  }

  ghost predicate WellPlaced(t: Trace) {
    exists rec :: Packed(t, rec)
  }

  /** From a packed buffer, a loop that passes leaves the segments well placed if and only if
      no second copy of a value failed in it. */
  lemma LoopPacksIff(spec: Spec, t: Trace, rec: seq<seq<byte>>, hit: Hit)
    requires spec.Valid() && hit.Valid(spec) && Packed(t, rec) && Loop(spec, t, 0, hit).1
    ensures WellPlaced(Loop(spec, t, 0, hit).0) <==> LoopClean(spec, t, 0, hit)
  {
    hide Packed, LoopClean, Loop, LoopRecord;
    PackedBounds(t, rec);
    if LoopClean(spec, t, 0, hit) {
      LoopPacks(spec, t, rec, 0, hit);
    } else {
      var x, y := DirtyLoopMisplaces(spec, t, 0, hit);
      forall rec' ensures !Packed(Loop(spec, t, 0, hit).0, rec') {
        MisplacedIsNotPacked(Loop(spec, t, 0, hit).0, x, y, rec');
      }
    }
  }

  /** The values of the current phase from `i` on have not been collected yet. */
  ghost predicate Untouched(spec: Spec, t: Trace, i: nat, entry: bool)
    requires spec.Valid() && t.Valid()
  {
    forall j | i <= j < MAX_TRACES :: spec.InPhase(j, entry) ==> t.data[j].len == 0
  }

  lemma {:induction false} UntouchedIsClean(spec: Spec, t: Trace, i: nat, hit: Hit)
    requires spec.Valid() && t.Valid() && i <= MAX_TRACES && hit.Valid(spec) && Untouched(spec, t, i, hit.entry)
    ensures LoopClean(spec, t, i, hit)
    decreases MAX_TRACES - i
  {
    if i < MAX_TRACES {
      CollectLocal(spec, t, i, hit);
      hide Collect;
      var v := Collect(spec, t, i, hit.entry, hit.probes[i]);
      if v.Go? { UntouchedIsClean(spec, v.trace, i + 1, hit); }
    }
  }

  /** What the record says of value `j`: what it said before, or what this hit read. */
  ghost predicate From(spec: Spec, hit: Hit, j: nat, before: seq<byte>, after: seq<byte>)
    requires spec.Valid() && hit.Valid(spec) && j < MAX_TRACES
  {
    after == before || (spec.InPhase(j, hit.entry) && hit.probes[j].copied == Some(after))
  }

  lemma {:induction false} LoopRecordShape(spec: Spec, t: Trace, rec: seq<seq<byte>>, i: nat, hit: Hit, j: nat)
    requires spec.Valid() && t.Valid() && i <= MAX_TRACES && hit.Valid(spec) && |rec| == MAX_TRACES && j < MAX_TRACES
    ensures From(spec, hit, j, rec[j], LoopRecord(spec, t, rec, i, hit)[j])
    decreases MAX_TRACES - i
  {
    if i < MAX_TRACES {
      hide Collect;
      var rec' := Record(spec, t, rec, i, hit.entry, hit.probes[i]);
      var v := Collect(spec, t, i, hit.entry, hit.probes[i]);
      if v.Go? {
        LoopRecordShape(spec, v.trace, rec', i + 1, hit, j);
      }
    }
  }

  // ----- Whole hits -----

  /** A return of a stashing trace goes on with what the entry left. */
  predicate Continues(spec: Spec, hit: Hit) {
    !hit.entry && spec.stash
  }

  /** The hit gets as far as the loop. */
  predicate Goes(spec: Spec, t: Trace, hit: Hit)
    requires t.Valid()
  {
    Ready(spec, t, hit).1 && (spec.filterPid == 0 || spec.filterPid == hit.pid)
  }

  /** The trace that the loop starts from, and what it leaves. */
  function Start(spec: Spec, t: Trace, hit: Hit): (r: Trace)
    requires t.Valid()
    ensures r.Valid()
  {
    Ready(spec, t, hit).0.(entry := hit.entry, ret := !hit.entry)
  }

  function Looped(spec: Spec, t: Trace, hit: Hit): (r: (Trace, bool))
    requires spec.Valid() && t.Valid() && hit.Valid(spec)
    ensures r.0.Valid()
  {
    Loop(spec, Start(spec, t, hit), 0, hit)
  }

  function StartRecord(spec: Spec, rec: seq<seq<byte>>, hit: Hit): seq<seq<byte>> {
    if Continues(spec, hit) then rec else NOTHING
  }

  /** The record after a hit's loop. */
  function HitRecord(spec: Spec, t: Trace, rec: seq<seq<byte>>, hit: Hit): (r: seq<seq<byte>>)
    requires spec.Valid() && t.Valid() && hit.Valid(spec) && |rec| == MAX_TRACES
    ensures |r| == MAX_TRACES
  {
    LoopRecord(spec, Start(spec, t, hit), StartRecord(spec, rec, hit), 0, hit)
  }

  function OutputRecord(t: Trace, rec: seq<seq<byte>>): seq<seq<byte>> {
    if t.bufLen > 0 && t.stash then rec else NOTHING
  }

  /** The record after a hit: what was copied since the trace was last cleared. */
  function NextRecord(spec: Spec, t: Trace, rec: seq<seq<byte>>, hit: Hit): (r: seq<seq<byte>>)
    requires spec.Valid() && t.Valid() && hit.Valid(spec) && |rec| == MAX_TRACES
    ensures |r| == MAX_TRACES
  {
    if !Goes(spec, t, hit) then StartRecord(spec, rec, hit)
    else
      var (t', ok) := Looped(spec, t, hit);
      if !ok then NOTHING
      else if Chained(spec, hit.entry) && !hit.reached then HitRecord(spec, t, rec, hit)
      else OutputRecord(t', HitRecord(spec, t, rec, hit))
  }

  /** A loop of the hit that passes has no second copy that fails. */
  predicate Clean(spec: Spec, t: Trace, hit: Hit)
    requires spec.Valid() && t.Valid() && hit.Valid(spec)
  {
    Goes(spec, t, hit) && Looped(spec, t, hit).1 ==> LoopClean(spec, Start(spec, t, hit), 0, hit)
  }

  lemma StartPacks(spec: Spec, t: Trace, rec: seq<seq<byte>>, hit: Hit)
    requires t.Valid() && (Continues(spec, hit) ==> Packed(t, rec))
    ensures Packed(Ready(spec, t, hit).0, StartRecord(spec, rec, hit))
    ensures Packed(Start(spec, t, hit), StartRecord(spec, rec, hit))
  {
    ClearPacks(t);
    var r, rec0 := Ready(spec, t, hit).0, StartRecord(spec, rec, hit);
    assert Packed(r, rec0) by {
      FlagsKeepPacked(if Continues(spec, hit) then t else Clear(t), r, rec0);
    }
    FlagsKeepPacked(r, Start(spec, t, hit), rec0);
  }

  lemma FlagsKeepPacked(t: Trace, t': Trace, rec: seq<seq<byte>>)
    requires Packed(t, rec) && t'.data == t.data && t'.buf == t.buf && t'.bufLen == t.bufLen
    ensures Packed(t', rec)
  {
    forall i | 0 <= i < MAX_TRACES ensures Stored(t', i, rec[i]) {
      assert Stored(t, i, rec[i]);
    }
  }

  /** An output keeps the buffer packed; what is not stashed and not empty is sent, trimmed to a
      length that is never refused and still covers every recorded segment. */
  lemma OutputPacks(t: Trace, rec: seq<seq<byte>>)
    requires Packed(t, rec)
    ensures var r := Output(t);
            && Packed(r.0, OutputRecord(t, rec))
            && (t.bufLen > 0 && !t.stash ==> r.1.Some?)
            && (r.1.Some? ==> Carries(r.1.value, rec))
  {
    hide Packed;
    PackedBounds(t, rec);
    ClearPacks(t);
    ClearPacks(t.(stashed := false));
    FlagsKeepPacked(t, t.(stashed := false), rec);
    FlagsKeepPacked(t, t.(stash := false, stashed := true), rec);
  }

  /** The event holds every recorded segment within the bytes that are sent, and but for padding
      nothing of the buffer beyond them. */
  ghost predicate Carries(e: Event, rec: seq<seq<byte>>) {
    Packed(e.trace, rec) && BUF_START + e.trace.bufLen <= e.len < BUF_START + e.trace.bufLen + 8 && e.len <= SIZEOF_TRACE
  }

  /** It says which side of the call sent it, and is no longer marked as held back. */
  lemma SentIsMarked(spec: Spec, t: Trace, hit: Hit)
    requires spec.Valid() && t.Valid() && hit.Valid(spec) && Handle(spec, t, hit).1.Some?
    ensures var sent := Handle(spec, t, hit).1.value.trace;
            sent.entry == hit.entry && sent.ret == !hit.entry && !sent.stash && !sent.stashed
  {
    LoopKeepsSide(spec, Start(spec, t, hit), 0, hit);
    hide Loop;
  }

  lemma {:induction false} LoopKeepsSide(spec: Spec, t: Trace, i: nat, hit: Hit)
    requires spec.Valid() && t.Valid() && i <= MAX_TRACES && hit.Valid(spec)
    ensures var r := Loop(spec, t, i, hit).0; r.entry == t.entry && r.ret == t.ret
    decreases MAX_TRACES - i
  {
    if i < MAX_TRACES {
      var v := Collect(spec, t, i, hit.entry, hit.probes[i]);
      if v.Go? { LoopKeepsSide(spec, v.trace, i + 1, hit); }
    }
  }

  /** One clean hit keeps the buffer packed with what was copied, and an event it sends carries
      all of it. */
  lemma HandlePacks(spec: Spec, t: Trace, rec: seq<seq<byte>>, hit: Hit)
    requires spec.Valid() && t.Valid() && hit.Valid(spec) && |rec| == MAX_TRACES && Clean(spec, t, hit)
    requires Continues(spec, hit) ==> Packed(t, rec)
    ensures Packed(Handle(spec, t, hit).0, NextRecord(spec, t, rec, hit))
    ensures var out := Handle(spec, t, hit).1; out.Some? ==> Carries(out.value, HitRecord(spec, t, rec, hit))
  {
    hide Packed, Ready, Loop, LoopRecord, LoopClean, Output, Carries;
    StartPacks(spec, t, rec, hit);
    if Goes(spec, t, hit) {
      var (t', ok) := Looped(spec, t, hit);
      if ok {
        LoopPacks(spec, Start(spec, t, hit), StartRecord(spec, rec, hit), 0, hit);
        OutputPacks(t', HitRecord(spec, t, rec, hit));
      } else {
        ClearPacks(t');
      }
    }
  }

  // ----- Whole runs -----

  /** A probe hit, or a flush of this trace by the probe of another function. */
  datatype Move = Probed(hit: Hit) | Flushed

  predicate ValidRun(spec: Spec, run: seq<Move>)
    requires spec.Valid()
  {
    forall i | 0 <= i < |run| :: run[i].Probed? ==> run[i].hit.Valid(spec)
  }

  function After(spec: Spec, t: Trace, run: seq<Move>): (r: Trace)
    requires spec.Valid() && t.Valid() && ValidRun(spec, run)
    ensures r.Valid()
  {
    if run == [] then t
    else
      var t' := After(spec, t, run[..|run| - 1]);
      match run[|run| - 1]
      case Probed(hit) => Handle(spec, t', hit).0
      case Flushed => Output(t').0
  }

  /** What a run from a cleared trace has copied for each value since the last clear. */
  function Recorded(spec: Spec, t: Trace, run: seq<Move>): (rec: seq<seq<byte>>)
    requires spec.Valid() && t.Valid() && ValidRun(spec, run)
    ensures |rec| == MAX_TRACES
  {
    if run == [] then NOTHING
    else
      var t', rec := After(spec, t, run[..|run| - 1]), Recorded(spec, t, run[..|run| - 1]);
      match run[|run| - 1]
      case Probed(hit) => NextRecord(spec, t', rec, hit)
      case Flushed => OutputRecord(t', rec)
  }

  /** No hit of the run copies a value for the second time and fails. */
  predicate CleanRun(spec: Spec, t: Trace, run: seq<Move>)
    requires spec.Valid() && t.Valid() && ValidRun(spec, run)
  {
    run == [] ||
    var before, last := run[..|run| - 1], run[|run| - 1];
    CleanRun(spec, t, before) && (last.Probed? ==> Clean(spec, After(spec, t, before), last.hit))
  }

  /** Whatever the loop of a hit hands on to be stashed or sent is well placed. */
  ghost predicate PlacedRun(spec: Spec, t: Trace, run: seq<Move>)
    requires spec.Valid() && t.Valid() && ValidRun(spec, run)
  {
    run == [] ||
    var before, last := run[..|run| - 1], run[|run| - 1];
    PlacedRun(spec, t, before) && (last.Probed? ==> PlacedHit(spec, After(spec, t, before), last.hit))
  }

  ghost predicate PlacedHit(spec: Spec, t: Trace, hit: Hit)
    requires spec.Valid() && t.Valid() && hit.Valid(spec)
  {
    Goes(spec, t, hit) && Looped(spec, t, hit).1 ==> WellPlaced(Looped(spec, t, hit).0)
  }

  /** In every clean run from a cleared trace, stash and stack mode included, the recorded
      segments are pairwise disjoint, inside the used part of the buffer, and hold what was
      copied into them. */
  lemma {:induction false} RunPacks(spec: Spec, t: Trace, run: seq<Move>)
    requires spec.Valid() && t.Valid() && ValidRun(spec, run) && CleanRun(spec, Clear(t), run)
    ensures Packed(After(spec, Clear(t), run), Recorded(spec, Clear(t), run))
  {
    if run == [] {
      ClearPacks(t);
    } else {
      hide Packed, Handle, Output, Clear, NextRecord, Clean;
      RunPacks(spec, t, run[..|run| - 1]);
      var t', rec := After(spec, Clear(t), run[..|run| - 1]), Recorded(spec, Clear(t), run[..|run| - 1]);
      match run[|run| - 1]
      case Probed(hit) => HandlePacks(spec, t', rec, hit);
      case Flushed => OutputPacks(t', rec);
    }
  }

  /** So whatever a clean run sends next, from a hit or a flush, carries all that was copied since
      the last clear, and no event is refused for its length. */
  lemma RunSendsAll(spec: Spec, t: Trace, run: seq<Move>, hit: Hit)
    requires spec.Valid() && t.Valid() && ValidRun(spec, run) && CleanRun(spec, Clear(t), run) && hit.Valid(spec)
    requires Clean(spec, After(spec, Clear(t), run), hit)
    ensures var t', rec := After(spec, Clear(t), run), Recorded(spec, Clear(t), run);
            var sent, flushed := Handle(spec, t', hit).1, Output(t').1;
            && (sent.Some? ==> Carries(sent.value, HitRecord(spec, t', rec, hit)))
            && (flushed.Some? ==> Carries(flushed.value, rec)) && (t'.bufLen > 0 && !t'.stash ==> flushed.Some?)
  {
    hide Packed, Handle, Output, Clean, Carries, HitRecord, After, Recorded;
    RunPacks(spec, t, run);
    var t', rec := After(spec, Clear(t), run), Recorded(spec, Clear(t), run);
    HandlePacks(spec, t', rec, hit);
    OutputPacks(t', rec);
  }

  lemma HitPlacedIff(spec: Spec, t: Trace, rec: seq<seq<byte>>, hit: Hit)
    requires spec.Valid() && hit.Valid(spec) && Packed(t, rec)
    ensures t.Valid() && (PlacedHit(spec, t, hit) <==> Clean(spec, t, hit))
  {
    hide Packed, Ready, Loop, LoopClean, WellPlaced;
    PackedBounds(t, rec);
    StartPacks(spec, t, rec, hit);
    if Goes(spec, t, hit) && Looped(spec, t, hit).1 {
      LoopPacksIff(spec, Start(spec, t, hit), StartRecord(spec, rec, hit), hit);
    }
  }

  /** And in every run at all: everything handed on is well placed if and only if the run is
      clean. */
  lemma {:induction false} RunPlacedIff(spec: Spec, t: Trace, run: seq<Move>)
    requires spec.Valid() && t.Valid() && ValidRun(spec, run)
    ensures PlacedRun(spec, Clear(t), run) <==> CleanRun(spec, Clear(t), run)
  {
    if run != [] {
      hide Packed, Handle, Output, Clear, NextRecord, Clean, PlacedHit, Recorded, After;
      var before, last := run[..|run| - 1], run[|run| - 1];
      RunPlacedIff(spec, t, before);
      if CleanRun(spec, Clear(t), before) && last.Probed? {
        RunPacks(spec, t, before);
        HitPlacedIff(spec, After(spec, Clear(t), before), Recorded(spec, Clear(t), before), last.hit);
      }
    }
  }

  /** Every hit that gets as far as the loop finds the values of its phase not collected yet. */
  ghost predicate CollectsOnce(spec: Spec, t: Trace, run: seq<Move>)
    requires spec.Valid() && t.Valid() && ValidRun(spec, run)
  {
    run == [] ||
    var before, last := run[..|run| - 1], run[|run| - 1];
    CollectsOnce(spec, t, before) && (last.Probed? ==> HitOnce(spec, After(spec, t, before), last.hit))
  }

  ghost predicate HitOnce(spec: Spec, t: Trace, hit: Hit)
    requires spec.Valid() && t.Valid() && hit.Valid(spec)
  {
    Goes(spec, t, hit) ==> Untouched(spec, Start(spec, t, hit), 0, hit.entry)
  }

  lemma {:induction false} CollectedOnceIsClean(spec: Spec, t: Trace, run: seq<Move>)
    requires spec.Valid() && t.Valid() && ValidRun(spec, run) && CollectsOnce(spec, t, run)
    ensures CleanRun(spec, t, run)
  {
    if run != [] {
      hide Untouched, Loop, Ready, LoopClean, After;
      var before, last := run[..|run| - 1], run[|run| - 1];
      CollectedOnceIsClean(spec, t, before);
      var t' := After(spec, t, before);
      if last.Probed? && Goes(spec, t', last.hit) {
        UntouchedIsClean(spec, Start(spec, t', last.hit), 0, last.hit);
      }
    }
  }

  // ----- Traces outside stack mode -----

  /** The flags and the values of the other phase are as they were. */
  ghost predicate Aside(spec: Spec, t: Trace, t': Trace, entry: bool)
    requires spec.Valid() && t.Valid() && t'.Valid()
  {
    && t'.stash == t.stash && t'.stashed == t.stashed
    && forall j | 0 <= j < MAX_TRACES :: !spec.InPhase(j, entry) ==> t'.data[j] == t.data[j]
  }

  lemma CollectKeeps(spec: Spec, t: Trace, i: nat, hit: Hit)
    requires spec.Valid() && t.Valid() && i < MAX_TRACES && hit.Valid(spec)
    ensures Aside(spec, t, Collect(spec, t, i, hit.entry, hit.probes[i]).trace, hit.entry)
  {
  }

  lemma {:induction false} LoopKeeps(spec: Spec, t: Trace, i: nat, hit: Hit)
    requires spec.Valid() && t.Valid() && i <= MAX_TRACES && hit.Valid(spec)
    ensures Aside(spec, t, Loop(spec, t, i, hit).0, hit.entry)
    decreases MAX_TRACES - i
  {
    if i < MAX_TRACES {
      hide Collect;
      CollectKeeps(spec, t, i, hit);
      var v := Collect(spec, t, i, hit.entry, hit.probes[i]);
      if v.Go? { LoopKeeps(spec, v.trace, i + 1, hit); }
    }
  }

  predicate Simple(spec: Spec) {
    spec.stash ==> spec.prevIp == 0 && spec.nextIp == 0
  }

  /** A stashed trace has its return values still to come; a stash in progress is empty. */
  ghost predicate AwaitsReturn(spec: Spec, t: Trace)
    requires spec.Valid() && t.Valid()
  {
    && (spec.stash && t.stashed ==> Untouched(spec, t, 0, false))
    && (spec.stash && t.stash ==> !t.stashed && t.bufLen == 0)
  }

  lemma CleanStart(spec: Spec, t: Trace, hit: Hit)
    requires spec.Valid() && t.Valid() && !Continues(spec, hit)
    ensures var r := Ready(spec, t, hit).0;
            !r.stashed && r.bufLen == 0 && (forall j | 0 <= j < MAX_TRACES :: r.data[j] == NO_DATA) && (r.stash ==> hit.entry || spec.prevIp != 0)
  {
  }

  lemma SimpleHit(spec: Spec, t: Trace, hit: Hit)
    requires spec.Valid() && t.Valid() && hit.Valid(spec) && Simple(spec) && AwaitsReturn(spec, t)
    ensures AwaitsReturn(spec, Handle(spec, t, hit).0) && HitOnce(spec, t, hit)
  {
    var t0 := Start(spec, t, hit);
    if !Continues(spec, hit) { CleanStart(spec, t, hit); }
    LoopKeeps(spec, t0, 0, hit);
    hide Loop;
  }

  /** Unless stash and stack mode are combined, no run collects a value twice. */
  lemma {:induction false} SimpleCollectsOnce(spec: Spec, t: Trace, run: seq<Move>)
    requires spec.Valid() && t.Valid() && ValidRun(spec, run) && Simple(spec)
    ensures CollectsOnce(spec, Clear(t), run) && AwaitsReturn(spec, After(spec, Clear(t), run))
  {
    if run != [] {
      hide Handle, HitOnce, AwaitsReturn, Clear, Simple;
      var before, last := run[..|run| - 1], run[|run| - 1];
      SimpleCollectsOnce(spec, t, before);
      var t' := After(spec, Clear(t), before);
      if last.Probed? { SimpleHit(spec, t', last.hit); } else { FlushAwaits(spec, t'); }
    }
  }

  lemma FlushAwaits(spec: Spec, t: Trace)
    requires spec.Valid() && t.Valid() && Simple(spec) && AwaitsReturn(spec, t)
    ensures AwaitsReturn(spec, Output(t).0)
  {
  }

  // ----- A call of a stashing trace -----

  /** What is recorded when the return of a call has been through its loop. */
  function CallRecord(spec: Spec, t: Trace, e: Hit, r: Hit): (rec: seq<seq<byte>>)
    requires spec.Valid() && t.Valid() && e.Valid(spec) && r.Valid(spec)
    ensures |rec| == MAX_TRACES
  {
    HitRecord(spec, Handle(spec, t, e).0, NextRecord(spec, t, NOTHING, e), r)
  }

  /** The entry of a stashing trace leaves the return values to be collected. */
  lemma EntryAwaits(spec: Spec, t: Trace, e: Hit)
    requires spec.Valid() && t.Valid() && e.Valid(spec) && e.entry
    ensures Untouched(spec, Handle(spec, t, e).0, 0, false)
  {
    CleanStart(spec, t, e);
    LoopKeeps(spec, Start(spec, t, e), 0, e);
    hide Loop;
  }

  /** What the event of a stashed call contains, whatever was traced before it: for each value
      nothing, or exactly the bytes read for it, on entry for an argument and on return for
      the result. */
  lemma StashedEventIsIntact(spec: Spec, t: Trace, e: Hit, r: Hit, j: nat)
    requires spec.Valid() && spec.stash && t.Valid() && e.Valid(spec) && r.Valid(spec) && e.entry && !r.entry
    requires j < MAX_TRACES
    ensures var out, sent := Handle(spec, Handle(spec, t, e).0, r).1, CallRecord(spec, t, e, r);
            && (out.Some? ==> Carries(out.value, sent))
            && (sent[j] == [] || (if spec.InPhase(j, true) then e else r).probes[j].copied == Some(sent[j]))
  {
    hide Packed, Handle, Clean, NextRecord, LoopRecord, Untouched;
    var t1, held := Handle(spec, t, e).0, NextRecord(spec, t, NOTHING, e);
    EntryIsClean(spec, t, e);
    HandlePacks(spec, t, NOTHING, e);
    EntryAwaits(spec, t, e);
    ReturnIsClean(spec, t1, r);
    HandlePacks(spec, t1, held, r);
    EntryRecordShape(spec, t, e, j);
    LoopRecordShape(spec, Start(spec, t1, r), held, 0, r, j);
  }

  lemma EntryIsClean(spec: Spec, t: Trace, e: Hit)
    requires spec.Valid() && t.Valid() && e.Valid(spec) && !Continues(spec, e)
    ensures Clean(spec, t, e)
  {
    hide Ready, Loop, LoopClean;
    CleanStart(spec, t, e);
    UntouchedIsClean(spec, Start(spec, t, e), 0, e);
  }

  lemma ReturnIsClean(spec: Spec, t: Trace, r: Hit)
    requires spec.Valid() && t.Valid() && r.Valid(spec) && Continues(spec, r) && Untouched(spec, t, 0, false)
    ensures Clean(spec, t, r)
  {
    hide Loop, LoopClean;
    UntouchedIsClean(spec, Start(spec, t, r), 0, r);
  }

  lemma EntryRecordShape(spec: Spec, t: Trace, e: Hit, j: nat)
    requires spec.Valid() && t.Valid() && e.Valid(spec) && e.entry && j < MAX_TRACES
    ensures From(spec, e, j, [], NextRecord(spec, t, NOTHING, e)[j])
  {
    hide Loop, LoopRecord, Ready;
    LoopRecordShape(spec, Start(spec, t, e), NOTHING, 0, e, j);
  }

  // ----- Combining the two does collect a value twice -----

  const FOUR_BYTES := Value(false, 1, false, false, 4, false, false, false, false, 0)

  /** A stashing trace between two functions of a stack, with an argument and a result. */
  const CHAINED_STASH := Spec([FOUR_BYTES, FOUR_BYTES.(isReturn := true), NO_VALUE, NO_VALUE, NO_VALUE, NO_VALUE], true, 0, 5, 7)

  function ProbesOf(copied: Option<seq<byte>>): seq<Probe> {
    var read, idle := Probe(0, None, 0, copied), Probe(0, None, 0, None);
    [read, read, idle, idle, idle, idle]
  }

  function HitOf(entry: bool, copied: Option<seq<byte>>): Hit {
    Hit(entry, if entry then 5 else 7, 0, ProbesOf(copied), false)
  }

  /** The trace after so many bytes for the argument and the result. */
  predicate Holding(t: Trace, argument: nat, result: nat) {
    && t.Valid() && t.stashed && !t.stash && t.bufLen == argument + result
    && t.data[0].len == argument && t.data[1].len == result
  }

  lemma ChainedEntry(t: Trace, bytes: seq<byte>)
    requires t.Valid() && |bytes| == 4
    ensures HitOf(true, Some(bytes)).Valid(CHAINED_STASH)
    ensures Holding(Handle(CHAINED_STASH, t, HitOf(true, Some(bytes))).0, 4, 0)
  {
    var hit := HitOf(true, Some(bytes));
    var t0 := Start(CHAINED_STASH, t, hit);
    var t1 := Collect(CHAINED_STASH, t0, 0, true, hit.probes[0]).trace;
    LoopIdle(t1, 1, hit);
  }

  lemma ChainedReturn(t: Trace, bytes: seq<byte>)
    requires Holding(t, 4, 0) && |bytes| == 4
    ensures HitOf(false, Some(bytes)).Valid(CHAINED_STASH)
    ensures Holding(Handle(CHAINED_STASH, t, HitOf(false, Some(bytes))).0, 4, 4)
  {
    var hit := HitOf(false, Some(bytes));
    var t0 := Start(CHAINED_STASH, t, hit);
    var t1 := Collect(CHAINED_STASH, t0, 1, false, hit.probes[1]).trace;
    LoopIdle(t1, 2, hit);
  }

  lemma ChainedFailure(t: Trace)
    requires Holding(t, 4, 4)
    ensures HitOf(false, None).Valid(CHAINED_STASH)
    ensures var t' := Handle(CHAINED_STASH, t, HitOf(false, None)).0;
            t'.stashed && t'.data[1].len == 4 && t'.data[1].off == t'.bufLen
  {
    var hit := HitOf(false, None);
    var t0 := Start(CHAINED_STASH, t, hit);
    var t1 := Collect(CHAINED_STASH, t0, 1, false, hit.probes[1]).trace;
    LoopIdle(t1, 2, hit);
  }

  /** The rest of the loop has nothing to do. */
  lemma {:induction false} LoopIdle(t: Trace, i: nat, hit: Hit)
    requires t.Valid() && 1 <= i <= MAX_TRACES && hit.Valid(CHAINED_STASH) && (hit.entry || i >= 2)
    ensures Loop(CHAINED_STASH, t, i, hit) == (t, true)
    decreases MAX_TRACES - i
  {
    if i < MAX_TRACES { LoopIdle(t, i + 1, hit); }
  }

  /** An entry, its return and a second return whose copy fails: from any trace, the stash is
      left with a segment outside the used part of the buffer. */
  lemma SecondReturnMisplaces(t: Trace, bytes: seq<byte>)
    requires t.Valid() && |bytes| == 4
    ensures var run := [Probed(HitOf(true, Some(bytes))), Probed(HitOf(false, Some(bytes))), Probed(HitOf(false, None))];
            && ValidRun(CHAINED_STASH, run)
            && var t' := After(CHAINED_STASH, Clear(t), run);
               t'.stashed && t'.data[1].off + t'.data[1].len > t'.bufLen && !WellPlaced(t')
  {
    var a, b, c := Probed(HitOf(true, Some(bytes))), Probed(HitOf(false, Some(bytes))), Probed(HitOf(false, None));
    ChainedEntry(Clear(t), bytes);
    var t1 := Handle(CHAINED_STASH, Clear(t), a.hit).0;
    ChainedReturn(t1, bytes);
    var t2 := Handle(CHAINED_STASH, t1, b.hit).0;
    ChainedFailure(t2);
    hide Handle, HitOf, Packed;
    AfterThree(CHAINED_STASH, Clear(t), a, b, c);
    var t3 := Handle(CHAINED_STASH, t2, c.hit).0;
    forall rec ensures !Packed(t3, rec) { MisplacedIsNotPacked(t3, 1, 1, rec); }
  }

  lemma AfterThree(spec: Spec, t: Trace, a: Move, b: Move, c: Move)
    requires spec.Valid() && t.Valid() && a.Probed? && b.Probed? && c.Probed?
    requires a.hit.Valid(spec) && b.hit.Valid(spec) && c.hit.Valid(spec)
    ensures ValidRun(spec, [a, b, c])
    ensures After(spec, t, [a, b, c]) == Handle(spec, Handle(spec, Handle(spec, t, a.hit).0, b.hit).0, c.hit).0
  {
    hide Handle;
    assert [a, b, c][..2] == [a, b] && [a, b][..1] == [a] && [a][..0] == [];
    assert After(spec, t, [a]) == Handle(spec, t, a.hit).0;
    assert After(spec, t, [a, b]) == Handle(spec, After(spec, t, [a]), b.hit).0;
  }

  // ----- The bound on the used length -----

  lemma {:induction false} LoopBounded(spec: Spec, t: Trace, i: nat, hit: Hit)
    requires spec.Valid() && t.Valid() && i <= MAX_TRACES && hit.Valid(spec) && t.bufLen < MAX_TRACE_BUF
    ensures var r := Loop(spec, t, i, hit); r.0.bufLen < MAX_TRACE_BUF
    decreases MAX_TRACES - i
  {
    if i < MAX_TRACES {
      var v := Collect(spec, t, i, hit.entry, hit.probes[i]);
      if v.Go? { LoopBounded(spec, v.trace, i + 1, hit); }
    }
  }

  lemma OutputBounded(t: Trace)
    requires t.Valid() && t.bufLen < MAX_TRACE_BUF
    ensures Output(t).0.bufLen < MAX_TRACE_BUF
  {
  }

  lemma HandleBounded(spec: Spec, t: Trace, hit: Hit)
    requires spec.Valid() && t.Valid() && hit.Valid(spec) && t.bufLen < MAX_TRACE_BUF
    ensures Handle(spec, t, hit).0.bufLen < MAX_TRACE_BUF
  {
    hide Loop, Output;
    LoopBounded(spec, Start(spec, t, hit), 0, hit);
    OutputBounded(Loop(spec, Start(spec, t, hit), 0, hit).0);
  }

  /** In every run of every trace, stack mode included, `buf_len` stays below the size
      of the buffer. */
  lemma {:induction false} BufferNeverOverflows(spec: Spec, t: Trace, run: seq<Move>)
    requires spec.Valid() && t.Valid() && ValidRun(spec, run)
    ensures After(spec, Clear(t), run).bufLen < MAX_TRACE_BUF
  {
    if run != [] {
      hide Handle, Output, Clear;
      BufferNeverOverflows(spec, t, run[..|run| - 1]);
      var t' := After(spec, Clear(t), run[..|run| - 1]);
      match run[|run| - 1]
      case Probed(hit) => HandleBounded(spec, t', hit);
      case Flushed => OutputBounded(t');
    } else {
      assert Clear(t).bufLen == 0;
    }
  }
}
