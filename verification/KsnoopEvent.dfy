/** What the event of a stashed ksnoop call carries when all reads succeed: every value that is
    used, as long as the buffer has a free slot of MAX_TRACE_DATA bytes when its turn comes. */
module KsnoopEvent {
  import opened BpfMap
  import opened KsnoopTrace
  import opened KsnoopPacking
  import opened KsnoopPredicate

  predicate Used(spec: Spec, i: nat, entry: bool)
    requires spec.Valid() && i < MAX_TRACES
  {
    spec.InPhase(i, entry) && !spec.values[i].Unused()
  }

  /** The bytes of the used values of one phase from `i` up to `j`. */
  function Ahead(spec: Spec, i: nat, j: nat, entry: bool): nat
    requires spec.Valid() && i <= j <= MAX_TRACES
    decreases j - i
  {
    if i == j then 0 else Ahead(spec, i + 1, j, entry) + if Used(spec, i, entry) then spec.values[i].Take() else 0
  }

  predicate Fits(used: nat) {
    used + MAX_TRACE_DATA < MAX_TRACE_BUF
  }

  /** One turn when reads succeed and the value passes. */
  lemma TurnCopies(spec: Spec, t: Trace, rec: seq<seq<byte>>, i: nat, hit: Hit)
    requires spec.Valid() && t.Valid() && hit.Valid(spec) && ReadsSucceed(hit) && i < MAX_TRACES && |rec| == MAX_TRACES
    requires t.bufLen < MAX_TRACE_BUF && !Collect(spec, t, i, hit.entry, hit.probes[i]).Reject?
    ensures var v, rec' := Collect(spec, t, i, hit.entry, hit.probes[i]), Record(spec, t, rec, i, hit.entry, hit.probes[i]);
            && (v.Full? <==> Used(spec, i, hit.entry) && !Fits(t.bufLen))
            && rec' == (if Used(spec, i, hit.entry) && Fits(t.bufLen) then rec[i := hit.probes[i].copied.value] else rec)
            && (v.Go? ==> v.trace.bufLen < MAX_TRACE_BUF
                          && v.trace.bufLen == t.bufLen + Ahead(spec, i, i + 1, hit.entry))
  {
  }

  lemma AheadFirst(spec: Spec, i: nat, j: nat, entry: bool)
    requires spec.Valid() && i < j <= MAX_TRACES
    ensures Ahead(spec, i, j, entry) == Ahead(spec, i, i + 1, entry) + Ahead(spec, i + 1, j, entry)
  {
  }

  /** The loop one turn on. */
  lemma LoopFirst(spec: Spec, t: Trace, rec: seq<seq<byte>>, i: nat, hit: Hit)
    requires spec.Valid() && t.Valid() && hit.Valid(spec) && i < MAX_TRACES && |rec| == MAX_TRACES
    requires Loop(spec, t, i, hit).1
    ensures var v, rec' := Collect(spec, t, i, hit.entry, hit.probes[i]), Record(spec, t, rec, i, hit.entry, hit.probes[i]);
            && !v.Reject?
            && (v.Go? ==> Loop(spec, v.trace, i + 1, hit) == Loop(spec, t, i, hit)
                          && LoopRecord(spec, t, rec, i, hit) == LoopRecord(spec, v.trace, rec', i + 1, hit))
            && (v.Full? ==> LoopRecord(spec, t, rec, i, hit) == rec')
  {
    hide Collect, Record;
  }

  /** What is recorded for value `j` by a loop from `i` on with `used` bytes in the buffer. */
  function Outcome(spec: Spec, used: nat, rec: seq<seq<byte>>, i: nat, hit: Hit, j: nat): seq<byte>
    requires spec.Valid() && hit.Valid(spec) && ReadsSucceed(hit) && i <= MAX_TRACES && |rec| == MAX_TRACES && j < MAX_TRACES
  {
    if i <= j && Used(spec, j, hit.entry) && Fits(used + Ahead(spec, i, j, hit.entry)) then hit.probes[j].copied.value
    else rec[j]
  }

  lemma OutcomeFirst(spec: Spec, used: nat, rec: seq<seq<byte>>, i: nat, hit: Hit, j: nat)
    requires spec.Valid() && hit.Valid(spec) && ReadsSucceed(hit) && i < MAX_TRACES && |rec| == MAX_TRACES && j < MAX_TRACES
    ensures var u, fits := Used(spec, i, hit.entry), Fits(used);
            var rec' := if u && fits then rec[i := hit.probes[i].copied.value] else rec;
            && (u && !fits ==> Outcome(spec, used, rec, i, hit, j) == rec[j])
            && (u && fits ==> Outcome(spec, used, rec, i, hit, j)
                              == Outcome(spec, used + Ahead(spec, i, i + 1, hit.entry), rec', i + 1, hit, j))
            && (!u ==> Outcome(spec, used, rec, i, hit, j)
                       == Outcome(spec, used + Ahead(spec, i, i + 1, hit.entry), rec, i + 1, hit, j))
  {
    hide Used, Ahead;
    if i < j { AheadFirst(spec, i, j, hit.entry); }
    if i == j { AheadNothing(spec, i, hit.entry); }
  }

  /** What the loop records for value `j` of its phase. */
  lemma {:induction false} LoopCarries(spec: Spec, t: Trace, rec: seq<seq<byte>>, i: nat, hit: Hit, j: nat)
    requires spec.Valid() && t.Valid() && hit.Valid(spec) && ReadsSucceed(hit) && i <= MAX_TRACES && |rec| == MAX_TRACES
    requires t.bufLen < MAX_TRACE_BUF && Loop(spec, t, i, hit).1 && j < MAX_TRACES
    ensures LoopRecord(spec, t, rec, i, hit)[j] == Outcome(spec, t.bufLen, rec, i, hit, j)
    decreases MAX_TRACES - i
  {
    if i < MAX_TRACES {
      hide Collect, Record, Used, ReadsSucceed, Loop, LoopRecord, Ahead, Outcome, Fits;
      LoopFirst(spec, t, rec, i, hit);
      TurnCopies(spec, t, rec, i, hit);
      OutcomeFirst(spec, t.bufLen, rec, i, hit, j);
      var v := Collect(spec, t, i, hit.entry, hit.probes[i]);
      if v.Go? {
        LoopCarries(spec, v.trace, Record(spec, t, rec, i, hit.entry, hit.probes[i]), i + 1, hit, j);
      }
    }
  }

  lemma AheadNothing(spec: Spec, i: nat, entry: bool)
    requires spec.Valid() && i <= MAX_TRACES
    ensures Ahead(spec, i, i, entry) == 0
  {
  }

  /** With room for a value of the other phase no value of this one is turned away. */
  lemma {:induction false} LoopTakesAll(spec: Spec, t: Trace, i: nat, hit: Hit)
    requires spec.Valid() && t.Valid() && hit.Valid(spec) && ReadsSucceed(hit) && i <= MAX_TRACES
    requires Loop(spec, t, i, hit).1
    requires t.bufLen + MAX_TRACE_DATA * (Left(spec, i, hit.entry) + 1) <= MAX_TRACE_BUF
    ensures Loop(spec, t, i, hit).0.bufLen == t.bufLen + Ahead(spec, i, MAX_TRACES, hit.entry) < MAX_TRACE_BUF
    decreases MAX_TRACES - i
  {
    if i < MAX_TRACES {
      LoopFirst(spec, t, NOTHING, i, hit);
      TurnCopies(spec, t, NOTHING, i, hit);
      AheadFirst(spec, i, MAX_TRACES, hit.entry);
      hide Collect, Record, ReadsSucceed, Loop, LoopRecord;
      LoopTakesAll(spec, Collect(spec, t, i, hit.entry, hit.probes[i]).trace, i + 1, hit);
    }
  }

  /** The bytes collected in a call before value `j` gets its turn: arguments come first. */
  function Before(spec: Spec, j: nat): nat
    requires spec.Valid() && j < MAX_TRACES
  {
    if spec.InPhase(j, true) then Ahead(spec, 0, j, true)
    else Ahead(spec, 0, MAX_TRACES, true) + Ahead(spec, 0, j, false)
  }

  lemma {:induction false} LeftCounts(spec: Spec, i: nat, j: nat, entry: bool)
    requires spec.Valid() && i <= j < MAX_TRACES && spec.InPhase(j, entry)
    ensures Left(spec, i, entry) >= 1
    decreases j - i
  {
    if i < j { LeftCounts(spec, i + 1, j, entry); }
  }

  /** A call that sends an event went through both loops, and what the entry left was stashed. */
  lemma SentMeansStashed(spec: Spec, t: Trace, e: Hit, r: Hit)
    requires spec.Valid() && spec.stash && t.Valid() && e.Valid(spec) && r.Valid(spec) && e.entry && !r.entry
    requires Handle(spec, Handle(spec, t, e).0, r).1.Some?
    ensures var t1 := Handle(spec, t, e).0;
            && Goes(spec, t, e) && Looped(spec, t, e).1 && Looped(spec, t1, r).1
            && Start(spec, t, e).bufLen == 0 && Start(spec, t1, r).bufLen == t1.bufLen == Looped(spec, t, e).0.bufLen
            && NextRecord(spec, t, NOTHING, e) == HitRecord(spec, t, NOTHING, e)
  {
    CleanStart(spec, t, e);
    LoopKeeps(spec, Start(spec, t, e), 0, e);
    hide Loop, LoopRecord;
  }

  /** What the entry records. */
  lemma EntryCarries(spec: Spec, t: Trace, e: Hit, j: nat)
    requires spec.Valid() && t.Valid() && e.Valid(spec) && e.entry && ReadsSucceed(e) && j < MAX_TRACES
    requires Start(spec, t, e).bufLen == 0 && Looped(spec, t, e).1
    ensures HitRecord(spec, t, NOTHING, e)[j] ==
            if Used(spec, j, true) && Fits(Ahead(spec, 0, j, true)) then e.probes[j].copied.value else []
  {
    hide Loop, LoopRecord, Ready, ReadsSucceed, Used, Ahead;
    LoopCarries(spec, Start(spec, t, e), NOTHING, 0, e, j);
  }

  /** How many bytes the entry leaves before the return, if there is a value to return. */
  lemma EntryBytes(spec: Spec, t: Trace, e: Hit, j: nat)
    requires spec.Valid() && t.Valid() && e.Valid(spec) && e.entry && ReadsSucceed(e) && j < MAX_TRACES
    requires Start(spec, t, e).bufLen == 0 && Looped(spec, t, e).1 && spec.InPhase(j, false)
    ensures Looped(spec, t, e).0.bufLen == Ahead(spec, 0, MAX_TRACES, true)
  {
    hide Loop, Ready, ReadsSucceed, Left, Ahead;
    LeftCounts(spec, 0, j, false);
    PhasesShare(spec, 0);
    LoopTakesAll(spec, Start(spec, t, e), 0, e);
  }

  /** When the event of a call is sent and reads succeeded, it carries the bytes of a used value if
      and only if fewer than 10240 bytes were collected before it; otherwise it has nothing
      for that value, as for a sixth value after five of 2048 bytes. */
  lemma CarriedIff(spec: Spec, t: Trace, e: Hit, r: Hit, j: nat)
    requires spec.Valid() && spec.stash && t.Valid() && e.Valid(spec) && r.Valid(spec) && e.entry && !r.entry
    requires ReadsSucceed(e) && ReadsSucceed(r) && j < MAX_TRACES
    requires Handle(spec, Handle(spec, t, e).0, r).1.Some?
    ensures CallRecord(spec, t, e, r)[j] ==
            if !spec.values[j].Unused() && Before(spec, j) < MAX_TRACE_BUF - MAX_TRACE_DATA
            then (if spec.InPhase(j, true) then e else r).probes[j].copied.value else []
  {
    hide Handle, Loop, LoopRecord, HitRecord, Ready, ReadsSucceed, NextRecord, Start, Ahead, Looped, Goes;
    SentMeansStashed(spec, t, e, r);
    var t1, held := Handle(spec, t, e).0, NextRecord(spec, t, NOTHING, e);
    EntryBounded(spec, t, e);
    EntryCarries(spec, t, e, j);
    if spec.InPhase(j, false) { EntryBytes(spec, t, e, j); }
    ReturnCarries(spec, t1, held, r, j);
  }

  lemma EntryBounded(spec: Spec, t: Trace, e: Hit)
    requires spec.Valid() && t.Valid() && e.Valid(spec) && Start(spec, t, e).bufLen == 0
    ensures Looped(spec, t, e).0.bufLen < MAX_TRACE_BUF
  {
    hide Loop, Start;
    LoopBounded(spec, Start(spec, t, e), 0, e);
  }

  /** What the return adds to the record. */
  lemma ReturnCarries(spec: Spec, t: Trace, rec: seq<seq<byte>>, r: Hit, j: nat)
    requires spec.Valid() && spec.stash && t.Valid() && r.Valid(spec) && !r.entry && ReadsSucceed(r)
    requires |rec| == MAX_TRACES && j < MAX_TRACES
    requires Start(spec, t, r).bufLen == t.bufLen < MAX_TRACE_BUF && Looped(spec, t, r).1
    ensures HitRecord(spec, t, rec, r)[j] ==
            if Used(spec, j, false) && Fits(t.bufLen + Ahead(spec, 0, j, false)) then r.probes[j].copied.value else rec[j]
  {
    hide Loop, LoopRecord, Start, ReadsSucceed, Used, Ahead;
    LoopCarries(spec, Start(spec, t, r), rec, 0, r, j);
  }

  /** The event of a hit that starts afresh, an entry or a return of a trace that does not stash: all
      it records is carried, and a used value of its phase is recorded, with as many of its
      bytes as fit a slot, if and only if fewer than 10240 bytes were collected before it. */
  lemma SingleCarriedIff(spec: Spec, t: Trace, hit: Hit, j: nat)
    requires spec.Valid() && t.Valid() && hit.Valid(spec) && ReadsSucceed(hit) && !Continues(spec, hit) && j < MAX_TRACES
    requires Handle(spec, t, hit).1.Some?
    ensures var rec := HitRecord(spec, t, NOTHING, hit);
            && Carries(Handle(spec, t, hit).1.value, rec)
            && rec[j] == (if Used(spec, j, hit.entry) && Ahead(spec, 0, j, hit.entry) < MAX_TRACE_BUF - MAX_TRACE_DATA
                          then hit.probes[j].copied.value else [])
            && |hit.probes[j].copied.value| == if spec.values[j].size > 2048 then 2048 else spec.values[j].size
  {
    EntryIsClean(spec, t, hit);
    HandlePacks(spec, t, NOTHING, hit);
    SentMeansLooped(spec, t, hit);
    hide Handle, Loop, LoopRecord, Start, Used, Ahead, Packed;
    LoopCarries(spec, Start(spec, t, hit), NOTHING, 0, hit, j);
  }

  lemma SentMeansLooped(spec: Spec, t: Trace, hit: Hit)
    requires spec.Valid() && t.Valid() && hit.Valid(spec) && !Continues(spec, hit) && Handle(spec, t, hit).1.Some?
    ensures Looped(spec, t, hit).1 && Start(spec, t, hit).bufLen == 0
    ensures Handle(spec, t, hit).1.value.trace.data == Looped(spec, t, hit).0.data
    ensures forall j | 0 <= j < MAX_TRACES :: Start(spec, t, hit).data[j].raw == 0
  {
    CleanStart(spec, t, hit);
    hide Loop;
  }

  /** A value that is carried comes with the word that was compared. */
  lemma {:induction false} LoopWords(spec: Spec, t: Trace, i: nat, hit: Hit, j: nat)
    requires spec.Valid() && t.Valid() && hit.Valid(spec) && ReadsSucceed(hit) && i <= j < MAX_TRACES
    requires t.bufLen < MAX_TRACE_BUF && Loop(spec, t, i, hit).1 && t.data[j].raw == 0
    requires Used(spec, j, hit.entry) && Fits(t.bufLen + Ahead(spec, i, j, hit.entry))
    ensures Loop(spec, t, i, hit).0.data[j].raw == Word(spec.values[j], hit.probes[j])
    decreases MAX_TRACES - i
  {
    hide Collect, Record, Used, ReadsSucceed, Loop, LoopRecord, Word, Ahead;
    LoopFirst(spec, t, NOTHING, i, hit);
    TurnCopies(spec, t, NOTHING, i, hit);
    CollectLocal(spec, t, i, hit);
    var v := Collect(spec, t, i, hit.entry, hit.probes[i]);
    if i == j {
      AheadNothing(spec, i, hit.entry);
      TurnWords(spec, t, i, hit);
      LoopLocal(spec, v.trace, i + 1, hit);
    } else {
      AheadFirst(spec, i, j, hit.entry);
      LoopWords(spec, v.trace, i + 1, hit, j);
    }
  }

  lemma TurnWords(spec: Spec, t: Trace, i: nat, hit: Hit)
    requires spec.Valid() && t.Valid() && hit.Valid(spec) && ReadsSucceed(hit) && i < MAX_TRACES && t.data[i].raw == 0
    requires Used(spec, i, hit.entry) && Fits(t.bufLen) && !Collect(spec, t, i, hit.entry, hit.probes[i]).Reject?
    ensures var v := Collect(spec, t, i, hit.entry, hit.probes[i]);
            v.Go? && v.trace.data[i].raw == Word(spec.values[i], hit.probes[i])
  {
  }

  /** In the event of a hit that starts afresh. */
  lemma SingleWords(spec: Spec, t: Trace, hit: Hit, j: nat)
    requires spec.Valid() && t.Valid() && hit.Valid(spec) && ReadsSucceed(hit) && !Continues(spec, hit) && j < MAX_TRACES
    requires Handle(spec, t, hit).1.Some? && Used(spec, j, hit.entry)
    requires Ahead(spec, 0, j, hit.entry) < MAX_TRACE_BUF - MAX_TRACE_DATA
    ensures Handle(spec, t, hit).1.value.trace.data[j].raw == Word(spec.values[j], hit.probes[j])
  {
    hide Handle, Loop, Ahead, Used, Word, Start, ReadsSucceed;
    SentMeansLooped(spec, t, hit);
    LoopWords(spec, Start(spec, t, hit), 0, hit, j);
  }

  /** The read of a value fails: of the pointer that it is behind, or of its bytes. */
  predicate Fails(v: Value, p: Probe) {
    (v.member && v.ptr && p.deref.None?) || p.copied.None?
  }

  /** In what a loop that passes leaves from a cleared trace, a value is marked as failed only if it
      is used and a read of it failed, and then has no bytes; and always if so, unless the
      buffer was full before its turn. */
  lemma {:induction false} FailuresAreMarked(spec: Spec, t: Trace, i: nat, hit: Hit, j: nat)
    requires spec.Valid() && t.Valid() && hit.Valid(spec) && i <= j < MAX_TRACES
    requires t.bufLen < MAX_TRACE_BUF && Loop(spec, t, i, hit).1 && t.data[j] == NO_DATA
    ensures var r, failed := Loop(spec, t, i, hit).0, Used(spec, j, hit.entry) && Fails(spec.values[j], hit.probes[j]);
            && (r.data[j].err ==> failed && r.data[j].len == 0)
            && (failed && Fits(r.bufLen) ==> r.data[j].err)
    decreases MAX_TRACES - i
  {
    LoopFull(spec, t, i, hit);
    if i == j { TurnMarks(spec, t, i, hit); }
    hide LoopRecord, Record, Loop, Collect, Used, Fails, Bad;
    LoopFirst(spec, t, NOTHING, i, hit);
    CollectGrows(spec, t, i, hit);
    CollectLocal(spec, t, i, hit);
    var v := Collect(spec, t, i, hit.entry, hit.probes[i]);
    if v.Go? {
      LoopGrows(spec, v.trace, i + 1, hit);
      if i == j { LoopLocal(spec, v.trace, i + 1, hit); } else { FailuresAreMarked(spec, v.trace, i + 1, hit, j); }
    }
  }

  lemma LoopFull(spec: Spec, t: Trace, i: nat, hit: Hit)
    requires spec.Valid() && t.Valid() && hit.Valid(spec) && i < MAX_TRACES
    ensures var v := Collect(spec, t, i, hit.entry, hit.probes[i]);
            v.Full? ==> Loop(spec, t, i, hit).0 == v.trace && !Fits(v.trace.bufLen)
  {
  }

  lemma TurnMarks(spec: Spec, t: Trace, i: nat, hit: Hit)
    requires spec.Valid() && t.Valid() && hit.Valid(spec) && i < MAX_TRACES && t.bufLen < MAX_TRACE_BUF
    requires t.data[i] == NO_DATA
    ensures var v, failed := Collect(spec, t, i, hit.entry, hit.probes[i]), Fails(spec.values[i], hit.probes[i]);
            var d := v.trace.data[i];
            && (d.err ==> Used(spec, i, hit.entry) && failed && d.len == 0)
            && (v.Go? && Used(spec, i, hit.entry) && failed ==> d.err)
  {
  }
}
