/** memleak's kernel side: the table `allocs` of live allocations and the index
    `combined_allocs`, which keeps bytes and count per stack packed in one word. */
module Memleak {
  import opened BpfMap
  import opened Sums

  const SIZES_MAX: nat := 10240
  const ALLOCS_MAX: nat := 1000000
  const COMBINED_MAX: nat := 10240
  const U40: nat := 0x100_0000_0000
  const U24: nat := 0x100_0000

  datatype Config = Config(minSize: nat, maxSize: nat, sampleRate: nat, waMissingFree: bool)

  datatype Info = Info(size: nat, timestamp: nat, stackId: int)

  datatype State = State(sizes: map<nat, nat>, memptrs: map<nat, nat>, allocs: map<nat, Info>, combined: map<nat, nat>)

  const INIT := State(map[], map[], map[], map[])

  /** A stack id as a key: an int converted to 64 unsigned bits. */
  function Key(stackId: int): nat {
    stackId % U64
  }

  /** `union combined_alloc_info` with one allocation in it: 40 bits of size, count 1. */
  function Packed1(size: nat): (bits: nat)
    ensures U40 <= bits < 2 * U40
  {
    size % U40 + U40
  }

  /** The atomic add and subtract on the word, which wrap. */
  function Plus(bits: nat, size: nat): nat {
    (bits + Packed1(size)) % U64
  }

  function Minus(bits: nat, size: nat): nat {
    (bits - Packed1(size)) % U64
  }

  /** `update_statistics_add`, its cell looked up or initialised to zero. */
  function AddStat(combined: map<nat, nat>, key: nat, size: nat): map<nat, nat> {
    var combined := if key in combined then combined else Put(combined, COMBINED_MAX, key, 0);
    if key in combined then combined[key := Plus(combined[key], size)] else combined
  }

  function DelStat(combined: map<nat, nat>, key: nat, size: nat): map<nat, nat> {
    if key in combined then combined[key := Minus(combined[key], size)] else combined
  }

  function AllocEnter(cfg: Config, s: State, tid: nat, size: nat, now: nat): State {
    if size < cfg.minSize || size > cfg.maxSize || (cfg.sampleRate > 1 && now % cfg.sampleRate != 0) then s
    else s.(sizes := Put(s.sizes, SIZES_MAX, tid, size))
  }

  function AllocExit(s: State, tid: nat, address: nat, now: nat, stackId: int): State {
    if tid !in s.sizes then s
    else
      var info := Info(s.sizes[tid], now, stackId);
      var s := s.(sizes := s.sizes - {tid});
      if address == 0 then s else Record(s, address, info)
  }

  function Record(s: State, address: nat, info: Info): State {
    s.(allocs := Put(s.allocs, ALLOCS_MAX, address, info), combined := AddStat(s.combined, Key(info.stackId), info.size))
  }

  function FreeEnter(s: State, address: nat): State {
    if address !in s.allocs then s
    else
      var info := s.allocs[address];
      s.(allocs := s.allocs - {address}, combined := DelStat(s.combined, Key(info.stackId), info.size))
  }

  /** The probes. `Kernel` stands for the kmalloc and kmem_cache_alloc tracepoints, `Page`
      for those of pages and per-cpu memory, which have no workaround for missed frees. */
  datatype Event =
    | Enter(tid: nat, size: nat, now: nat)
    | Exit(tid: nat, address: nat, now: nat, stackId: int)
    | Free(address: nat)
    | ReallocEnter(address: nat, tid: nat, size: nat, now: nat)
    | MemalignEnter(memptr: nat, tid: nat, size: nat, now: nat)
    | MemalignExit(tid: nat, found: Option<nat>, now: nat, stackId: int)
    | Kernel(address: nat, tid: nat, size: nat, now: nat, stackId: int)
    | Page(address: nat, tid: nat, size: nat, now: nat, stackId: int)

  function Step(cfg: Config, s: State, e: Event): State {
    match e
    case Enter(tid, size, now) => AllocEnter(cfg, s, tid, size, now)
    case Exit(tid, address, now, stackId) => AllocExit(s, tid, address, now, stackId)
    case Free(address) => FreeEnter(s, address)
    case ReallocEnter(address, tid, size, now) => AllocEnter(cfg, FreeEnter(s, address), tid, size, now)
    case MemalignEnter(memptr, tid, size, now) =>
      AllocEnter(cfg, s.(memptrs := Put(s.memptrs, SIZES_MAX, tid, memptr)), tid, size, now)
    case MemalignExit(tid, found, now, stackId) =>
      if tid !in s.memptrs then s
      else
        var s := s.(memptrs := s.memptrs - {tid});
        if found.None? then s else AllocExit(s, tid, found.value, now, stackId)
    case Kernel(address, tid, size, now, stackId) =>
      var s := if cfg.waMissingFree then FreeEnter(s, address) else s;
      AllocExit(AllocEnter(cfg, s, tid, size, now), tid, address, now, stackId)
    case Page(address, tid, size, now, stackId) =>
      AllocExit(AllocEnter(cfg, s, tid, size, now), tid, address, now, stackId)
  }

  function Run(cfg: Config, run: seq<Event>): State {
    if run == [] then INIT else Step(cfg, Run(cfg, run[..|run| - 1]), run[|run| - 1])
  }

  // ----- The reference: sums over the table -----

  /** What each allocation of stack `k` weighs. */
  ghost function BitsOf(k: nat): Info -> int {
    (i: Info) => if Key(i.stackId) == k then Packed1(i.size) else 0
  }

  ghost function CountOf(k: nat): Info -> int {
    (i: Info) => if Key(i.stackId) == k then 1 else 0
  }

  ghost function BytesOf(k: nat): Info -> int {
    (i: Info) => if Key(i.stackId) == k then i.size else 0
  }

  ghost function CutOf(k: nat): Info -> int {
    (i: Info) => if Key(i.stackId) == k then i.size % U40 else 0
  }

  /** If stack `k` is in the index, it holds the packed sum over exactly its live allocations. */
  ghost predicate KeyAgrees(s: State, k: nat) {
    k in s.combined ==> s.combined[k] == SumBy(s.allocs, BitsOf(k)) % U64
  }

  /** A stack with live allocations but no index entry was turned away by a full index. */
  ghost predicate Covered(s: State) {
    |s.combined| < COMBINED_MAX ==> forall a | a in s.allocs :: Key(s.allocs[a].stackId) in s.combined
  }

  ghost predicate IndexAgrees(s: State) {
    Covered(s) && forall k: nat :: KeyAgrees(s, k)
  }

  lemma AddStatShape(combined: map<nat, nat>, key: nat, size: nat)
    ensures var after := AddStat(combined, key, size);
            && |combined| <= |after| && combined.Keys <= after.Keys
            && (forall k | k in after && k != key :: k in combined && after[k] == combined[k])
            && (key in combined ==> after[key] == Plus(combined[key], size))
            && (key !in combined && key in after ==> |combined| < COMBINED_MAX && after[key] == Plus(0, size))
            && (key !in after ==> |after| >= COMBINED_MAX && after == combined)
  {
    hide Plus;
    PutSize(combined, COMBINED_MAX, key, 0);
    var after := AddStat(combined, key, size);
    if key in combined { assert after.Keys == combined.Keys; }
    if key in after { assert after.Keys == combined.Keys + {key}; }
  }

  /** The sums of one stack once an allocation is recorded in place of nothing. */
  lemma RecordNew(s: State, address: nat, info: Info, k: nat)
    requires address !in s.allocs && |s.allocs| < ALLOCS_MAX
    ensures SumBy(Record(s, address, info).allocs, BitsOf(k)) == SumBy(s.allocs, BitsOf(k)) + BitsOf(k)(info)
  {
    SumInsert(s.allocs, BitsOf(k), address, info);
  }

  lemma PlusWraps(a: int, size: nat)
    ensures Plus(a % U64, size) == (a + Packed1(size)) % U64
  {
  }

  lemma MinusWraps(a: int, size: nat)
    ensures Minus(a % U64, size) == (a - Packed1(size)) % U64
  {
  }

  lemma UnindexedSumsToZero(s: State, k: nat)
    requires Covered(s) && k !in s.combined && |s.combined| < COMBINED_MAX
    ensures SumBy(s.allocs, BitsOf(k)) == 0
  {
    SumZero(s.allocs, BitsOf(k));
  }

  lemma RecordCovers(s: State, address: nat, info: Info)
    requires Covered(s)
    ensures Covered(Record(s, address, info))
  {
    hide AddStat;
    AddStatShape(s.combined, Key(info.stackId), info.size);
  }

  /** The cell that a recorded allocation leaves for its stack. */
  lemma RecordCell(s: State, address: nat, info: Info, k: nat)
    requires IndexAgrees(s)
    ensures var c := Record(s, address, info).combined;
            k in c ==> c[k] == (SumBy(s.allocs, BitsOf(k)) + BitsOf(k)(info)) % U64
  {
    hide AddStat, Plus, Packed1, Key, IndexAgrees, SumBy;
    AddStatShape(s.combined, Key(info.stackId), info.size);
    if k == Key(info.stackId) { OwnSum(s, info, k); } else { OtherSum(s, k); }
  }

  lemma OtherSum(s: State, k: nat)
    requires IndexAgrees(s)
    ensures k in s.combined ==> s.combined[k] == SumBy(s.allocs, BitsOf(k)) % U64
  {
    assert KeyAgrees(s, k);
  }

  lemma OwnSum(s: State, info: Info, k: nat)
    requires IndexAgrees(s)
    ensures k in s.combined ==>
              Plus(s.combined[k], info.size) == (SumBy(s.allocs, BitsOf(k)) + Packed1(info.size)) % U64
    ensures k !in s.combined && |s.combined| < COMBINED_MAX ==>
              Plus(0, info.size) == (SumBy(s.allocs, BitsOf(k)) + Packed1(info.size)) % U64
  {
    hide Plus, Packed1, Key;
    OtherSum(s, k);
    PlusWraps(SumBy(s.allocs, BitsOf(k)), info.size);
    if k !in s.combined && |s.combined| < COMBINED_MAX { UnindexedSumsToZero(s, k); }
  }

  lemma RecordKeeps(s: State, address: nat, info: Info)
    requires IndexAgrees(s) && address !in s.allocs && |s.allocs| < ALLOCS_MAX
    ensures IndexAgrees(Record(s, address, info))
  {
    hide AddStat, Covered;
    RecordCovers(s, address, info);
    forall k: nat ensures KeyAgrees(Record(s, address, info), k) {
      RecordNew(s, address, info, k);
      RecordCell(s, address, info, k);
    }
  }

  lemma FreeKeeps(s: State, address: nat)
    requires IndexAgrees(s)
    ensures IndexAgrees(FreeEnter(s, address))
  {
    if address in s.allocs {
      hide Minus, Packed1;
      var s', info := FreeEnter(s, address), s.allocs[address];
      assert s'.combined.Keys == s.combined.Keys;
      forall k: nat ensures KeyAgrees(s', k) {
        assert KeyAgrees(s, k);
        SumRemove(s.allocs, BitsOf(k), address);
        MinusWraps(SumBy(s.allocs, BitsOf(k)), info.size);
      }
    }
  }

  lemma OthersKeep(s: State, s': State)
    requires IndexAgrees(s) && s'.allocs == s.allocs && s'.combined == s.combined
    ensures IndexAgrees(s')
  {
    forall k: nat ensures KeyAgrees(s', k) { assert KeyAgrees(s, k); }
  }

  /** An allocation can be recorded: there is room, and its address is not still listed. */
  predicate Recordable(s: State, tid: nat, address: nat) {
    tid in s.sizes && address != 0 ==> address !in s.allocs && |s.allocs| < ALLOCS_MAX
  }

  lemma ExitKeeps(s: State, tid: nat, address: nat, now: nat, stackId: int)
    requires IndexAgrees(s) && Recordable(s, tid, address)
    ensures IndexAgrees(AllocExit(s, tid, address, now, stackId))
  {
    if tid in s.sizes {
      var s1 := s.(sizes := s.sizes - {tid});
      OthersKeep(s, s1);
      if address != 0 { RecordKeeps(s1, address, Info(s.sizes[tid], now, stackId)); }
    }
  }

  /** What a run must not do: list an address twice, or fill `allocs`. With the workaround
      for missed frees the kernel tracepoints may reuse an address freely. */
  predicate Admissible(cfg: Config, s: State, e: Event) {
    match e
    case Exit(tid, address, _, _) => Recordable(s, tid, address)
    case MemalignExit(tid, found, _, _) => found.Some? ==> Recordable(s, tid, found.value)
    case Kernel(address, tid, size, now, _) =>
      if cfg.waMissingFree then |FreeEnter(s, address).allocs| < ALLOCS_MAX
      else Recordable(AllocEnter(cfg, s, tid, size, now), tid, address)
    case Page(address, tid, size, now, _) => Recordable(AllocEnter(cfg, s, tid, size, now), tid, address)
    case _ => true
  }

  lemma FreeForgets(s: State, address: nat)
    ensures address !in FreeEnter(s, address).allocs
  {
  }

  lemma EnterKeeps(cfg: Config, s: State, tid: nat, size: nat, now: nat)
    requires IndexAgrees(s)
    ensures var s' := AllocEnter(cfg, s, tid, size, now); IndexAgrees(s') && s'.allocs == s.allocs
  {
    hide IndexAgrees;
    OthersKeep(s, AllocEnter(cfg, s, tid, size, now));
  }

  lemma KernelKeeps(cfg: Config, s: State, e: Event)
    requires IndexAgrees(s) && Admissible(cfg, s, e) && (e.Kernel? || e.Page?)
    ensures IndexAgrees(Step(cfg, s, e))
  {
    hide IndexAgrees, FreeEnter, AllocEnter, AllocExit;
    FreeKeeps(s, e.address);
    FreeForgets(s, e.address);
    var s1 := if e.Kernel? && cfg.waMissingFree then FreeEnter(s, e.address) else s;
    EnterKeeps(cfg, s1, e.tid, e.size, e.now);
    ExitKeeps(AllocEnter(cfg, s1, e.tid, e.size, e.now), e.tid, e.address, e.now, e.stackId);
  }

  lemma StepKeeps(cfg: Config, s: State, e: Event)
    requires IndexAgrees(s) && Admissible(cfg, s, e)
    ensures IndexAgrees(Step(cfg, s, e))
  {
    hide IndexAgrees, FreeEnter, AllocEnter, AllocExit;
    match e
    case Enter(tid, size, now) => EnterKeeps(cfg, s, tid, size, now);
    case Exit(tid, address, now, stackId) => ExitKeeps(s, tid, address, now, stackId);
    case Free(address) => FreeKeeps(s, address);
    case ReallocEnter(address, tid, size, now) =>
      FreeKeeps(s, address);
      EnterKeeps(cfg, FreeEnter(s, address), tid, size, now);
    case MemalignEnter(memptr, tid, size, now) =>
      var s1 := s.(memptrs := Put(s.memptrs, SIZES_MAX, tid, memptr));
      OthersKeep(s, s1);
      EnterKeeps(cfg, s1, tid, size, now);
    case MemalignExit(tid, found, now, stackId) =>
      var s1 := s.(memptrs := s.memptrs - {tid});
      OthersKeep(s, s1);
      if found.Some? { ExitKeeps(s1, tid, found.value, now, stackId); }
    case Kernel(_, _, _, _, _) => KernelKeeps(cfg, s, e);
    case Page(_, _, _, _, _) => KernelKeeps(cfg, s, e);
  }

  ghost predicate AdmissibleRun(cfg: Config, run: seq<Event>) {
    forall n | 0 <= n < |run| :: Admissible(cfg, Run(cfg, run[..n]), run[n])
  }

  /** Over every admissible run the index agrees with the table, even after it fills up. */
  lemma {:induction false} IndexAgreesAlways(cfg: Config, run: seq<Event>)
    requires AdmissibleRun(cfg, run)
    ensures IndexAgrees(Run(cfg, run))
  {
    if run != [] {
      hide IndexAgrees, Admissible, Step;
      var before := run[..|run| - 1];
      assert forall n | 0 <= n < |before| :: before[..n] == run[..n];
      IndexAgreesAlways(cfg, before);
      StepKeeps(cfg, Run(cfg, before), run[|run| - 1]);
    }
  }

  // ----- Exactly when recording keeps the index right -----

  /** What must be so before an allocation is recorded: a listed address belongs to a stack that
      is not indexed; or the address is new and the table has room; or the table is full and
      the new stack neither is indexed nor can be. */
  predicate Harmless(s: State, address: nat, info: Info) {
    if address in s.allocs then Key(s.allocs[address].stackId) !in s.combined
    else |s.allocs| < ALLOCS_MAX || (Key(info.stackId) !in s.combined && |s.combined| >= COMBINED_MAX)
  }

  /** The weight that the index of stack `k` has and its table does not, once recorded. */
  ghost function Surplus(s: State, address: nat, info: Info, k: nat): (w: int)
    ensures w == 0 || U40 <= w < 2 * U40
  {
    if address in s.allocs then BitsOf(k)(s.allocs[address])
    else if |s.allocs| < ALLOCS_MAX then 0
    else BitsOf(k)(info)
  }

  lemma RecordSum(s: State, address: nat, info: Info, k: nat)
    ensures SumBy(Record(s, address, info).allocs, BitsOf(k)) + Surplus(s, address, info, k)
         == SumBy(s.allocs, BitsOf(k)) + BitsOf(k)(info)
  {
    SumUpdate(s.allocs, BitsOf(k), address, info);
  }

  lemma ModGap(a: int, w: int)
    requires U40 <= w < 2 * U40
    ensures (a + w) % U64 != a % U64
  {
  }

  lemma RecordKeyIff(s: State, address: nat, info: Info, k: nat)
    requires IndexAgrees(s)
    ensures KeyAgrees(Record(s, address, info), k)
       <==> k !in Record(s, address, info).combined || Surplus(s, address, info, k) == 0
  {
    hide IndexAgrees, Record, Surplus, BitsOf;
    RecordCell(s, address, info, k);
    RecordSum(s, address, info, k);
    var w := Surplus(s, address, info, k);
    if w != 0 { ModGap(SumBy(Record(s, address, info).allocs, BitsOf(k)), w); }
  }

  /** Which stack a recorded allocation can set wrong: the one whose entry it overwrites, or its
      own if the table refuses it. */
  function Concerned(s: State, address: nat, info: Info): nat {
    if address in s.allocs then Key(s.allocs[address].stackId) else Key(info.stackId)
  }

  lemma HarmlessIff(s: State, address: nat, info: Info)
    requires Covered(s)
    ensures Harmless(s, address, info) <==>
            var k := Concerned(s, address, info);
            Surplus(s, address, info, k) == 0 || k !in Record(s, address, info).combined
  {
    hide AddStat, Packed1;
    AddStatShape(s.combined, Key(info.stackId), info.size);
    IndexedUnlessFull(s, address, info);
  }

  lemma IndexedUnlessFull(s: State, address: nat, info: Info)
    requires Covered(s)
    ensures var k, after := Concerned(s, address, info), AddStat(s.combined, Key(info.stackId), info.size);
            if address in s.allocs then k in after <==> k in s.combined
            else k in after <==> k in s.combined || |s.combined| < COMBINED_MAX
  {
    hide Plus, Key;
  }

  /** From an index that is right, recording an allocation leaves it right exactly when the
      address is new and the table has room, or the stack concerned is not and does not
      become indexed. */
  lemma RecordKeepsIff(s: State, address: nat, info: Info)
    requires IndexAgrees(s)
    ensures IndexAgrees(Record(s, address, info)) <==> Harmless(s, address, info)
  {
    hide KeyAgrees, Record, Packed1, Harmless;
    var s', worst := Record(s, address, info), Concerned(s, address, info);
    RecordCovers(s, address, info);
    HarmlessIff(s, address, info);
    forall k: nat
      ensures KeyAgrees(s', k) <==> k !in s'.combined || Surplus(s, address, info, k) == 0
      ensures k != worst ==> Surplus(s, address, info, k) == 0
    {
      RecordKeyIff(s, address, info, k);
    }
    assert KeyAgrees(s', worst) <==> worst !in s'.combined || Surplus(s, address, info, worst) == 0;
  }

  /** And such a run exists: two allocations that return one address, with no free seen between
      them, leave the index wrong, whatever their sizes and stacks. */
  lemma ReusedAddressMisleads(cfg: Config, a: Event, b: Event)
    requires a.Page? && b.Page? && a.address == b.address != 0
    requires cfg.minSize <= a.size <= cfg.maxSize && cfg.minSize <= b.size <= cfg.maxSize && cfg.sampleRate <= 1
    ensures !IndexAgrees(Run(cfg, [a, b]))
  {
    hide Step, Record, IndexAgrees;
    var s1 := Run(cfg, [a]);
    RunOfOne(cfg, a);
    assert [a, b][..1] == [a];
    PageRecords(cfg, INIT, a);
    RecordedOnce(INIT, a.address, Info(a.size, a.now, a.stackId));
    PageRecords(cfg, s1, b);
    RecordKeepsIff(s1, b.address, Info(b.size, b.now, b.stackId));
  }

  lemma RunOfOne(cfg: Config, a: Event)
    ensures Run(cfg, [a]) == Step(cfg, INIT, a)
  {
    hide Step;
    assert [a][..0] == [];
  }

  /** The first allocation is listed and indexed. */
  lemma RecordedOnce(s: State, address: nat, info: Info)
    requires s == INIT
    ensures var s' := Record(s, address, info);
            && IndexAgrees(s') && !Harmless(s', address, info) && s'.sizes == map[]
            && (forall other: Info :: !Harmless(s', address, other))
  {
    assert IndexAgrees(s);
    RecordKeeps(s, address, info);
  }

  /** A page event that passes the filters is recorded. */
  lemma PageRecords(cfg: Config, s: State, e: Event)
    requires e.Page? && e.address != 0 && s.sizes == map[]
    requires cfg.minSize <= e.size <= cfg.maxSize && cfg.sampleRate <= 1
    ensures Step(cfg, s, e) == Record(s.(sizes := map[]), e.address, Info(e.size, e.now, e.stackId))
  {
    hide Record;
    assert Put(s.sizes, SIZES_MAX, e.tid, e.size) - {e.tid} == map[];
  }

  // ----- Decoding the word -----

  function TotalSize(bits: nat): nat {
    bits % U40
  }

  function NumberOfAllocs(bits: nat): nat {
    bits / U40 % U24
  }

  lemma {:induction false} BitsSplit(m: map<nat, Info>, k: nat)
    ensures SumBy(m, BitsOf(k)) == SumBy(m, CutOf(k)) + U40 * SumBy(m, CountOf(k))
  {
    if m.Keys != {} {
      hide SumBy;
      var a :| a in m;
      SumRemove(m, BitsOf(k), a);
      SumRemove(m, CutOf(k), a);
      SumRemove(m, CountOf(k), a);
      BitsSplit(m - {a}, k);
    }
  }

  lemma {:induction false} CutSums(m: map<nat, Info>, k: nat)
    ensures 0 <= SumBy(m, CutOf(k)) <= SumBy(m, BytesOf(k)) && 0 <= SumBy(m, CountOf(k))
    ensures SumBy(m, BytesOf(k)) < U40 ==> SumBy(m, CutOf(k)) == SumBy(m, BytesOf(k))
  {
    if m.Keys != {} {
      hide SumBy;
      var a :| a in m;
      SumRemove(m, CutOf(k), a);
      SumRemove(m, BytesOf(k), a);
      SumRemove(m, CountOf(k), a);
      CutSums(m - {a}, k);
      CutOne(m[a].size);
    }
  }

  lemma CutOne(size: nat)
    ensures 0 <= size % U40 <= size && (size < U40 ==> size % U40 == size)
  {
  }

  lemma Unpack(bytes: nat, count: nat)
    requires bytes < U40 && count < U24
    ensures var bits := (bytes + U40 * count) % U64; TotalSize(bits) == bytes && NumberOfAllocs(bits) == count
  {
    assert U40 * U24 == U64;
  }

  /** Wherever the index agrees, both fields of a word decode to the exact bytes and count
      of the stack's live allocations whenever these fit, whatever overflowed before. */
  lemma FieldsDecode(s: State, k: nat)
    requires IndexAgrees(s) && k in s.combined
    requires SumBy(s.allocs, BytesOf(k)) < U40 && SumBy(s.allocs, CountOf(k)) < U24
    ensures TotalSize(s.combined[k]) == SumBy(s.allocs, BytesOf(k))
    ensures NumberOfAllocs(s.combined[k]) == SumBy(s.allocs, CountOf(k))
  {
    assert KeyAgrees(s, k);
    BitsSplit(s.allocs, k);
    CutSums(s.allocs, k);
    Unpack(SumBy(s.allocs, BytesOf(k)), SumBy(s.allocs, CountOf(k)));
  }

  /** The same for a cell alone: any sequence of adds and subtracts, in any order, leaves
      the net sum of the packed sizes modulo a word. */
  datatype Op = Add(size: nat) | Sub(size: nat)

  function Apply(ops: seq<Op>): nat {
    if ops == [] then 0
    else
      var bits := Apply(ops[..|ops| - 1]);
      match ops[|ops| - 1] case Add(size) => Plus(bits, size) case Sub(size) => Minus(bits, size)
  }

  /** Outstanding bytes (each size cut to its field) and outstanding count. */
  function NetBytes(ops: seq<Op>): int {
    if ops == [] then 0
    else
      NetBytes(ops[..|ops| - 1]) + match ops[|ops| - 1] case Add(size) => size % U40 case Sub(size) => -(size % U40)
  }

  function NetCount(ops: seq<Op>): int {
    if ops == [] then 0
    else NetCount(ops[..|ops| - 1]) + match ops[|ops| - 1] case Add(_) => 1 case Sub(_) => -1
  }

  lemma {:induction false} OpsWrap(ops: seq<Op>)
    ensures Apply(ops) == (NetBytes(ops) + U40 * NetCount(ops)) % U64
  {
    if ops != [] {
      var before := ops[..|ops| - 1];
      OpsWrap(before);
      hide Plus, Minus;
      var net, size := NetBytes(before) + U40 * NetCount(before), ops[|ops| - 1].size;
      PlusWraps(net, size);
      MinusWraps(net, size);
    }
  }

  /** So a cell decodes exactly whenever what is outstanding now fits its fields. */
  lemma OpsDecode(ops: seq<Op>)
    requires 0 <= NetBytes(ops) < U40 && 0 <= NetCount(ops) < U24
    ensures TotalSize(Apply(ops)) == NetBytes(ops) && NumberOfAllocs(Apply(ops)) == NetCount(ops)
  {
    OpsWrap(ops);
    Unpack(NetBytes(ops), NetCount(ops));
  }

  /** Address 0 is never listed, so a walk of the table may start from it. */
  lemma {:induction false} ZeroNeverListed(cfg: Config, run: seq<Event>)
    ensures 0 !in Run(cfg, run).allocs
  {
    if run != [] {
      hide Step;
      ZeroNeverListed(cfg, run[..|run| - 1]);
      ZeroStaysOut(cfg, Run(cfg, run[..|run| - 1]), run[|run| - 1]);
    }
  }

  /** The table never outgrows its map. */
  lemma {:induction false} TableFits(cfg: Config, run: seq<Event>)
    ensures |Run(cfg, run).allocs| <= ALLOCS_MAX
  {
    if run != [] {
      hide Step;
      TableFits(cfg, run[..|run| - 1]);
      StepFits(cfg, Run(cfg, run[..|run| - 1]), run[|run| - 1]);
    }
  }

  predicate Fits(allocs: map<nat, Info>) {
    |allocs| <= ALLOCS_MAX
  }

  lemma StepFits(cfg: Config, s: State, e: Event)
    requires Fits(s.allocs)
    ensures Fits(Step(cfg, s, e).allocs)
  {
    hide AllocExit, AllocEnter, FreeEnter, Fits;
    match e
    case Enter(tid, size, now) => EnterKeepsAllocs(cfg, s, tid, size, now);
    case Exit(tid, address, now, stackId) => ExitFits(s, tid, address, now, stackId);
    case Free(address) => FreeFits(s, address);
    case ReallocEnter(address, tid, size, now) =>
      FreeFits(s, address);
      EnterKeepsAllocs(cfg, FreeEnter(s, address), tid, size, now);
    case MemalignEnter(memptr, tid, size, now) =>
      EnterKeepsAllocs(cfg, s.(memptrs := Put(s.memptrs, SIZES_MAX, tid, memptr)), tid, size, now);
    case MemalignExit(tid, found, now, stackId) =>
      if found.Some? { ExitFits(s.(memptrs := s.memptrs - {tid}), tid, found.value, now, stackId); }
    case Kernel(address, tid, size, now, stackId) =>
      FreeFits(s, address);
      var s1 := if cfg.waMissingFree then FreeEnter(s, address) else s;
      EnterKeepsAllocs(cfg, s1, tid, size, now);
      ExitFits(AllocEnter(cfg, s1, tid, size, now), tid, address, now, stackId);
    case Page(address, tid, size, now, stackId) =>
      EnterKeepsAllocs(cfg, s, tid, size, now);
      ExitFits(AllocEnter(cfg, s, tid, size, now), tid, address, now, stackId);
  }

  lemma ExitFits(s: State, tid: nat, address: nat, now: nat, stackId: int)
    requires Fits(s.allocs)
    ensures Fits(AllocExit(s, tid, address, now, stackId).allocs)
  {
    hide AddStat, Put;
    if tid in s.sizes { PutSize(s.allocs, ALLOCS_MAX, address, Info(s.sizes[tid], now, stackId)); }
  }

  lemma FreeFits(s: State, address: nat)
    requires Fits(s.allocs)
    ensures Fits(FreeEnter(s, address).allocs)
  {
    hide DelStat;
    assert (s.allocs - {address}).Keys == s.allocs.Keys - {address};
  }

  lemma ZeroStaysOut(cfg: Config, s: State, e: Event)
    requires 0 !in s.allocs
    ensures 0 !in Step(cfg, s, e).allocs
  {
    hide AllocExit, AllocEnter, FreeEnter;
    forall t: State, tid, address, now, stackId | 0 !in t.allocs
      ensures 0 !in AllocExit(t, tid, address, now, stackId).allocs
    {
      ExitKeepsZeroOut(t, tid, address, now, stackId);
    }
    forall t: State, tid, size, now ensures AllocEnter(cfg, t, tid, size, now).allocs == t.allocs {
      EnterKeepsAllocs(cfg, t, tid, size, now);
    }
    forall t: State, address | 0 !in t.allocs ensures 0 !in FreeEnter(t, address).allocs {
      FreeKeepsZeroOut(t, address);
    }
  }

  lemma ExitKeepsZeroOut(s: State, tid: nat, address: nat, now: nat, stackId: int)
    requires 0 !in s.allocs
    ensures 0 !in AllocExit(s, tid, address, now, stackId).allocs
  {
  }

  lemma EnterKeepsAllocs(cfg: Config, s: State, tid: nat, size: nat, now: nat)
    ensures AllocEnter(cfg, s, tid, size, now).allocs == s.allocs
  {
  }

  lemma FreeKeepsZeroOut(s: State, address: nat)
    requires 0 !in s.allocs
    ensures 0 !in FreeEnter(s, address).allocs
  {
  }

  // ----- The probes as they are written: maps updated in place -----

  class Program {
    const cfg: Config
    var sizes: map<nat, nat>
    var memptrs: map<nat, nat>
    var allocs: map<nat, Info>
    var combined: map<nat, nat>

    ghost function Value(): State
      reads this
    {
      State(sizes, memptrs, allocs, combined)
    }

    constructor (cfg: Config)
      ensures this.cfg == cfg && Value() == INIT
    {
      this.cfg := cfg;
      sizes, memptrs, allocs, combined := map[], map[], map[], map[];
    }

    method UpdateStatisticsAdd(key: nat, size: nat)
      modifies this`combined
      ensures combined == AddStat(old(combined), key, size)
    {
      if key !in combined {
        combined := Put(combined, COMBINED_MAX, key, 0);
        if key !in combined { return; }
      }
      combined := combined[key := (combined[key] + (size % U40 + U40)) % U64];
    }

    method UpdateStatisticsDel(key: nat, size: nat)
      modifies this`combined
      ensures combined == DelStat(old(combined), key, size)
    {
      if key !in combined { return; }
      combined := combined[key := (combined[key] - (size % U40 + U40)) % U64];
    }

    method GenAllocEnter(tid: nat, size: nat, now: nat)
      modifies this`sizes
      ensures Value() == AllocEnter(cfg, old(Value()), tid, size, now)
    {
      if size < cfg.minSize || size > cfg.maxSize { return; }
      if cfg.sampleRate > 1 {
        if now % cfg.sampleRate != 0 { return; }
      }
      sizes := Put(sizes, SIZES_MAX, tid, size);
    }

    method GenAllocExit(tid: nat, address: nat, now: nat, stackId: int)
      modifies this
      ensures Value() == AllocExit(old(Value()), tid, address, now, stackId)
    {
      if tid !in sizes { return; }
      var size := sizes[tid];
      sizes := sizes - {tid};
      if address != 0 {
        allocs := Put(allocs, ALLOCS_MAX, address, Info(size, now, stackId));
        UpdateStatisticsAdd(Key(stackId), size);
      }
    }

    method GenFreeEnter(address: nat)
      modifies this
      ensures Value() == FreeEnter(old(Value()), address)
    {
      if address !in allocs { return; }
      var info := allocs[address];
      allocs := allocs - {address};
      UpdateStatisticsDel(Key(info.stackId), info.size);
    }

    method OnEvent(e: Event)
      modifies this
      ensures Value() == Step(cfg, old(Value()), e)
    {
      hide AllocEnter, AllocExit, FreeEnter;
      match e
      case Enter(tid, size, now) => GenAllocEnter(tid, size, now);
      case Exit(tid, address, now, stackId) => GenAllocExit(tid, address, now, stackId);
      case Free(address) => GenFreeEnter(address);
      case ReallocEnter(address, tid, size, now) =>
        GenFreeEnter(address);
        GenAllocEnter(tid, size, now);
      case MemalignEnter(memptr, tid, size, now) =>
        memptrs := Put(memptrs, SIZES_MAX, tid, memptr);
        GenAllocEnter(tid, size, now);
      case MemalignExit(tid, found, now, stackId) =>
        if tid !in memptrs { return; }
        memptrs := memptrs - {tid};
        if found.None? { return; }
        GenAllocExit(tid, found.value, now, stackId);
      case Kernel(address, tid, size, now, stackId) =>
        if cfg.waMissingFree { GenFreeEnter(address); }
        GenAllocEnter(tid, size, now);
        GenAllocExit(tid, address, now, stackId);
      case Page(address, tid, size, now, stackId) =>
        GenAllocEnter(tid, size, now);
        GenAllocExit(tid, address, now, stackId);
    }
  }
}
