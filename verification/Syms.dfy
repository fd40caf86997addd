/** User-space symbolisation in trace_helpers.c: from a run-time address through the
    mapped ranges of an ELF file to a symbol and an offset into it. */
module Syms {
  import opened BpfMap
  import Ksyms
  import Qsort

  datatype Kind = EXEC | DYN | PERF_MAP | VDSO | UNKNOWN

  datatype Range = Range(start: nat, end: nat, fileOff: nat)

  /** `struct sym`; `offset` is where the last query that found it fell. */
  datatype Symbol = Symbol(name: string, start: nat, size: nat, offset: nat)

  /** `syms` is empty (a null pointer in C) until symbols have been loaded. */
  datatype Dso = Dso(name: string, ranges: seq<Range>, kind: Kind, shAddr: nat, shOffset: nat, syms: seq<Symbol>)

  /** An entry of a symbol table section of an ELF file. */
  datatype Raw = Raw(name: string, value: nat, size: nat)

  /** The symbol table entries of the files that can be opened, by file name. */
  type Files = map<string, seq<Raw>>

  // ----- From an address to a file -----

  predicate Inside(r: Range, addr: nat) {
    r.start < addr < r.end
  }

  /** The address under which symbols are looked up, in wrapping arithmetic. */
  function Translate(d: Dso, r: Range, addr: nat): nat {
    if d.kind.DYN? || d.kind.VDSO? then (addr - r.start + r.fileOff + d.shAddr - d.shOffset) % U64 else addr
  }

  /** The first range of a file from position `j` on that an address is inside of. */
  function FirstRange(d: Dso, addr: nat, j: nat): (k: Option<nat>)
    requires j <= |d.ranges|
    ensures k.Some? ==> j <= k.value < |d.ranges| && Inside(d.ranges[k.value], addr)
    ensures k.None? ==> forall l | j <= l < |d.ranges| :: !Inside(d.ranges[l], addr)
    decreases |d.ranges| - j
  {
    if j == |d.ranges| then None
    else if Inside(d.ranges[j], addr) then Some(j)
    else FirstRange(d, addr, j + 1)
  }

  /** The first file from position `i` on with such a range, and the translated address. */
  function FirstDso(dsos: seq<Dso>, addr: nat, i: nat): (found: Option<(nat, nat)>)
    requires i <= |dsos|
    ensures found.Some? ==> i <= found.value.0 < |dsos|
    decreases |dsos| - i
  {
    if i == |dsos| then None
    else
      var d := dsos[i];
      match FirstRange(d, addr, 0)
      case Some(j) => Some((i, Translate(d, d.ranges[j], addr)))
      case None => FirstDso(dsos, addr, i + 1)
  }

  // ----- From a translated address to a symbol -----

  predicate SymLe(a: Symbol, b: Symbol) {
    if a.start == b.start then Ksyms.StrLe(a.name, b.name) else a.start < b.start
  }

  lemma SymLeIsTotal()
    ensures Qsort.TotalPreorder(SymLe)
  {
    forall a, b ensures SymLe(a, b) || SymLe(b, a) { Ksyms.StrTotal(a.name, b.name); }
    forall a, b, c | SymLe(a, b) && SymLe(b, c) ensures SymLe(a, c) {
      if a.start == b.start == c.start { Ksyms.StrTransitive(a.name, b.name, c.name); }
    }
  }

  predicate Ordered(t: seq<Symbol>) {
    forall i, j | 0 <= i < j < |t| :: t[i].start <= t[j].start
  }

  /** The last symbol that starts at or before `at`, or -1. */
  function LastFrom(t: seq<Symbol>, at: nat): (i: int)
    ensures -1 <= i < |t|
    ensures i >= 0 ==> t[i].start <= at
    ensures forall k | i < k < |t| :: t[k].start > at
  {
    if t == [] then -1
    else if t[|t| - 1].start <= at then |t| - 1
    else LastFrom(t[..|t| - 1], at)
  }

  /** The position of the symbol found for a translated address, if it reaches that far. */
  function SymbolAt(t: seq<Symbol>, at: nat): (k: Option<nat>)
    ensures k.Some? ==> k.value < |t|
  {
    var i := LastFrom(t, at);
    if i >= 0 && at < (t[i].start + t[i].size) % U64 then Some(i) else None
  }

  /** The table after the query, with the offset written into the symbol found. */
  function Marked(t: seq<Symbol>, at: nat): (m: seq<Symbol>)
    ensures |m| == |t|
  {
    match SymbolAt(t, at)
    case None => t
    case Some(k) => t[k := t[k].(offset := Sub64(at, t[k].start))]
  }

  predicate Contains(s: Symbol, at: nat) {
    s.start <= at < s.start + s.size
  }

  predicate Compatible(a: Symbol, b: Symbol) {
    || (a.start == b.start && a.size == b.size)
    || a.start + a.size <= b.start || b.start + b.size <= a.start
  }

  /** Symbols are not empty, end inside the address space, and any two coincide or are disjoint. */
  ghost predicate Proper(t: seq<Symbol>) {
    && (forall s | s in t :: s.size > 0 && s.start + s.size < U64)
    && forall a, b | a in t && b in t :: Compatible(a, b)
  }

  lemma SymbolAtFinds(t: seq<Symbol>, i: nat, at: nat)
    requires Ordered(t) && Proper(t) && i < |t| && Contains(t[i], at)
    ensures SymbolAt(t, at).Some?
    ensures var s := t[SymbolAt(t, at).value]; s.start == t[i].start && s.size == t[i].size
  {
    var k := LastFrom(t, at);
    assert k >= i;
    assert Compatible(t[i], t[k]);
    assert t[i].start <= t[k].start;
  }

  lemma SymbolAtContains(t: seq<Symbol>, at: nat)
    ensures SymbolAt(t, at).Some? ==> Contains(t[SymbolAt(t, at).value], at)
  {
    var i := LastFrom(t, at);
    if i >= 0 { ModAtMost(t[i].start + t[i].size); }
  }

  lemma ModAtMost(n: nat)
    ensures n % U64 <= n
  {
  }

  // ----- The symbol table of a file -----

  /** The entries with a name and an address, as symbols. */
  function Kept(raw: seq<Raw>): seq<Symbol> {
    if raw == [] then []
    else
      var e := raw[|raw| - 1];
      var before := Kept(raw[..|raw| - 1]);
      if e.name == "" || e.value == 0 then before else before + [Symbol(e.name, e.value, e.size, 0)]
  }

  /** Exactly the entries with a name and an address are symbols. */
  lemma {:induction false} KeptIff(raw: seq<Raw>, name: string, value: nat, size: nat)
    ensures Symbol(name, value, size, 0) in Kept(raw) <==> Raw(name, value, size) in raw && name != "" && value != 0
    ensures forall s | s in Kept(raw) :: s.offset == 0
  {
    if raw != [] {
      var before, e := raw[..|raw| - 1], raw[|raw| - 1];
      KeptIff(before, name, value, size);
      assert raw == before + [e];
    }
  }

  predicate Loadable(d: Dso, files: Files) {
    (d.kind.EXEC? || d.kind.DYN? || d.kind.VDSO?) && d.name in files
  }

  /** `t` holds the same symbols as `u`, whatever the offsets left by queries. */
  ghost predicate SameSymbols(t: seq<Symbol>, u: seq<Symbol>) {
    && (forall s | s in t :: s.(offset := 0) in u)
    && forall s | s in u :: exists o :: s.(offset := o) in t
  }

  /** A table that a query on the file may use. */
  ghost predicate TableOf(d: Dso, files: Files, t: seq<Symbol>) {
    if d.syms != [] then t == d.syms
    else if !Loadable(d, files) then t == []
    else Ordered(t) && SameSymbols(t, Kept(files[d.name]))
  }

  /** What every operation keeps: loaded tables are in order and hold the file's symbols. */
  ghost predicate Sound(d: Dso, files: Files) {
    d.syms != [] ==> d.name in files && Ordered(d.syms) && SameSymbols(d.syms, Kept(files[d.name]))
  }

  lemma MarkedKeeps(t: seq<Symbol>, at: nat, u: seq<Symbol>)
    ensures Ordered(t) ==> Ordered(Marked(t, at))
    ensures SameSymbols(t, u) ==> SameSymbols(Marked(t, at), u)
  {
    var m := Marked(t, at);
    assert forall i | 0 <= i < |t| :: m[i].start == t[i].start && m[i] == t[i].(offset := m[i].offset);
    if SameSymbols(t, u) {
      forall s | s in m ensures s.(offset := 0) in u {
        var i :| 0 <= i < |m| && m[i] == s;
        assert t[i] in t;
      }
      forall s | s in u ensures exists o :: s.(offset := o) in m {
        var o :| s.(offset := o) in t;
        var i :| 0 <= i < |t| && t[i] == s.(offset := o);
        assert m[i] == s.(offset := m[i].offset) && m[i] in m;
      }
    }
  }

  method LoadTable(raw: seq<Raw>) returns (t: seq<Symbol>)
    ensures Ordered(t) && SameSymbols(t, Kept(raw)) && multiset(t) == multiset(Kept(raw))
  {
    var kept := [];
    for i := 0 to |raw|
      invariant kept == Kept(raw[..i])
      invariant forall s | s in kept :: s.offset == 0
    {
      assert raw[..i + 1][..i] == raw[..i];
      if raw[i].name != "" && raw[i].value != 0 {
        kept := kept + [Symbol(raw[i].name, raw[i].value, raw[i].size, 0)];
      }
    }
    assert raw[..|raw|] == raw;
    SymLeIsTotal();
    t := Qsort.Sort(kept, SymLe);
    SortedIsTable(t, kept);
  }

  lemma SortedIsTable(t: seq<Symbol>, kept: seq<Symbol>)
    requires Qsort.Sorted(t, SymLe) && multiset(t) == multiset(kept) && forall s | s in kept :: s.offset == 0
    ensures Ordered(t) && SameSymbols(t, kept)
  {
    hide Ksyms.StrLe;
    assert forall s :: s in t <==> s in multiset(t);
    assert forall s :: s in kept <==> s in multiset(kept);
    forall s | s in kept ensures exists o :: s.(offset := o) in t {
      assert s.(offset := 0) == s;
    }
  }

  // ----- The loading rule -----

  /** A loadable segment: its virtual address and its place in the file. */
  datatype Segment = Segment(vaddr: nat, offset: nat)

  /** With load bias `bias`, the byte of a segment at file offset o is at run-time address
      bias + vaddr + (o - offset); the range puts file offset `fileOff` at `start`. A file
      linked at fixed addresses has no bias. */
  predicate Loads(d: Dso, r: Range, seg: Segment, bias: int) {
    if d.kind.DYN? || d.kind.VDSO? then r.start == bias + seg.vaddr + (r.fileOff - seg.offset) else bias == 0
  }

  /** The segment lies as far from its place in the file as .text does, whose section header
      is the only one the translation looks at. */
  predicate LikeText(d: Dso, seg: Segment) {
    d.kind.DYN? || d.kind.VDSO? ==> ((d.shAddr - d.shOffset) - (seg.vaddr - seg.offset)) % U64 == 0
  }

  /** No two ranges, of one file or of two, overlap. */
  predicate Disjoint(dsos: seq<Dso>) {
    forall i, j, k, l | 0 <= i < |dsos| && 0 <= j < |dsos[i].ranges| && 0 <= k < |dsos| && 0 <= l < |dsos[k].ranges| ::
      (i, j) != (k, l) ==> Apart(dsos[i].ranges[j], dsos[k].ranges[l])
  }

  predicate Apart(a: Range, b: Range) {
    a.end <= b.start || b.end <= a.start
  }

  /** An address of a mapped range is found in that range and no other, unless it is the first. */
  lemma {:induction false} DsoFoundIff(dsos: seq<Dso>, addr: nat, n: nat, i: nat, j: nat)
    requires Disjoint(dsos) && n <= i < |dsos| && j < |dsos[i].ranges|
    requires dsos[i].ranges[j].start <= addr < dsos[i].ranges[j].end
    ensures FirstDso(dsos, addr, n) ==
            if addr == dsos[i].ranges[j].start then None else Some((i, Translate(dsos[i], dsos[i].ranges[j], addr)))
    decreases |dsos| - n
  {
    hide Translate;
    if n < i {
      NotElsewhere(dsos, addr, n, i, j);
      DsoFoundIff(dsos, addr, n + 1, i, j);
    } else {
      forall l | 0 <= l < |dsos[i].ranges| && l != j ensures !Inside(dsos[i].ranges[l], addr) {
        assert Apart(dsos[i].ranges[l], dsos[i].ranges[j]);
      }
      NoneFrom(dsos, addr, n + 1, i, j);
    }
  }

  lemma NotElsewhere(dsos: seq<Dso>, addr: nat, n: nat, i: nat, j: nat)
    requires Disjoint(dsos) && n < |dsos| && i < |dsos| && n != i && j < |dsos[i].ranges|
    requires dsos[i].ranges[j].start <= addr < dsos[i].ranges[j].end
    ensures FirstRange(dsos[n], addr, 0) == None
  {
    forall l | 0 <= l < |dsos[n].ranges| ensures !Inside(dsos[n].ranges[l], addr) {
      assert Apart(dsos[n].ranges[l], dsos[i].ranges[j]);
    }
  }

  lemma {:induction false} NoneFrom(dsos: seq<Dso>, addr: nat, n: nat, i: nat, j: nat)
    requires Disjoint(dsos) && i < n <= |dsos| && j < |dsos[i].ranges|
    requires dsos[i].ranges[j].start <= addr < dsos[i].ranges[j].end
    ensures FirstDso(dsos, addr, n) == None
    decreases |dsos| - n
  {
    if n < |dsos| {
      NotElsewhere(dsos, addr, n, i, j);
      NoneFrom(dsos, addr, n + 1, i, j);
    }
  }

  /** Looking an address up undoes loading, taking the bias off again, exactly in the segments
      that lie like .text. */
  lemma TranslateUnloadsIff(d: Dso, r: Range, seg: Segment, bias: int, addr: nat)
    requires Loads(d, r, seg, bias) && addr < U64
    ensures Translate(d, r, addr) < U64
    ensures Translate(d, r, addr) == (addr - bias) % U64 <==> LikeText(d, seg)
  {
    if d.kind.DYN? || d.kind.VDSO? {
      var skew := (d.shAddr - d.shOffset) - (seg.vaddr - seg.offset);
      assert addr - r.start + r.fileOff + d.shAddr - d.shOffset == addr - bias + skew;
      SameModIff(addr - bias, skew);
    }
  }

  lemma SameModIff(a: int, w: int)
    ensures (a + w) % U64 == a % U64 <==> w % U64 == 0
  {
  }

  lemma TableIsProper(d: Dso, files: Files, t: seq<Symbol>)
    requires Sound(d, files) && TableOf(d, files, t) && d.name in files && Proper(Kept(files[d.name]))
    ensures Ordered(t) && Proper(t)
  {
    var u := Kept(files[d.name]);
    forall a, b | a in t && b in t ensures Compatible(a, b) {
      assert Compatible(a.(offset := 0), b.(offset := 0));
    }
  }

  /** The run-time address `addr` is byte `k` of symbol `s` of the file mapped in a range. With
      ranges disjoint and symbols proper, the query answers with a symbol of s's extent and
      offset k if, and only if, the address is not the very first one of the range and the
      segment of the range lies like .text. */
  lemma TranslationInvertsLoading(dsos: seq<Dso>, files: Files, i: nat, j: nat, seg: Segment, bias: int,
                                  t: seq<Symbol>, s: Symbol, k: nat, addr: nat)
    requires Disjoint(dsos) && i < |dsos| && j < |dsos[i].ranges|
    requires Sound(dsos[i], files) && Loadable(dsos[i], files) && TableOf(dsos[i], files, t)
    requires var u := Kept(files[dsos[i].name]); s in u && Proper(u)
    requires Loads(dsos[i], dsos[i].ranges[j], seg, bias)
    requires k < s.size && addr == bias + s.start + k && addr < U64
    requires dsos[i].ranges[j].start <= addr < dsos[i].ranges[j].end
    ensures var found := FirstDso(dsos, addr, 0);
            && (found.Some? <==> addr != dsos[i].ranges[j].start) && (found.Some? ==> found.value.0 == i)
            && (found.Some? && IsByte(t, found.value.1, s, k) <==>
                addr != dsos[i].ranges[j].start && LikeText(dsos[i], seg))
  {
    hide FirstDso, TableOf, Sound, Proper, Marked, SymbolAt, Translate, LikeText, IsByte;
    DsoFoundIff(dsos, addr, 0, i, j);
    TranslateUnloadsIff(dsos[i], dsos[i].ranges[j], seg, bias, addr);
    InTable(dsos[i], files, t, s, k);
    var at := Translate(dsos[i], dsos[i].ranges[j], addr);
    if IsByte(t, at, s, k) { ByteIsThere(t, at, s, k); }
  }

  /** Only the right translated address can be taken for byte `k` of the symbol. */
  lemma ByteIsThere(t: seq<Symbol>, at: nat, s: Symbol, k: nat)
    requires IsByte(t, at, s, k) && at < U64
    ensures at == s.start + k
  {
    SymbolAtContains(t, at);
  }

  /** The query finds a symbol with the extent of `s` and writes offset `k` into it. */
  predicate IsByte(t: seq<Symbol>, at: nat, s: Symbol, k: nat) {
    var p := SymbolAt(t, at);
    p.Some? && var found := Marked(t, at)[p.value]; found.start == s.start && found.size == s.size && found.offset == k
  }

  lemma InTable(d: Dso, files: Files, t: seq<Symbol>, s: Symbol, k: nat)
    requires Sound(d, files) && Loadable(d, files) && TableOf(d, files, t)
    requires var u := Kept(files[d.name]); s in u && Proper(u)
    requires k < s.size
    ensures s.start + k < U64 && IsByte(t, s.start + k, s, k)
  {
    hide TableOf, Sound, Kept, Ordered, Proper, SymbolAt, Marked;
    TableIsProper(d, files, t);
    var o := SymbolHeld(d, files, t, s);
    ByteFound(t, s.(offset := o), k);
  }

  lemma ByteFound(t: seq<Symbol>, s: Symbol, k: nat)
    requires Ordered(t) && Proper(t) && s in t && k < s.size
    ensures s.start + k < U64 && IsByte(t, s.start + k, s, k)
  {
    var i :| 0 <= i < |t| && t[i] == s;
    SymbolAtFinds(t, i, s.start + k);
    hide Ordered, Proper, SymbolAt, LastFrom;
  }

  lemma SymbolHeld(d: Dso, files: Files, t: seq<Symbol>, s: Symbol) returns (o: nat)
    requires Sound(d, files) && Loadable(d, files) && TableOf(d, files, t) && s in Kept(files[d.name])
    ensures s.(offset := o) in t
  {
    o :| s.(offset := o) in t;
  }

  /** Whatever a query inside a range answers, its symbol contains the translated address, at the
      offset written; and that is the address with the bias taken off exactly if the segment
      lies like .text. So there no address resolves to a symbol that does not contain it.
      Nothing is assumed of the table. */
  lemma AnswersContainTheAddress(dsos: seq<Dso>, i: nat, j: nat, seg: Segment, bias: int, t: seq<Symbol>, addr: nat)
    requires Disjoint(dsos) && i < |dsos| && j < |dsos[i].ranges| && addr < U64
    requires Inside(dsos[i].ranges[j], addr) && Loads(dsos[i], dsos[i].ranges[j], seg, bias)
    ensures var found := FirstDso(dsos, addr, 0);
            && found.Some? && found.value.0 == i
            && var at := found.value.1;
               && (at == (addr - bias) % U64 <==> LikeText(dsos[i], seg))
               && (SymbolAt(t, at).Some? ==>
                     var answer := Marked(t, at)[SymbolAt(t, at).value];
                     && Contains(answer, at) && answer.offset == at - answer.start
                     && (answer.start + answer.offset == (addr - bias) % U64 <==> LikeText(dsos[i], seg)))
  {
    hide LikeText, Translate;
    DsoFoundIff(dsos, addr, 0, i, j);
    TranslateUnloadsIff(dsos[i], dsos[i].ranges[j], seg, bias, addr);
    SymbolAtContains(t, Translate(dsos[i], dsos[i].ranges[j], addr));
  }

  /** A file with a second executable segment that lies differently: an address of symbol "s"
      there is answered with another symbol. */
  lemma SecondSegmentMisleads() returns (d: Dso, seg: Segment, t: seq<Symbol>)
    ensures d.kind.DYN? && d.ranges == [Range(0x7000, 0x8000, 0x3000)] && Loads(d, d.ranges[0], seg, 0)
    ensures seg == Segment(0x7000, 0x3000) && (d.shAddr, d.shOffset) == (0x1000, 0x1000) && !LikeText(d, seg)
    ensures t == [Symbol("w", 0x3010, 16, 0), Symbol("s", 0x7010, 16, 0)] && Ordered(t) && Proper(t)
    ensures FirstDso([d], 0x7010, 0) == Some((0, 0x3010)) && SymbolAt(t, 0x3010) == Some(0) && Contains(t[1], 0x7010)
  {
    d := Dso("two", [Range(0x7000, 0x8000, 0x3000)], DYN, 0x1000, 0x1000, []);
    seg := Segment(0x7000, 0x3000);
    t := [Symbol("w", 0x3010, 16, 0), Symbol("s", 0x7010, 16, 0)];
    assert FirstRange(d, 0x7010, 0) == Some(0);
    assert t[..1] == [t[0]];
    assert LastFrom(t, 0x3010) == 0;
  }

  // ----- The code -----

  /** The type in the ELF header; other types, and files that are not ELF, come to the same. */
  datatype ElfType = ET_EXEC | ET_DYN | OTHER

  /** The section header of .text. */
  datatype TextHeader = TextHeader(addr: nat, offset: nat)

  /** What opening the mapped file shows. */
  datatype Elf = Elf(elfType: ElfType, text: Option<TextHeader>)

  predicate IsVdso(name: string) {
    name == "[vdso]"
  }

  /** `get_elf_type`, which does not open the vDSO or the page of the uprobes. */
  function ElfTypeOf(name: string, elf: Elf): ElfType {
    if IsVdso(name) || name == "[uprobes]" then OTHER else elf.elfType
  }

  /** `is_perf_map` knows none, so there is no PERF_MAP. */
  function KindOf(name: string, elf: Elf): Kind {
    var t := ElfTypeOf(name, elf);
    if t.ET_EXEC? then EXEC
    else if t.ET_DYN? then DYN
    else if IsVdso(name) then VDSO
    else UNKNOWN
  }

  /** The file once it has the range: of the kind found now, with .text where it is found now. */
  function Mapped(d: Dso, r: Range, elf: Elf): Dso {
    var d := d.(ranges := d.ranges + [r], kind := KindOf(d.name, elf));
    if d.kind.DYN? && elf.text.Some? then d.(shAddr := elf.text.value.addr, shOffset := elf.text.value.offset) else d
  }

  function NewDso(name: string): Dso {
    Dso(name, [], EXEC, 0, 0, [])
  }

  /** The files after one more mapping. */
  function Added(dsos: seq<Dso>, name: string, r: Range, elf: Elf): seq<Dso> {
    var i := Position(dsos, name);
    if i < |dsos| then dsos[i := Mapped(dsos[i], r, elf)] else dsos + [Mapped(NewDso(name), r, elf)]
  }

  function Position(dsos: seq<Dso>, name: string): (i: nat)
    ensures i <= |dsos| && (i < |dsos| ==> dsos[i].name == name)
    ensures forall k | 0 <= k < i :: dsos[k].name != name
  {
    if dsos == [] || dsos[0].name == name then 0 else 1 + Position(dsos[1..], name)
  }

  class Table {
    var dsos: seq<Dso>

    ghost predicate Valid(files: Files)
      reads this
    {
      && (forall d | d in dsos :: Sound(d, files))
      && forall i, j | 0 <= i < j < |dsos| :: dsos[i].name != dsos[j].name
    }

    constructor ()
      ensures dsos == []
    {
      dsos := [];
    }

    /** `syms__add_dso`: one file per name, which gathers every range it is mapped at. `fileMem` and
        `rangeMem` say whether memory is found for a new file and for the range. A file that
        gets no range stays behind without one, and a failure to read the .text header is
        reported after the range has been recorded. */
    method AddDso(r: Range, name: string, elf: Elf, fileMem: bool, rangeMem: bool, ghost files: Files)
      returns (ok: bool)
      requires Valid(files)
      modifies this
      ensures Valid(files)
      ensures var known := Position(old(dsos), name) < |old(dsos)|;
              && (ok <==> (known || fileMem) && rangeMem && (ElfTypeOf(name, elf).ET_DYN? ==> elf.text.Some?))
              && dsos == if !known && !fileMem then old(dsos)
                         else if rangeMem then Added(old(dsos), name, r, elf)
                         else if known then old(dsos)
                         else old(dsos) + [NewDso(name)]
    {
      hide Sound, KindOf, Mapped;
      var i := 0;
      while i < |dsos| && dsos[i].name != name
        invariant 0 <= i <= |dsos|
        invariant forall k | 0 <= k < i :: dsos[k].name != name
      {
        i := i + 1;
      }
      assert i == Position(dsos, name);
      if i == |dsos| {
        if !fileMem { return false; }
        NewIsSound(name, files);
        dsos := dsos + [Dso(name, [], EXEC, 0, 0, [])];
      }
      if !rangeMem { return false; }
      var d;
      d, ok := Describe(dsos[i], r, elf);
      SoundDepends(dsos[i], d, files);
      dsos := dsos[i := d];
    }

    /** `syms__find_dso` */
    method FindDso(addr: nat) returns (found: Option<(nat, nat)>)
      ensures found == FirstDso(dsos, addr, 0)
    {
      for i := 0 to |dsos|
        invariant FirstDso(dsos, addr, 0) == FirstDso(dsos, addr, i)
      {
        var d := dsos[i];
        for j := 0 to |d.ranges|
          invariant FirstRange(d, addr, 0) == FirstRange(d, addr, j)
        {
          var r := d.ranges[j];
          if addr <= r.start || addr >= r.end { continue; }
          return Some((i, Translate(d, r, addr)));
        }
      }
      found := None;
    }

    /** `dso__find_sym`: load the table if there is none, then search it. */
    method FindSym(i: nat, at: nat, files: Files) returns (r: Option<nat>, ghost t: seq<Symbol>)
      requires Valid(files) && i < |dsos|
      modifies this
      ensures Valid(files) && TableOf(old(dsos)[i], files, t)
      ensures r == SymbolAt(t, at)
      ensures dsos == old(dsos)[i := old(dsos)[i].(syms := Marked(t, at))]
    {
      hide TableOf, Sound, Ordered, SameSymbols, Marked, SymbolAt;
      var d := dsos[i];
      var table := GetTable(d, files);
      t := table;
      r := Search(table, at);
      var m := Mark(table, at, r);
      MarkedSound(d, files, table, at);
      dsos := dsos[i := d.(syms := m)];
    }

    /** `syms__map_addr` */
    method MapAddr(addr: nat, files: Files) returns (r: Option<(nat, nat)>, ghost t: seq<Symbol>)
      requires Valid(files)
      modifies this
      ensures Valid(files)
      ensures match FirstDso(old(dsos), addr, 0)
              case None => r == None && dsos == old(dsos)
              case Some((i, at)) =>
                && TableOf(old(dsos)[i], files, t)
                && r == (match SymbolAt(t, at) case None => None case Some(k) => Some((i, k)))
                && dsos == old(dsos)[i := old(dsos)[i].(syms := Marked(t, at))]
    {
      hide FirstDso, TableOf, Sound, SymbolAt, Marked;
      r, t := None, [];
      var found := FindDso(addr);
      if found.Some? {
        var k;
        k, t := FindSym(found.value.0, found.value.1, files);
        if k.Some? { r := Some((found.value.0, k.value)); }
      }
    }
  }

  /** The end of `syms__add_dso`: the range is recorded, then the file looked at. */
  method Describe(was: Dso, r: Range, elf: Elf) returns (d: Dso, ok: bool)
    ensures d == Mapped(was, r, elf) && d.name == was.name && d.syms == was.syms
    ensures ok <==> (ElfTypeOf(was.name, elf).ET_DYN? ==> elf.text.Some?)
  {
    d, ok := was.(ranges := was.ranges + [r]), true;
    var elfType := ElfTypeOf(d.name, elf);
    if elfType.ET_EXEC? {
      d := d.(kind := EXEC);
    } else if elfType.ET_DYN? {
      d := d.(kind := DYN);
      if elf.text.Some? {
        d := d.(shAddr := elf.text.value.addr, shOffset := elf.text.value.offset);
      } else {
        ok := false;
      }
    } else if IsVdso(d.name) {
      d := d.(kind := VDSO);
    } else {
      d := d.(kind := UNKNOWN);
    }
  }

  lemma NewIsSound(name: string, files: Files)
    ensures Sound(Dso(name, [], EXEC, 0, 0, []), files)
  {
  }

  lemma SoundDepends(d: Dso, e: Dso, files: Files)
    requires Sound(d, files) && d.name == e.name && d.syms == e.syms
    ensures Sound(e, files)
  {
  }

  lemma MarkedSound(d: Dso, files: Files, t: seq<Symbol>, at: nat)
    requires Sound(d, files) && TableOf(d, files, t)
    ensures Sound(d.(syms := Marked(t, at)), files)
  {
    if d.name in files { MarkedKeeps(t, at, Kept(files[d.name])); }
  }

  method GetTable(d: Dso, files: Files) returns (t: seq<Symbol>)
    requires Sound(d, files)
    ensures TableOf(d, files, t) && Ordered(t)
  {
    t := d.syms;
    if t == [] && Loadable(d, files) { t := LoadTable(files[d.name]); }
  }

  /** The binary search of `dso__find_sym`. */
  method Search(t: seq<Symbol>, at: nat) returns (r: Option<nat>)
    requires Ordered(t)
    ensures r == SymbolAt(t, at)
  {
    var start, end := 0, |t| - 1;
    while start < end
      invariant if t == [] then start == 0 && end == -1 else 0 <= start <= end < |t|
      invariant start > 0 ==> t[start].start <= at
      invariant forall k | end < k < |t| :: t[k].start > at
    {
      var mid := start + (end - start + 1) / 2;
      if t[mid].start <= at { start := mid; } else { end := mid - 1; }
    }
    if start == end && t[start].start <= at && at < (t[start].start + t[start].size) % U64 {
      return Some(start);
    }
    r := None;
  }

  method Mark(t: seq<Symbol>, at: nat, r: Option<nat>) returns (m: seq<Symbol>)
    requires r == SymbolAt(t, at)
    ensures m == Marked(t, at)
  {
    m := t;
    if r.Some? { m := t[r.value := t[r.value].(offset := Sub64(at, t[r.value].start))]; }
  }
}
