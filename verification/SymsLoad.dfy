/** From the mappings of a process to answers: the table that `syms__load_file` builds from
    /proc/PID/maps, and what a query of it finds, in terms of the mapped ELF files. */
module SymsLoad {
  import opened BpfMap
  import opened Syms

  /** A line of the maps file, the permissions cut down to whether it is executable. */
  datatype Line = Line(range: Range, executable: bool, name: string)

  /** `is_file_backed` */
  predicate FileBacked(name: string) {
    && name != ""
    && !("//anon" <= name || "/dev/zero" <= name || "/anon_hugepage" <= name || "[stack" <= name
         || "/SYSV" <= name || "[heap]" <= name || "[uprobes]" <= name || "[vsyscall]" <= name)
  }

  /** The lines that are mappings of code from a file. */
  function Code(lines: seq<Line>): (ms: seq<Line>)
    ensures forall m | m in ms :: m in lines && m.executable && FileBacked(m.name)
    ensures forall m | m in lines && m.executable && FileBacked(m.name) :: m in ms
  {
    if lines == [] then []
    else
      var before, m := Code(lines[..|lines| - 1]), lines[|lines| - 1];
      assert lines == lines[..|lines| - 1] + [m];
      if m.executable && FileBacked(m.name) then before + [m] else before
  }

  /** What opening each file shows. */
  type Elves = string -> Elf

  function Built(ms: seq<Line>, elves: Elves): seq<Dso> {
    if ms == [] then []
    else
      var m := ms[|ms| - 1];
      Added(Built(ms[..|ms| - 1], elves), m.name, m.range, elves(m.name))
  }

  /** Every shared file among them has a .text section. */
  ghost predicate HaveText(ms: seq<Line>, elves: Elves) {
    forall m | m in ms :: ElfTypeOf(m.name, elves(m.name)).ET_DYN? ==> elves(m.name).text.Some?
  }

  lemma BuiltLast(lines: seq<Line>, i: nat, elves: Elves)
    requires i < |lines|
    ensures var m := lines[i];
            if m.executable && FileBacked(m.name) then
              && Code(lines[..i + 1]) == Code(lines[..i]) + [m]
              && Built(Code(lines[..i + 1]), elves) == Added(Built(Code(lines[..i]), elves), m.name, m.range, elves(m.name))
            else Code(lines[..i + 1]) == Code(lines[..i])
  {
    assert lines[..i + 1][..i] == lines[..i];
    var m := lines[i];
    if m.executable && FileBacked(m.name) {
      var ms := Code(lines[..i]);
      assert (ms + [m])[..|ms|] == ms;
    }
  }

  /** `syms__load_file` with memory enough: null if a shared file has no .text, otherwise the files
      of all code mappings. */
  method LoadFile(lines: seq<Line>, elves: Elves, ghost files: Files) returns (t: Table?)
    ensures t == null <==> !HaveText(Code(lines), elves)
    ensures t != null ==> fresh(t) && t.Valid(files) && t.dsos == Built(Code(lines), elves)
  {
    hide Added, FileBacked, Code, ElfTypeOf;
    var table := new Table();
    EmptyCode();
    for i := 0 to |lines|
      invariant fresh(table) && table.Valid(files) && table.dsos == Built(Code(lines[..i]), elves)
      invariant HaveText(Code(lines[..i]), elves)
    {
      var m := lines[i];
      BuiltLast(lines, i, elves);
      if !m.executable || !FileBacked(m.name) { continue; }
      var ok := table.AddDso(m.range, m.name, elves(m.name), true, true, files);
      if !ok {
        CodeKept(lines, i + 1, m);
        return null;
      }
    }
    assert lines[..|lines|] == lines;
    t := table;
  }

  lemma EmptyCode()
    ensures Code([]) == []
  {
  }

  lemma CodeKept(lines: seq<Line>, i: nat, m: Line)
    requires i <= |lines| && m in Code(lines[..i])
    ensures m in Code(lines)
  {
    assert m in lines[..i];
  }

  // ----- What the table knows -----

  /** The file is described as its ELF file is. */
  predicate Described(d: Dso, elf: Elf) {
    && d.kind == KindOf(d.name, elf)
    && (d.kind.DYN? && elf.text.Some? ==> d.shAddr == elf.text.value.addr && d.shOffset == elf.text.value.offset)
    && (!d.kind.DYN? ==> d.shAddr == 0 && d.shOffset == 0)
    && d.syms == []
  }

  lemma {:induction false} BuiltIsDescribed(ms: seq<Line>, elves: Elves, i: nat)
    requires i < |Built(ms, elves)|
    ensures var d := Built(ms, elves)[i]; Described(d, elves(d.name))
  {
    var before, m := ms[..|ms| - 1], ms[|ms| - 1];
    var was := Built(before, elves);
    if i < |was| { BuiltIsDescribed(before, elves, i); }
  }

  /** Every mapping is there, under its name. */
  lemma {:induction false} MappingIsBuilt(ms: seq<Line>, elves: Elves, n: nat) returns (i: nat, j: nat)
    requires n < |ms|
    ensures var dsos := Built(ms, elves);
            i < |dsos| && dsos[i].name == ms[n].name && j < |dsos[i].ranges| && dsos[i].ranges[j] == ms[n].range
  {
    var before, m := ms[..|ms| - 1], ms[|ms| - 1];
    var was := Built(before, elves);
    if n < |before| {
      i, j := MappingIsBuilt(before, elves, n);
    } else {
      i := Position(was, m.name);
      j := if i < |was| then |was[i].ranges| else 0;
    }
  }

  /** And nothing else. */
  lemma {:induction false} BuiltIsMapped(ms: seq<Line>, elves: Elves, i: nat, j: nat) returns (n: nat)
    requires var dsos := Built(ms, elves); i < |dsos| && j < |dsos[i].ranges|
    ensures n < |ms| && ms[n].name == Built(ms, elves)[i].name && ms[n].range == Built(ms, elves)[i].ranges[j]
  {
    var before, m := ms[..|ms| - 1], ms[|ms| - 1];
    var was := Built(before, elves);
    if i < |was| && j < |was[i].ranges| {
      n := BuiltIsMapped(before, elves, i, j);
    } else {
      n := |ms| - 1;
    }
  }

  ghost predicate AllApart(ms: seq<Line>) {
    forall a, b | 0 <= a < b < |ms| :: Apart(ms[a].range, ms[b].range)
  }

  lemma ApartFromBuilt(before: seq<Line>, elves: Elves, r: Range)
    requires forall a | 0 <= a < |before| :: Apart(before[a].range, r)
    ensures var dsos := Built(before, elves);
            forall i, j | 0 <= i < |dsos| && 0 <= j < |dsos[i].ranges| :: Apart(dsos[i].ranges[j], r) && Apart(r, dsos[i].ranges[j])
  {
    var dsos := Built(before, elves);
    forall i: nat, j: nat | i < |dsos| && j < |dsos[i].ranges|
      ensures Apart(dsos[i].ranges[j], r) && Apart(r, dsos[i].ranges[j])
    {
      var n := BuiltIsMapped(before, elves, i, j);
    }
  }

  lemma AddedDisjoint(dsos: seq<Dso>, name: string, r: Range, elf: Elf)
    requires Disjoint(dsos)
    requires forall i, j | 0 <= i < |dsos| && 0 <= j < |dsos[i].ranges| :: Apart(dsos[i].ranges[j], r) && Apart(r, dsos[i].ranges[j])
    ensures Disjoint(Added(dsos, name, r, elf))
  {
    hide Apart, KindOf;
  }

  lemma {:induction false} BuiltDisjoint(ms: seq<Line>, elves: Elves)
    requires AllApart(ms)
    ensures Disjoint(Built(ms, elves))
  {
    if ms != [] {
      hide Apart, Added;
      var before, m := ms[..|ms| - 1], ms[|ms| - 1];
      BuiltDisjoint(before, elves);
      ApartFromBuilt(before, elves, m.range);
      AddedDisjoint(Built(before, elves), m.name, m.range, elves(m.name));
    }
  }

  // ----- Queries -----

  /** The files as built, whatever symbols earlier queries have loaded. */
  ghost predicate SameFiles(dsos: seq<Dso>, built: seq<Dso>) {
    |dsos| == |built| && forall i | 0 <= i < |dsos| :: dsos[i] == built[i].(syms := dsos[i].syms)
  }

  /** A query keeps them so. */
  lemma QueriesKeepFiles(dsos: seq<Dso>, built: seq<Dso>, i: nat, syms: seq<Symbol>)
    requires SameFiles(dsos, built) && i < |dsos|
    ensures SameFiles(dsos[i := dsos[i].(syms := syms)], built)
  {
  }

  /** The file has symbols to look up: an executable, a shared file, or the vDSO. */
  predicate Symbolic(name: string, elf: Elf) {
    name == "[vdso]" || (name != "[uprobes]" && (elf.elfType.ET_EXEC? || elf.elfType.ET_DYN?))
  }

  /** Program loading: the range puts the byte at file offset `fileOff` of a segment where the load
      bias and the segment's virtual address say; an executable is loaded without a bias. */
  predicate Places(name: string, elf: Elf, r: Range, seg: Segment, bias: int) {
    && r.start == bias + seg.vaddr + (r.fileOff - seg.offset)
    && (name != "[vdso]" && elf.elfType.ET_EXEC? ==> bias == 0)
  }

  /** The segment is as far from its place in the file as .text, for the vDSO as nothing at all. */
  predicate LiesLikeText(name: string, elf: Elf, seg: Segment) {
    if name == "[vdso]" then (seg.vaddr - seg.offset) % U64 == 0
    else if elf.elfType.ET_DYN? then
      elf.text.Some? && ((elf.text.value.addr - elf.text.value.offset) - (seg.vaddr - seg.offset)) % U64 == 0
    else true
  }

  lemma MinusIsZeroIff(a: int)
    ensures (0 - a) % U64 == 0 <==> a % U64 == 0
  {
  }

  /** The recorded file stands for the ELF file. */
  lemma DescribedLoads(d: Dso, elf: Elf, r: Range, seg: Segment, bias: int)
    requires Described(d.(syms := []), elf) && Symbolic(d.name, elf) && Places(d.name, elf, r, seg, bias)
    requires ElfTypeOf(d.name, elf).ET_DYN? ==> elf.text.Some?
    ensures (d.kind.EXEC? || d.kind.DYN? || d.kind.VDSO?) && Loads(d, r, seg, bias)
    ensures LikeText(d, seg) <==> LiesLikeText(d.name, elf, seg)
  {
    MinusIsZeroIff(seg.vaddr - seg.offset);
  }

  lemma SameFilesDisjoint(dsos: seq<Dso>, built: seq<Dso>)
    requires SameFiles(dsos, built) && Disjoint(built)
    ensures Disjoint(dsos)
  {
    hide Apart;
    assert forall i | 0 <= i < |dsos| :: dsos[i].ranges == built[i].ranges;
  }

  /** From mappings to answers. A process maps pairwise disjoint ranges of code, mapping `n` of a
      file with symbols; the loading rule puts byte `k` of symbol `s` at `addr` in it. On the
      table built from the mappings, after any queries, the query for `addr` is answered from
      that file with a symbol of s's extent and offset k if, and only if, `addr` is not the
      first address of the mapping and its segment lies like .text. */
  lemma MappingsToAnswers(ms: seq<Line>, elves: Elves, files: Files, dsos: seq<Dso>, n: nat, seg: Segment, bias: int,
                          s: Symbol, k: nat, addr: nat) returns (i: nat)
    requires AllApart(ms) && HaveText(ms, elves) && n < |ms|
    requires SameFiles(dsos, Built(ms, elves)) && forall d | d in dsos :: Sound(d, files)
    requires var m := ms[n];
             && m.name in files && Symbolic(m.name, elves(m.name)) && Places(m.name, elves(m.name), m.range, seg, bias)
             && s in Kept(files[m.name]) && Proper(Kept(files[m.name])) && m.range.start <= addr < m.range.end
    requires k < s.size && addr == bias + s.start + k && addr < U64
    ensures i < |dsos| && dsos[i].name == ms[n].name
    ensures var found := FirstDso(dsos, addr, 0);
            && (found.Some? ==> found.value.0 == i)
            && forall t | TableOf(dsos[i], files, t) ::
                 found.Some? && IsByte(t, found.value.1, s, k) <==>
                 addr != ms[n].range.start && LiesLikeText(ms[n].name, elves(ms[n].name), seg)
  {
    hide FirstDso, TableOf, IsByte, Proper, Kept, Built, Sound, Disjoint, KindOf;
    var j;
    i, j := MappingIsBuilt(ms, elves, n);
    BuiltIsDescribed(ms, elves, i);
    BuiltDisjoint(ms, elves);
    SameFilesDisjoint(dsos, Built(ms, elves));
    assert ms[n] in ms;
    DescribedLoads(dsos[i], elves(ms[n].name), ms[n].range, seg, bias);
    assert dsos[i] in dsos && Loadable(dsos[i], files);
    forall t | TableOf(dsos[i], files, t)
      ensures var found := FirstDso(dsos, addr, 0);
              && (found.Some? ==> found.value.0 == i)
              && (found.Some? && IsByte(t, found.value.1, s, k) <==>
                  addr != ms[n].range.start && LiesLikeText(ms[n].name, elves(ms[n].name), seg))
    {
      TranslationInvertsLoading(dsos, files, i, j, seg, bias, t, s, k, addr);
    }
    DsoFoundIff(dsos, addr, 0, i, j);
  }

  /** Any other file has no table of symbols, so that no address in it is answered. */
  lemma OthersAnswerNothing(d: Dso, elf: Elf, files: Files, t: seq<Symbol>)
    requires Described(d, elf) && !Symbolic(d.name, elf) && TableOf(d, files, t)
    ensures forall at: nat :: SymbolAt(t, at) == None
  {
  }
}
