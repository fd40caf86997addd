/** The kernel symbol table of trace_helpers.c: built by appending to two growing buffers,
    relocated, sorted, and searched. */
module Ksyms {
  import opened BpfMap
  import Qsort

  /** A kernel symbol as read from kallsyms. */
  datatype Entry = Entry(name: string, addr: nat)

  /** `struct ksym`: the name is an offset into the string buffer, later a pointer. */
  datatype Sym = Sym(name: nat, addr: nat)

  // ----- C strings -----

  /** The string that starts at `at` and ends before the next NUL. */
  function CString(buf: seq<char>, at: nat): string
    decreases |buf| - at
  {
    if at >= |buf| || buf[at] == '\0' then "" else [buf[at]] + CString(buf, at + 1)
  }

  predicate Closed(buf: seq<char>) {
    buf != [] ==> buf[|buf| - 1] == '\0'
  }

  lemma {:induction false} CStringKept(buf: seq<char>, more: seq<char>, at: nat)
    requires Closed(buf) && at < |buf|
    ensures CString(buf + more, at) == CString(buf, at)
    decreases |buf| - at
  {
    if buf[at] != '\0' { CStringKept(buf, more, at + 1); }
  }

  lemma {:induction false} CStringStored(buf: seq<char>, at: nat, s: string)
    requires at + |s| < |buf| && buf[at..at + |s|] == s && buf[at + |s|] == '\0' && '\0' !in s
    ensures CString(buf, at) == s
    decreases |s|
  {
    if s != "" {
      assert buf[at] == s[0];
      assert buf[at + 1..at + 1 + |s[1..]|] == s[1..];
      CStringStored(buf, at + 1, s[1..]);
    }
  }

  // ----- The order of ksym_cmp -----

  /** `strcmp(s, t) <= 0` */
  predicate StrLe(s: string, t: string) {
    s == "" || (t != "" && (s[0] < t[0] || (s[0] == t[0] && StrLe(s[1..], t[1..]))))
  }

  /** The first character in which two strings differ decides, and a string comes before its
      extensions. */
  lemma {:induction false} StrLeAt(s: string, t: string, k: nat)
    requires k <= |s| && k <= |t| && s[..k] == t[..k]
    ensures k < |s| && k < |t| && s[k] != t[k] ==> (StrLe(s, t) <==> s[k] < t[k])
    ensures k == |s| ==> StrLe(s, t)
    ensures k == |t| && k < |s| ==> !StrLe(s, t)
    decreases k
  {
    if k > 0 {
      assert s[..k][0] == t[..k][0];
      assert s[1..][..k - 1] == s[..k][1..] == t[..k][1..] == t[1..][..k - 1];
      StrLeAt(s[1..], t[1..], k - 1);
    }
  }

  lemma {:induction false} StrTotal(s: string, t: string)
    ensures StrLe(s, t) || StrLe(t, s)
    ensures StrLe(s, t) && StrLe(t, s) ==> s == t
  {
    if s != "" && t != "" && s[0] == t[0] {
      StrTotal(s[1..], t[1..]);
      assert s == [s[0]] + s[1..] && t == [t[0]] + t[1..];
    }
  }

  lemma {:induction false} StrTransitive(s: string, t: string, u: string)
    requires StrLe(s, t) && StrLe(t, u)
    ensures StrLe(s, u)
  {
    if s != "" && t != "" && u != "" && s[0] == t[0] == u[0] { StrTransitive(s[1..], t[1..], u[1..]); }
  }

  predicate Le(a: Entry, b: Entry) {
    if a.addr == b.addr then StrLe(a.name, b.name) else a.addr < b.addr
  }

  lemma LeIsTotal()
    ensures Qsort.TotalPreorder(Le)
    ensures forall a, b :: Le(a, b) && Le(b, a) ==> a == b
  {
    forall a, b ensures (Le(a, b) || Le(b, a)) && (Le(a, b) && Le(b, a) ==> a == b) { StrTotal(a.name, b.name); }
    forall a, b, c | Le(a, b) && Le(b, c) ensures Le(a, c) {
      if a.addr == b.addr == c.addr { StrTransitive(a.name, b.name, c.name); }
    }
  }

  // ----- The reference: scan the list for the greatest symbol at or below an address -----

  function Scan(es: seq<Entry>, addr: nat): Option<Entry> {
    if es == [] then None
    else
      var best, e := Scan(es[..|es| - 1], addr), es[|es| - 1];
      if e.addr > addr || (best.Some? && Le(e, best.value)) then best else Some(e)
  }

  /** `e` is the greatest of `es` in `ksym_cmp` order with an address at most `addr`. */
  ghost predicate IsGreatest(es: seq<Entry>, addr: nat, e: Entry) {
    e in es && e.addr <= addr && forall x | x in es && x.addr <= addr :: Le(x, e)
  }

  lemma {:induction false} ScanIsGreatest(es: seq<Entry>, addr: nat)
    ensures Scan(es, addr).None? <==> forall x | x in es :: x.addr > addr
    ensures Scan(es, addr).Some? ==> IsGreatest(es, addr, Scan(es, addr).value)
  {
    if es != [] {
      var before, e := es[..|es| - 1], es[|es| - 1];
      assert es == before + [e];
      ScanIsGreatest(before, addr);
      LeIsTotal();
    }
  }

  // ----- The table as it is built: two buffers that grow -----

  /** At least what is needed, a third more than before, and 1024. */
  function Grown(cap: nat, need: nat): (c: nat)
    ensures c >= need && c >= cap * 4 / 3 && c >= 1024 && (c == need || c == cap * 4 / 3 || c == 1024)
  {
    var c := cap * 4 / 3;
    var c := if c < need then need else c;
    if c < 1024 then 1024 else c
  }

  class Table {
    var syms: array<Sym>
    var symsSz: nat
    var strs: array<char>
    var strsSz: nat
    /** Where the string buffer is; 0 while names are still plain offsets. */
    var base: nat

    ghost function Text(): seq<char>
      requires strsSz <= strs.Length
      reads this, strs
    {
      strs[..strsSz]
    }

    ghost predicate Valid()
      reads this, syms, strs
    {
      && symsSz <= syms.Length && strsSz <= strs.Length && Closed(strs[..strsSz])
      && forall i | 0 <= i < symsSz :: base <= syms[i].name < base + strsSz
    }

    /** The symbols with the names that their offsets or pointers lead to. */
    ghost function Contents(): (es: seq<Entry>)
      requires Valid()
      reads this, syms, strs
      ensures |es| == symsSz && forall i | 0 <= i < symsSz :: es[i].addr == syms[i].addr
    {
      Resolve(syms[..symsSz], Text(), base)
    }

    constructor ()
      ensures Valid() && Contents() == [] && base == 0 && fresh(syms) && fresh(strs)
    {
      syms := new Sym[0];
      strs := new char[0];
      symsSz, strsSz, base := 0, 0, 0;
    }

    /** `realloc` of the string buffer when `len` more bytes do not fit. */
    method ReserveStrs(len: nat, allocOk: bool) returns (ok: bool)
      requires Valid()
      modifies this`strs
      ensures Valid() && Contents() == old(Contents()) && (ok ==> strsSz + len <= strs.Length)
      ensures !ok ==> !allocOk
      ensures strs == old(strs) || (fresh(strs) && strs.Length == Grown(old(strs.Length), strsSz + len))
    {
      if strsSz + len > strs.Length {
        if !allocOk { return false; }
        var grown := new char[Grown(strs.Length, strsSz + len)];
        forall k | 0 <= k < strs.Length { grown[k] := strs[k]; }
        assert grown[..strsSz] == strs[..strsSz];
        strs := grown;
        assert Text() == old(Text()) && syms[..symsSz] == old(syms[..symsSz]);
      }
      ok := true;
    }

    method ReserveSyms(allocOk: bool) returns (ok: bool)
      requires Valid()
      modifies this`syms
      ensures Valid() && Contents() == old(Contents()) && (ok ==> symsSz < syms.Length)
      ensures !ok ==> !allocOk
      ensures syms == old(syms) || (fresh(syms) && syms.Length == Grown(old(syms.Length), 0))
    {
      if symsSz + 1 > syms.Length {
        if !allocOk { return false; }
        GrownGrows(syms.Length);
        var grown := new Sym[Grown(syms.Length, 0)](_ => Sym(0, 0));
        forall k | 0 <= k < syms.Length { grown[k] := syms[k]; }
        assert grown[..symsSz] == syms[..symsSz];
        syms := grown;
        assert syms[..symsSz] == old(syms[..symsSz]) && Text() == old(Text());
      }
      ok := true;
    }

    /** `memcpy` of a name with its terminator. */
    method CopyName(at: nat, name: string)
      requires at + |name| < strs.Length
      modifies strs
      ensures strs[..at + |name| + 1] == old(strs[..at]) + (name + ['\0'])
    {
      forall k | 0 <= k < |name| { strs[at + k] := name[k]; }
      strs[at + |name|] := '\0';
    }

    /** Appends one symbol; if memory runs out nothing is added. */
    method AddSymbol(e: Entry, strsOk: bool, symsOk: bool) returns (ok: bool)
      requires Valid() && base == 0 && '\0' !in e.name
      modifies this, syms, strs
      ensures Valid() && base == 0 && (ok <== strsOk && symsOk)
      ensures Contents() == if ok then old(Contents()) + [e] else old(Contents())
      ensures (syms == old(syms) || fresh(syms)) && (strs == old(strs) || fresh(strs))
    {
      hide Resolve, CString, Grown;
      ok := ReserveStrs(|e.name| + 1, strsOk);
      if !ok { return; }
      ok := ReserveSyms(symsOk);
      if !ok { return; }
      ok := Append(e);
    }

    method Append(e: Entry) returns (ok: bool)
      requires Valid() && base == 0 && '\0' !in e.name
      requires strsSz + |e.name| + 1 <= strs.Length && symsSz < syms.Length
      modifies this`symsSz, this`strsSz, syms, strs
      ensures Valid() && ok && Contents() == old(Contents()) + [e]
    {
      hide Resolve, CString;
      ghost var before, text := syms[..symsSz], Text();
      var at := strsSz;
      syms[symsSz] := Sym(at, e.addr);
      CopyName(at, e.name);
      strsSz := strsSz + |e.name| + 1;
      symsSz := symsSz + 1;
      assert syms[..symsSz] == before + [Sym(at, e.addr)];
      ResolveAppend(before, text, at, e);
      ok := true;
    }

    /** Once the strings stay put, offsets become pointers; the names do not change. */
    method Relocate(at: nat)
      requires Valid() && base == 0
      modifies this`base, syms
      ensures Valid() && base == at && Contents() == old(Contents()) && symsSz == old(symsSz)
    {
      hide Resolve, EntryOf;
      ghost var before := syms[..symsSz];
      for i := 0 to symsSz
        invariant forall k | 0 <= k < symsSz ::
                    syms[k] == if k < i then Sym(old(syms[k]).name + at, old(syms[k]).addr) else old(syms[k])
      {
        syms[i] := syms[i].(name := syms[i].name + at);
      }
      base := at;
      ResolveShifted(before, syms[..symsSz], Text(), at);
    }

    /** `qsort` with `ksym_cmp`, which reads the names through the pointers. */
    method Sort()
      requires Valid()
      modifies syms
      ensures Valid() && Qsort.Sorted(Contents(), Le) && multiset(Contents()) == old(multiset(Contents()))
    {
      hide Resolve, EntryOf, Qsort.TotalPreorder, Le;
      var text, at := strs[..strsSz], base;
      OrderIsTotal(text, at);
      var le := (a: Sym, b: Sym) => Le(EntryOf(a, text, at), EntryOf(b, text, at));
      var sorted := Qsort.Sort(syms[..symsSz], le);
      ResolvePermutes(sorted, syms[..symsSz], text, at);
      NamesStay(syms[..symsSz], sorted, at, at + strsSz);
      forall k | 0 <= k < symsSz { syms[k] := sorted[k]; }
      assert syms[..symsSz] == sorted;
    }

    /** The largest symbol at or below an address, by binary search. */
    method MapAddr(addr: nat) returns (found: Option<nat>)
      requires Valid() && Qsort.Sorted(Contents(), Le)
      ensures found.Some? ==> found.value < symsSz && IsGreatest(Contents(), addr, Contents()[found.value])
      ensures found.None? <==> forall x | x in Contents() :: x.addr > addr
    {
      hide Contents, Qsort.Sorted, Resolve, EntryOf, IsGreatest, Closed;
      ghost var es := Contents();
      SortedAddresses(es, syms[..symsSz]);
      var start, end := 0, symsSz as int - 1;
      while start < end
        invariant 0 <= start <= end + 1 <= symsSz && (symsSz > 0 ==> start <= end)
        invariant start > 0 ==> syms[start].addr <= addr
        invariant end + 1 < symsSz ==> syms[end + 1].addr > addr
      {
        var mid := start + (end - start + 1) / 2;
        if syms[mid].addr <= addr {
          start := mid;
        } else {
          end := mid - 1;
        }
      }
      if start == end && syms[start].addr <= addr {
        LastIsGreatest(es, addr, start);
        return Some(start);
      }
      found := None;
      FirstIsAbove(es, addr);
    }
  }

  lemma FirstIsAbove(es: seq<Entry>, addr: nat)
    requires Qsort.Sorted(es, Le) && (es != [] ==> es[0].addr > addr)
    ensures forall x | x in es :: x.addr > addr
  {
    AddressesSorted(es);
  }

  lemma SortedAddresses(es: seq<Entry>, syms: seq<Sym>)
    requires |es| == |syms| && Qsort.Sorted(es, Le) && forall i | 0 <= i < |es| :: es[i].addr == syms[i].addr
    ensures forall i, j | 0 <= i < j < |syms| :: syms[i].addr <= syms[j].addr
  {
    AddressesSorted(es);
  }

  lemma AddressesSorted(es: seq<Entry>)
    requires Qsort.Sorted(es, Le)
    ensures forall i, j | 0 <= i < j < |es| :: es[i].addr <= es[j].addr
  {
    forall i, j | 0 <= i < j < |es| ensures es[i].addr <= es[j].addr {
      assert Le(es[i], es[j]);
    }
  }

  lemma LastIsGreatest(es: seq<Entry>, addr: nat, i: nat)
    requires Qsort.Sorted(es, Le) && i < |es| && es[i].addr <= addr && (i + 1 < |es| ==> es[i + 1].addr > addr)
    ensures IsGreatest(es, addr, es[i]) && !forall x | x in es :: x.addr > addr
  {
    LeIsTotal();
    AddressesSorted(es);
    forall x | x in es && x.addr <= addr ensures Le(x, es[i]) {
      var k :| 0 <= k < |es| && es[k] == x;
    }
  }

  lemma NamesStay(a: seq<Sym>, b: seq<Sym>, lo: nat, hi: nat)
    requires multiset(b) == multiset(a) && forall i | 0 <= i < |a| :: lo <= a[i].name < hi
    ensures |b| == |a| && forall i | 0 <= i < |b| :: lo <= b[i].name < hi
  {
    assert |multiset(b)| == |multiset(a)|;
    forall i | 0 <= i < |b| ensures lo <= b[i].name < hi {
      assert b[i] in multiset(b);
      assert b[i] in a;
    }
  }

  lemma GrownGrows(cap: nat)
    ensures Grown(cap, 0) > cap
  {
  }

  lemma ResolveAppend(syms: seq<Sym>, text: seq<char>, at: nat, e: Entry)
    requires (forall i | 0 <= i < |syms| :: syms[i].name < |text|) && Closed(text) && at == |text| && '\0' !in e.name
    ensures Resolve(syms + [Sym(at, e.addr)], text + (e.name + ['\0']), 0) == Resolve(syms, text, 0) + [e]
  {
    var more := e.name + ['\0'];
    forall i | 0 <= i < |syms| ensures CString(text + more, syms[i].name) == CString(text, syms[i].name) {
      CStringKept(text, more, syms[i].name);
    }
    assert (text + more)[at..at + |e.name|] == e.name;
    CStringStored(text + more, at, e.name);
  }

  /** What a symbol says in the buffer `text` placed at `base`. */
  function EntryOf(s: Sym, text: seq<char>, base: nat): Entry {
    Entry(if s.name < base then "" else CString(text, s.name - base), s.addr)
  }

  function Resolve(syms: seq<Sym>, text: seq<char>, base: nat): (es: seq<Entry>)
    ensures |es| == |syms| && forall i | 0 <= i < |es| :: es[i] == EntryOf(syms[i], text, base)
  {
    seq(|syms|, i requires 0 <= i < |syms| => EntryOf(syms[i], text, base))
  }

  lemma {:induction false} ResolvePermutes(a: seq<Sym>, b: seq<Sym>, text: seq<char>, base: nat)
    requires multiset(a) == multiset(b)
    ensures multiset(Resolve(a, text, base)) == multiset(Resolve(b, text, base))
    decreases |a|
  {
    hide Resolve, EntryOf;
    if a == [] {
      EmptyOnly(b);
      assert a == b;
    } else {
      var i := Position(b, a[0]);
      SameTails(a, b, i);
      ResolvePermutes(a[..0] + a[1..], b[..i] + b[i + 1..], text, base);
      ResolveSplits(a, 0, text, base);
      ResolveSplits(b, i, text, base);
      SamePlusOne(multiset(Resolve(a, text, base)), multiset(Resolve(b, text, base)),
                  multiset(Resolve(a[..0] + a[1..], text, base)), multiset(Resolve(b[..i] + b[i + 1..], text, base)),
                  EntryOf(a[0], text, base));
    }
  }

  lemma SameTails(a: seq<Sym>, b: seq<Sym>, i: nat)
    requires multiset(a) == multiset(b) && a != [] && i < |b| && b[i] == a[0]
    ensures multiset(a[..0] + a[1..]) == multiset(b[..i] + b[i + 1..])
  {
    Without(a, 0);
    Without(b, i);
  }

  lemma SamePlusOne(m: multiset<Entry>, n: multiset<Entry>, m': multiset<Entry>, n': multiset<Entry>, x: Entry)
    requires m == m' + multiset{x} && n == n' + multiset{x} && m' == n'
    ensures m == n
  {
  }

  lemma EmptyOnly(b: seq<Sym>)
    requires multiset(b) == multiset{}
    ensures b == []
  {
    assert |multiset(b)| == |b|;
  }

  lemma Position(b: seq<Sym>, x: Sym) returns (i: nat)
    requires x in multiset(b)
    ensures i < |b| && b[i] == x
  {
    i :| i < |b| && b[i] == x;
  }

  lemma Without(a: seq<Sym>, i: nat)
    requires i < |a|
    ensures multiset(a[..i] + a[i + 1..]) == multiset(a) - multiset{a[i]}
  {
    assert a == a[..i] + [a[i]] + a[i + 1..];
  }

  lemma ResolveSplits(a: seq<Sym>, i: nat, text: seq<char>, base: nat)
    requires i < |a|
    ensures multiset(Resolve(a, text, base))
         == multiset(Resolve(a[..i] + a[i + 1..], text, base)) + multiset{EntryOf(a[i], text, base)}
  {
    hide EntryOf;
    var r, q := Resolve(a, text, base), Resolve(a[..i] + a[i + 1..], text, base);
    assert r == r[..i] + [r[i]] + r[i + 1..];
    assert q == r[..i] + r[i + 1..];
  }

  lemma ResolveShifted(a: seq<Sym>, b: seq<Sym>, text: seq<char>, at: nat)
    requires |a| == |b| && forall i | 0 <= i < |a| :: b[i] == Sym(a[i].name + at, a[i].addr)
    ensures Resolve(b, text, at) == Resolve(a, text, 0)
  {
  }

  lemma OrderIsTotal(text: seq<char>, base: nat)
    ensures Qsort.TotalPreorder((a: Sym, b: Sym) => Le(EntryOf(a, text, base), EntryOf(b, text, base)))
  {
    LeIsTotal();
    hide Le, EntryOf;
  }

  /** Reads the lines into a new table; null when memory runs out. */
  method Fill(input: seq<Entry>, allocs: seq<(bool, bool)>) returns (t: Table?)
    requires |allocs| == |input| && forall e | e in input :: '\0' !in e.name
    ensures t != null ==> fresh(t) && fresh(t.syms) && fresh(t.strs) && t.Valid() && t.base == 0 && t.Contents() == input
    ensures (forall i | 0 <= i < |allocs| :: allocs[i] == (true, true)) ==> t != null
  {
    hide Resolve, Closed, CString, EntryOf;
    var k := new Table();
    for i := 0 to |input|
      invariant fresh(k) && fresh(k.syms) && fresh(k.strs)
      invariant k.Valid() && k.base == 0 && k.Contents() == input[..i]
    {
      assert input[i] in input;
      var ok := k.AddSymbol(input[i], allocs[i].0, allocs[i].1);
      if !ok { return null; }
      assert input[..i + 1] == input[..i] + [input[i]];
    }
    assert input[..|input|] == input;
    t := k;
  }

  /** `ksyms__load` on the lines of kallsyms: null when memory runs out, otherwise a sorted
      rearrangement of the input with every name spelt as read. */
  method Load(input: seq<Entry>, at: nat, allocs: seq<(bool, bool)>) returns (t: Table?)
    requires |allocs| == |input| && forall e | e in input :: '\0' !in e.name
    ensures t != null ==> t.Valid() && Qsort.Sorted(t.Contents(), Le) && multiset(t.Contents()) == multiset(input)
    ensures (forall i | 0 <= i < |allocs| :: allocs[i] == (true, true)) ==> t != null
  {
    hide Resolve, Closed, CString, EntryOf, Le, Qsort.Sorted;
    t := Fill(input, allocs);
    if t != null {
      t.Relocate(at);
      t.Sort();
    }
  }

  /** The answer does not depend on the order of the table: for any rearrangement of the
      list read from kallsyms it is what a scan of that list would find. */
  lemma SearchIsScan(input: seq<Entry>, table: seq<Entry>, addr: nat, found: Option<nat>)
    requires multiset(table) == multiset(input)
    requires found.Some? ==> found.value < |table| && IsGreatest(table, addr, table[found.value])
    requires found.None? <==> forall x | x in table :: x.addr > addr
    ensures Scan(input, addr) == if found.Some? then Some(table[found.value]) else None
  {
    ScanIsGreatest(input, addr);
    assert forall x :: x in input <==> x in multiset(input);
    assert forall x :: x in table <==> x in multiset(table);
    LeIsTotal();
  }
}
