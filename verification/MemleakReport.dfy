/** memleak's user side: `print_outstanding_allocs` walks the table, regroups it by stack
    and shows the largest groups. */
module MemleakReport {
  import opened BpfMap
  import opened Memleak
  import opened Sums
  import Qsort

  /** One row; `nodes` is the list printed with --show-allocs, newest entry first. */
  datatype Row = Row(stackId: int, size: nat, count: nat, nodes: seq<(nat, nat)>)

  datatype Entry = Entry(address: nat, info: Info)

  // ----- Walking a map that nobody changes -----

  /** The order in which the kernel happens to keep the keys. */
  ghost predicate IsOrder(order: seq<nat>, keys: set<nat>) {
    && (forall i, j | 0 <= i < j < |order| :: order[i] != order[j])
    && forall a :: a in order <==> a in keys
  }

  /** `bpf_map_get_next_key`: the key after `prev`, or the first one if `prev` is not there. */
  function NextKey(order: seq<nat>, prev: nat): Option<nat> {
    if prev !in order then if order == [] then None else Some(order[0])
    else Following(order, prev)
  }

  function Following(order: seq<nat>, prev: nat): Option<nat>
    requires prev in order
  {
    if order[0] != prev then Following(order[1..], prev)
    else if |order| == 1 then None
    else Some(order[1])
  }

  lemma {:induction false} FollowingAt(order: seq<nat>, i: nat)
    requires i < |order| && forall j, k | 0 <= j < k < |order| :: order[j] != order[k]
    ensures Following(order, order[i]) == if i + 1 < |order| then Some(order[i + 1]) else None
  {
    if i > 0 {
      var tail := order[1..];
      assert forall j, k | 0 <= j < k < |tail| :: tail[j] == order[j + 1] && tail[k] == order[k + 1];
      FollowingAt(tail, i - 1);
      assert order[i] == tail[i - 1];
    }
  }

  lemma NextKeyAt(order: seq<nat>, keys: set<nat>, i: nat)
    requires IsOrder(order, keys) && 0 !in keys && i <= |order|
    ensures NextKey(order, if i == 0 then 0 else order[i - 1]) == if i < |order| then Some(order[i]) else None
  {
    if i > 0 { FollowingAt(order, i - 1); }
  }

  // ----- What the rows should be -----

  /** The filters: old enough, by unsigned arithmetic, and with a usable stack. */
  predicate Passes(info: Info, now: nat, minAge: nat) {
    Sub64(now, minAge) >= info.timestamp && info.stackId >= 0
  }

  /** An entry with a usable stack passes exactly if it is old enough, or if the machine has not
      been up for the age asked for: then the subtraction wraps, and the filter has no effect. */
  lemma PassesIffOld(info: Info, now: nat, minAge: nat)
    requires info.timestamp <= now < U64 && minAge < U64
    ensures Passes(info, now, minAge) <==> info.stackId >= 0 && (now - info.timestamp >= minAge || minAge > now)
  {
    if minAge > now { assert (now - minAge) % U64 == U64 - (minAge - now); }
  }

  /** The entries among the first `n` visited that pass; `clock` is read once per entry. */
  function Passing(order: seq<nat>, allocs: map<nat, Info>, clock: seq<nat>, minAge: nat, n: nat): seq<Entry>
    requires n <= |order| <= |clock| && forall i | 0 <= i < |order| :: order[i] in allocs
  {
    if n == 0 then []
    else
      var before, a := Passing(order, allocs, clock, minAge, n - 1), order[n - 1];
      if Passes(allocs[a], clock[n - 1], minAge) then before + [Entry(a, allocs[a])] else before
  }

  function OfStack(es: seq<Entry>, id: int): seq<Entry> {
    if es == [] then []
    else
      var before, e := OfStack(es[..|es| - 1], id), es[|es| - 1];
      if e.info.stackId == id then before + [e] else before
  }

  function Bytes(es: seq<Entry>): nat {
    if es == [] then 0 else Bytes(es[..|es| - 1]) + es[|es| - 1].info.size
  }

  function Nodes(es: seq<Entry>): seq<(nat, nat)> {
    if es == [] then [] else [(es[|es| - 1].address, es[|es| - 1].info.size)] + Nodes(es[..|es| - 1])
  }

  /** The row of one stack for the entries `es`. */
  function RowFor(es: seq<Entry>, id: int, show: bool): Row {
    var mine := OfStack(es, id);
    Row(id, Bytes(mine) % U64, |mine| % U64, if show then Nodes(mine) else [])
  }

  ghost predicate Distinct(rows: seq<Row>) {
    forall i, j | 0 <= i < j < |rows| :: rows[i].stackId != rows[j].stackId
  }

  /** One row per stack that has entries, and each row is right. */
  ghost predicate Groups(rows: seq<Row>, es: seq<Entry>, show: bool) {
    && Distinct(rows)
    && (forall r | r in rows :: r == RowFor(es, r.stackId, show) && OfStack(es, r.stackId) != [])
    && forall e | e in es :: RowFor(es, e.info.stackId, show) in rows
  }

  lemma OfStackLast(es: seq<Entry>, e: Entry, id: int)
    ensures OfStack(es + [e], id) == if e.info.stackId == id then OfStack(es, id) + [e] else OfStack(es, id)
  {
    assert (es + [e])[..|es|] == es;
  }

  lemma SumsLast(es: seq<Entry>, e: Entry)
    ensures Bytes(es + [e]) == Bytes(es) + e.info.size
    ensures Nodes(es + [e]) == [(e.address, e.info.size)] + Nodes(es)
  {
    assert (es + [e])[..|es|] == es;
  }

  /** How one more entry changes the row of its stack, and leaves the others. */
  lemma RowForLast(es: seq<Entry>, e: Entry, id: int, show: bool)
    ensures e.info.stackId != id ==> RowFor(es + [e], id, show) == RowFor(es, id, show)
    ensures e.info.stackId == id ==>
              var r := RowFor(es, id, show);
              RowFor(es + [e], id, show) ==
              Row(id, (r.size + e.info.size) % U64, (r.count + 1) % U64,
                  if show then [(e.address, e.info.size)] + r.nodes else [])
  {
    hide OfStack, Bytes, Nodes;
    OfStackLast(es, e, id);
    SumsLast(OfStack(es, id), e);
  }

  lemma {:induction false} OfStackMember(es: seq<Entry>, id: int)
    ensures OfStack(es, id) != [] <==> exists e | e in es :: e.info.stackId == id
  {
    if es != [] {
      var before, last := es[..|es| - 1], es[|es| - 1];
      OfStackMember(before, id);
      assert es == before + [last];
    }
  }

  lemma GroupsUpdated(rows: seq<Row>, es: seq<Entry>, e: Entry, show: bool, i: nat)
    requires Groups(rows, es, show) && i < |rows| && rows[i].stackId == e.info.stackId
    ensures Groups(rows[i := RowFor(es + [e], e.info.stackId, show)], es + [e], show)
  {
    hide RowFor;
    var id, es', rows' := e.info.stackId, es + [e], rows[i := RowFor(es + [e], e.info.stackId, show)];
    RowForId(es', id, show);
    forall r | r in rows' ensures r == RowFor(es', r.stackId, show) && OfStack(es', r.stackId) != [] {
      RowForLast(es, e, r.stackId, show);
      OfStackLast(es, e, r.stackId);
      var j :| 0 <= j < |rows'| && rows'[j] == r;
      assert j != i ==> rows[j] in rows && rows[j].stackId != id;
    }
    forall x | x in es' ensures RowFor(es', x.info.stackId, show) in rows' {
      RowForLast(es, e, x.info.stackId, show);
      RowForId(es, x.info.stackId, show);
      if x.info.stackId == id {
        assert rows'[i] in rows';
      } else {
        assert x in es;
        var j :| 0 <= j < |rows| && rows[j] == RowFor(es, x.info.stackId, show);
        assert rows'[j] in rows';
      }
    }
  }

  lemma RowForId(es: seq<Entry>, id: int, show: bool)
    ensures RowFor(es, id, show).stackId == id
  {
  }

  lemma GroupsExtended(rows: seq<Row>, es: seq<Entry>, e: Entry, show: bool)
    requires Groups(rows, es, show) && forall r | r in rows :: r.stackId != e.info.stackId
    ensures OfStack(es, e.info.stackId) == []
    ensures Groups(rows + [RowFor(es + [e], e.info.stackId, show)], es + [e], show)
  {
    var id, es', rows' := e.info.stackId, es + [e], rows + [RowFor(es + [e], e.info.stackId, show)];
    OfStackMember(es, id);
    hide RowFor;
    RowForId(es', id, show);
    forall x | x in es ensures x.info.stackId != id {
      RowForId(es, x.info.stackId, show);
    }
    forall r | r in rows' ensures r == RowFor(es', r.stackId, show) && OfStack(es', r.stackId) != [] {
      RowForLast(es, e, r.stackId, show);
      OfStackLast(es, e, r.stackId);
    }
    forall x | x in es' ensures RowFor(es', x.info.stackId, show) in rows' {
      RowForLast(es, e, x.info.stackId, show);
      assert x in es || x == e;
    }
  }

  // ----- The report as it is written -----

  /** Charges one entry to its row, or opens a row for it. */
  method AddEntry(rows: seq<Row>, e: Entry, show: bool, ghost es: seq<Entry>) returns (r: seq<Row>)
    requires Groups(rows, es, show)
    ensures Groups(r, es + [e], show) && |r| <= |rows| + 1
  {
    hide Groups, RowFor;
    RowForLast(es, e, e.info.stackId, show);
    var i := 0;
    while i < |rows|
      invariant 0 <= i <= |rows| && forall j | 0 <= j < i :: rows[j].stackId != e.info.stackId
    {
      if rows[i].stackId == e.info.stackId {
        GroupsRow(rows, es, show, i);
        var row := rows[i];
        row := row.(size := (row.size + e.info.size) % U64, count := (row.count + 1) % U64);
        if show { row := row.(nodes := [(e.address, e.info.size)] + row.nodes); }
        GroupsUpdated(rows, es, e, show, i);
        return rows[i := row];
      }
      i := i + 1;
    }
    GroupsExtended(rows, es, e, show);
    RowForNone(es, e.info.stackId, show);
    assert [(e.address, e.info.size)] + [] == [(e.address, e.info.size)];
    r := rows + [Row(e.info.stackId, e.info.size % U64, 1, if show then [(e.address, e.info.size)] else [])];
  }

  lemma GroupsRow(rows: seq<Row>, es: seq<Entry>, show: bool, i: nat)
    requires Groups(rows, es, show) && i < |rows|
    ensures rows[i] == RowFor(es, rows[i].stackId, show) && (!show ==> rows[i].nodes == [])
  {
    assert rows[i] in rows;
  }

  lemma RowForNone(es: seq<Entry>, id: int, show: bool)
    requires OfStack(es, id) == []
    ensures RowFor(es, id, show) == Row(id, 0, 0, [])
  {
  }

  /** `alloc_size_compare`: larger sizes first. */
  predicate Heavier(x: Row, y: Row) {
    x.size >= y.size
  }

  lemma {:induction false} DistinctOnce(rows: seq<Row>, r: Row)
    requires Distinct(rows)
    ensures multiset(rows)[r] <= 1
  {
    if rows != [] {
      var before, last := rows[..|rows| - 1], rows[|rows| - 1];
      assert rows == before + [last];
      DistinctOnce(before, r);
      if r == last { assert r !in before; }
    }
  }

  lemma Twice(rows: seq<Row>, i: nat, j: nat)
    requires i < j < |rows| && rows[i] == rows[j]
    ensures multiset(rows)[rows[i]] >= 2
  {
    assert rows == rows[..j] + rows[j..];
    assert rows[i] in rows[..j];
    assert rows[j] in rows[j..];
  }

  lemma GroupsPermuted(a: seq<Row>, b: seq<Row>, es: seq<Entry>, show: bool)
    requires Groups(a, es, show) && multiset(b) == multiset(a)
    ensures Groups(b, es, show)
  {
    hide RowFor, OfStack;
    assert forall r :: r in b <==> r in multiset(b);
    assert forall r :: r in a <==> r in multiset(a);
    forall i, j | 0 <= i < j < |b| ensures b[i].stackId != b[j].stackId {
      if b[i].stackId == b[j].stackId {
        assert b[i] in a && b[j] in a;
        assert b[i] == b[j];
        Twice(b, i, j);
        DistinctOnce(a, b[i]);
      }
    }
  }

  lemma HeavierIsTotal()
    ensures Qsort.TotalPreorder(Heavier)
  {
  }

  /** The walk, the grouping, the sort and the cut. */
  method PrintOutstandingAllocs(order: seq<nat>, allocs: map<nat, Info>, clock: seq<nat>, minAge: nat,
                                show: bool, top: nat)
    returns (rows: seq<Row>, shown: seq<Row>)
    requires IsOrder(order, allocs.Keys) && 0 !in allocs && |order| <= |clock|
    ensures Groups(rows, Passing(order, allocs, clock, minAge, |order|), show)
    ensures Qsort.Sorted(rows, Heavier)
    ensures shown == rows[..if |rows| < top then |rows| else top]
    ensures |rows| <= |order| == |allocs|
  {
    hide Groups, Passes, IsOrder;
    OrderInMap(order, allocs);
    OrderSize(order, allocs.Keys);
    NoRows(show);
    var prev, n := 0, 0;
    rows := [];
    NextKeyAt(order, allocs.Keys, 0);
    var next := NextKey(order, prev);
    while next.Some?
      invariant n <= |order| && next == if n < |order| then Some(order[n]) else None
      invariant Groups(rows, Passing(order, allocs, clock, minAge, n), show) && |rows| <= n
      decreases |order| - n
    {
      var curr := next.value;
      var info := allocs[curr];
      if Passes(info, clock[n], minAge) {
        rows := AddEntry(rows, Entry(curr, info), show, Passing(order, allocs, clock, minAge, n));
      }
      n := n + 1;
      prev := curr;
      NextKeyAt(order, allocs.Keys, n);
      next := NextKey(order, prev);
    }
    HeavierIsTotal();
    var sorted := Qsort.Sort(rows, Heavier);
    GroupsPermuted(rows, sorted, Passing(order, allocs, clock, minAge, |order|), show);
    assert |multiset(sorted)| == |multiset(rows)|;
    rows := sorted;
    shown := rows[..if |rows| < top then |rows| else top];
  }

  lemma OrderInMap(order: seq<nat>, allocs: map<nat, Info>)
    requires IsOrder(order, allocs.Keys)
    ensures forall i | 0 <= i < |order| :: order[i] in allocs
  {
    assert forall i | 0 <= i < |order| :: order[i] in order;
  }

  lemma {:induction false} OrderSize(order: seq<nat>, keys: set<nat>)
    requires IsOrder(order, keys)
    ensures |order| == |keys|
  {
    if order == [] {
      assert keys == {};
    } else {
      var before, last := order[..|order| - 1], order[|order| - 1];
      assert order == before + [last];
      assert last in order && last !in before;
      OrderSize(before, keys - {last});
    }
  }

  /** In every run the rows fit the array of ALLOCS_MAX entries that holds them. */
  lemma RowsFit(cfg: Config, run: seq<Event>, order: seq<nat>, rows: seq<Row>)
    requires IsOrder(order, Run(cfg, run).allocs.Keys) && |rows| <= |order|
    ensures |rows| <= ALLOCS_MAX
  {
    OrderSize(order, Run(cfg, run).allocs.Keys);
    TableFits(cfg, run);
  }

  lemma NoRows(show: bool)
    ensures Groups([], [], show)
  {
  }

  /** The rows shown are the largest. */
  lemma ShownAreLargest(rows: seq<Row>, top: nat, i: nat, j: nat)
    requires Qsort.Sorted(rows, Heavier) && i < top <= j < |rows|
    ensures rows[i].size >= rows[j].size
  {
    assert Heavier(rows[i], rows[j]);
  }

  // ----- Agreement with the kernel's own index -----

  function SeqSum(order: seq<nat>, m: map<nat, Info>, f: Info -> int): int
    requires forall i | 0 <= i < |order| :: order[i] in m
  {
    if order == [] then 0 else SeqSum(order[..|order| - 1], m, f) + f(m[order[|order| - 1]])
  }

  lemma {:induction false} SeqSumFrame(order: seq<nat>, m: map<nat, Info>, m': map<nat, Info>, f: Info -> int)
    requires forall i | 0 <= i < |order| :: order[i] in m && order[i] in m' && m'[order[i]] == m[order[i]]
    ensures SeqSum(order, m, f) == SeqSum(order, m', f)
  {
    if order != [] { SeqSumFrame(order[..|order| - 1], m, m', f); }
  }

  /** A sum over the table can be taken along the walk. */
  lemma {:induction false} WalkSums(order: seq<nat>, m: map<nat, Info>, f: Info -> int)
    requires IsOrder(order, m.Keys) && forall i | 0 <= i < |order| :: order[i] in m
    ensures SumBy(m, f) == SeqSum(order, m, f)
  {
    if order == [] {
      assert m.Keys == {};
    } else {
      var before, last := order[..|order| - 1], order[|order| - 1];
      var rest := m - {last};
      assert order == before + [last];
      assert last !in before;
      WalkSums(before, rest, f);
      SumRemove(m, f, last);
      SeqSumFrame(before, m, rest, f);
    }
  }

  /** Stack ids are ints, and every entry with a usable stack passes the age filter. */
  ghost predicate NoneTooYoung(order: seq<nat>, allocs: map<nat, Info>, clock: seq<nat>, minAge: nat)
    requires |order| <= |clock| && forall i | 0 <= i < |order| :: order[i] in allocs
  {
    forall i | 0 <= i < |order| ::
      && -0x8000_0000 <= allocs[order[i]].stackId < 0x8000_0000
      && (allocs[order[i]].stackId >= 0 ==> Passes(allocs[order[i]], clock[i], minAge))
  }

  /** What an entry brings to the row of stack `id` and to the sums over the table. */
  lemma EntryWeighs(info: Info, now: nat, minAge: nat, id: nat)
    requires -0x8000_0000 <= info.stackId < 0x8000_0000 && id < 0x8000_0000
    requires info.stackId >= 0 ==> Passes(info, now, minAge)
    ensures Passes(info, now, minAge) && info.stackId == id <==> Key(info.stackId) == Key(id)
    ensures BytesOf(Key(id))(info) == if info.stackId == id then info.size else 0
    ensures CountOf(Key(id))(info) == if info.stackId == id then 1 else 0
  {
    hide Key, Sub64;
    KeyIsId(info.stackId, id);
    if info.stackId < 0 { UnusableNeverPasses(info, now, minAge); }
  }

  lemma PassingLast(order: seq<nat>, allocs: map<nat, Info>, clock: seq<nat>, minAge: nat, n: nat, id: nat)
    requires 0 < n <= |order| <= |clock| && (forall i | 0 <= i < |order| :: order[i] in allocs)
    ensures var a := order[n - 1];
            var before := OfStack(Passing(order, allocs, clock, minAge, n - 1), id);
            OfStack(Passing(order, allocs, clock, minAge, n), id) ==
            if Passes(allocs[a], clock[n - 1], minAge) && allocs[a].stackId == id then before + [Entry(a, allocs[a])] else before
  {
    hide OfStack, Passes;
    OfStackLast(Passing(order, allocs, clock, minAge, n - 1), Entry(order[n - 1], allocs[order[n - 1]]), id);
  }

  lemma SeqSumLast(order: seq<nat>, m: map<nat, Info>, f: Info -> int, n: nat)
    requires 0 < n <= |order| && forall i | 0 <= i < |order| :: order[i] in m
    ensures SeqSum(order[..n], m, f) == SeqSum(order[..n - 1], m, f) + f(m[order[n - 1]])
  {
    assert order[..n][..n - 1] == order[..n - 1];
  }

  lemma {:induction false} GroupSums(order: seq<nat>, allocs: map<nat, Info>, clock: seq<nat>, minAge: nat, n: nat, id: nat)
    requires n <= |order| <= |clock| && (forall i | 0 <= i < |order| :: order[i] in allocs)
    requires NoneTooYoung(order, allocs, clock, minAge) && id < 0x8000_0000
    ensures var mine := OfStack(Passing(order, allocs, clock, minAge, n), id);
            && Bytes(mine) == SeqSum(order[..n], allocs, BytesOf(Key(id)))
            && |mine| == SeqSum(order[..n], allocs, CountOf(Key(id)))
  {
    if n > 0 {
      GroupSums(order, allocs, clock, minAge, n - 1, id);
      hide OfStack, Bytes, Key, Passes, Passing, SeqSum, BytesOf, CountOf;
      var a := order[n - 1];
      PassingLast(order, allocs, clock, minAge, n, id);
      EntryWeighs(allocs[a], clock[n - 1], minAge, id);
      SeqSumLast(order, allocs, BytesOf(Key(id)), n);
      SeqSumLast(order, allocs, CountOf(Key(id)), n);
      SumsLast(OfStack(Passing(order, allocs, clock, minAge, n - 1), id), Entry(a, allocs[a]));
    }
  }

  lemma KeyIsId(a: int, b: int)
    requires -0x8000_0000 <= a < 0x8000_0000 && -0x8000_0000 <= b < 0x8000_0000
    ensures Key(a) == Key(b) <==> a == b
  {
  }

  lemma UnusableNeverPasses(info: Info, now: nat, minAge: nat)
    requires info.stackId < 0
    ensures !Passes(info, now, minAge)
  {
  }

  /** When no entry is too young, a row says what the packed word of its stack decodes to:
      the two sides of memleak count the same allocations independently. */
  lemma RowsMatchIndex(s: State, order: seq<nat>, clock: seq<nat>, minAge: nat, rows: seq<Row>, show: bool, i: nat)
    requires IndexAgrees(s) && IsOrder(order, s.allocs.Keys) && |order| <= |clock|
    requires (forall j | 0 <= j < |order| :: order[j] in s.allocs) && NoneTooYoung(order, s.allocs, clock, minAge)
    requires Groups(rows, Passing(order, s.allocs, clock, minAge, |order|), show) && i < |rows|
    requires 0 <= rows[i].stackId < 0x8000_0000
    requires var k := Key(rows[i].stackId);
             k in s.combined && SumBy(s.allocs, BytesOf(k)) < U40 && SumBy(s.allocs, CountOf(k)) < U24
    ensures var bits := s.combined[Key(rows[i].stackId)];
            rows[i].size == TotalSize(bits) && rows[i].count == NumberOfAllocs(bits)
  {
    hide IndexAgrees, IsOrder, Groups, NoneTooYoung;
    var id := rows[i].stackId;
    GroupsRow(rows, Passing(order, s.allocs, clock, minAge, |order|), show, i);
    GroupSums(order, s.allocs, clock, minAge, |order|, id);
    assert order[..|order|] == order;
    WalkSums(order, s.allocs, BytesOf(Key(id)));
    WalkSums(order, s.allocs, CountOf(Key(id)));
    FieldsDecode(s, Key(id));
  }
}
