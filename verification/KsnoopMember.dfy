/** ksnoop's search for a named member through anonymous structs and unions:
    `type_to_value` and `member_to_value` over a table of BTF types. */
module KsnoopMember {
  import opened BpfMap

  /** Structs and unions alike are `Record`; const, volatile and restrict are `Modifier`. */
  datatype Type =
    | Record(size: nat, members: seq<Member>)
    | Modifier(target: nat)
    | Pointer(target: nat)
    | Plain(size: nat)

  datatype Member = Member(name: string, typeId: nat, bitOffset: nat) {
    /** The byte that the member starts in. */
    function Offset(): (o: nat)
      ensures 8 * o <= bitOffset < 8 * o + 8
    {
      bitOffset / 8
    }
  }

  type Table = map<nat, Type>

  /** A member that is searched through rather than compared by name. */
  predicate Transparent(table: Table, m: Member)
    requires m.typeId in table
  {
    m.name == "" && table[m.typeId].Record?
  }

  /** No type contains itself by value, and every chain of qualifiers and pointers ends:
      `rank` falls along both. */
  ghost predicate Acyclic(table: Table, rank: map<nat, nat>) {
    rank.Keys == table.Keys && forall id | id in table :: Falls(table, rank, id)
  }

  ghost predicate Falls(table: Table, rank: map<nat, nat>, id: nat)
    requires id in table && rank.Keys == table.Keys
  {
    match table[id]
    case Record(_, members) =>
      forall i | 0 <= i < |members| ::
        && members[i].typeId in table
        && (Transparent(table, members[i]) ==> rank[members[i].typeId] < rank[id])
    case Modifier(target) => target in table && rank[target] < rank[id]
    case Pointer(target) => target in table && rank[target] < rank[id]
    case Plain(_) => true
  }

  datatype Value = Value(offset: nat, size: nat, typeId: nat, ptr: bool, member: bool)

  // ----- The reference: all members of a type laid out flat -----

  /** A member with the byte offsets on the way to it, outermost first. */
  datatype Leaf = Leaf(name: string, path: seq<nat>, typeId: nat)

  function Under(offset: nat, leaves: seq<Leaf>): (r: seq<Leaf>)
    ensures |r| == |leaves|
  {
    seq(|leaves|, i requires 0 <= i < |leaves| => leaves[i].(path := [offset] + leaves[i].path))
  }

  /** The members of `id` from position `i`, in declaration order, depth first. */
  ghost function Flatten(table: Table, rank: map<nat, nat>, id: nat, i: nat): seq<Leaf>
    requires Acyclic(table, rank) && id in table && table[id].Record? && i <= |table[id].members|
    decreases rank[id], |table[id].members| - i
  {
    var ms := table[id].members;
    if i == |ms| then []
    else
      assert Falls(table, rank, id);
      (if Transparent(table, ms[i]) then Under(ms[i].Offset(), Flatten(table, rank, ms[i].typeId, 0))
       else [Leaf(ms[i].name, [ms[i].Offset()], ms[i].typeId)])
      + Flatten(table, rank, id, i + 1)
  }

  /** The first leaf with the name. */
  function First(leaves: seq<Leaf>, name: string): (r: Option<Leaf>)
    ensures r.None? ==> forall j | 0 <= j < |leaves| :: leaves[j].name != name
    ensures r.Some? ==> exists j | 0 <= j < |leaves| ::
                          leaves[j] == r.value && r.value.name == name && forall k | 0 <= k < j :: leaves[k].name != name
  {
    if leaves == [] then None
    else if leaves[0].name == name then Some(leaves[0])
    else First(leaves[1..], name)
  }

  lemma {:induction false} FirstConcat(a: seq<Leaf>, b: seq<Leaf>, name: string)
    ensures First(a + b, name) == if First(a, name).Some? then First(a, name) else First(b, name)
  {
    if a == [] {
      assert a + b == b;
    } else {
      assert (a + b)[1..] == a[1..] + b;
      FirstConcat(a[1..], b, name);
    }
  }

  lemma {:induction false} FirstUnder(offset: nat, leaves: seq<Leaf>, name: string)
    ensures First(Under(offset, leaves), name) ==
            match First(leaves, name) case None => None case Some(l) => Some(l.(path := [offset] + l.path))
  {
    if leaves != [] {
      assert Under(offset, leaves)[1..] == Under(offset, leaves[1..]);
      FirstUnder(offset, leaves[1..], name);
    }
  }

  function Sum(path: seq<nat>): nat {
    if path == [] then 0 else path[0] + Sum(path[1..])
  }

  /** The sum as computed: each offset is first cut to 16 bits. */
  function CutSum(path: seq<nat>): nat {
    if path == [] then 0 else path[0] % U16 + CutSum(path[1..])
  }

  lemma {:induction false} CutSumExactIff(path: seq<nat>)
    ensures CutSum(path) <= Sum(path)
    ensures CutSum(path) == Sum(path) <==> forall k | 0 <= k < |path| :: path[k] < U16
  {
    if path != [] {
      var rest := path[1..];
      CutSumExactIff(rest);
      assert forall k | 0 < k < |path| :: path[k] == rest[k - 1];
      assert (forall k | 0 <= k < |path| :: path[k] < U16) ==> forall k | 0 <= k < |rest| :: rest[k] < U16 by {
        assert forall k | 0 <= k < |rest| :: rest[k] == path[k + 1];
      }
    }
  }

  /** Where qualifiers and pointers lead. */
  ghost function Strip(table: Table, rank: map<nat, nat>, id: nat): (r: (nat, bool))
    requires Acyclic(table, rank) && id in table
    ensures r.0 in table && !table[r.0].Modifier? && !table[r.0].Pointer?
    decreases rank[id]
  {
    assert Falls(table, rank, id);
    match table[id]
    case Modifier(target) => Strip(table, rank, target)
    case Pointer(target) => (Strip(table, rank, target).0, true)
    case _ => (id, false)
  }

  /** `path` leads from a type through qualifiers and pointers to one that is neither. */
  ghost predicate Chain(table: Table, path: seq<nat>) {
    && path != [] && (forall i | 0 <= i < |path| :: path[i] in table)
    && (forall i | 0 <= i < |path| - 1 :: Leads(table[path[i]], path[i + 1]))
    && !table[path[|path| - 1]].Modifier? && !table[path[|path| - 1]].Pointer?
  }

  predicate Leads(t: Type, id: nat) {
    (t.Modifier? || t.Pointer?) && t.target == id
  }

  /** The value is of the type at the end of the chain and of its size, and a pointer if there is a
      pointer on the way. */
  lemma {:induction false} ChainIsStripped(table: Table, rank: map<nat, nat>, path: seq<nat>, v: Value)
    requires Acyclic(table, rank) && Chain(table, path)
    ensures Strip(table, rank, path[0]).0 == path[|path| - 1]
    ensures Strip(table, rank, path[0]).1 <==> exists i | 0 <= i < |path| :: table[path[i]].Pointer?
    ensures var r := Typed(table, rank, path[0], v);
            && r.typeId == path[|path| - 1] && r.size == table[path[|path| - 1]].size
            && (r.ptr <==> v.ptr || exists i | 0 <= i < |path| :: table[path[i]].Pointer?)
    decreases |path|
  {
    if |path| > 1 {
      var rest := path[1..];
      assert Leads(table[path[0]], path[1]);
      assert forall i | 0 <= i < |rest| - 1 :: Leads(table[path[i + 1]], path[i + 2]) && rest[i] == path[i + 1];
      assert forall i | 0 <= i < |rest| :: rest[i] == path[i + 1];
      ChainIsStripped(table, rank, rest, v);
      assert (exists i | 0 <= i < |rest| :: table[rest[i]].Pointer?) ==> exists i | 0 <= i < |path| :: table[path[i]].Pointer?;
      if i :| 0 < i < |path| && table[path[i]].Pointer? { assert table[rest[i - 1]].Pointer?; }
    }
  }

  ghost function Typed(table: Table, rank: map<nat, nat>, id: nat, v: Value): Value
    requires Acyclic(table, rank) && id in table
  {
    var (end, ptr) := Strip(table, rank, id);
    v.(typeId := end, ptr := v.ptr || ptr, size := table[end].size)
  }

  /** The value once the search has ended at a leaf, or at none. */
  ghost function Located(table: Table, rank: map<nat, nat>, v: Value, leaf: Option<Leaf>): Value
    requires Acyclic(table, rank) && (leaf.Some? ==> leaf.value.typeId in table)
  {
    match leaf
    case None => v
    case Some(l) =>
      Typed(table, rank, l.typeId, v.(offset := (v.offset + CutSum(l.path)) % U32, member := true))
  }

  lemma {:induction false} LeavesAreTyped(table: Table, rank: map<nat, nat>, id: nat, i: nat)
    requires Acyclic(table, rank) && id in table && table[id].Record? && i <= |table[id].members|
    ensures forall j | 0 <= j < |Flatten(table, rank, id, i)| :: Flatten(table, rank, id, i)[j].typeId in table
    decreases rank[id], |table[id].members| - i
  {
    var ms := table[id].members;
    if i < |ms| {
      assert Falls(table, rank, id);
      if Transparent(table, ms[i]) { LeavesAreTyped(table, rank, ms[i].typeId, 0); }
      LeavesAreTyped(table, rank, id, i + 1);
    }
  }

  /** The first member called `name` from position `i` on, through anonymous members. */
  ghost function Match(table: Table, rank: map<nat, nat>, id: nat, i: nat, name: string): (r: Option<Leaf>)
    requires Acyclic(table, rank) && id in table && table[id].Record? && i <= |table[id].members|
    ensures r.Some? ==> r.value.typeId in table
  {
    LeavesAreTyped(table, rank, id, i);
    First(Flatten(table, rank, id, i), name)
  }

  // ----- The search as it is written -----

  method TypeToValue(table: Table, ghost rank: map<nat, nat>, typeId: nat, v: Value) returns (r: Value)
    requires Acyclic(table, rank) && typeId in table
    ensures r == Typed(table, rank, typeId, v)
  {
    var id := typeId;
    r := v;
    while table[id].Modifier? || table[id].Pointer?
      invariant id in table && Typed(table, rank, id, r) == Typed(table, rank, typeId, v)
      decreases rank[id]
    {
      assert Falls(table, rank, id);
      if table[id].Pointer? { r := r.(ptr := true); }
      id := table[id].target;
    }
    r := r.(typeId := id, size := table[id].size);
  }

  /** The recursive search: it adds an anonymous member's offset, looks inside, and takes
      the offset back when nothing was found there. */
  method MemberToValue(table: Table, ghost rank: map<nat, nat>, name: string, typeId: nat, v: Value)
    returns (found: bool, r: Value)
    requires Acyclic(table, rank) && typeId in table && v.offset < U32
    ensures !table[typeId].Record? ==> !found && r == v
    ensures table[typeId].Record? ==>
              var leaf := Match(table, rank, typeId, 0, name);
              found == leaf.Some? && r == Located(table, rank, v, leaf)
    decreases rank[typeId]
  {
    hide Match, Located, Typed, Falls;
    r := v;
    if !table[typeId].Record? { return false, r; }
    var members := table[typeId].members;
    var i := 0;
    while i < |members|
      invariant i <= |members| && r == v
      invariant Match(table, rank, typeId, 0, name) == Match(table, rank, typeId, i, name)
    {
      MembersAreTyped(table, rank, typeId, i);
      MatchFrom(table, rank, typeId, i, name);
      var m := members[i];
      if m.name == "" && table[m.typeId].Record? {
        found, r := SearchInside(table, rank, name, typeId, m, v);
        if found { return; }
      } else if m.name == name {
        LocatedHere(table, rank, v, m);
        r := r.(offset := (r.offset + m.Offset() % U16) % U32, member := true);
        r := TypeToValue(table, rank, m.typeId, r);
        return true, r;
      }
      i := i + 1;
    }
    MatchAtEnd(table, rank, typeId, name);
    LocatedNowhere(table, rank, v);
    found := false;
  }

  /** The branch for an anonymous member. */
  method SearchInside(table: Table, ghost rank: map<nat, nat>, name: string, ghost outer: nat, m: Member, v: Value)
    returns (found: bool, r: Value)
    requires Acyclic(table, rank) && v.offset < U32 && outer in table && m.typeId in table
    requires table[m.typeId].Record? && rank[m.typeId] < rank[outer]
    ensures var leaf := Match(table, rank, m.typeId, 0, name);
            && found == leaf.Some?
            && r == if found then Located(table, rank, v, Some(leaf.value.(path := [m.Offset()] + leaf.value.path))) else v
    decreases rank[outer], 0
  {
    hide Match, Located, Typed, Falls;
    var offset := m.Offset() % U16;
    r := v.(offset := (v.offset + offset) % U32);
    found, r := MemberToValue(table, rank, name, m.typeId, r);
    if found {
      LocatedUnder(table, rank, v, m.Offset(), Match(table, rank, m.typeId, 0, name).value);
    } else {
      LocatedNowhere(table, rank, v.(offset := (v.offset + offset) % U32));
      AddThenSubtract(v.offset, offset);
      r := r.(offset := (r.offset - offset) % U32);
    }
  }

  lemma AddThenSubtract(x: nat, o: nat)
    requires x < U32 && o < U16
    ensures ((x + o) % U32 - o) % U32 == x
  {
  }

  lemma MembersAreTyped(table: Table, rank: map<nat, nat>, id: nat, i: nat)
    requires Acyclic(table, rank) && id in table && table[id].Record? && i < |table[id].members|
    ensures var m := table[id].members[i];
            m.typeId in table && (Transparent(table, m) ==> rank[m.typeId] < rank[id])
  {
    assert Falls(table, rank, id);
  }

  /** The first match from member `i` on: inside it if it is anonymous, at it, or later. */
  lemma MatchFrom(table: Table, rank: map<nat, nat>, id: nat, i: nat, name: string)
    requires Acyclic(table, rank) && id in table && table[id].Record? && i < |table[id].members|
    requires table[id].members[i].typeId in table
    ensures var m, later := table[id].members[i], Match(table, rank, id, i + 1, name);
            Match(table, rank, id, i, name) ==
            if Transparent(table, m) then
              match Match(table, rank, m.typeId, 0, name)
              case None => later
              case Some(l) => Some(l.(path := [m.Offset()] + l.path))
            else if m.name == name then Some(Leaf(name, [m.Offset()], m.typeId))
            else later
  {
    var m, rest := table[id].members[i], Flatten(table, rank, id, i + 1);
    assert Falls(table, rank, id);
    if Transparent(table, m) {
      var inner := Flatten(table, rank, m.typeId, 0);
      FirstConcat(Under(m.Offset(), inner), rest, name);
      FirstUnder(m.Offset(), inner, name);
    } else {
      FirstConcat([Leaf(m.name, [m.Offset()], m.typeId)], rest, name);
    }
  }

  lemma MatchAtEnd(table: Table, rank: map<nat, nat>, id: nat, name: string)
    requires Acyclic(table, rank) && id in table && table[id].Record?
    ensures Match(table, rank, id, |table[id].members|, name) == None
  {
  }

  lemma LocatedNowhere(table: Table, rank: map<nat, nat>, v: Value)
    requires Acyclic(table, rank)
    ensures Located(table, rank, v, None) == v
  {
  }

  lemma LocatedHere(table: Table, rank: map<nat, nat>, v: Value, m: Member)
    requires Acyclic(table, rank) && m.typeId in table
    ensures Located(table, rank, v, Some(Leaf(m.name, [m.Offset()], m.typeId)))
         == Typed(table, rank, m.typeId, v.(offset := (v.offset + m.Offset() % U16) % U32, member := true))
  {
    hide Typed;
    assert CutSum([m.Offset()]) == m.Offset() % U16;
  }

  lemma LocatedUnder(table: Table, rank: map<nat, nat>, v: Value, offset: nat, leaf: Leaf)
    requires Acyclic(table, rank) && leaf.typeId in table
    ensures Located(table, rank, v.(offset := (v.offset + offset % U16) % U32), Some(leaf))
         == Located(table, rank, v, Some(leaf.(path := [offset] + leaf.path)))
  {
    assert ([offset] + leaf.path)[1..] == leaf.path;
  }

  /** On success the value sits at the true offset of the match, provided every offset on
      the way is below 64 KiB, and otherwise it does not. */
  lemma OffsetIsTrueIff(table: Table, rank: map<nat, nat>, v: Value, l: Leaf)
    requires Acyclic(table, rank) && l.typeId in table && v.offset + Sum(l.path) < U32
    ensures Located(table, rank, v, Some(l)).offset == v.offset + Sum(l.path)
        <==> forall k | 0 <= k < |l.path| :: l.path[k] < U16
    ensures Located(table, rank, v, Some(l)).member
    ensures Located(table, rank, v, Some(l)).typeId == Strip(table, rank, l.typeId).0
  {
    CutSumExactIff(l.path);
  }
}
