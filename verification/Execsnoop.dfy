/** execsnoop: the arguments of execve packed into one bounded buffer by the kernel-side
    handler, and printed back by the user-side one. */
module Execsnoop {

  const ARGSIZE: nat := 128
  const TOTAL_MAX_ARGS: nat := 60
  const FULL_MAX_ARGS_ARR: nat := TOTAL_MAX_ARGS * ARGSIZE
  const LAST_ARG: nat := FULL_MAX_ARGS_ARR - ARGSIZE
  const BASE_EVENT_SIZE: nat := 40
  const SIZEOF_EVENT: nat := BASE_EVENT_SIZE + FULL_MAX_ARGS_ARR

  /** The characters of a C string before its terminator. */
  type Text = s: string | '\0' !in s

  /** What a pointer into user memory leads to. A null pointer leads to a fault. */
  datatype Target = Fault | Str(text: Text)

  /** A slot of argv: it cannot be read, or it holds a pointer. */
  datatype Slot = Unreadable | Pointer(target: Target)

  type Argv = nat -> Slot

  // ----- What the helper copies -----

  /** The longest part of a string that fits into an argument slot with its terminator. */
  function Cut(s: Text): (c: Text)
    ensures c <= s && |c| == if |s| < ARGSIZE then |s| else ARGSIZE - 1
  {
    if |s| < ARGSIZE then s else s[..ARGSIZE - 1]
  }

  function Terminated(s: Text): string {
    s + ['\0']
  }

  /** The buffer that holds strings one after the other, each with its terminator. */
  function Join(strings: seq<Text>): string {
    if strings == [] then "" else Join(strings[..|strings| - 1]) + Terminated(strings[|strings| - 1])
  }

  // ----- The handler on values -----

  /** The used part of `args` and `args_count`. */
  datatype Packed = Packed(bytes: string, count: nat)

  /** The loop over argv from index `i` on and the look at one more slot. */
  function Collect(argv: Argv, i: nat, maxArgs: nat, p: Packed): Packed
    decreases TOTAL_MAX_ARGS - i
  {
    if i < TOTAL_MAX_ARGS && i < maxArgs then
      match argv(i)
      case Unreadable => p
      case Pointer(target) =>
        if |p.bytes| > LAST_ARG || target.Fault? then p
        else Collect(argv, i + 1, maxArgs, Packed(p.bytes + Terminated(Cut(target.text)), p.count + 1))
    else if argv(maxArgs).Unreadable? then p
    else p.(count := p.count + 1)
  }

  function Enter(file: Target, argv: Argv, maxArgs: nat): Packed {
    if file.Fault? then Packed("", 0)
    else Collect(argv, 1, maxArgs, Packed(Terminated(Cut(file.text)), 1))
  }

  /** `sys_exit_execve` sends an event that is not longer than its type. */
  predicate Sent(p: Packed) {
    BASE_EVENT_SIZE + |p.bytes| <= SIZEOF_EVENT
  }

  // ----- What is packed -----

  predicate Readable(s: Slot) {
    s.Pointer? && s.target.Str?
  }

  /** How many leading strings there are from index `i` on, up to `maxArgs`; slot 0 stands for the file name. */
  function Limit(argv: Argv, i: nat, maxArgs: nat): (n: nat)
    requires i <= maxArgs
    ensures i <= n <= maxArgs && forall k | i <= k < n :: Readable(argv(k))
    ensures n < maxArgs ==> !Readable(argv(n))
    decreases maxArgs - i
  {
    if i < maxArgs && Readable(argv(i)) then Limit(argv, i + 1, maxArgs) else i
  }

  function Strings(file: Text, argv: Argv, n: nat): (strings: seq<Text>)
    requires n >= 1 && forall k | 1 <= k < n :: Readable(argv(k))
    ensures |strings| == n
  {
    if n == 1 then [Cut(file)]
    else
      assert Readable(argv(n - 1));
      Strings(file, argv, n - 1) + [Cut(argv(n - 1).target.text)]
  }

  /** The strings as they are in memory: the file name, then the arguments. */
  function Given(file: Text, argv: Argv, n: nat): (strings: seq<Text>)
    requires n >= 1 && forall k | 1 <= k < n :: Readable(argv(k))
    ensures |strings| == n && strings[0] == file && forall k | 1 <= k < n :: argv(k) == Pointer(Str(strings[k]))
  {
    if n == 1 then [file]
    else
      assert Readable(argv(n - 1));
      Given(file, argv, n - 1) + [argv(n - 1).target.text]
  }

  /** Each string is packed up to 127 characters of it. */
  lemma {:induction false} StringsAreCut(file: Text, argv: Argv, n: nat, k: nat)
    requires n >= 1 && (forall i | 1 <= i < n :: Readable(argv(i))) && k < n
    ensures var packed, given := Strings(file, argv, n)[k], Given(file, argv, n)[k];
            packed == if |given| < ARGSIZE then given else given[..ARGSIZE - 1]
  {
    if k < n - 1 { StringsAreCut(file, argv, n - 1, k); }
    var given := Given(file, argv, n)[k];
    assert |given| < ARGSIZE ==> Cut(given) == given;
    assert |given| >= ARGSIZE ==> Cut(given) == given[..ARGSIZE - 1];
  }

  lemma {:induction false} JoinFits(strings: seq<Text>)
    requires forall s | s in strings :: |s| < ARGSIZE
    ensures |Join(strings)| <= ARGSIZE * |strings|
  {
    if strings != [] {
      assert strings[|strings| - 1] in strings;
      JoinFits(strings[..|strings| - 1]);
    }
  }

  lemma {:induction false} StringsFit(file: Text, argv: Argv, n: nat)
    requires n >= 1 && forall k | 1 <= k < n :: Readable(argv(k))
    ensures forall s | s in Strings(file, argv, n) :: |s| < ARGSIZE
    ensures |Join(Strings(file, argv, n))| <= ARGSIZE * n
  {
    if n > 1 { StringsFit(file, argv, n - 1); }
    JoinFits(Strings(file, argv, n));
  }

  /** The counted end of a packing that stopped after `n` strings. */
  function Counted(argv: Argv, n: nat, maxArgs: nat): nat {
    if n == maxArgs && argv(maxArgs).Pointer? then n + 1 else n
  }

  lemma {:induction false} CollectPacks(file: Text, argv: Argv, i: nat, maxArgs: nat)
    requires 1 <= i <= maxArgs <= TOTAL_MAX_ARGS && forall k | 1 <= k < i :: Readable(argv(k))
    ensures var n := Limit(argv, i, maxArgs);
            Collect(argv, i, maxArgs, Packed(Join(Strings(file, argv, i)), i)) ==
            Packed(Join(Strings(file, argv, n)), Counted(argv, n, maxArgs))
    decreases maxArgs - i
  {
    hide Join, Strings;
    StringsFit(file, argv, i);
    if i < maxArgs && Readable(argv(i)) {
      JoinNext(file, argv, i);
      CollectPacks(file, argv, i + 1, maxArgs);
    }
  }

  lemma JoinNext(file: Text, argv: Argv, i: nat)
    requires i >= 1 && forall k | 1 <= k <= i :: Readable(argv(k))
    ensures Join(Strings(file, argv, i + 1)) == Join(Strings(file, argv, i)) + Terminated(Cut(argv(i).target.text))
  {
    var longer := Strings(file, argv, i + 1);
    assert longer[..i] == Strings(file, argv, i);
  }

  /** For every argv and every permitted limit: the buffer is the joined strings and nothing else,
      at most 128 bytes each, so that the cutoff never ends the loop and the event is always sent. */
  lemma PacksTheStrings(file: Target, argv: Argv, maxArgs: nat)
    requires 1 <= maxArgs <= TOTAL_MAX_ARGS
    ensures Sent(Enter(file, argv, maxArgs))
    ensures file.Str? ==>
              var n := Limit(argv, 1, maxArgs);
              var p := Enter(file, argv, maxArgs);
              && p.bytes == Join(Strings(file.text, argv, n)) && |p.bytes| <= ARGSIZE * n
              && p.count == Counted(argv, n, maxArgs)
              && forall k | 0 <= k < n ::
                   var given := Given(file.text, argv, n)[k];
                   Strings(file.text, argv, n)[k] == if |given| < ARGSIZE then given else given[..ARGSIZE - 1]
  {
    if file.Str? {
      var n := Limit(argv, 1, maxArgs);
      forall k: nat | k < n
        ensures var given := Given(file.text, argv, n)[k];
                Strings(file.text, argv, n)[k] == if |given| < ARGSIZE then given else given[..ARGSIZE - 1]
      {
        StringsAreCut(file.text, argv, n, k);
      }
      assert Join([Cut(file.text)]) == Terminated(Cut(file.text));
      CollectPacks(file.text, argv, 1, maxArgs);
      StringsFit(file.text, argv, Limit(argv, 1, maxArgs));
    }
  }

  // ----- What is printed -----

  /** Unquoted printing of at most `count` arguments. */
  function Emit(bytes: string, count: nat): string {
    if bytes == "" || count == 0 then ""
    else if bytes[0] == '\0' then " " + Emit(bytes[1..], count - 1)
    else [bytes[0]] + Emit(bytes[1..], count)
  }

  function Printed(p: Packed, maxArgs: nat): string {
    Emit(p.bytes, p.count) + if p.count == maxArgs + 1 then " ..." else ""
  }

  /** Each string followed by one space. */
  function Spaced(strings: seq<Text>): string {
    if strings == [] then "" else Spaced(strings[..|strings| - 1]) + strings[|strings| - 1] + " "
  }

  lemma {:induction false} EmitText(s: Text, rest: string, count: nat)
    requires count > 0
    ensures Emit(s + ['\0'] + rest, count) == s + " " + Emit(rest, count - 1)
  {
    var bytes := s + ['\0'] + rest;
    if s == "" {
      assert bytes[1..] == rest;
    } else {
      assert bytes[1..] == s[1..] + ['\0'] + rest;
      EmitText(s[1..], rest, count);
      assert [s[0]] + (s[1..] + " " + Emit(rest, count - 1)) == s + " " + Emit(rest, count - 1);
    }
  }

  lemma {:induction false} EmitJoin(strings: seq<Text>, rest: string, count: nat)
    requires |strings| <= count
    ensures Emit(Join(strings) + rest, count) == Spaced(strings) + Emit(rest, count - |strings|)
  {
    if strings == [] {
      assert Join(strings) + rest == rest;
    } else {
      var before, s := strings[..|strings| - 1], strings[|strings| - 1];
      assert Join(strings) + rest == Join(before) + (Terminated(s) + rest);
      EmitJoin(before, Terminated(s) + rest, count);
      EmitText(s, rest, count - |before|);
      assert Spaced(before) + (s + " " + Emit(rest, count - |strings|)) == Spaced(strings) + Emit(rest, count - |strings|);
    }
  }

  /** Printing undoes packing: the strings come back in order, each followed by one space, and
      the ellipsis follows when one more slot of argv could be read. */
  lemma PrintsWhatWasPacked(file: Text, argv: Argv, maxArgs: nat)
    requires 1 <= maxArgs <= TOTAL_MAX_ARGS
    ensures var n := Limit(argv, 1, maxArgs);
            Printed(Enter(Str(file), argv, maxArgs), maxArgs) ==
            Spaced(Strings(file, argv, n)) + if n == maxArgs && argv(maxArgs).Pointer? then " ..." else ""
  {
    hide Enter, Join, Emit, Strings, Spaced;
    PacksTheStrings(Str(file), argv, maxArgs);
    var n := Limit(argv, 1, maxArgs);
    var p := Enter(Str(file), argv, maxArgs);
    var strings := Strings(file, argv, n);
    EmitJoin(strings, "", p.count);
    assert Join(strings) + "" == Join(strings);
    EmitDone("", p.count - |strings|);
    assert Spaced(strings) + "" == Spaced(strings);
  }

  /** An argv of `argc` strings ended by a null pointer. */
  ghost predicate WellFormed(argv: Argv, argc: nat) {
    argc >= 1 && (forall i | 0 <= i < argc :: Readable(argv(i))) && argv(argc) == Pointer(Fault)
  }

  /** All arguments up to the limit are printed. The ellipsis is meant to say that there are more
      than `maxArgs`, but it is printed if and only if there are at least `maxArgs`: the
      last slot read is not compared with null. */
  lemma EllipsisIff(file: Text, argv: Argv, argc: nat, maxArgs: nat)
    requires 1 <= maxArgs <= TOTAL_MAX_ARGS && WellFormed(argv, argc)
    ensures Limit(argv, 1, maxArgs) == if argc < maxArgs then argc else maxArgs
    ensures Enter(Str(file), argv, maxArgs).count == maxArgs + 1 <==> argc >= maxArgs
    ensures (Enter(Str(file), argv, maxArgs).count == maxArgs + 1 <==> argc > maxArgs) <==> argc != maxArgs
  {
    hide Enter, Join, Strings;
    PacksTheStrings(Str(file), argv, maxArgs);
    var n := Limit(argv, 1, maxArgs);
    assert n < argc ==> n == maxArgs;
    assert argc > maxArgs ==> Readable(argv(maxArgs));
  }

  /** Short arguments are printed as given: with fewer of them than the limit, the output is the
      file name and the arguments after the first, each followed by one space. */
  lemma PrintsTheArguments(file: Text, argv: Argv, argc: nat, maxArgs: nat)
    requires 1 <= maxArgs <= TOTAL_MAX_ARGS && WellFormed(argv, argc) && argc < maxArgs
    requires |file| < ARGSIZE && forall i | 0 <= i < argc :: |argv(i).target.text| < ARGSIZE
    ensures Printed(Enter(Str(file), argv, maxArgs), maxArgs) == Spaced(Given(file, argv, argc))
  {
    hide Enter, Printed, Spaced;
    PrintsWhatWasPacked(file, argv, maxArgs);
    EllipsisIff(file, argv, argc, maxArgs);
    var strings, given := Strings(file, argv, argc), Given(file, argv, argc);
    forall k: nat | k < argc ensures strings[k] == given[k] { StringsAreCut(file, argv, argc, k); }
    assert strings == given;
    assert Spaced(given) + "" == Spaced(given);
  }

  // ----- The code -----

  class Event {
    var args: array<char>
    var argsSize: nat
    var argsCount: nat

    constructor ()
      ensures args.Length == FULL_MAX_ARGS_ARR && argsSize == 0 && argsCount == 0
    {
      args := new char[FULL_MAX_ARGS_ARR](_ => '\0');
      argsSize, argsCount := 0, 0;
    }

    ghost predicate Valid()
      reads this
    {
      args.Length == FULL_MAX_ARGS_ARR && argsSize <= args.Length
    }

    ghost function Value(): Packed
      requires Valid()
      reads this, args
    {
      Packed(args[..argsSize], argsCount)
    }

    /** `sys_enter_execve` from the point where the event has been found. */
    method EnterExecve(file: Target, argv: Argv, maxArgs: nat)
      requires args.Length == FULL_MAX_ARGS_ARR
      modifies this`argsSize, this`argsCount, args
      ensures Valid() && Value() == Enter(file, argv, maxArgs)
    {
      argsCount, argsSize := 0, 0;
      var ret := ReadUserStr(args, 0, file);
      if ret < 0 { return; }
      argsSize := argsSize + ret;
      argsCount := argsCount + 1;
      assert Value() == Packed(Terminated(Cut(file.text)), 1);
      CollectArgs(argv, maxArgs);
    }

    /** The loop of the handler. */
    method CollectArgs(argv: Argv, maxArgs: nat)
      requires Valid()
      modifies this`argsSize, this`argsCount, args
      ensures Valid() && Value() == Collect(argv, 1, maxArgs, old(Value()))
    {
      hide Terminated, Cut;
      var i := 1;
      while i < TOTAL_MAX_ARGS && i < maxArgs
        invariant Valid() && Collect(argv, i, maxArgs, Value()) == Collect(argv, 1, maxArgs, old(Value()))
        decreases TOTAL_MAX_ARGS - i
      {
        var slot := argv(i);
        if slot.Unreadable? { return; }
        if argsSize > LAST_ARG { return; }
        var ret := ReadUserStr(args, argsSize, slot.target);
        if ret < 0 { return; }
        argsCount := argsCount + 1;
        argsSize := argsSize + ret;
        i := i + 1;
      }
      if argv(maxArgs).Unreadable? { return; }
      argsCount := argsCount + 1;
    }

    /** `print_args` without quoting. */
    method PrintArgs(maxArgs: nat) returns (out: string)
      requires Valid()
      ensures out == Printed(Value(), maxArgs)
    {
      hide Emit;
      out := "";
      ghost var bytes := args[..argsSize];
      assert bytes[0..] == bytes && out + Emit(bytes, argsCount) == Emit(bytes, argsCount);
      var i, counter := 0, 0;
      while i < argsSize && counter < argsCount
        invariant i <= argsSize && counter <= argsCount && bytes == args[..argsSize]
        invariant out + Emit(bytes[i..], argsCount - counter) == Emit(bytes, argsCount)
      {
        var c := args[i];
        assert c == bytes[i];
        EmitNext(out, bytes, i, argsCount - counter);
        if c == '\0' {
          counter := counter + 1;
          out := out + " ";
        } else {
          out := out + [c];
        }
        i := i + 1;
      }
      EmitDone(bytes[i..], argsCount - counter);
      assert out + "" == out;
      if argsCount == maxArgs + 1 { out := out + " ..."; }
    }
  }

  lemma EmitNext(out: string, bytes: string, i: nat, count: nat)
    requires i < |bytes| && count > 0
    ensures out + Emit(bytes[i..], count) ==
            if bytes[i] == '\0' then out + " " + Emit(bytes[i + 1..], count - 1)
            else out + [bytes[i]] + Emit(bytes[i + 1..], count)
  {
    assert bytes[i..][1..] == bytes[i + 1..];
  }

  lemma EmitDone(bytes: string, count: nat)
    requires bytes == "" || count == 0
    ensures Emit(bytes, count) == ""
  {
  }

  /** `bpf_probe_read_user_str` into a slot of ARGSIZE bytes: at most 127 characters and the
      terminator; the length with the terminator, or a negative error. */
  method ReadUserStr(dst: array<char>, at: nat, src: Target) returns (ret: int)
    requires at + ARGSIZE <= dst.Length
    modifies dst
    ensures ret < 0 <==> src.Fault?
    ensures src.Fault? ==> dst[..] == old(dst[..])
    ensures src.Str? ==>
              var n := if |src.text| < ARGSIZE then |src.text| else ARGSIZE - 1;
              && ret == n + 1
              && dst[..at + ret] == old(dst[..at]) + (src.text[..n] + ['\0'])
              && Terminated(Cut(src.text)) == src.text[..n] + ['\0']
  {
    if src.Fault? { return -14; }
    var s := Cut(src.text);
    for k := 0 to |s|
      invariant dst[..at + k] == old(dst[..at]) + s[..k]
    {
      dst[at + k] := s[k];
      assert dst[..at + k + 1] == dst[..at + k] + [s[k]];
    }
    dst[at + |s|] := '\0';
    assert dst[..at + |s| + 1] == dst[..at + |s|] + ['\0'];
    ret := |s| + 1;
  }
}
