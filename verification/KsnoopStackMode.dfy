/** ksnoop's stack mode end to end: what the shadow stack finds out about a call decides
    whether `get_trace` hands the probe a trace. */
module KsnoopStackMode {
  import opened BpfMap
  import Stack = KsnoopStack
  import opened KsnoopTrace

  function LinkOf(ip: nat, spec: Spec): Stack.Link {
    Stack.Link(ip, spec.prevIp, spec.nextIp)
  }

  /** The end of `get_trace` makes the link test, after the stash test. */
  lemma ReadyTestsLink(ip: nat, spec: Spec, t: Trace, hit: Hit)
    requires t.Valid()
    ensures var e := if hit.entry then Stack.Enter(ip) else Stack.Return;
            Ready(spec, t, hit).1 <==>
            && (hit.entry || !spec.stash || t.stashed)
            && Stack.Passes(LinkOf(ip, spec), e, Some(Stack.Seen(ip, hit.lastIp)))
  {
  }

  /** In any tree of calls at most 15 deep, at its n-th probe, which belongs to function `ip`:
      whatever was traced before, the probe goes on exactly when the tree has the direct link
      that the trace of `ip` asks for. */
  lemma StackModeFollowsTree(c: Stack.Calls, n: nat, ip: nat, spec: Spec, t: Trace, hit: Hit)
    requires Stack.Height(c) <= Stack.FUNC_MAX_STACK_DEPTH - 1 && n < |Stack.Events(c)|
    requires t.Valid() && !spec.stash
    requires hit.entry == Stack.Events(c)[n].Enter?
    requires Stack.Observe(Stack.EMPTY, Stack.Events(c))[n] == Some(Stack.Seen(ip, hit.lastIp))
    ensures |Stack.TreeVerdicts(LinkOf(ip, spec), c, 0)| == |Stack.Events(c)|
    ensures Ready(spec, t, hit).1 <==> Stack.TreeVerdicts(LinkOf(ip, spec), c, 0)[n]
  {
    hide Ready, Stack.Observe, Stack.Events, Stack.TreeVerdicts, Stack.Height;
    ReadyTestsLink(ip, spec, t, hit);
    Stack.LinksAreTested(LinkOf(ip, spec), c);
  }
}
