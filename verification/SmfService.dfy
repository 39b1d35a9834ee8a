/**
  The relay process at work: receptions, prune timeouts and control messages in any order,
  each handled on the duplicate tree as the ones before have left it.  What the process has
  become after any events, and what it has relayed, is what the runs of a node say.
*/
module SmfService {
  import opened Basics
  import opened DuplicateTree
  import opened SmfNode
  import opened SmfRuns

  /** One event, at a process that is as `n` says. */
  method Handle(p: SmfProcess, e: Event, ghost n: Node) returns (relayed: bool)
    requires p.Valid() && p.Shows(n)
    modifies p, p.selectorList, p.duplicateTree, p.duplicateTree.flowList, p.duplicateTree.flowList.flows
    ensures p.Valid() && p.Shows(Next(n, e)) && p.OnlyNewFlows()
    ensures relayed <==> e.Arrive? && n.Forwards(e.r)
  {
    relayed := false;
    match e
    case Arrive(r) =>
      relayed := Receive(p, r, n);
    case PruneTimeout =>
      p.OnPruneTimeout(n);
    case ForwardMac(arg) =>
      p.OnForwardMac(arg, n);
    case DefaultForward(on) =>
      p.OnDefaultForward(on, n);
  }

  method Receive(p: SmfProcess, r: Reception, ghost n: Node) returns (relayed: bool)
    requires p.Valid() && p.Shows(n)
    modifies p, p.duplicateTree, p.duplicateTree.flowList, p.duplicateTree.flowList.flows
    ensures p.Valid() && p.Shows(n.After(r)) && p.OnlyNewFlows()
    ensures relayed <==> n.Forwards(r)
  {
    var packet := new Packet(r.pkt);
    var mem := new WlanMem(packet, r.direction, r.txAddr, r.rxAddr, r.ownIp);
    assert mem.View() == r;
    p.OnPktReceive(mem, n);
    relayed := mem.forward;
  }

  /** What was relayed up to event `k`. */
  ghost predicate RelayedUpTo(relayed: seq<bool>, n: Node, evs: seq<Event>, k: nat)
    requires n.Valid() && k <= |evs|
  {
    |relayed| == k && forall j | 0 <= j < k :: relayed[j] <==> evs[j].Arrive? && At(n, evs, j).Forwards(evs[j].r)
  }

  lemma RelayedNext(relayed: seq<bool>, n: Node, evs: seq<Event>, k: nat, forward: bool)
    requires n.Valid() && k < |evs| && RelayedUpTo(relayed, n, evs, k)
    requires forward <==> evs[k].Arrive? && At(n, evs, k).Forwards(evs[k].r)
    ensures RelayedUpTo(relayed + [forward], n, evs, k + 1) && At(n, evs, k + 1) == Next(At(n, evs, k), evs[k])
  {
  }

  /** Any events, one after the other. */
  method Serve(p: SmfProcess, evs: seq<Event>, ghost n: Node) returns (relayed: seq<bool>)
    requires p.Valid() && p.Shows(n)
    modifies p, p.selectorList, p.duplicateTree, p.duplicateTree.flowList, p.duplicateTree.flowList.flows
    ensures p.Valid() && p.Shows(At(n, evs, |evs|)) && RelayedUpTo(relayed, n, evs, |evs|)
  {
    relayed := [];
    ghost var now := n;
    for k := 0 to |evs|
      invariant p.Valid() && p.OnlyNewFlows() && p.Shows(now)
      invariant now == At(n, evs, k) && RelayedUpTo(relayed, n, evs, k)
    {
      var forward := Handle(p, evs[k], now);
      RelayedNext(relayed, n, evs, k, forward);
      relayed := relayed + [forward];
      now := Next(now, evs[k]);
    }
  }
}
