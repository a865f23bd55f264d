/** Finality over whole runs: what happens to the committed chain of a node. */
module Finality {
  import opened Chain
  import opened Validation
  import opened Sync
  import opened Peers

  ghost function Committed(o: Oracle, n: Node): seq<Block>
    requires Store(o, n.store)
  {
    Rollback(Canonical(o, n.store), n.finalityDepth)
  }

  /** The committed ledger does not see the last blocks: stores whose best chains agree but for the finality
      depth at the end have the same one. */
  lemma CommittedIgnoresTip(o: Oracle, store: seq<Block>, store': seq<Block>, depth: nat)
    requires Store(o, store) && Store(o, store')
    requires var c, c' := Canonical(o, store), Canonical(o, store');
             |c| == |c'| && depth < |c| && c[..|c| - depth] == c'[..|c| - depth]
    ensures CommittedLedger(o, store, depth) == CommittedLedger(o, store', depth)
  {
    hide Canonical, Replay;
    var c, c' := Canonical(o, store), Canonical(o, store');
    assert c[..|c|] == c && c'[..|c|] == c';
    assert Rollback(c, depth) == c[..|c| - depth] && Rollback(c', depth) == c'[..|c| - depth];
  }

  /** Setting the depth leaves the best chain and commits to all of it but that many blocks at the end. */
  lemma DepthSets(o: Oracle, n: Node, depth: int)
    requires Store(o, n.store)
    ensures var n' := Handle(o, n, FinalityDepth(depth));
            var c := Canonical(o, n.store);
            && n'.store == n.store && Committed(o, n') <= c
            && |Committed(o, n')| == if depth <= 0 then |c| else if depth < |c| then |c| - depth else 1
  {
    hide Canonical, Synced, Rollback;
    CanonicalShape(o, n.store);
    RollbackIs(Canonical(o, n.store), Handle(o, n, FinalityDepth(depth)).finalityDepth);
  }

  /** The blocks of the best chain that an event takes off it. */
  ghost function Dropped(o: Oracle, n: Node, e: Event): nat
    requires Store(o, n.store)
  {
    |Canonical(o, n.store)| - Shared(Canonical(o, n.store), Canonical(o, Handle(o, n, e).store))
  }

  /** The genesis block stays and at most finalityDepth blocks are taken off. */
  ghost predicate Shallow(o: Oracle, n: Node, e: Event)
    requires Store(o, n.store)
  {
    Handle(o, n, e).store[0] == n.store[0] && Dropped(o, n, e) <= n.finalityDepth
  }

  /** An event whose response, if it is one, carries signed blocks, and that leaves the depth alone. */
  ghost predicate Regular(o: Oracle, e: Event) {
    !e.FinalityDepth? && (e.SyncResponse? ==> CarriesSigned(o, e.response))
  }

  lemma DepthStays(o: Oracle, n: Node, e: Event)
    requires Store(o, n.store) && !e.FinalityDepth?
    ensures Handle(o, n, e).finalityDepth == n.finalityDepth
  {
    hide Canonical, Synced;
  }

  /** One event extends the committed chain exactly when it is shallow. */
  lemma CommittedStep(o: Oracle, n: Node, e: Event)
    requires Store(o, n.store) && Regular(o, e)
    ensures Committed(o, n) <= Committed(o, Handle(o, n, e)) <==> Shallow(o, n, e)
  {
    hide Handle, Canonical, CarriesSigned, Rollback;
    var n' := Handle(o, n, e);
    var c, c', d := Canonical(o, n.store), Canonical(o, n'.store), n.finalityDepth;
    DepthStays(o, n, e);
    HeightStep(o, n, e);
    CanonicalShape(o, n.store);
    CanonicalShape(o, n'.store);
    FirstStays(c, d);
    FirstStays(c', d);
    var kept := Shared(c, c');
    if c[0] == c'[0] {
      assert kept > 0;
      CommittedChainStays(c, c', d, kept);
    }
  }

  lemma FirstStays(c: seq<Block>, depth: nat)
    requires c != []
    ensures Rollback(c, depth) != [] && Rollback(c, depth)[0] == c[0]
  {
  }

  /** Every event of the run is shallow on the node it meets. */
  ghost predicate ShallowRun(o: Oracle, n: Node, events: seq<Event>)
    requires Store(o, n.store)
    decreases |events|
  {
    events == [] || (Shallow(o, n, events[0]) && ShallowRun(o, Handle(o, n, events[0]), events[1..]))
  }

  /** Over every run of regular shallow events the committed chain only grows by extension. */
  lemma {:induction false} CommittedGrows(o: Oracle, n: Node, events: seq<Event>)
    requires Store(o, n.store) && ShallowRun(o, n, events)
    requires forall i :: 0 <= i < |events| ==> Regular(o, events[i])
    ensures Committed(o, n) <= Committed(o, HandleAll(o, n, events))
    decreases |events|
  {
    hide Handle, Committed, Regular, Shallow;
    if events != [] {
      CommittedStep(o, n, events[0]);
      CommittedGrows(o, Handle(o, n, events[0]), events[1..]);
    }
  }

  /** Conversely, a run whose every prefix extends what was committed before it has only shallow
      events. */
  lemma {:induction false} GrowingIsShallow(o: Oracle, n: Node, events: seq<Event>)
    requires Store(o, n.store)
    requires forall i :: 0 <= i < |events| ==> Regular(o, events[i])
    requires forall i :: 0 <= i < |events| ==>
               Committed(o, HandleAll(o, n, events[..i])) <= Committed(o, HandleAll(o, n, events[..i + 1]))
    ensures ShallowRun(o, n, events)
    decreases |events|
  {
    hide Handle, Committed, Regular, Shallow;
    if events != [] {
      var n', rest := Handle(o, n, events[0]), events[1..];
      assert events[..0] == [] && events[..1][0] == events[0] && events[..1][1..] == [];
      assert HandleAll(o, n, events[..1]) == n';
      CommittedStep(o, n, events[0]);
      forall i | 0 <= i <= |rest| ensures HandleAll(o, n', rest[..i]) == HandleAll(o, n, events[..i + 1]) {
        assert events[..i + 1][0] == events[0] && events[..i + 1][1..] == rest[..i];
      }
      GrowingIsShallow(o, n', rest);
    }
  }
}
