/** Gossip of one proof-of-stake transaction over a fixed connection graph with reliable links.
    A delivery runs in separately locked steps: record and dedupe, note the sender, claim the right
    to flood, then write to each chosen connection.  Handlers of one peer interleave freely, and a
    peer may evict the transaction from its mempool at any time.  A pool transaction is first tried
    on the best ledger, which may refuse it at one delivery and take it at another. */
module Flood {
  import opened Sums

  type Id = string

  datatype Message = Message(from: Id, to: Id)

  /** What a peer keeps about the message: whom it came from and whether it was flooded. */
  datatype History = History(receivedFrom: seq<Id>, isSent: bool)

  /** A handler at work: about to note the sender, about to flood, or writing to connections. */
  datatype Task =
    | Note(peer: Id, from: Id)
    | Announce(peer: Id)
    | Send(peer: Id, outbox: set<Id>)

  /** log lists every write to a connection; a write not yet delivered is in flight.  Handlers run
      under numbers handed out in order.  holders are the peers with the transaction in their mempool;
      refused are the deliveries that a trial turned away, which only a tried transaction has. */
  datatype Net = Net(
    tried: bool,
    conns: map<Id, set<Id>>,
    history: map<Id, History>,
    holders: set<Id>,
    handlers: map<nat, Task>,
    started: nat,
    log: seq<Message>,
    delivered: set<nat>,
    refused: set<nat>)

  datatype Action =
    | Deliver(index: nat)
    | Refuse(index: nat)
    | AddReceived(handler: nat)
    | FloodNetwork(handler: nat)
    | WriteMessage(handler: nat, to: Id)
    | Finish(handler: nat)
    | Evict(peer: Id)

  predicate InFlight(s: Net, i: nat) {
    i < |s.log| && i !in s.delivered
  }

  predicate Runs(s: Net, h: nat) {
    h in s.handlers && s.handlers[h].peer in s.history && s.handlers[h].peer in s.conns
  }

  predicate Enabled(s: Net, a: Action) {
    match a
    case Deliver(i) => InFlight(s, i)
    case Refuse(i) => s.tried && InFlight(s, i)
    case AddReceived(h) => Runs(s, h) && s.handlers[h].Note?
    case FloodNetwork(h) => Runs(s, h) && s.handlers[h].Announce?
    case WriteMessage(h, q) => Runs(s, h) && s.handlers[h].Send? && q in s.handlers[h].outbox
    case Finish(h) => Runs(s, h) && s.handlers[h].Send? && s.handlers[h].outbox == {}
    case Evict(p) => p in s.holders
  }

  function Recipients(s: Net, p: Id): set<Id>
    requires p in s.history && p in s.conns
  {
    set q | q in s.conns[p] && q != p && q !in s.history[p].receivedFrom
  }

  function Next(s: Net, a: Action): Net
    requires Enabled(s, a)
  {
    match a
    case Deliver(i) =>
      var m := s.log[i];
      var rest := s.(delivered := s.delivered + {i});
      var recorded := s.history[m.to := History([m.from], false)];
      if m.to in s.history then rest
      else if m.to in s.holders then rest.(history := recorded)
      else rest.(history := recorded,
                 holders := s.holders + {m.to},
                 handlers := s.handlers[s.started := Note(m.to, m.from)],
                 started := s.started + 1)
    case Refuse(i) =>
      s.(delivered := s.delivered + {i}, refused := s.refused + {i})
    case AddReceived(h) =>
      var t := s.handlers[h];
      var was := s.history[t.peer];
      s.(history := s.history[t.peer := was.(receivedFrom := was.receivedFrom + [t.from])],
         handlers := s.handlers[h := Announce(t.peer)])
    case FloodNetwork(h) =>
      var p := s.handlers[h].peer;
      if s.history[p].isSent then s.(handlers := s.handlers - {h})
      else s.(history := s.history[p := s.history[p].(isSent := true)],
              handlers := s.handlers[h := Send(p, Recipients(s, p))])
    case WriteMessage(h, q) =>
      var t := s.handlers[h];
      s.(log := s.log + [Message(t.peer, q)],
         handlers := s.handlers[h := Send(t.peer, t.outbox - {q})])
    case Finish(h) =>
      s.(handlers := s.handlers - {h})
    case Evict(p) =>
      s.(holders := s.holders - {p})
  }

  /** Every connection leads to a peer of the network. */
  predicate Closed(conns: map<Id, set<Id>>) {
    forall p, q :: p in conns && q in conns[p] ==> q in conns
  }

  /** The origin has recorded its own transaction, holds it and is about to flood it. */
  function Start(tried: bool, conns: map<Id, set<Id>>, origin: Id): Net {
    Net(tried, conns, map[origin := History([origin], false)], {origin}, map[0 := Announce(origin)], 1, [], {}, {})
  }

  // ----- what every step keeps ---------------------------------------------------------------------

  ghost predicate Busy(s: Net, p: Id) {
    exists h :: h in s.handlers && s.handlers[h].peer == p
  }

  /** Handlers are in the phase the history of their peer shows. */
  ghost predicate InPhase(s: Net) {
    forall h :: h in s.handlers ==> HandlerInPhase(s, h)
  }

  predicate HandlerInPhase(s: Net, h: nat) {
    h < s.started && Runs(s, h) && (s.handlers[h].Send? <==> s.history[s.handlers[h].peer].isSent)
  }

  ghost predicate Alone(s: Net) {
    forall h, k :: h in s.handlers && k in s.handlers && s.handlers[h].peer == s.handlers[k].peer ==> h == k
  }

  /** At most one handler per peer, in phase; a recorded peer that has not flooded has one. */
  ghost predicate OneHandler(s: Net) {
    && InPhase(s) && Alone(s)
    && (forall p :: p in s.history && !s.history[p].isSent ==> Busy(s, p))
  }

  /** Whoever holds the transaction has recorded the message. */
  ghost predicate HoldersRecorded(s: Net) {
    forall p :: p in s.holders ==> p in s.history
  }

  /** Whoever the message was received from has recorded it. */
  ghost predicate SourcesRecorded(s: Net) {
    && (forall p :: p in s.history ==> p in s.conns)
    && (forall p, q :: p in s.history && q in s.history[p].receivedFrom ==> q in s.history)
    && (forall h :: h in s.handlers && s.handlers[h].Note? ==> s.handlers[h].from in s.history)
  }

  /** Whoever wrote the message has recorded it, and so has whoever it was delivered to. */
  ghost predicate WritesRecorded(s: Net) {
    WritersRecorded(s) && DeliveriesRecorded(s)
  }

  ghost predicate WritersRecorded(s: Net) {
    forall i :: 0 <= i < |s.log| ==> s.log[i].from in s.history && s.log[i].to in s.conns
  }

  ghost predicate DeliveriesRecorded(s: Net) {
    && (forall i :: 0 <= i < |s.log| && i in s.delivered && i !in s.refused ==> s.log[i].to in s.history)
    && (forall i :: i in s.delivered ==> i < |s.log|)
    && (forall i :: i in s.refused ==> s.tried && i in s.delivered)
  }

  ghost predicate Waiting(s: Net, p: Id, q: Id) {
    exists h :: h in s.handlers && s.handlers[h].Send? && s.handlers[h].peer == p && q in s.handlers[h].outbox
  }

  ghost predicate Accounted(s: Net, p: Id, q: Id)
    requires p in s.history
  {
    q in s.history[p].receivedFrom || Message(p, q) in s.log || Waiting(s, p, q)
  }

  /** Every connection of a peer that has flooded is accounted for: it sent the message here, the
      message was written to it, or it still waits in the outbox. */
  ghost predicate Covered(s: Net) {
    forall p, q :: p in s.history && p in s.conns && s.history[p].isSent && q in s.conns[p] && q != p ==>
      Accounted(s, p, q)
  }

  /** No link carries the message twice, and only peers that have flooded write. */
  ghost predicate WrittenOnce(s: Net) {
    && (forall i, j :: 0 <= i < j < |s.log| ==> s.log[i] != s.log[j])
    && (forall i :: 0 <= i < |s.log| ==> s.log[i].from in s.history && s.history[s.log[i].from].isSent)
  }

  /** What waits in an outbox is a connection not yet written to. */
  ghost predicate Unwritten(s: Net) {
    && (forall h, i :: h in s.handlers && s.handlers[h].Send? && 0 <= i < |s.log| ==>
          s.log[i].from != s.handlers[h].peer || s.log[i].to !in s.handlers[h].outbox)
    && (forall h :: h in s.handlers && s.handlers[h].Send? ==>
          s.handlers[h].peer in s.conns && s.handlers[h].outbox <= s.conns[s.handlers[h].peer])
  }

  ghost predicate NoRepeat(s: Net) {
    WrittenOnce(s) && Unwritten(s)
  }

  /** Nothing is written, or waits to be written, back to where the message came from. */
  ghost predicate NoEchoWritten(s: Net) {
    && (forall i :: 0 <= i < |s.log| ==>
          && s.log[i].from in s.history && s.log[i].to != s.log[i].from
          && s.log[i].to !in s.history[s.log[i].from].receivedFrom)
  }

  ghost predicate NoEchoWaiting(s: Net) {
    && (forall h, q :: h in s.handlers && s.handlers[h].Send? && q in s.handlers[h].outbox ==>
          && s.handlers[h].peer in s.history && q != s.handlers[h].peer
          && q !in s.history[s.handlers[h].peer].receivedFrom)
  }

  ghost predicate NoEcho(s: Net) {
    NoEchoWritten(s) && NoEchoWaiting(s)
  }

  ghost predicate Inv(s: Net) {
    && Closed(s.conns) && OneHandler(s) && HoldersRecorded(s) && SourcesRecorded(s) && WritesRecorded(s)
    && Covered(s) && NoRepeat(s) && NoEcho(s)
  }

  lemma StartInv(tried: bool, conns: map<Id, set<Id>>, origin: Id)
    requires Closed(conns) && origin in conns
    ensures Inv(Start(tried, conns, origin))
  {
    var s := Start(tried, conns, origin);
    assert s.handlers[0].peer == origin;
  }

  /** Actions that touch neither history nor handlers nor the log. */
  predicate Side(a: Action) {
    a.Refuse? || a.Evict?
  }

  lemma StepPhases(s: Net, a: Action)
    requires OneHandler(s) && WritesRecorded(s) && Enabled(s, a) && !Side(a)
    ensures InPhase(Next(s, a))
  {
    hide InPhase, Alone, Busy, Next;
    forall h | h in Next(s, a).handlers ensures HandlerInPhase(Next(s, a), h) {
      StepHandlerPhase(s, a, h);
    }
    assert InPhase(Next(s, a)) by { PhasesAre(Next(s, a)); }
  }

  lemma PhasesAre(s: Net)
    ensures InPhase(s) <==> forall h :: h in s.handlers ==> HandlerInPhase(s, h)
  {
  }

  lemma StepHandlerPhase(s: Net, a: Action, h: nat)
    requires InPhase(s) && Alone(s) && Enabled(s, a) && !Side(a) && h in Next(s, a).handlers
    requires a.Deliver? ==> s.log[a.index].to in s.conns
    ensures HandlerInPhase(Next(s, a), h)
  {
    hide Recipients;
    assert h in s.handlers ==> HandlerInPhase(s, h);
  }

  lemma StepAlone(s: Net, a: Action)
    requires OneHandler(s) && Enabled(s, a) && !Side(a)
    ensures Alone(Next(s, a))
  {
    hide Recipients, Busy;
  }

  lemma StepBusy(s: Net, a: Action, p: Id)
    requires OneHandler(s) && HoldersRecorded(s) && Enabled(s, a) && !Side(a)
    requires p in Next(s, a).history && !Next(s, a).history[p].isSent
    ensures Busy(Next(s, a), p)
  {
    hide Recipients;
    var s' := Next(s, a);
    if p in s.history {
      assert Busy(s, p);
      var h :| h in s.handlers && s.handlers[h].peer == p;
      assert h in s'.handlers && s'.handlers[h].peer == p;
    } else {
      assert s'.handlers[s.started].peer == p;
    }
  }

  lemma StepOneHandler(s: Net, a: Action)
    requires OneHandler(s) && HoldersRecorded(s) && SourcesRecorded(s) && WritesRecorded(s) && Enabled(s, a) && !Side(a)
    ensures OneHandler(Next(s, a))
  {
    StepPhases(s, a);
    StepAlone(s, a);
    hide Next, InPhase, Alone, SourcesRecorded, WritesRecorded, Busy;
    forall p | p in Next(s, a).history && !Next(s, a).history[p].isSent ensures Busy(Next(s, a), p) {
      StepBusy(s, a, p);
    }
  }

  lemma StepHoldersRecorded(s: Net, a: Action)
    requires HoldersRecorded(s) && Enabled(s, a)
    ensures HoldersRecorded(Next(s, a))
  {
  }

  lemma StepSourcesRecorded(s: Net, a: Action)
    requires SourcesRecorded(s) && WritesRecorded(s) && OneHandler(s) && Enabled(s, a) && !Side(a)
    ensures SourcesRecorded(Next(s, a))
  {
    hide Recipients, Busy, Alone, DeliveriesRecorded;
  }

  lemma StepWritesRecorded(s: Net, a: Action)
    requires Closed(s.conns) && WritesRecorded(s) && NoRepeat(s) && Enabled(s, a)
    ensures WritesRecorded(Next(s, a))
  {
    hide WritersRecorded, DeliveriesRecorded, NoRepeat, Next;
    StepWritersRecorded(s, a);
    StepDeliveriesRecorded(s, a);
  }

  lemma StepWritersRecorded(s: Net, a: Action)
    requires Closed(s.conns) && WritersRecorded(s) && NoRepeat(s) && Enabled(s, a)
    ensures WritersRecorded(Next(s, a))
  {
    hide WrittenOnce, Recipients;
  }

  lemma StepDeliveriesRecorded(s: Net, a: Action)
    requires DeliveriesRecorded(s) && Enabled(s, a)
    ensures DeliveriesRecorded(Next(s, a))
  {
    hide Recipients;
  }

  lemma StepCovered(s: Net, a: Action)
    requires OneHandler(s) && Covered(s) && Enabled(s, a) && !Side(a)
    ensures Covered(Next(s, a))
  {
    hide OneHandler, Next;
    var s' := Next(s, a);
    forall p, q | p in s'.history && p in s'.conns && s'.history[p].isSent && q in s'.conns[p] && q != p
      ensures Accounted(s', p, q)
    {
      StepAccounted(s, a, p, q);
    }
  }

  lemma StepAccounted(s: Net, a: Action, p: Id, q: Id)
    requires OneHandler(s) && Covered(s) && Enabled(s, a) && !Side(a)
    requires var s' := Next(s, a);
             p in s'.history && p in s'.conns && s'.history[p].isSent && q in s'.conns[p] && q != p
    ensures Accounted(Next(s, a), p, q)
  {
    var s' := Next(s, a);
    if p in s.history && s.history[p].isSent {
      StaysAccounted(s, a, p, q);
    } else {
      assert s'.handlers[a.handler] == Send(p, Recipients(s, p));
    }
  }

  lemma StaysAccounted(s: Net, a: Action, p: Id, q: Id)
    requires InPhase(s) && Enabled(s, a) && !Side(a) && p in s.history && Accounted(s, p, q)
    ensures p in Next(s, a).history && Accounted(Next(s, a), p, q)
  {
    hide Recipients;
    var s' := Next(s, a);
    if Message(p, q) in s.log {
      var i :| 0 <= i < |s.log| && s.log[i] == Message(p, q);
      assert s'.log[i] == Message(p, q);
    } else if Waiting(s, p, q) {
      var h :| h in s.handlers && s.handlers[h].Send? && s.handlers[h].peer == p && q in s.handlers[h].outbox;
      if a == WriteMessage(h, q) {
        assert s'.log[|s.log|] == Message(p, q);
      } else {
        assert h in s'.handlers && q in s'.handlers[h].outbox;
      }
    }
  }

  lemma StepNoRepeat(s: Net, a: Action)
    requires OneHandler(s) && NoRepeat(s) && Enabled(s, a) && !Side(a)
    ensures NoRepeat(Next(s, a))
  {
    hide Busy, InPhase, Alone, WrittenOnce, Unwritten, Next;
    StepWrittenOnce(s, a);
    StepUnwritten(s, a);
  }

  lemma StepWrittenOnce(s: Net, a: Action)
    requires OneHandler(s) && NoRepeat(s) && Enabled(s, a) && !Side(a)
    ensures WrittenOnce(Next(s, a))
  {
    hide Busy, Alone, Recipients;
    var s' := Next(s, a);
    if a.WriteMessage? {
      assert HandlerInPhase(s, a.handler);
      assert forall i :: 0 <= i < |s.log| ==> s.log[i] != s'.log[|s.log|];
    } else {
      assert s'.log == s.log;
    }
  }

  lemma StepUnwritten(s: Net, a: Action)
    requires OneHandler(s) && NoRepeat(s) && Enabled(s, a) && !Side(a)
    ensures Unwritten(Next(s, a))
  {
    hide Busy;
  }

  lemma StepNoEcho(s: Net, a: Action)
    requires InPhase(s) && NoRepeat(s) && NoEcho(s) && Enabled(s, a) && !Side(a)
    ensures NoEcho(Next(s, a))
  {
    hide NoEchoWritten, NoEchoWaiting, InPhase, NoRepeat, Next;
    StepNoEchoWritten(s, a);
    StepNoEchoWaiting(s, a);
  }

  lemma StepNoEchoWritten(s: Net, a: Action)
    requires InPhase(s) && NoRepeat(s) && NoEcho(s) && Enabled(s, a) && !Side(a)
    ensures NoEchoWritten(Next(s, a))
  {
    hide Recipients, Unwritten;
  }

  lemma StepNoEchoWaiting(s: Net, a: Action)
    requires InPhase(s) && NoRepeat(s) && NoEcho(s) && Enabled(s, a) && !Side(a)
    ensures NoEchoWaiting(Next(s, a))
  {
    hide NoRepeat, NoEchoWritten;
  }

  lemma SameHandlers(s: Net, s': Net)
    requires s'.handlers == s.handlers && s'.history == s.history && s'.started == s.started && s'.conns == s.conns
    requires s'.log == s.log
    ensures OneHandler(s) ==> OneHandler(s')
    ensures Covered(s) ==> Covered(s')
  {
    if OneHandler(s) {
      forall h | h in s'.handlers ensures HandlerInPhase(s', h) {
        assert HandlerInPhase(s, h);
      }
      forall p | p in s'.history && !s'.history[p].isSent ensures Busy(s', p) {
        assert Busy(s, p);
      }
    }
    if Covered(s) {
      forall p, q | p in s'.history && p in s'.conns && s'.history[p].isSent && q in s'.conns[p] && q != p
        ensures Accounted(s', p, q)
      {
        assert Accounted(s, p, q);
        assert Waiting(s, p, q) ==> Waiting(s', p, q);
      }
    }
  }

  lemma SameLog(s: Net, s': Net)
    requires s'.handlers == s.handlers && s'.history == s.history && s'.conns == s.conns && s'.log == s.log
    ensures SourcesRecorded(s) ==> SourcesRecorded(s')
    ensures NoRepeat(s) ==> NoRepeat(s')
    ensures NoEcho(s) ==> NoEcho(s')
  {
  }

  lemma StepInv(s: Net, a: Action)
    requires Inv(s) && Enabled(s, a)
    ensures Inv(Next(s, a))
  {
    StepHoldersRecorded(s, a);
    StepWritesRecorded(s, a);
    if Side(a) {
      hide OneHandler, Covered, SourcesRecorded, NoRepeat, NoEcho, WritesRecorded, HoldersRecorded;
      SameHandlers(s, Next(s, a));
      SameLog(s, Next(s, a));
    } else {
      hide OneHandler, Covered, SourcesRecorded, NoRepeat, NoEcho, WritesRecorded, HoldersRecorded;
      StepOneHandler(s, a);
      StepSourcesRecorded(s, a);
      StepCovered(s, a);
      StepNoRepeat(s, a);
      StepNoEcho(s, a);
    }
  }

  // ----- whole floods ------------------------------------------------------------------------------

  /** The states a sequence of actions leads through are all enabled. */
  predicate Feasible(s: Net, run: seq<Action>)
    decreases |run|
  {
    run == [] || (Enabled(s, run[0]) && Feasible(Next(s, run[0]), run[1..]))
  }

  function After(s: Net, run: seq<Action>): Net
    requires Feasible(s, run)
    decreases |run|
  {
    if run == [] then s else After(Next(s, run[0]), run[1..])
  }

  lemma StepKeeps(s: Net, a: Action)
    requires Enabled(s, a)
    ensures Next(s, a).conns == s.conns && Next(s, a).tried == s.tried
    ensures s.history.Keys <= Next(s, a).history.Keys
  {
    hide Recipients;
  }

  lemma {:induction false} RunInv(s: Net, run: seq<Action>)
    requires Inv(s) && Feasible(s, run)
    ensures Inv(After(s, run)) && After(s, run).conns == s.conns && After(s, run).tried == s.tried
    ensures s.history.Keys <= After(s, run).history.Keys
    decreases |run|
  {
    hide Inv, Next;
    if run != [] {
      StepInv(s, run[0]);
      StepKeeps(s, run[0]);
      RunInv(Next(s, run[0]), run[1..]);
    }
  }

  /** Over any flood no peer writes the message twice to the same connection, and none writes it
      back to a peer it received it from. */
  lemma ForwardsOnce(tried: bool, conns: map<Id, set<Id>>, origin: Id, run: seq<Action>)
    requires Closed(conns) && origin in conns && Feasible(Start(tried, conns, origin), run)
    ensures var end := After(Start(tried, conns, origin), run);
            && (forall i, j :: 0 <= i < j < |end.log| ==> end.log[i] != end.log[j])
            && (forall i :: 0 <= i < |end.log| ==>
                  end.log[i].from in end.history && end.log[i].to !in end.history[end.log[i].from].receivedFrom)
  {
    hide InPhase, Alone, Covered, WritesRecorded, SourcesRecorded;
    StartInv(tried, conns, origin);
    RunInv(Start(tried, conns, origin), run);
  }

  // Termination: every action lowers the weight.

  function PeerWeight(s: Net, p: Id): nat
    requires p in s.conns
  {
    if p !in s.history then 2 * |s.conns[p]| + 5 else if p in s.holders then 1 else 0
  }

  function TaskWeight(s: Net, t: Task): nat {
    var degree := if t.peer in s.conns then |s.conns[t.peer]| else 0;
    match t
    case Note(_, _) => 2 * degree + 3
    case Announce(_) => 2 * degree + 2
    case Send(_, outbox) => 2 * |outbox| + 1
  }

  function PeerWeights(s: Net): map<Id, int> {
    map p | p in s.conns :: PeerWeight(s, p)
  }

  function TaskWeights(s: Net): map<nat, int> {
    map h | h in s.handlers :: TaskWeight(s, s.handlers[h])
  }

  ghost function Weight(s: Net): int {
    Sum(PeerWeights(s)) + Sum(TaskWeights(s)) + |s.log| - |s.delivered|
  }

  lemma WeightNonNegative(s: Net)
    requires Inv(s)
    ensures Weight(s) >= 0
  {
    SumNonNegative(PeerWeights(s));
    SumNonNegative(TaskWeights(s));
    BoundedSet(s.delivered, |s.log|);
  }

  lemma {:induction false} BoundedSet(d: set<nat>, n: nat)
    requires forall i :: i in d ==> i < n
    ensures |d| <= n
    decreases n
  {
    if n > 0 {
      BoundedSet(d - {n - 1}, n - 1);
    } else {
      assert d == {};
    }
  }

  lemma DeliverLowersWeight(s: Net, i: nat)
    requires InFlight(s, i) && s.log[i].to in s.conns && s.started !in s.handlers && HoldersRecorded(s)
    ensures Weight(Next(s, Deliver(i))) < Weight(s)
  {
    hide Sum, Recipients, PeerWeights, TaskWeights;
    var s', p := Next(s, Deliver(i)), s.log[i].to;
    if p in s.history {
      SameWeights(s, s');
    } else {
      RecordPeer(s, s', p);
      AddHandler(s, s', s.started, Note(p, s.log[i].from));
    }
  }

  lemma RecordPeer(s: Net, s': Net, p: Id)
    requires p in s.conns && p !in s.history && s'.conns == s.conns
    requires s'.history.Keys == s.history.Keys + {p} && s'.holders == s.holders + {p}
    ensures Sum(PeerWeights(s')) == Sum(PeerWeights(s)) - PeerWeight(s, p) + 1
  {
    hide Sum;
    SumSet(PeerWeights(s), p, 1);
    assert PeerWeights(s') == PeerWeights(s)[p := 1];
  }

  lemma SameWeights(s: Net, s': Net)
    requires s'.conns == s.conns && s'.history == s.history && s'.holders == s.holders && s'.handlers == s.handlers
    ensures PeerWeights(s') == PeerWeights(s) && TaskWeights(s') == TaskWeights(s)
  {
  }

  lemma AddHandler(s: Net, s': Net, h: nat, t: Task)
    requires h !in s.handlers && s'.conns == s.conns && s'.handlers == s.handlers[h := t]
    ensures Sum(TaskWeights(s')) == Sum(TaskWeights(s)) + TaskWeight(s, t)
  {
    assert TaskWeights(s') == TaskWeights(s)[h := TaskWeight(s, t)];
    SumSet(TaskWeights(s), h, TaskWeight(s, t));
  }

  /** Only the peer weight and the task weight an action touches change. */
  lemma HandlerLowersWeight(s: Net, a: Action)
    requires !a.Deliver? && !a.Refuse? && !a.Evict? && Enabled(s, a)
    requires a.FloodNetwork? ==> !s.history[s.handlers[a.handler].peer].isSent
    ensures Weight(Next(s, a)) < Weight(s)
  {
    var s', h := Next(s, a), a.handler;
    var p := s.handlers[h].peer;
    match a {
      case AddReceived(_) =>
        RelabelHandler(s, s', h, Announce(p));
      case FloodNetwork(_) =>
        SubsetSize(Recipients(s, p), s.conns[p]);
        RelabelHandler(s, s', h, Send(p, Recipients(s, p)));
      case WriteMessage(_, q) =>
        RelabelHandler(s, s', h, Send(p, s.handlers[h].outbox - {q}));
      case Finish(_) =>
        assert PeerWeights(s') == PeerWeights(s);
        assert TaskWeights(s') == TaskWeights(s) - {h};
        SumRemove(TaskWeights(s), h);
    }
  }

  lemma EvictLowersWeight(s: Net, p: Id)
    requires p in s.holders && p in s.history && p in s.conns
    ensures Weight(Next(s, Evict(p))) < Weight(s)
  {
    var s' := Next(s, Evict(p));
    SumSet(PeerWeights(s), p, 0);
    assert PeerWeights(s') == PeerWeights(s)[p := 0];
    assert TaskWeights(s') == TaskWeights(s);
  }

  lemma RefuseLowersWeight(s: Net, i: nat)
    requires s.tried && InFlight(s, i)
    ensures Weight(Next(s, Refuse(i))) < Weight(s)
  {
    SameWeights(s, Next(s, Refuse(i)));
  }

  lemma StepLowersWeight(s: Net, a: Action)
    requires Inv(s) && Enabled(s, a)
    ensures Weight(Next(s, a)) < Weight(s)
  {
    hide Weight, Next, Covered, NoRepeat, NoEcho, Alone;
    match a {
      case Deliver(i) => DeliverLowersWeight(s, i);
      case Refuse(i) => RefuseLowersWeight(s, i);
      case Evict(p) => EvictLowersWeight(s, p);
      case _ => HandlerLowersWeight(s, a);
    }
  }

  lemma RelabelHandler(s: Net, s': Net, h: nat, t: Task)
    requires h in s.handlers && s'.conns == s.conns && s'.history.Keys == s.history.Keys && s'.holders == s.holders
    requires s'.handlers == s.handlers[h := t]
    ensures Sum(PeerWeights(s')) == Sum(PeerWeights(s))
    ensures Sum(TaskWeights(s')) == Sum(TaskWeights(s)) - TaskWeight(s, s.handlers[h]) + TaskWeight(s, t)
  {
    assert PeerWeights(s') == PeerWeights(s);
    assert TaskWeights(s') == TaskWeights(s)[h := TaskWeight(s, t)];
    SumSet(TaskWeights(s), h, TaskWeight(s, t));
  }

  /** Every flood stops: no run is longer than the initial weight. */
  lemma {:induction false} FloodTerminates(s: Net, run: seq<Action>)
    requires Inv(s) && Feasible(s, run)
    ensures |run| <= Weight(s)
    decreases |run|
  {
    WeightNonNegative(s);
    if run != [] {
      StepInv(s, run[0]);
      StepLowersWeight(s, run[0]);
      FloodTerminates(Next(s, run[0]), run[1..]);
    }
  }

  predicate Quiet(s: Net) {
    s.handlers == map[] && forall i :: 0 <= i < |s.log| ==> i in s.delivered
  }

  /** A flood gets stuck only when it is over: then evictions are all that can still happen. */
  lemma StuckOnlyWhenQuiet(s: Net)
    requires Inv(s)
    ensures Quiet(s) <==> forall a: Action :: Enabled(s, a) ==> a.Evict?
  {
    if !Quiet(s) {
      if s.handlers != map[] {
        var h :| h in s.handlers;
        var t := s.handlers[h];
        if t.Note? {
          assert Enabled(s, AddReceived(h));
        } else if t.Announce? {
          assert Enabled(s, FloodNetwork(h));
        } else if t.outbox == {} {
          assert Enabled(s, Finish(h));
        } else {
          var q :| q in t.outbox;
          assert Enabled(s, WriteMessage(h, q));
        }
      } else {
        var i :| 0 <= i < |s.log| && i !in s.delivered;
        assert Enabled(s, Deliver(i));
      }
    }
  }

  // ----- delivery ----------------------------------------------------------------------------------

  /** A path of connections from the first to the last peer. */
  predicate Path(conns: map<Id, set<Id>>, path: seq<Id>) {
    && path != []
    && (forall i :: 0 <= i < |path| ==> path[i] in conns)
    && (forall i :: 0 < i < |path| ==> path[i] in conns[path[i - 1]])
  }

  /** No delivery to this peer was refused. */
  predicate NeverRefused(s: Net, p: Id) {
    forall i :: i in s.refused && 0 <= i < |s.log| ==> s.log[i].to != p
  }

  lemma QuietClosed(s: Net, p: Id, q: Id)
    requires Inv(s) && Quiet(s) && p in s.history && p in s.conns && q in s.conns[p] && NeverRefused(s, q)
    ensures q in s.history
  {
    assert !Busy(s, p);
    if q != p && q !in s.history[p].receivedFrom {
      assert Accounted(s, p, q) && !Waiting(s, p, q);
      assert Message(p, q) in s.log;
    }
  }

  lemma {:induction false} QuietReaches(s: Net, path: seq<Id>)
    requires Inv(s) && Quiet(s) && Path(s.conns, path) && path[0] in s.history
    requires forall i :: 0 < i < |path| ==> NeverRefused(s, path[i])
    ensures path[|path| - 1] in s.history
    decreases |path|
  {
    hide Inv, NeverRefused;
    if |path| > 1 {
      var shorter := path[..|path| - 1];
      QuietReaches(s, shorter);
      QuietClosed(s, path[|path| - 2], path[|path| - 1]);
    }
  }

  /** Whoever has recorded the message holds the transaction, unless it evicted it. */
  lemma {:induction false} HeldUnlessEvicted(s: Net, run: seq<Action>, p: Id)
    requires Inv(s) && Feasible(s, run) && (p in s.history ==> p in s.holders)
    ensures p in After(s, run).history ==> p in After(s, run).holders || Evict(p) in run
    decreases |run|
  {
    hide Inv;
    if run != [] && run[0] != Evict(p) {
      StepInv(s, run[0]);
      StepHolds(s, run[0], p);
      HeldUnlessEvicted(Next(s, run[0]), run[1..], p);
    }
  }

  lemma StepHolds(s: Net, a: Action, p: Id)
    requires Inv(s) && Enabled(s, a) && a != Evict(p) && (p in s.history ==> p in s.holders)
    ensures p in Next(s, a).history ==> p in Next(s, a).holders
  {
    hide OneHandler, Covered, NoRepeat, NoEcho, WritesRecorded;
  }

  /** Once nothing is in flight or half-processed, every peer connected to the origin by a path of
      peers that refused no delivery has the transaction in its mempool, unless the peer evicted it
      during the run. */
  lemma FloodReachesAll(tried: bool, conns: map<Id, set<Id>>, origin: Id, run: seq<Action>, path: seq<Id>)
    requires Closed(conns) && origin in conns && Feasible(Start(tried, conns, origin), run)
    requires Quiet(After(Start(tried, conns, origin), run))
    requires Path(conns, path) && path[0] == origin
    requires forall i :: 0 < i < |path| ==> NeverRefused(After(Start(tried, conns, origin), run), path[i])
    ensures var end, last := After(Start(tried, conns, origin), run), path[|path| - 1];
            last in end.history && (last in end.holders || Evict(last) in run)
  {
    hide Inv, NeverRefused;
    StartInv(tried, conns, origin);
    RunInv(Start(tried, conns, origin), run);
    assert origin in Start(tried, conns, origin).history;
    QuietReaches(After(Start(tried, conns, origin), run), path);
    HeldUnlessEvicted(Start(tried, conns, origin), run, path[|path| - 1]);
  }

  /** A transaction that is not tried on a ledger is refused nowhere. */
  lemma UntriedNeverRefused(conns: map<Id, set<Id>>, origin: Id, run: seq<Action>, p: Id)
    requires Closed(conns) && origin in conns && Feasible(Start(false, conns, origin), run)
    ensures NeverRefused(After(Start(false, conns, origin), run), p)
  {
    StartInv(false, conns, origin);
    RunInv(Start(false, conns, origin), run);
  }
}
