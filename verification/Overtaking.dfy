/** Runs in which queries, updates and replies overlap in any way: a router shows exactly the table whose data it
    received if the server keeps one diff, or if the router loads a single table and drops its connection. */
module Overtaking {
  import opened Vrps
  import opened History
  import opened Protocol
  import opened Runs

  /** At most one reset query or whole table is on its way, ahead of everything else, and none once the router has a
      table; that table is exactly the one whose data was received; and diffs span at most one update. */
  ghost predicate OneTable(s: State) {
    && (forall i | 0 <= i < |s.queries| && s.queries[i].ResetQ? ::
          i == 0 && s.handler.Idle? && s.replies == [] && !s.router.seen)
    && (s.handler.GotSerial? && s.handler.query.ResetQ? ==> s.replies == [] && !s.router.seen)
    && (forall i | 0 <= i < |s.replies| && s.replies[i].Full? :: i == 0 && !s.router.seen)
    && (forall i | 0 <= i < |s.replies| && s.replies[i].Incremental? :: s.replies[i].dataAt <= s.replies[i].since + 1)
    && HoldsItsData(s)
    && (!s.router.view.connected ==> s.router.received == 0)
  }

  /** The router holds and shows exactly the table whose data it received, or nothing. */
  ghost predicate HoldsItsData(s: State) {
    var r := s.router;
    if r.seen then r.synced && r.dataAt < |s.tables| && r.begin.working == r.begin.shown == s.tables[r.dataAt]
    else r.begin.working == {}
  }

  /** A router that drops its connections sends no serial queries, so it gets no diffs. */
  ghost predicate NoDiffs(s: State) {
    && (forall i | 0 <= i < |s.queries| :: s.queries[i].ResetQ?)
    && (s.handler.GotSerial? ==> s.handler.query.ResetQ?)
    && (forall i | 0 <= i < |s.replies| :: !s.replies[i].Incremental?)
  }

  /** A router that keeps its connection loses it only to an error, which it gets only before it has a table. */
  ghost predicate ErrorsFirst(s: State) {
    && (s.router.seen ==> s.router.view.connected)
    && (forall i | 0 <= i < |s.replies| && s.replies[i].NoData? :: !s.router.seen)
    && (forall i, j | 0 <= j < i < |s.replies| && s.replies[i].NoData? :: !HasData(s.replies[j]))
  }

  ghost predicate OverlapInv(c: Config, s: State, n: nat) {
    && OneTable(s)
    && if c.breakRTR then NoDiffs(s) && (n == 0 ==> !s.router.seen && !s.router.view.connected) else ErrorsFirst(s)
  }

  /** One diff is kept, or one table is loaded. */
  predicate Safe(c: Config, n: nat) {
    if c.breakRTR then n <= 1 else c.keepDiff == 1
  }

  lemma DeliverOverlap(c: Config, s: State, n: nat, s': State)
    requires Safe(c, n) && Inv(c, s) && OverlapInv(c, s, n) && DeliverStep(c, s, s')
    ensures OverlapInv(c, s', n)
  {
    DeliverOneTable(c, s, s');
    if HasData(s.replies[0]) && s.router.received + 1 == |Delivered(c, s.replies[0])| {
      DeliverConnected(c, s, s');
    }
  }

  lemma DeliverConnected(c: Config, s: State, s': State)
    requires Inv(c, s) && DeliverStep(c, s, s') && HasData(s.replies[0])
    requires s.router.received + 1 == |Delivered(c, s.replies[0])|
    ensures s'.router.view.connected == !c.breakRTR
  {
    assert ReplyInv(s, s.replies[0]);
    WholeReply(c, s, s');
    DeliveredView(c, s.replies[0], s.router.begin);
  }

  lemma DeliverOneTable(c: Config, s: State, s': State)
    requires Inv(c, s) && OneTable(s) && DeliverStep(c, s, s')
    ensures OneTable(s')
  {
    var r := s.replies[0];
    assert ReplyInv(s, r);
    if HasData(r) && s.router.received + 1 == |Delivered(c, r)| {
      WholeReplyShown(c, s, s');
    } else if HasData(r) {
      MiddleMessage(c, r, s.router.received, s.router.view);
    }
  }

  /** The router shows exactly what a whole reply is about. */
  lemma WholeReplyShown(c: Config, s: State, s': State)
    requires Inv(c, s) && OneTable(s) && DeliverStep(c, s, s') && HasData(s.replies[0])
    requires s.router.received + 1 == |Delivered(c, s.replies[0])|
    ensures HoldsItsData(s')
  {
    var r := s.replies[0];
    assert ReplyInv(s, r);
    WholeReply(c, s, s');
    DeliveredView(c, r, s.router.begin);
    if r.Incremental? {
      OneUpdateExact(s.tables[..r.dataAt + 1], r.since, s.router.dataAt);
    }
  }

  lemma ReadDataOverlap(c: Config, s: State, n: nat, s': State, data: seq<VRP>)
    requires Safe(c, n) && Inv(c, s) && OverlapInv(c, s, n) && ReadDataStep(c, s, s', data)
    ensures OverlapInv(c, s', n)
  {
    var r := s'.replies[|s.replies|];
    ReplySentOverlap(c, s, n, s', r);
  }

  lemma ReplySentOverlap(c: Config, s: State, n: nat, s': State, r: Reply)
    requires OverlapInv(c, s, n) && s.handler.GotSerial? && s' == s.(handler := Idle, replies := s.replies + [r])
    requires match s.handler.query
             case ResetQ => r.Full?
             case SerialQ(_, _) => r.Reset? || (r.Incremental? && r.dataAt <= r.since + 1)
    ensures OverlapInv(c, s', n)
  {
  }

  lemma ReadSerialOverlap(c: Config, s: State, n: nat, s': State)
    requires Inv(c, s) && OverlapInv(c, s, n) && ReadSerialStep(s, s')
    ensures OverlapInv(c, s', n)
  {
    if s.names == [] {
      assert forall i | 0 <= i < |s.replies| :: ReplyInv(s, s.replies[i]);
    }
  }

  lemma StepOverlap(c: Config, s: State, n: nat, a: Action, s': State)
    requires Inv(c, s) && OverlapInv(c, s, n) && Step(c, s, a, s') && Safe(c, if a.Connect? then n + 1 else n)
    ensures OverlapInv(c, s', if a.Connect? then n + 1 else n)
  {
    match a
    case Deliver => DeliverOverlap(c, s, n, s');
    case ReadData(data) => ReadDataOverlap(c, s, n, s', data);
    case ReadSerial => ReadSerialOverlap(c, s, n, s');
    case _ =>
  }

  lemma {:induction false} RunOverlap(c: Config, states: seq<State>, actions: seq<Action>, i: nat)
    requires IsRun(c, states, actions) && i < |states| && Safe(c, Connects(actions[..i]))
    ensures OverlapInv(c, states[i], Connects(actions[..i]))
  {
    if i == 0 {
      assert Init(c, states[0]);
    } else {
      var j := i - 1;
      assert actions[..i][..j] == actions[..j];
      RunOverlap(c, states, actions, j);
      RunInv(c, states, actions, j);
      assert StepAt(c, states, actions, j);
      StepOverlap(c, states[j], Connects(actions[..j]), actions[j], states[i]);
    }
  }

  /** A router that keeps its connection is served exactly by a server that keeps one diff, over any number of
      connections; one that drops it after every table is served exactly once. Whatever the router asks, and however
      updates, reads and replies overlap, it always shows the very table whose data it received. */
  lemma ExactUnderOverlap(c: Config, states: seq<State>, actions: seq<Action>, i: nat)
    requires IsRun(c, states, actions) && i < |states| && states[i].router.seen
    requires if c.breakRTR then Connects(actions[..i]) <= 1 else c.keepDiff == 1
    ensures var s := states[i]; s.router.dataAt < |s.tables| && s.router.view.shown == s.tables[s.router.dataAt]
  {
    RunOverlap(c, states, actions, i);
    RunInv(c, states, actions, i);
  }
}
