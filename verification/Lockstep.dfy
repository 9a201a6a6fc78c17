/** Runs in which every exchange is finished before anything else happens: as long as diffs span at most two updates,
    the router's table is exactly the server's. */
module Lockstep {
  import opened Vrps
  import opened Diffs
  import opened History
  import opened Serials
  import opened RtrClient
  import opened Replies
  import opened Protocol
  import opened Runs

  /** A Serial Query that is answered with a diff is answered at most two updates late. */
  ghost predicate ShortLag(c: Config, s: State, a: Action) {
    a.ReadData? && s.handler.GotSerial? && s.handler.query.SerialQ? &&
    IsServed(s.names, c.keepDiff, s.handler.query.serial) ==>
      |s.names| <= s.handler.query.since + 2
  }

  ghost predicate Timely(c: Config, states: seq<State>, actions: seq<Action>)
    requires |states| == |actions| + 1
  {
    forall i | 0 <= i < |actions| :: ShortLag(c, states[i], actions[i])
  }

  /** A window of one or two diffs makes every answer timely. */
  lemma ShortWindowLag(c: Config, s: State, a: Action, s': State)
    requires Inv(c, s) && Step(c, s, a, s') && (c.keepDiff == 1 || c.keepDiff == 2)
    ensures ShortLag(c, s, a)
  {
    if a.ReadData? && s.handler.query.SerialQ? && IsServed(s.names, c.keepDiff, s.handler.query.serial) {
      var b :| Serves(s.names, c.keepDiff, s.handler.query.serial, b);
      ServesOwnUpdate(s.names, c.keepDiff, s.handler.query.since, b);
    }
  }

  // ---- The invariant

  /** At most one query, handler or reply is there at a time. */
  ghost predicate OneAtATime(s: State) {
    |s.queries| + |s.replies| + (if s.handler.Idle? then 0 else 1) <= 1
  }

  /** A query is about the table the router has, or the router has none. */
  ghost predicate AboutTable(s: State, q: Query) {
    if q.ResetQ? then !s.router.seen else q.since == s.router.dataAt
  }

  /** A reply is about the current update, and a diff spans at most two updates since the router's. */
  ghost predicate AboutNow(s: State, r: Reply) {
    match r
    case Full(i, j, _, _) => !s.router.seen && i == j == |s.names|
    case Incremental(b, i, j, _, _) => b == s.router.dataAt && i == j == |s.names| <= b + 2
    case NoData => !s.router.seen
    case Reset => true
  }

  /** The router holds and shows exactly the table of the serial it holds, or nothing. */
  ghost predicate InStep(s: State) {
    var r := s.router;
    && (r.seen ==> r.synced && r.view.connected && r.heldAt == r.dataAt < |s.tables|)
    && r.begin.working == (if r.seen then s.tables[r.dataAt] else {})
    && (r.seen ==> r.begin.shown == s.tables[r.dataAt])
    && (!r.view.connected ==> r.received == 0)
  }

  ghost predicate LockstepInv(s: State) {
    && OneAtATime(s) && InStep(s)
    && (s.queries != [] ==> AboutTable(s, s.queries[0]))
    && (s.handler.GotSerial? ==> AboutTable(s, s.handler.query) && s.handler.serialAt == |s.names|)
    && (s.replies != [] ==> AboutNow(s, s.replies[0]))
  }

  lemma ReadDataInStep(c: Config, s: State, s': State, data: seq<VRP>)
    requires Inv(c, s) && LockstepInv(s) && ReadDataStep(c, s, s', data) && ShortLag(c, s, ReadData(data))
    ensures LockstepInv(s')
  {
    if s.handler.query.SerialQ? && IsServed(s.names, c.keepDiff, s.handler.query.serial) {
      var b :| ServedStep(c, s, s', data, b);
      ServesOwnUpdate(s.names, c.keepDiff, s.handler.query.since, b);
    }
  }

  /** A diff that reaches the router in lockstep makes its table the current one and withdraws only keys it holds. */
  lemma DiffExact(c: Config, s: State)
    requires Inv(c, s) && LockstepInv(s) && s.replies != [] && s.replies[0].Incremental?
    requires s.router.view.connected
    ensures var r, held := s.replies[0], s.router.begin.working;
            && r.dataAt < |s.tables| && Withdrawn(r.vrps) <= held
            && Patch(held, Announced(r.vrps), Withdrawn(r.vrps)) == s.tables[r.dataAt]
  {
    var r := s.replies[0];
    assert ReplyInv(s, r);
    var h := s.tables[..r.dataAt + 1];
    RecordsWellFormed(h, r.since);
    ShortLagExact(h, r.since);
  }

  lemma DeliverInStep(c: Config, s: State, s': State)
    requires !c.breakRTR && Inv(c, s) && LockstepInv(s) && DeliverStep(c, s, s')
    ensures LockstepInv(s')
  {
    var r := s.replies[0];
    assert ReplyInv(s, r);
    if HasData(r) && s.router.received + 1 == |Delivered(c, r)| {
      WholeReply(c, s, s');
      DeliveredView(c, r, s.router.begin);
      if r.Incremental? {
        DiffExact(c, s);
      }
    } else if HasData(r) {
      MiddleMessage(c, r, s.router.received, s.router.view);
    }
  }

  lemma StepInStep(c: Config, s: State, a: Action, s': State)
    requires !c.breakRTR && Inv(c, s) && LockstepInv(s) && Step(c, s, a, s') && Obeys(Atomic, s, a) && ShortLag(c, s, a)
    ensures LockstepInv(s')
  {
    match a
    case Deliver => DeliverInStep(c, s, s');
    case ReadData(data) => ReadDataInStep(c, s, s', data);
    case _ =>
  }

  lemma {:induction false} RunInStep(c: Config, states: seq<State>, actions: seq<Action>, i: nat)
    requires IsRun(c, states, actions) && Obeyed(Atomic, states, actions) && !c.breakRTR && i < |states|
    requires c.keepDiff == 1 || c.keepDiff == 2 || Timely(c, states, actions)
    ensures LockstepInv(states[i])
  {
    if i == 0 {
      assert Init(c, states[0]);
    } else {
      var j := i - 1;
      RunInStep(c, states, actions, j);
      RunInv(c, states, actions, j);
      assert StepAt(c, states, actions, j);
      if c.keepDiff == 1 || c.keepDiff == 2 {
        ShortWindowLag(c, states[j], actions[j], states[i]);
      }
      StepInStep(c, states[j], actions[j], states[i]);
    }
  }

  /** Bounded-lag exactness: if exchanges are atomic and every diff spans at most two updates, as it does in a window of
      one or two, the router shows at every point exactly the server's table at the serial it holds. */
  lemma ExactInLockstep(c: Config, states: seq<State>, actions: seq<Action>, i: nat)
    requires IsRun(c, states, actions) && Obeyed(Atomic, states, actions) && !c.breakRTR && i < |states|
    requires c.keepDiff == 1 || c.keepDiff == 2 || Timely(c, states, actions)
    requires states[i].router.seen
    ensures var s, r := states[i], states[i].router;
            && 1 <= r.heldAt == r.dataAt < |s.tables| == |s.names| + 1
            && r.view.serial == s.names[r.heldAt - 1]
            && r.view.shown == s.tables[r.heldAt]
  {
    RunInStep(c, states, actions, i);
    RunInv(c, states, actions, i);
  }

  /** Cache Reset leaves the router as it was. */
  lemma ResetChangesNothing(c: Config, s: State, s': State)
    requires Inv(c, s) && DeliverStep(c, s, s') && s.replies[0].Reset?
    ensures s'.router == s.router
  {
    assert Delivered(c, Reset)[..0] == [];
  }

  /** A router that already holds a table, as after connecting again, is brought exactly up to date by a whole table iff
      it holds nothing that table lacks: a reload only ever adds. */
  lemma ReloadExactlyWhen(c: Config, r: Reply, v: View)
    requires c.version <= 1 && r.Full? && AllAnnounced(r.vrps) && AllKeysSendable(r.vrps)
    ensures var v' := ReceiveAll(v, Delivered(c, r), c.breakRTR);
            && v'.working == v.working + Keys(r.vrps)
            && (v'.working == Keys(r.vrps) <==> v.working <= Keys(r.vrps))
  {
    AnnouncedOnly(r.vrps);
    DeliveredView(c, r, v);
  }
}
