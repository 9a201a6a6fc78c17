/** Runs of the diff cache that leave a withdrawn key on the router, and exactly when there are none. */
module Staleness {
  import opened Vrps
  import opened History
  import opened Serials
  import opened RtrClient
  import opened Replies
  import opened Protocol
  import opened Runs
  import Lockstep
  import Overtaking

  /** The first update publishes one VRP, and a fresh router loads it. */
  lemma FirstLoad(c: Config, d: Discipline, k: Key) returns (s: State)
    requires c.version <= 1 && c.keepDiff < SERIAL_SPACE && Sendable(k)
    ensures Reaches(c, d, s, 1) && Settled(c, s) && s.tables == [{}, {k}] && s.names == [c.first]
    ensures s.router.view.working == s.router.view.shown == {k}
  {
    var s1 := FirstUpdate(c, d, k);
    assert Last(s1.tables) == {k};
    s := Loaded(c, d, s1, 0);
  }

  lemma FirstUpdate(c: Config, d: Discipline, k: Key) returns (s: State)
    requires c.version <= 1 && c.keepDiff < SERIAL_SPACE && Sendable(k)
    ensures Reaches(c, d, s, 0) && s.tables == [{}, {k}] && s.names == [c.first]
    ensures s.router.view.working == {} && !s.router.view.connected
  {
    var v := View({}, {}, 0, 0, 0, 0, 0, false);
    var held := if c.first == 0 then 1 else 0;
    var s0 := State([{}], [], [], Idle, [], Router(v, v, 0, held, held, false, false));
    Starts(c, d, s0);
    OneVrp(k);
    s := Published(c, d, s0, 0, [VRP(k, FLAG_ADDED)], {k});
  }

  lemma OneVrp(k: Key)
    ensures Keys([VRP(k, FLAG_ADDED)]) == {k} && Keys([]) == {}
  {
  }

  /** A key withdrawn between two connections stays on a router that drops its connection after every table. */
  lemma StaleAfterReconnect(c: Config, d: Discipline, k: Key) returns (s: State)
    requires c.version <= 1 && c.keepDiff < SERIAL_SPACE && c.breakRTR && Sendable(k)
    ensures Reaches(c, d, s, 2) && Settled(c, s) && |s.names| == 2 && s.tables == [{}, {k}, {}]
    ensures s.router.view.shown == {k} && s.tables[s.router.dataAt] == {}
  {
    var s1 := FirstLoad(c, d, k);
    OneVrp(k);
    var s2 := Published(c, d, s1, 1, [], {});
    s := Loaded(c, d, s2, 1);
  }

  // ---- A key swapped for another

  lemma SwapRecord(h: seq<Table>, k: Key, k': Key)
    requires h == [{}, {k}, {k'}] && k != k'
    ensures Announces(h, 1) == {k'} && Withdraws(h, 1) == {k}
  {
    assert h[1] == {k} && h[2] == {k'};
    assert LeavesAt(h, 1, k, 2);
    assert AbsentSince(h, 1, k');
  }

  /** After one more update the record names the second key no longer. */
  lemma SwapGoneRecord(h: seq<Table>, k: Key, k': Key)
    requires h == [{}, {k}, {k'}, {}] && k != k'
    ensures Announces(h, 1) == {} && Withdraws(h, 1) == {k}
  {
    assert h[1] == {k} && h[2] == {k'} && h[3] == {};
    assert LeavesAt(h, 1, k, 2);
  }

  /** The router is connected and between two replies. */
  ghost predicate Receptive(s: State) {
    s.router.received == 0 && s.router.view.connected && s.router.begin == s.router.view
  }

  /** One key has been swapped for the other, and a record of that is on its way to a router that holds the first. The
      serial the reply carries is that of update `at`. */
  ghost predicate SwapOnItsWay(c: Config, s: State, k: Key, k': Key, at: nat) {
    && s.tables == [{}, {k}, {k'}] && s.names == [c.first, Successor(c.first)] && s.handler == Idle
    && 1 <= at <= 2 && |s.replies| == 1 && s.replies[0].Incremental?
    && Receptive(s) && s.router.begin.working == {k}
    && var r := s.replies[0];
       && r == Incremental(1, at, 2, s.names[at - 1], r.vrps)
       && Announced(r.vrps) == {k'} && Withdrawn(r.vrps) == {k}
  }

  // ---- A router that does not wait

  /** The router asks twice about the first update. */
  lemma AskedTwice(c: Config, k: Key) returns (s: State)
    requires c.version <= 1 && c.keepDiff < SERIAL_SPACE && !c.breakRTR && Sendable(k)
    ensures Reaches(c, AnyTime, s, 1) && s.tables == [{}, {k}] && s.names == [c.first]
    ensures s.queries == [SerialQ(c.first, 1), SerialQ(c.first, 1)] && s.handler == Idle && s.replies == []
    ensures Receptive(s) && s.router.begin.working == {k}
  {
    var s1 := FirstLoad(c, AnyTime, k);
    var s2 := Asked(c, AnyTime, s1, 1);
    s := Asked(c, AnyTime, s2, 1);
  }

  /** The swap is published, and the first of the two queries is answered. */
  lemma AnsweredOnce(c: Config, k: Key, k': Key) returns (s: State)
    requires c.version <= 1 && c.keepDiff < SERIAL_SPACE && !c.breakRTR && Sendable(k) && Sendable(k') && k != k'
    ensures Reaches(c, AnyTime, s, 1) && SwapOnItsWay(c, s, k, k', 2) && s.queries == [SerialQ(c.first, 1)]
  {
    var s1 := SwappedAfterAsking(c, k, k');
    SwapRecord(s1.tables, k, k');
    var s2 := Takes(c, AnyTime, s1, 1);
    var data;
    s, data := AnsweredFirst(c, AnyTime, s2, 1);
  }

  lemma SwappedAfterAsking(c: Config, k: Key, k': Key) returns (s: State)
    requires c.version <= 1 && c.keepDiff < SERIAL_SPACE && !c.breakRTR && Sendable(k) && Sendable(k')
    ensures Reaches(c, AnyTime, s, 1) && s.tables == [{}, {k}, {k'}] && s.names == [c.first, Successor(c.first)]
    ensures s.queries == [SerialQ(c.first, 1), SerialQ(c.first, 1)] && s.handler == Idle && s.replies == []
    ensures Receptive(s) && s.router.begin.working == {k}
  {
    var s1 := AskedTwice(c, k);
    OneVrp(k');
    s := Published(c, AnyTime, s1, 1, [VRP(k', FLAG_ADDED)], {k'});
  }

  /** The second answer withdraws a key that the first one has already removed, whatever the window. */
  lemma OvertakenWithdrawal(c: Config, k: Key, k': Key) returns (s: State)
    requires c.version <= 1 && c.keepDiff < SERIAL_SPACE && !c.breakRTR && Sendable(k) && Sendable(k') && k != k'
    ensures Reaches(c, AnyTime, s, 1) && s.router.view.connected && |s.replies| == 1 && s.replies[0].Incremental?
    ensures k in Withdrawn(s.replies[0].vrps) && k !in s.router.begin.working
  {
    var s1 := AnsweredOnce(c, k, k');
    SwapRecord(s1.tables, k, k');
    var s2 := Takes(c, AnyTime, s1, 1);
    var s3, data := AnsweredFirst(c, AnyTime, s2, 1);
    s := ReceivedWhole(c, AnyTime, s3, 1);
  }

  /** If the second key is withdrawn before the second query is answered, that answer is silent about it, and the
      router goes on showing it. */
  lemma OvertakenAnswer(c: Config, k: Key, k': Key) returns (s: State)
    requires c.version <= 1 && c.keepDiff < SERIAL_SPACE && c.keepDiff != 1 && !c.breakRTR
    requires Sendable(k) && Sendable(k') && k != k'
    ensures Reaches(c, AnyTime, s, 1) && Settled(c, s) && |s.names| == 3 && s.tables == [{}, {k}, {k'}, {}]
    ensures s.router.view.shown == {k'} && s.tables[s.router.dataAt] == {}
  {
    var s1 := AnsweredOnce(c, k, k');
    var s2 := ReceivedWhole(c, AnyTime, s1, 1);
    var s3 := SwapGone(c, AnyTime, s2, k, k');
    s := AnsweredLate(c, AnyTime, s3, k, k');
  }

  /** The swapped-in key has been withdrawn, and the router, which holds it, has a query about the first update on its
      way. */
  ghost predicate AskedLate(c: Config, s: State, k: Key, k': Key) {
    && s.tables == [{}, {k}, {k'}, {}] && |s.names| == 3
    && s.queries == [SerialQ(c.first, 1)] && s.handler == Idle && s.replies == []
    && Receptive(s) && s.router.begin.working == {k'}
  }

  lemma SwapGone(c: Config, d: Discipline, s: State, k: Key, k': Key) returns (s': State)
    requires Reaches(c, d, s, 1) && !d.Atomic? && s.tables == [{}, {k}, {k'}] && |s.names| == 2
    requires s.queries == [SerialQ(c.first, 1)] && s.handler == Idle && s.replies == []
    requires Receptive(s) && s.router.begin.working == {k'}
    ensures Reaches(c, d, s', 1) && AskedLate(c, s', k, k')
  {
    OneVrp(k);
    s' := Published(c, d, s, 1, [], {});
  }

  lemma AnsweredLate(c: Config, d: Discipline, s: State, k: Key, k': Key) returns (s': State)
    requires Reaches(c, d, s, 1) && AskedLate(c, s, k, k') && k != k' && !c.breakRTR
    requires c.keepDiff < SERIAL_SPACE && c.keepDiff != 1
    ensures Reaches(c, d, s', 1) && Settled(c, s') && |s'.names| == 3 && s'.tables == s.tables
    ensures s'.router.view.shown == {k'}
  {
    SwapGoneRecord(s.tables, k, k');
    var s1 := Takes(c, d, s, 1);
    var s2, data := AnsweredFirst(c, d, s1, 1);
    s' := ReceivedWhole(c, d, s2, 1);
  }

  // ---- A router that waits

  /** The router asks once, and the swap is published between the two reads of the handler. */
  lemma AnsweredAcross(c: Config, k: Key, k': Key) returns (s: State)
    requires c.version <= 1 && c.keepDiff < SERIAL_SPACE && !c.breakRTR && Sendable(k) && Sendable(k') && k != k'
    ensures Reaches(c, Waiting, s, 1) && SwapOnItsWay(c, s, k, k', 1) && s.queries == []
  {
    var s1 := FirstLoad(c, Waiting, k);
    var s2 := Asked(c, Waiting, s1, 1);
    var s3 := Takes(c, Waiting, s2, 1);
    OneVrp(k');
    var s4 := Published(c, Waiting, s3, 1, [VRP(k', FLAG_ADDED)], {k'});
    SwapRecord(s4.tables, k, k');
    var data;
    s, data := AnsweredFirst(c, Waiting, s4, 1);
  }

  /** The router then holds the new data under the old serial, so that its next query is about the first update again.
      If the second key is withdrawn in the meantime, the router goes on showing it. */
  lemma StaleThoughWaiting(c: Config, k: Key, k': Key) returns (s: State)
    requires c.version <= 1 && c.keepDiff < SERIAL_SPACE && c.keepDiff != 1 && !c.breakRTR
    requires Sendable(k) && Sendable(k') && k != k'
    ensures Reaches(c, Waiting, s, 1) && Settled(c, s) && |s.names| == 3 && s.tables == [{}, {k}, {k'}, {}]
    ensures s.router.view.shown == {k'} && s.tables[s.router.dataAt] == {}
  {
    var s1 := AnsweredAcross(c, k, k');
    var s2 := ReceivedWhole(c, Waiting, s1, 1);
    var s3 := Asked(c, Waiting, s2, 1);
    var s4 := SwapGone(c, Waiting, s3, k, k');
    s := AnsweredLate(c, Waiting, s4, k, k');
  }

  // ---- Atomic exchanges

  lemma FlapRecord(h: seq<Table>, k: Key)
    requires h == [{}, {k}, {}, {k}, {}]
    ensures Announces(h, 1) == {} && Withdraws(h, 1) == {}
  {
    assert h[2] == {} && h[3] == {k};
    assert CameBack(h, 1, k);
    LeftOrCameBack(h, 1, k);
  }

  /** The key leaves, comes back and leaves again while nothing is on its way. */
  lemma Flapped(c: Config, k: Key) returns (s: State)
    requires c.version <= 1 && c.keepDiff < SERIAL_SPACE && !c.breakRTR && Sendable(k)
    ensures Reaches(c, Atomic, s, 1) && s.tables == [{}, {k}, {}, {k}, {}] && |s.names| == 4
    ensures Silent(s) && s.handler == Idle && Receptive(s) && s.router.begin.working == {k}
    ensures s.router.heldAt == 1 && s.router.view.serial == c.first
  {
    var s1 := FirstLoad(c, Atomic, k);
    s := Flaps(c, s1, k);
  }

  lemma Flaps(c: Config, s: State, k: Key) returns (s': State)
    requires Reaches(c, Atomic, s, 1) && Silent(s) && Sendable(k)
    ensures Reaches(c, Atomic, s', 1) && s'.tables == s.tables + [{}, {k}, {}] && |s'.names| == |s.names| + 3
    ensures s' == s.(tables := s'.tables, names := s'.names) && s.names <= s'.names
  {
    OneVrp(k);
    var s1 := Published(c, Atomic, s, 1, [], {});
    var s2 := Published(c, Atomic, s1, 1, [VRP(k, FLAG_ADDED)], {k});
    s' := Published(c, Atomic, s2, 1, [], {});
  }

  /** Even then the next answer leaves it on the router, unless the window is one or two. */
  lemma StaleThoughAtomic(c: Config, k: Key) returns (s: State)
    requires c.version <= 1 && c.keepDiff < SERIAL_SPACE && c.keepDiff != 1 && c.keepDiff != 2 && !c.breakRTR
    requires Sendable(k)
    ensures Reaches(c, Atomic, s, 1) && Settled(c, s) && |s.names| == 4 && s.tables == [{}, {k}, {}, {k}, {}]
    ensures s.router.view.shown == {k} && s.tables[s.router.dataAt] == {}
  {
    var s1 := Flapped(c, k);
    FlapRecord(s1.tables, k);
    var s2 := Asked(c, Atomic, s1, 1);
    var s3 := Takes(c, Atomic, s2, 1);
    var s4, data := AnsweredFirst(c, Atomic, s3, 1);
    s := ReceivedWhole(c, Atomic, s4, 1);
  }

  // ---- Exactly when a router is always current

  /** In every run of the diff cache under `d` over at most this many connections, a router that has received data shows
      exactly its table. */
  ghost predicate AlwaysCurrent(breakRTR: bool, keepDiff: int, connections: nat, d: Discipline) {
    forall c, s, n: nat | Reaches(c, d, s, n) && c.breakRTR == breakRTR && c.keepDiff == keepDiff && n <= connections ::
      s.router.seen ==> s.router.dataAt < |s.tables| && s.router.view.shown == s.tables[s.router.dataAt]
  }

  /** A router that drops its connection after every table is always current iff it connects once. One that keeps its
      connection is always current, over any number of connections, iff the server keeps one diff, or two and
      exchanges are atomic; waiting for each answer does not help. */
  lemma CurrentExactlyWhen(breakRTR: bool, keepDiff: int, connections: nat, d: Discipline)
    requires keepDiff < SERIAL_SPACE && connections >= 1
    ensures AlwaysCurrent(breakRTR, keepDiff, connections, d) <==>
              if breakRTR then connections == 1 else keepDiff == 1 || (keepDiff == 2 && d.Atomic?)
  {
    if if breakRTR then connections == 1 else keepDiff == 1 || (keepDiff == 2 && d.Atomic?) {
      forall c, s, n: nat
        | Reaches(c, d, s, n) && c.breakRTR == breakRTR && c.keepDiff == keepDiff && n <= connections && s.router.seen
        ensures s.router.dataAt < |s.tables| && s.router.view.shown == s.tables[s.router.dataAt]
      {
        Current(c, d, s, n);
      }
    } else {
      var s, n := NotCurrent(Config(keepDiff, 0, 1, 0, Intervals(0, 0, 0), breakRTR), connections, d);
    }
  }

  lemma Current(c: Config, d: Discipline, s: State, n: nat)
    requires Reaches(c, d, s, n) && s.router.seen
    requires if c.breakRTR then n <= 1 else c.keepDiff == 1 || (c.keepDiff == 2 && d.Atomic?)
    ensures s.router.dataAt < |s.tables| && s.router.view.shown == s.tables[s.router.dataAt]
  {
    var states, actions :| Ends(c, d, states, actions, s, n);
    assert actions[..|actions|] == actions;
    if c.breakRTR || c.keepDiff == 1 {
      Overtaking.ExactUnderOverlap(c, states, actions, |actions|);
    } else {
      Lockstep.ExactInLockstep(c, states, actions, |actions|);
    }
  }

  lemma NotCurrent(c: Config, connections: nat, d: Discipline) returns (s: State, n: nat)
    requires c.version <= 1 && c.keepDiff < SERIAL_SPACE && connections >= 1
    requires !(if c.breakRTR then connections == 1 else c.keepDiff == 1 || (c.keepDiff == 2 && d.Atomic?))
    ensures Reaches(c, d, s, n) && n <= connections && s.router.seen
    ensures s.router.dataAt < |s.tables| && s.router.view.shown != s.tables[s.router.dataAt]
  {
    var k, k' := Key(IPNet([0, 0, 0, 0], CIDR(8)), 8, 0), Key(IPNet([0, 0, 0, 0], CIDR(8)), 8, 1);
    if c.breakRTR {
      n := 2;
      s := StaleAfterReconnect(c, d, k);
    } else {
      n := 1;
      match d
      case AnyTime => s := OvertakenAnswer(c, k, k');
      case Waiting => s := StaleThoughWaiting(c, k, k');
      case Atomic => s := StaleThoughAtomic(c, k);
    }
  }
}
