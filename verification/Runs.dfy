/** Runs of the protocol whose data comes from the diff cache, how far the exchanges in them may overlap, and the
    states they reach. */
module Runs {
  import opened Vrps
  import opened History
  import opened Serials
  import opened RtrServer
  import opened RtrClient
  import opened Replies
  import opened Protocol

  /** How far exchanges may overlap with each other and with updates. */
  datatype Discipline = AnyTime | Waiting | Atomic

  /** Nothing is on its way. */
  predicate Silent(s: State) {
    s.queries == [] && s.handler.Idle? && s.replies == []
  }

  /** A waiting router asks only when nothing is on its way; with atomic exchanges the server also publishes only
      then. */
  predicate Obeys(d: Discipline, s: State, a: Action) {
    match d
    case AnyTime => true
    case Waiting => a.Ask? ==> Silent(s)
    case Atomic => a.Ask? || a.Publish? ==> Silent(s)
  }

  ghost predicate Obeyed(d: Discipline, states: seq<State>, actions: seq<Action>)
    requires |states| == |actions| + 1
  {
    forall i | 0 <= i < |actions| :: Obeys(d, states[i], actions[i])
  }

  /** A run in which every second read returns what the diff cache holds. */
  ghost predicate IsCacheRun(c: Config, states: seq<State>, actions: seq<Action>) {
    && IsRun(c, states, actions)
    && forall i | 0 <= i < |actions| :: ReadsCache(c, states, actions, i)
  }

  ghost predicate ReadsCache(c: Config, states: seq<State>, actions: seq<Action>, i: nat)
    requires i < |actions| < |states|
  {
    actions[i].ReadData? ==>
      && states[i].handler.GotSerial?
      && InRange(ServerAt(c, actions, i).cache, states[i].handler.query)
      && actions[i].data == CacheData(ServerAt(c, actions, i).cache, states[i].handler.query)
  }

  function Connects(actions: seq<Action>): nat {
    if actions == [] then 0
    else Connects(actions[..|actions| - 1]) + (if actions[|actions| - 1].Connect? then 1 else 0)
  }

  // ---- Reachable states

  /** A run of the diff cache under `d` that opens `n` connections and ends in `s`. */
  ghost predicate Ends(c: Config, d: Discipline, states: seq<State>, actions: seq<Action>, s: State, n: nat) {
    IsCacheRun(c, states, actions) && Obeyed(d, states, actions) && Connects(actions) == n && states[|actions|] == s
  }

  ghost predicate Reaches(c: Config, d: Discipline, s: State, n: nat) {
    exists states, actions :: Ends(c, d, states, actions, s, n)
  }

  lemma Starts(c: Config, d: Discipline, s: State)
    requires Init(c, s)
    ensures Reaches(c, d, s, 0)
  {
    assert Ends(c, d, [s], [], s, 0);
  }

  lemma Extend(c: Config, d: Discipline, states: seq<State>, actions: seq<Action>, s: State, n: nat, a: Action,
               s': State)
    requires Ends(c, d, states, actions, s, n) && Step(c, s, a, s') && Obeys(d, s, a)
    requires ReadsCache(c, states + [s'], actions + [a], |actions|)
    ensures Reaches(c, d, s', if a.Connect? then n + 1 else n)
  {
    var states', actions' := states + [s'], actions + [a];
    forall i | 0 <= i < |actions'|
      ensures StepAt(c, states', actions', i) && Obeys(d, states'[i], actions'[i])
      ensures ReadsCache(c, states', actions', i)
    {
      if i < |actions| {
        assert StepAt(c, states, actions, i) && Obeys(d, states[i], actions[i]);
        assert ReadsCache(c, states, actions, i);
        assert actions'[..i] == actions[..i];
      }
    }
    assert actions'[..|actions|] == actions;
    assert Ends(c, d, states', actions', s', if a.Connect? then n + 1 else n);
  }

  lemma Goes(c: Config, d: Discipline, s: State, n: nat, a: Action, s': State)
    requires Reaches(c, d, s, n) && Step(c, s, a, s') && Obeys(d, s, a) && !a.ReadData?
    ensures Reaches(c, d, s', if a.Connect? then n + 1 else n)
  {
    var states, actions :| Ends(c, d, states, actions, s, n);
    Extend(c, d, states, actions, s, n, a, s');
  }

  lemma ReachedInv(c: Config, d: Discipline, s: State, n: nat)
    requires Reaches(c, d, s, n)
    ensures Inv(c, s)
  {
    var states, actions :| Ends(c, d, states, actions, s, n);
    RunInv(c, states, actions, |actions|);
  }

  // ---- Whole exchanges

  /** The second read of a handler returns what the cache holds. */
  lemma Reads(c: Config, d: Discipline, s: State, n: nat) returns (s': State, data: seq<VRP>)
    requires Reaches(c, d, s, n) && s.handler.GotSerial?
    requires s.handler.query.SerialQ? ==> |s.names| < s.handler.query.since + SERIAL_SPACE
    ensures Reaches(c, d, s', n) && ReadDataStep(c, s, s', data)
  {
    var states, actions :| Ends(c, d, states, actions, s, n);
    CacheImplementsReads(c, states, actions, |actions|);
    data := CacheData(ServerAt(c, actions, |actions|).cache, s.handler.query);
    s' :| ReadDataStep(c, s, s', data);
    assert (actions + [ReadData(data)])[..|actions|] == actions == actions[..|actions|];
    Extend(c, d, states, actions, s, n, ReadData(data), s');
  }

  /** The handler takes the first query and reads the serial. */
  lemma Takes(c: Config, d: Discipline, s: State, n: nat) returns (s': State)
    requires Reaches(c, d, s, n) && s.handler == Idle && s.queries != [] && s.names != []
    ensures Reaches(c, d, s', n)
    ensures var m := |s.names|;
            s' == s.(queries := s.queries[1..], handler := GotSerial(s.queries[0], s.names[m - 1], m))
  {
    var m := |s.names|;
    s' := s.(queries := s.queries[1..], handler := GotSerial(s.queries[0], s.names[m - 1], m));
    Goes(c, d, s, n, ReadSerial, s');
  }

  /** The state after `m` messages of the first reply. */
  function Partly(c: Config, s: State, m: nat): State
    requires s.replies != [] && m <= |Delivered(c, s.replies[0])|
  {
    var v := ReceiveAll(s.router.begin, Delivered(c, s.replies[0])[..m], c.breakRTR);
    s.(router := s.router.(view := v, received := m))
  }

  lemma {:induction false} ReceivedPartly(c: Config, d: Discipline, s: State, n: nat, m: nat)
    requires Reaches(c, d, s, n) && s.router.view.connected && s.router.received == 0
    requires s.replies != [] && HasData(s.replies[0]) && m < |Delivered(c, s.replies[0])|
    ensures Reaches(c, d, Partly(c, s, m), n) && Partly(c, s, m).router.view.connected
  {
    ReachedInv(c, d, s, n);
    if m == 0 {
      assert Delivered(c, s.replies[0])[..0] == [];
      assert Partly(c, s, 0) == s;
    } else {
      ReceivedPartly(c, d, s, n, m - 1);
      var s1 := Partly(c, s, m - 1);
      ReceiveOneMore(c, s.router.begin, Delivered(c, s.replies[0]), m - 1);
      assert DeliverStep(c, s1, Partly(c, s, m));
      Goes(c, d, s1, n, Deliver, Partly(c, s, m));
      ReachedInv(c, d, Partly(c, s, m), n);
    }
  }

  /** The router receives the whole first reply. */
  lemma ReceivedWhole(c: Config, d: Discipline, s: State, n: nat) returns (s': State)
    requires Reaches(c, d, s, n) && s.router.view.connected && s.router.received == 0
    requires s.replies != [] && HasData(s.replies[0])
    ensures Reaches(c, d, s', n) && s'.router.view.connected == !c.breakRTR
    ensures s' == s.(replies := s.replies[1..], router := Completed(s.router, s'.router.view, s.replies[0]))
    ensures var r, v := s.replies[0], s'.router.view;
            && v.working == v.shown == Patch(s.router.begin.working, Announced(r.vrps), Withdrawn(r.vrps))
            && v.serial == r.serial
  {
    ReachedInv(c, d, s, n);
    var r := s.replies[0];
    assert ReplyInv(s, r);
    DeliveredView(c, r, s.router.begin);
    var ps := Delivered(c, r);
    var m := |ps| - 1;
    ReceivedPartly(c, d, s, n, m);
    var s1 := Partly(c, s, m);
    var v := ReceiveAll(s.router.begin, ps, c.breakRTR);
    s' := s.(replies := s.replies[1..], router := Completed(s.router, v, r));
    ReceiveOneMore(c, s.router.begin, ps, m);
    assert ps[..m + 1] == ps;
    assert DeliverStep(c, s1, s');
    Goes(c, d, s1, n, Deliver, s');
  }

  lemma Published(c: Config, d: Discipline, s: State, n: nat, list: seq<VRP>, t: Table) returns (s': State)
    requires Reaches(c, d, s, n) && AllKeysSendable(list) && Keys(list) == t && (d.Atomic? ==> Silent(s))
    ensures Reaches(c, d, s', n)
    ensures s' == s.(tables := s.tables + [t], names := s.names + [NameAfter(c.first, s.names)])
  {
    s' := s.(tables := s.tables + [Keys(list)], names := s.names + [NameAfter(c.first, s.names)]);
    Goes(c, d, s, n, Publish(list), s');
  }

  /** The router's timer goes off. */
  lemma Asked(c: Config, d: Discipline, s: State, n: nat) returns (s': State)
    requires Reaches(c, d, s, n) && !c.breakRTR && s.router.view.connected && s.router.heldAt >= 1
    requires d.AnyTime? || Silent(s)
    ensures Reaches(c, d, s', n)
    ensures s' == s.(queries := s.queries + [SerialQ(s.router.view.serial, s.router.heldAt)])
  {
    s' := s.(queries := s.queries + [SerialQ(s.router.view.serial, s.router.heldAt)]);
    Goes(c, d, s, n, Ask, s');
  }

  /** Nothing is on its way, and the router has received the current table over this connection. */
  ghost predicate Settled(c: Config, s: State) {
    && s.names != [] && Silent(s)
    && s.router.received == 0 && s.router.begin == s.router.view && s.router.view.connected == !c.breakRTR
    && s.router.seen && s.router.heldAt == s.router.dataAt == |s.names|
    && s.router.view.serial == s.names[|s.names| - 1]
  }

  /** A router without a connection opens one and loads the current table. */
  lemma Loaded(c: Config, d: Discipline, s: State, n: nat) returns (s': State)
    requires Reaches(c, d, s, n) && s.names != [] && |s.tables| == |s.names| + 1 && !s.router.view.connected
    ensures Reaches(c, d, s', n + 1) && Settled(c, s') && s'.tables == s.tables && s'.names == s.names
    ensures s'.router.view.working == s'.router.view.shown == s.router.view.working + Last(s.tables)
  {
    var v := s.router.view.(connected := true);
    var s1 := s.(queries := [ResetQ], handler := Idle, replies := [],
                 router := s.router.(view := v, begin := v, received := 0, synced := false));
    Goes(c, d, s, n, Connect, s1);
    var s2 := Takes(c, d, s1, n + 1);
    var s3, data := Reads(c, d, s2, n + 1);
    UniformSets(data);
    s' := ReceivedWhole(c, d, s3, n + 1);
  }

  /** The handler reads the data for a query about the first update while that is still retained. */
  lemma AnsweredFirst(c: Config, d: Discipline, s: State, n: nat) returns (s': State, data: seq<VRP>)
    requires Reaches(c, d, s, n) && s.handler.GotSerial? && s.handler.query == SerialQ(c.first, 1)
    requires 1 <= |s.names| == Window(|s.names|, c.keepDiff) < SERIAL_SPACE && |s.tables| == |s.names| + 1
    ensures Reaches(c, d, s', n) && Records(data, s.tables, 1)
    ensures var h := s.handler;
            s' == s.(handler := Idle, replies := s.replies + [Incremental(1, h.serialAt, |s.names|, h.serial, data)])
  {
    ReachedInv(c, d, s, n);
    RetainedIsServed(s.names, c.keepDiff, 1);
    s', data := Reads(c, d, s, n);
    var b :| ServedStep(c, s, s', data, b);
    ServesOwnUpdate(s.names, c.keepDiff, 1, b);
  }
}
