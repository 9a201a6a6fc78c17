/** One router and one server exchanging queries and replies over a connection while the server keeps publishing
    tables. The handlers read the serial and the data under two separate locks (lib/server.go), queries may be
    sent before earlier ones are answered, replies arrive message by message, and the router opens a new connection
    whenever it has dropped the last one. */
module Protocol {
  import opened Basics
  import opened Vrps
  import opened Diffs
  import opened History
  import opened Serials
  import opened Pdus
  import opened RtrClient
  import opened Replies
  import opened RtrServer

  /** The server's window, first serial, version, session and intervals, and whether the router drops its connection
      after every table. */
  datatype Config = Config(keepDiff: int, first: u32, version: u8, session: u16, intervals: Intervals, breakRTR: bool)

  /** A query on its way to the server. `since` is the update whose serial the query carries. */
  datatype Query = ResetQ | SerialQ(serial: u32, since: nat)

  /** A reply on its way to the router. `serialAt` is the update current when the serial was read, `dataAt` the one
      current when the data was read, `since` the update an incremental reply starts from. */
  datatype Reply =
    | Full(serialAt: nat, dataAt: nat, serial: u32, vrps: seq<VRP>)
    | Incremental(since: nat, serialAt: nat, dataAt: nat, serial: u32, vrps: seq<VRP>)
    | Reset
    | NoData

  /** The handler of this connection, possibly between its two reads. */
  datatype Handler = Idle | GotSerial(query: Query, serial: u32, serialAt: nat)

  /** The router. `heldAt` is the update whose serial it holds (zero if none), `dataAt` the update whose data it
      last received in full, `begin` its view when the reply it is receiving began, `received` how many messages of
      that reply have arrived, `synced` whether it has had a whole table over this connection, and `seen` whether
      it ever had one. */
  datatype Router = Router(view: View, begin: View, received: nat, heldAt: nat, dataAt: nat, synced: bool, seen: bool)

  /** `tables[i]` is the table of update `i`, published under `names[i - 1]`; `tables[0]` is empty. */
  datatype State = State(tables: seq<Table>, names: seq<u32>, queries: seq<Query>, handler: Handler,
                         replies: seq<Reply>, router: Router)

  datatype Action =
    | Publish(list: seq<VRP>)
    | Connect
    | Ask
    | Drop(i: nat)
    | ReadSerial
    | ReadData(data: seq<VRP>)
    | Notify(number: u32)
    | Deliver

  function Sent(c: Config, r: Reply): seq<PDU> {
    match r
    case Full(_, _, serial, vrps) => ReplyPdus(c.version, c.session, serial, c.intervals, vrps)
    case Incremental(_, _, _, serial, vrps) => ReplyPdus(c.version, c.session, serial, c.intervals, vrps)
    case Reset => [CacheReset(c.version)]
    case NoData => [NoDataError(c.version)]
  }

  /** The intervals that survive the wire. */
  function SeenIntervals(c: Config): Intervals {
    if c.version == 0 then Intervals(0, 0, 0) else c.intervals
  }

  /** The messages of a reply as the router decodes them from the bytes of the connection. */
  function Delivered(c: Config, r: Reply): seq<PDU> {
    match r
    case Full(_, _, serial, vrps) => ReplyPdus(c.version, c.session, serial, SeenIntervals(c), vrps)
    case Incremental(_, _, _, serial, vrps) => ReplyPdus(c.version, c.session, serial, SeenIntervals(c), vrps)
    case Reset => [CacheReset(c.version)]
    case NoData => [Received(NoDataError(c.version))]
  }

  /** Decoding the bytes of a reply, message by message, yields exactly the delivered messages. */
  lemma WireDelivers(c: Config, r: Reply)
    requires c.version <= 1 && (HasData(r) ==> AllKeysSendable(r.vrps))
    ensures ParseAll(EncodeAll(Sent(c, r))) == (Delivered(c, r), true)
  {
    if HasData(r) {
      ReplyOnTheWire(c.version, c.session, r.serial, c.intervals, r.vrps);
    } else {
      var p := Sent(c, r)[0];
      EncodeFramed(p);
      StreamRoundTrip([p]);
      assert ReceivedAll([p]) == [Received(p)];
    }
  }

  ghost predicate Init(c: Config, s: State) {
    && c.version <= 1 && c.keepDiff < SERIAL_SPACE
    && s.tables == [{}] && s.names == [] && s.queries == [] && s.handler == Idle && s.replies == []
    && var v := View({}, {}, 0, 0, 0, 0, 0, false);
       // A fresh router holds serial 0, which is this server's first serial unless it was set otherwise.
       var held := if c.first == 0 then 1 else 0;
       s.router == Router(v, v, 0, held, held, false, false)
  }

  /** The server publishes a list. */
  ghost predicate PublishStep(c: Config, s: State, s': State, list: seq<VRP>) {
    && AllKeysSendable(list)
    && s' == s.(tables := s.tables + [Keys(list)], names := s.names + [NameAfter(c.first, s.names)])
  }

  /** A router without a connection opens one and sends a Reset Query; its maps and serial survive. It has no connection
      at first, after an error and, if so configured, after every table; on a connection that fails it gives up. */
  ghost predicate ConnectStep(s: State, s': State) {
    && !s.router.view.connected
    && var v := s.router.view.(connected := true);
       s' == s.(queries := [ResetQ], handler := Idle, replies := [],
                router := s.router.(view := v, begin := v, received := 0, synced := false))
  }

  /** The router's refresh timer, which a router that drops its connections does not have, sends a Serial Query for the
      serial it holds, whatever is still unanswered. */
  ghost predicate AskStep(c: Config, s: State, s': State) {
    && !c.breakRTR && s.router.view.connected && s.router.heldAt >= 1
    && s' == s.(queries := s.queries + [SerialQ(s.router.view.serial, s.router.heldAt)])
  }

  /** The server decodes only the first message of each read, so a query that arrives together with an earlier one is
      lost. */
  ghost predicate DropStep(s: State, s': State, i: nat) {
    && 1 <= i < |s.queries|
    && s' == s.(queries := s.queries[..i] + s.queries[i + 1..])
  }

  /** The handler takes the next query and reads the current serial. */
  ghost predicate ReadSerialStep(s: State, s': State) {
    && s.handler == Idle && s.queries != []
    && s' == if s.names == [] then s.(queries := s.queries[1..], replies := s.replies + [NoData])
             else s.(queries := s.queries[1..],
                     handler := GotSerial(s.queries[0], s.names[|s.names| - 1], |s.names|))
  }

  /** The handler reads the data, perhaps some updates later, and sends the reply. A Serial Query is assumed to be
      answered before its serial is 2^32 updates old. */
  ghost predicate ReadDataStep(c: Config, s: State, s': State, data: seq<VRP>) {
    && s.handler.GotSerial? && |s.tables| == |s.names| + 1
    && var h := s.handler;
       match h.query
       case ResetQ =>
         && AllAnnounced(data) && Keys(data) == Last(s.tables)
         && s' == s.(handler := Idle, replies := s.replies + [Full(h.serialAt, |s.names|, h.serial, data)])
       case SerialQ(serial, since) =>
         && |s.names| < since + SERIAL_SPACE
         && if IsServed(s.names, c.keepDiff, serial) then
              exists b :: ServedStep(c, s, s', data, b)
            else s' == s.(handler := Idle, replies := s.replies + [Reset])
  }

  /** The answer to a Serial Query with the record since update `b`. */
  ghost predicate ServedStep(c: Config, s: State, s': State, data: seq<VRP>, b: nat)
    requires s.handler.GotSerial? && s.handler.query.SerialQ? && |s.tables| == |s.names| + 1
  {
    var h := s.handler;
    && Serves(s.names, c.keepDiff, h.query.serial, b) && Records(data, s.tables, b)
    && s' == s.(handler := Idle, replies := s.replies + [Incremental(b, h.serialAt, |s.names|, h.serial, data)])
  }

  /** A Serial Notify may arrive at any time, also in the middle of a reply. */
  ghost predicate NotifyStep(c: Config, s: State, s': State, number: u32) {
    var p := SerialNotify(c.version, c.session, number);
    s' == s.(router := s.router.(view := Receive(s.router.view, p, c.breakRTR)))
  }

  /** The router receives the next message of the reply at the front. */
  ghost predicate DeliverStep(c: Config, s: State, s': State) {
    && s.router.view.connected && s.replies != []
    && var ps, n := Delivered(c, s.replies[0]), s.router.received;
       && n < |ps|
       && var v := Receive(s.router.view, ps[n], c.breakRTR);
          s' == if n + 1 < |ps| then s.(router := s.router.(view := v, received := n + 1))
                else s.(replies := s.replies[1..], router := Completed(s.router, v, s.replies[0]))
  }

  /** The router after the last message of a reply. */
  function Completed(r: Router, v: View, reply: Reply): Router {
    match reply
    case Full(i, j, _, _) => Router(v, v, 0, i, j, true, true)
    case Incremental(_, i, j, _, _) => Router(v, v, 0, i, j, true, true)
    case _ => r.(view := v, begin := v, received := 0)
  }

  ghost predicate Step(c: Config, s: State, a: Action, s': State) {
    match a
    case Publish(list) => PublishStep(c, s, s', list)
    case Connect => ConnectStep(s, s')
    case Ask => AskStep(c, s, s')
    case Drop(i) => DropStep(s, s', i)
    case ReadSerial => ReadSerialStep(s, s')
    case ReadData(data) => ReadDataStep(c, s, s', data)
    case Notify(number) => NotifyStep(c, s, s', number)
    case Deliver => DeliverStep(c, s, s')
  }

  /** A run of the system: states joined by steps, from an initial state. */
  ghost predicate IsRun(c: Config, states: seq<State>, actions: seq<Action>) {
    && |states| == |actions| + 1
    && Init(c, states[0])
    && forall i | 0 <= i < |actions| :: StepAt(c, states, actions, i)
  }

  ghost predicate StepAt(c: Config, states: seq<State>, actions: seq<Action>, i: nat)
    requires i < |actions| < |states|
  {
    Step(c, states[i], actions[i], states[i + 1])
  }

  // ---- The invariant

  /** The server's side: one table per serial, consecutive serials, and only keys that can be sent. */
  ghost predicate ServerInv(c: Config, s: State) {
    && c.version <= 1
    && |s.tables| == |s.names| + 1
    && Consecutive(s.names) && (s.names != [] ==> s.names[0] == c.first)
    && forall i, k | 0 <= i < |s.tables| && k in s.tables[i] :: Sendable(k)
  }

  /** Serial `serial` is the one update `at` was, or will be, published under. */
  ghost predicate Names(c: Config, names: seq<u32>, serial: u32, at: nat) {
    at >= 1 && if at <= |names| then names[at - 1] == serial else at == 1 && serial == c.first
  }

  /** A query carries the serial of an update no later than the router's data. */
  ghost predicate QueryInv(c: Config, s: State, q: Query) {
    q.SerialQ? ==> Names(c, s.names, q.serial, q.since) && q.since <= s.router.dataAt
  }

  /** A reply carries exactly the data of update `dataAt`, read no earlier than its serial. */
  ghost predicate ReplyData(s: State, serialAt: nat, dataAt: nat, serial: u32, vrps: seq<VRP>) {
    && 1 <= serialAt <= dataAt <= |s.names| < |s.tables|
    && s.names[serialAt - 1] == serial
    && Coherent(vrps) && AllKeysSendable(vrps)
  }

  ghost predicate ReplyInv(s: State, r: Reply) {
    match r
    case Full(i, j, serial, vrps) =>
      ReplyData(s, i, j, serial, vrps) && Announced(vrps) == s.tables[j] && Withdrawn(vrps) == {}
    case Incremental(b, i, j, serial, vrps) =>
      && ReplyData(s, i, j, serial, vrps) && 1 <= b <= s.router.dataAt && b <= j
      && Records(vrps, s.tables[..j + 1], b)
    case _ => true
  }

  /** No reply in flight carries older data than the router has or than an earlier reply carries. */
  ghost predicate InOrder(s: State) {
    && (forall i | 0 <= i < |s.replies| && HasData(s.replies[i]) :: s.router.dataAt <= s.replies[i].dataAt)
    && (forall i, j | 0 <= i < j < |s.replies| && HasData(s.replies[i]) && HasData(s.replies[j]) ::
          s.replies[i].dataAt <= s.replies[j].dataAt)
  }

  predicate HasData(r: Reply) {
    r.Full? || r.Incremental?
  }

  /** The router is part way through the first reply. */
  ghost predicate ReceivingInv(c: Config, s: State) {
    var r := s.router;
    && (s.replies == [] ==> r.received == 0)
    && (s.replies != [] ==> r.received < |Delivered(c, s.replies[0])|)
    && r.view == (if s.replies == [] then r.begin
                  else ReceiveAll(r.begin, Delivered(c, s.replies[0])[..r.received], c.breakRTR))
    // Only the last message of a reply touches these.
    && r.view.serial == r.begin.serial && r.view.shown == r.begin.shown && r.view.connected == r.begin.connected
  }

  /** Until the router has had a whole table over this connection, the next thing it gets is one, or an error. */
  ghost predicate AwaitsTable(s: State) {
    if s.replies != [] then s.replies[0].Full? || s.replies[0].NoData?
    else if s.handler.GotSerial? then s.handler.query.ResetQ?
    else s.queries != [] && s.queries[0].ResetQ?
  }

  /** The router holds the serial of an update no later than its data, and its tables include that data. */
  ghost predicate RouterInv(c: Config, s: State) {
    var r := s.router;
    && r.heldAt <= r.dataAt
    && (r.heldAt >= 1 ==> Names(c, s.names, r.begin.serial, r.heldAt))
    && (r.seen ==> 1 <= r.heldAt && r.dataAt <= |s.names| < |s.tables| && s.tables[r.dataAt] <= r.begin.shown)
    && (!r.seen ==> r.dataAt <= 1)
    && (r.synced ==> r.seen && s.tables[r.dataAt] <= r.begin.working)
    && (r.view.connected && !r.synced ==> AwaitsTable(s))
  }

  ghost predicate Inv(c: Config, s: State) {
    && ServerInv(c, s)
    && RouterInv(c, s)
    && ReceivingInv(c, s)
    && InOrder(s)
    && InFlightInv(c, s)
  }

  /** Every query, the query being handled, and every reply in flight is right. */
  ghost predicate InFlightInv(c: Config, s: State) {
    && (forall i | 0 <= i < |s.queries| :: QueryInv(c, s, s.queries[i]))
    && (forall i | 0 <= i < |s.replies| :: ReplyInv(s, s.replies[i]))
    && (s.handler.GotSerial? ==>
          && 1 <= s.handler.serialAt <= |s.names| && s.handler.serial == s.names[s.handler.serialAt - 1]
          && QueryInv(c, s, s.handler.query))
  }

  lemma InitInv(c: Config, s: State)
    requires Init(c, s)
    ensures Inv(c, s)
  {
  }

  /** Replies and queries in flight stay right when the server publishes or the router gets newer data. */
  lemma InFlightStays(c: Config, s: State, s': State)
    requires ServerInv(c, s) && ServerInv(c, s') && InFlightInv(c, s)
    requires s.tables <= s'.tables && s.names <= s'.names && s.router.dataAt <= s'.router.dataAt
    requires s'.queries == s.queries && s'.handler == s.handler
    requires s'.replies == s.replies || (s.replies != [] && s'.replies == s.replies[1..])
    ensures InFlightInv(c, s')
  {
    var skip := |s.replies| - |s'.replies|;
    forall i | 0 <= i < |s'.replies| ensures ReplyInv(s', s'.replies[i]) {
      ReplyStays(s, s', s.replies[i + skip]);
    }
    forall i | 0 <= i < |s'.queries| ensures QueryInv(c, s', s'.queries[i]) {
      assert QueryInv(c, s, s.queries[i]);
    }
  }

  lemma ReplyStays(s: State, s': State, r: Reply)
    requires ReplyInv(s, r) && |s'.tables| == |s'.names| + 1
    requires s.tables <= s'.tables && s.names <= s'.names && s.router.dataAt <= s'.router.dataAt
    ensures ReplyInv(s', r)
  {
    if HasData(r) {
      assert s'.tables[..r.dataAt + 1] == s.tables[..r.dataAt + 1];
    }
  }

  lemma PublishInv(c: Config, s: State, s': State, list: seq<VRP>)
    requires Inv(c, s) && PublishStep(c, s, s', list)
    ensures Inv(c, s')
  {
    PublishServer(c, s, s', list);
    PublishRouter(c, s, s');
    InFlightStays(c, s, s');
  }

  lemma PublishServer(c: Config, s: State, s': State, list: seq<VRP>)
    requires ServerInv(c, s) && PublishStep(c, s, s', list)
    ensures ServerInv(c, s')
  {
    forall i, k | 0 <= i < |s'.tables| && k in s'.tables[i] ensures Sendable(k) {
      assert i < |s.tables| ==> s'.tables[i] == s.tables[i];
    }
  }

  lemma PublishRouter(c: Config, s: State, s': State)
    requires RouterInv(c, s) && ServerInv(c, s) && ServerInv(c, s')
    requires s'.router == s.router && s'.replies == s.replies && s'.handler == s.handler && s'.queries == s.queries
    requires s.tables <= s'.tables && s.names <= s'.names
    ensures RouterInv(c, s')
  {
  }

  lemma ConnectInv(c: Config, s: State, s': State)
    requires Inv(c, s) && ConnectStep(s, s')
    ensures Inv(c, s')
  {
  }

  lemma AskInv(c: Config, s: State, s': State)
    requires Inv(c, s) && AskStep(c, s, s')
    ensures Inv(c, s')
  {
    forall i | 0 <= i < |s'.queries| ensures QueryInv(c, s', s'.queries[i]) {
      assert i < |s.queries| ==> QueryInv(c, s, s.queries[i]);
    }
    forall i | 0 <= i < |s'.replies| ensures ReplyInv(s', s'.replies[i]) {
      assert ReplyInv(s, s.replies[i]);
    }
  }

  lemma DropInv(c: Config, s: State, s': State, n: nat)
    requires Inv(c, s) && DropStep(s, s', n)
    ensures Inv(c, s')
  {
    forall i | 0 <= i < |s'.queries| ensures QueryInv(c, s', s'.queries[i]) {
      assert QueryInv(c, s, s.queries[if i < n then i else i + 1]);
    }
    forall i | 0 <= i < |s'.replies| ensures ReplyInv(s', s'.replies[i]) {
      assert ReplyInv(s, s.replies[i]);
    }
  }

  lemma ReadSerialInv(c: Config, s: State, s': State)
    requires Inv(c, s) && ReadSerialStep(s, s')
    ensures Inv(c, s')
  {
    assert QueryInv(c, s, s.queries[0]);
    if s.names == [] {
      var s1 := s.(queries := s.queries[1..]);
      var r := s'.replies[|s'.replies| - 1];
      assert r == NoData && s' == s1.(handler := Idle, replies := s1.replies + [r]);
      SentReceiving(c, s1, s', r);
      SentReplies(s1, s', r);
      SentInOrder(s1, s', r);
      NoDataRouter(c, s, s');
      PoppedQueries(c, s, s');
    } else {
      PoppedQueries(c, s, s');
      SerialRead(c, s, s');
    }
  }

  lemma PoppedQueries(c: Config, s: State, s': State)
    requires s.queries != [] && s'.queries == s.queries[1..] && s'.names == s.names && s'.router == s.router
    requires forall i | 0 <= i < |s.queries| :: QueryInv(c, s, s.queries[i])
    ensures forall i | 0 <= i < |s'.queries| :: QueryInv(c, s', s'.queries[i])
  {
    forall i | 0 <= i < |s'.queries| ensures QueryInv(c, s', s'.queries[i]) {
      assert QueryInv(c, s, s.queries[i + 1]);
    }
  }

  lemma NoDataRouter(c: Config, s: State, s': State)
    requires RouterInv(c, s) && s'.router == s.router && s'.tables == s.tables && s'.names == s.names
    requires s'.replies == s.replies + [NoData]
    ensures RouterInv(c, s')
  {
    assert s.replies != [] ==> s'.replies[0] == s.replies[0];
  }

  lemma SerialRead(c: Config, s: State, s': State)
    requires Inv(c, s) && ReadSerialStep(s, s') && s.names != []
    requires forall i | 0 <= i < |s'.queries| :: QueryInv(c, s', s'.queries[i])
    ensures Inv(c, s')
  {
    assert QueryInv(c, s, s.queries[0]);
    forall i | 0 <= i < |s'.replies| ensures ReplyInv(s', s'.replies[i]) {
      assert ReplyInv(s, s.replies[i]);
    }
  }

  // ---- Replies as delivered

  /** What a whole data reply does to a router. */
  lemma DeliveredView(c: Config, r: Reply, v: View)
    requires c.version <= 1 && HasData(r) && Coherent(r.vrps) && AllKeysSendable(r.vrps)
    ensures var v' := ReceiveAll(v, Delivered(c, r), c.breakRTR);
            && v'.working == v'.shown == Patch(v.working, Announced(r.vrps), Withdrawn(r.vrps))
            && v'.serial == r.serial && v'.connected == (v.connected && !c.breakRTR)
  {
    ReceiveReply(v, c.version, c.session, r.serial, SeenIntervals(c), r.vrps, c.breakRTR);
  }

  /** Every key recorded about tables of sendable keys can be sent. */
  lemma RecordsSendable(data: seq<VRP>, h: seq<Table>, b: nat)
    requires b < |h| && Records(data, h, b)
    requires forall i, k | 0 <= i < |h| && k in h[i] :: Sendable(k)
    ensures AllKeysSendable(data)
  {
    RecordsWellFormed(h, b);
    CoherentKeys(data);
    forall v | v in data ensures Sendable(v.key) {
      assert v.key in Keys(data);
    }
  }

  lemma SentReceiving(c: Config, s: State, s': State, r: Reply)
    requires ReceivingInv(c, s) && Delivered(c, r) != []
    requires s' == s.(handler := Idle, replies := s.replies + [r])
    ensures ReceivingInv(c, s')
  {
    if s.replies != [] {
      assert s'.replies[0] == s.replies[0];
    } else {
      assert Delivered(c, r)[..0] == [];
    }
  }

  lemma SentInOrder(s: State, s': State, r: Reply)
    requires InOrder(s) && (HasData(r) ==> r.dataAt == |s.names| && s.router.dataAt <= |s.names|)
    requires forall i | 0 <= i < |s.replies| && HasData(s.replies[i]) :: s.replies[i].dataAt <= |s.names|
    requires s' == s.(handler := Idle, replies := s.replies + [r])
    ensures InOrder(s')
  {
  }

  lemma SentReplies(s: State, s': State, r: Reply)
    requires ReplyInv(s, r) && forall i | 0 <= i < |s.replies| :: ReplyInv(s, s.replies[i])
    requires s' == s.(handler := Idle, replies := s.replies + [r])
    ensures forall i | 0 <= i < |s'.replies| :: ReplyInv(s', s'.replies[i])
    ensures forall i | 0 <= i < |s.replies| && HasData(s.replies[i]) :: s.replies[i].dataAt <= |s.names|
  {
    forall i | 0 <= i < |s'.replies| ensures ReplyInv(s', s'.replies[i]) {
      assert i < |s.replies| ==> ReplyInv(s, s.replies[i]);
    }
    assert forall i | 0 <= i < |s.replies| :: ReplyInv(s, s.replies[i]);
  }

  lemma SentRouter(c: Config, s: State, s': State, r: Reply)
    requires RouterInv(c, s) && s' == s.(handler := Idle, replies := s.replies + [r])
    requires s.replies == [] && s.router.view.connected && !s.router.synced ==> r.Full?
    ensures RouterInv(c, s')
  {
    assert s.replies != [] ==> s'.replies[0] == s.replies[0];
  }

  /** Sending one more reply with the newest data keeps the replies in flight right and in order. */
  lemma ReplySent(c: Config, s: State, s': State, r: Reply)
    requires Inv(c, s) && s.handler.GotSerial? && ReplyInv(s, r) && (HasData(r) ==> r.dataAt == |s.names|)
    requires s' == s.(handler := Idle, replies := s.replies + [r])
    requires s.replies == [] && s.router.view.connected && !s.router.synced ==> r.Full?
    ensures Inv(c, s')
  {
    SentReceiving(c, s, s', r);
    SentReplies(s, s', r);
    SentInOrder(s, s', r);
    SentRouter(c, s, s', r);
    assert forall i | 0 <= i < |s.queries| :: QueryInv(c, s, s.queries[i]) ==> QueryInv(c, s', s'.queries[i]);
  }

  lemma TableReply(c: Config, s: State, data: seq<VRP>)
    requires ServerInv(c, s) && s.handler.GotSerial? && 1 <= s.handler.serialAt <= |s.names|
    requires s.handler.serial == s.names[s.handler.serialAt - 1]
    requires AllAnnounced(data) && Keys(data) == Last(s.tables)
    ensures ReplyInv(s, Full(s.handler.serialAt, |s.names|, s.handler.serial, data))
  {
    AnnouncedOnly(data);
    forall v | v in data ensures Sendable(v.key) {
      assert v.key in Keys(data) && v.key in s.tables[|s.names|];
    }
  }

  lemma RecordReply(c: Config, s: State, data: seq<VRP>, b: nat)
    requires ServerInv(c, s) && s.handler.GotSerial? && 1 <= s.handler.serialAt <= |s.names|
    requires s.handler.serial == s.names[s.handler.serialAt - 1]
    requires 1 <= b <= |s.names| && b <= s.router.dataAt && Records(data, s.tables, b)
    ensures ReplyInv(s, Incremental(b, s.handler.serialAt, |s.names|, s.handler.serial, data))
  {
    RecordsSendable(data, s.tables, b);
    assert s.tables[..|s.names| + 1] == s.tables;
  }

  lemma ReadDataInv(c: Config, s: State, s': State, data: seq<VRP>)
    requires Inv(c, s) && ReadDataStep(c, s, s', data)
    ensures Inv(c, s')
  {
    var h, m := s.handler, |s.names|;
    if h.query.ResetQ? {
      TableReply(c, s, data);
      ReplySent(c, s, s', Full(h.serialAt, m, h.serial, data));
    } else if IsServed(s.names, c.keepDiff, h.query.serial) {
      ServedInv(c, s, s', data);
    } else {
      ReplySent(c, s, s', Reset);
    }
  }

  lemma ServedInv(c: Config, s: State, s': State, data: seq<VRP>)
    requires Inv(c, s) && ReadDataStep(c, s, s', data) && s.handler.query.SerialQ?
    requires IsServed(s.names, c.keepDiff, s.handler.query.serial)
    ensures Inv(c, s')
  {
    var h, m := s.handler, |s.names|;
    var b :| ServedStep(c, s, s', data, b);
    ServedReply(c, s, data, b);
    ReplySent(c, s, s', Incremental(b, h.serialAt, m, h.serial, data));
  }

  /** The record served for a query is a right reply to it. */
  lemma ServedReply(c: Config, s: State, data: seq<VRP>, b: nat)
    requires Inv(c, s) && s.handler.GotSerial? && s.handler.query.SerialQ?
    requires |s.names| < s.handler.query.since + SERIAL_SPACE
    requires Serves(s.names, c.keepDiff, s.handler.query.serial, b) && Records(data, s.tables, b)
    ensures ReplyInv(s, Incremental(b, s.handler.serialAt, |s.names|, s.handler.serial, data))
  {
    ServesOwnUpdate(s.names, c.keepDiff, s.handler.query.since, b);
    RecordReply(c, s, data, b);
  }

  lemma NotifyInv(c: Config, s: State, s': State, number: u32)
    requires Inv(c, s) && NotifyStep(c, s, s', number)
    ensures Inv(c, s') && s' == s
  {
  }

  // ---- Delivery

  /** All but the last message of a data reply leave serial, shown table and connection alone. */
  lemma MiddleMessage(c: Config, r: Reply, n: nat, v: View)
    requires c.version <= 1 && HasData(r) && AllKeysSendable(r.vrps) && n + 1 < |Delivered(c, r)|
    ensures var v' := Receive(v, Delivered(c, r)[n], c.breakRTR);
            v'.serial == v.serial && v'.shown == v.shown && v'.connected == v.connected
  {
    OnePduEach(c.version, r.vrps);
    if n > 0 {
      assert Delivered(c, r)[n] == AllPrefixPdus(c.version, r.vrps)[n - 1];
    }
  }

  lemma ReceiveOneMore(c: Config, v: View, ps: seq<PDU>, n: nat)
    requires n < |ps|
    ensures ReceiveAll(v, ps[..n + 1], c.breakRTR) == Receive(ReceiveAll(v, ps[..n], c.breakRTR), ps[n], c.breakRTR)
  {
    assert ps[..n + 1][..n] == ps[..n];
  }

  lemma DeliverMiddle(c: Config, s: State, s': State)
    requires Inv(c, s) && DeliverStep(c, s, s') && s.router.received + 1 < |Delivered(c, s.replies[0])|
    requires HasData(s.replies[0])
    ensures Inv(c, s')
  {
    assert ReplyInv(s, s.replies[0]);
    MiddleReceiving(c, s, s');
    InFlightStays(c, s, s');
  }

  lemma MiddleReceiving(c: Config, s: State, s': State)
    requires c.version <= 1 && ReceivingInv(c, s) && DeliverStep(c, s, s')
    requires s.router.received + 1 < |Delivered(c, s.replies[0])|
    requires HasData(s.replies[0]) && AllKeysSendable(s.replies[0].vrps)
    ensures ReceivingInv(c, s') && s'.router.view.connected == s.router.view.connected
  {
    var r, n := s.replies[0], s.router.received;
    MiddleMessage(c, r, n, s.router.view);
    ReceiveOneMore(c, s.router.begin, Delivered(c, r), n);
  }

  /** The router's view once a whole reply has arrived. */
  lemma WholeReply(c: Config, s: State, s': State)
    requires ReceivingInv(c, s) && DeliverStep(c, s, s') && s.router.received + 1 == |Delivered(c, s.replies[0])|
    ensures s'.router.view == ReceiveAll(s.router.begin, Delivered(c, s.replies[0]), c.breakRTR)
  {
    var ps, n := Delivered(c, s.replies[0]), s.router.received;
    ReceiveOneMore(c, s.router.begin, ps, n);
    assert ps[..n + 1] == ps;
  }

  /** A completed reply leaves the router with at least the whole table whose data was sent. */
  lemma DataCovers(c: Config, s: State, r: Reply, v: View)
    requires c.version <= 1 && HasData(r) && ReplyInv(s, r)
    requires r.Incremental? ==>
               r.since <= s.router.dataAt <= r.dataAt && s.tables[s.router.dataAt] <= s.router.begin.working
    requires v == ReceiveAll(s.router.begin, Delivered(c, r), c.breakRTR)
    ensures s.tables[r.dataAt] <= v.working && v.shown == v.working
    ensures v.serial == r.serial
  {
    DeliveredView(c, r, s.router.begin);
    if r.Incremental? {
      PatchCovers(s.tables[..r.dataAt + 1], r.since, s.router.dataAt, s.router.begin.working);
    }
  }

  lemma PoppedInOrder(s: State, s': State)
    requires InOrder(s) && s.replies != [] && s'.replies == s.replies[1..]
    requires s'.router.dataAt == if HasData(s.replies[0]) then s.replies[0].dataAt else s.router.dataAt
    ensures InOrder(s') && s.router.dataAt <= s'.router.dataAt
  {
  }

  lemma PoppedReceiving(c: Config, s': State)
    requires c.version <= 1 && s'.router.received == 0 && s'.router.begin == s'.router.view
    requires s'.replies != [] ==> ReplyInv(s', s'.replies[0])
    ensures ReceivingInv(c, s')
  {
    if s'.replies != [] {
      assert Delivered(c, s'.replies[0])[..0] == [];
    }
  }

  lemma DeliverData(c: Config, s: State, s': State)
    requires Inv(c, s) && DeliverStep(c, s, s') && HasData(s.replies[0])
    requires s.router.received + 1 == |Delivered(c, s.replies[0])|
    ensures Inv(c, s')
  {
    var r := s.replies[0];
    assert ReplyInv(s, r);
    WholeReply(c, s, s');
    DataCovers(c, s, r, s'.router.view);
    DataRouter(c, s, s', r);
    PoppedInOrder(s, s');
    InFlightStays(c, s, s');
    PoppedReceiving(c, s');
  }

  lemma DataRouter(c: Config, s: State, s': State, r: Reply)
    requires HasData(r) && ReplyInv(s, r) && s'.tables == s.tables && s'.names == s.names
    requires s'.router == Completed(s.router, s'.router.view, r)
    requires s.tables[r.dataAt] <= s'.router.view.working && s'.router.view.shown == s'.router.view.working
    requires s'.router.view.serial == r.serial
    ensures RouterInv(c, s')
  {
  }

  lemma DeliverOther(c: Config, s: State, s': State)
    requires Inv(c, s) && DeliverStep(c, s, s') && !HasData(s.replies[0])
    ensures Inv(c, s')
  {
    assert s.router.received == 0 && Delivered(c, s.replies[0])[..0] == [];
    OtherRouter(c, s, s', s.replies[0]);
    PoppedInOrder(s, s');
    InFlightStays(c, s, s');
    PoppedReceiving(c, s');
  }

  lemma OtherRouter(c: Config, s: State, s': State, r: Reply)
    requires RouterInv(c, s) && s.replies != [] && r == s.replies[0] && !HasData(r)
    requires s.router.view == s.router.begin && s.router.view.connected
    requires var p := if r.Reset? then CacheReset(c.version) else Received(NoDataError(c.version));
             var v := Receive(s.router.view, p, c.breakRTR);
             s' == s.(replies := s.replies[1..], router := Completed(s.router, v, r))
    ensures RouterInv(c, s')
  {
  }

  lemma StepInv(c: Config, s: State, a: Action, s': State)
    requires Inv(c, s) && Step(c, s, a, s')
    ensures Inv(c, s')
  {
    match a
    case Publish(list) => PublishInv(c, s, s', list);
    case Connect => ConnectInv(c, s, s');
    case Ask => AskInv(c, s, s');
    case Drop(n) => DropInv(c, s, s', n);
    case ReadSerial => ReadSerialInv(c, s, s');
    case ReadData(data) => ReadDataInv(c, s, s', data);
    case Notify(number) => NotifyInv(c, s, s', number);
    case Deliver =>
      if !HasData(s.replies[0]) {
        DeliverOther(c, s, s');
      } else if s.router.received + 1 < |Delivered(c, s.replies[0])| {
        DeliverMiddle(c, s, s');
      } else {
        DeliverData(c, s, s');
      }
  }

  lemma {:induction false} RunInv(c: Config, states: seq<State>, actions: seq<Action>, i: nat)
    requires IsRun(c, states, actions) && i < |states|
    ensures Inv(c, states[i])
  {
    if i == 0 {
      InitInv(c, states[0]);
    } else {
      var j := i - 1;
      RunInv(c, states, actions, j);
      assert StepAt(c, states, actions, j);
      StepInv(c, states[j], actions[j], states[i]);
    }
  }

  /** No VRP is ever lost. At every point of every run, once the router has completed a reply, the table it shows
      includes the whole table of the update `dataAt` whose data it last received, the serial it holds is that of an
      update no later than `dataAt`, and so every VRP that has been in all tables since then is shown. */
  lemma NoVrpLost(c: Config, states: seq<State>, actions: seq<Action>, i: nat)
    requires IsRun(c, states, actions) && i < |states| && states[i].router.seen
    ensures var s, r := states[i], states[i].router;
            && 1 <= r.heldAt <= r.dataAt < |s.tables| == |s.names| + 1
            && r.view.serial == s.names[r.heldAt - 1]
            && s.tables[r.dataAt] <= r.view.shown
  {
    RunInv(c, states, actions, i);
  }

  /** The step that completes a data reply shows a table that includes the one whose data the reply carries, whatever
      was published between the two reads or while the reply was on its way. */
  lemma EndOfDataCovers(c: Config, states: seq<State>, actions: seq<Action>, i: nat)
    requires IsRun(c, states, actions) && i < |actions| && actions[i].Deliver? && states[i].replies != []
    requires HasData(states[i].replies[0]) && states[i].router.received + 1 == |Delivered(c, states[i].replies[0])|
    ensures var r := states[i].replies[0];
            && 1 <= r.serialAt <= r.dataAt < |states[i].tables| == |states[i].names| + 1
            && states[i].tables[r.dataAt] <= states[i + 1].router.view.shown
            && states[i + 1].router.view.serial == r.serial == states[i].names[r.serialAt - 1]
  {
    RunInv(c, states, actions, i);
    var s, r := states[i], states[i].replies[0];
    assert ReplyInv(s, r);
    assert StepAt(c, states, actions, i);
    WholeReply(c, s, states[i + 1]);
    DataCovers(c, s, r, states[i + 1].router.view);
  }

  /** What a completed reply fails to remove: a whole table removes nothing, a diff whatever it leaves behind. */
  ghost function Stale(s: State, r: Reply): Table
    requires HasData(r) && r.dataAt < |s.tables| && (r.Incremental? ==> r.since <= r.dataAt)
  {
    match r
    case Full(_, j, _, _) => s.router.begin.working - s.tables[j]
    case Incremental(b, _, j, _, _) => LeftBehind(s.tables[..j + 1], b, s.router.begin.working)
  }

  /** The step that completes a data reply shows exactly the table whose data the reply carries and what the reply
      fails to remove, so it shows that table iff there is nothing of the kind. */
  lemma EndOfDataExactly(c: Config, states: seq<State>, actions: seq<Action>, i: nat)
    requires IsRun(c, states, actions) && i < |actions| && actions[i].Deliver? && states[i].replies != []
    requires HasData(states[i].replies[0]) && states[i].router.received + 1 == |Delivered(c, states[i].replies[0])|
    ensures var s, r, shown := states[i], states[i].replies[0], states[i + 1].router.view.shown;
            && r.dataAt < |s.tables| && (r.Incremental? ==> r.since <= r.dataAt)
            && shown == s.tables[r.dataAt] + Stale(s, r) && s.tables[r.dataAt] !! Stale(s, r)
            && (shown == s.tables[r.dataAt] <==> Stale(s, r) == {})
  {
    RunInv(c, states, actions, i);
    var s, r := states[i], states[i].replies[0];
    assert ReplyInv(s, r);
    assert StepAt(c, states, actions, i);
    WholeReply(c, s, states[i + 1]);
    DeliveredView(c, r, s.router.begin);
    if r.Incremental? {
      PatchedHeldTable(s.tables[..r.dataAt + 1], r.since, s.router.dataAt, s.router.begin.working);
    }
  }

  /** A diff that a router is receiving withdraws only keys the router holds iff the router still holds every key that
      left for good between the update the diff starts from and the one whose data the router has. */
  lemma WithdrawalsKnown(c: Config, states: seq<State>, actions: seq<Action>, i: nat)
    requires IsRun(c, states, actions) && i < |states| && states[i].router.view.connected
    requires states[i].replies != [] && states[i].replies[0].Incremental?
    ensures var s, r, held := states[i], states[i].replies[0], states[i].router.begin.working;
            && 1 <= r.since <= s.router.dataAt <= r.dataAt < |s.tables|
            && var h := s.tables[..r.dataAt + 1];
               && (Withdrawn(r.vrps) <= held <==>
                     forall k, t: nat | LeavesAt(h, r.since, k, t) && t <= s.router.dataAt :: k in held)
               && (r.since == s.router.dataAt ==> Withdrawn(r.vrps) <= held)
  {
    RunInv(c, states, actions, i);
    var s, r := states[i], states[i].replies[0];
    assert ReplyInv(s, r);
    WithdrawsOnlyHeld(s.tables[..r.dataAt + 1], r.since, s.router.dataAt, s.router.begin.working);
  }

  // ---- Nothing is invented

  /** Every key of `t` was in some published table. */
  ghost predicate OnlyPublished(tables: seq<Table>, t: Table) {
    forall k | k in t :: WasPublished(tables, k)
  }

  ghost predicate WasPublished(tables: seq<Table>, k: Key) {
    exists i :: 0 <= i < |tables| && k in tables[i]
  }

  ghost predicate NothingInvented(s: State) {
    OnlyPublished(s.tables, s.router.view.working) && OnlyPublished(s.tables, s.router.view.shown)
  }

  lemma OnlyPublishedStays(tables: seq<Table>, tables': seq<Table>, t: Table)
    requires tables <= tables' && OnlyPublished(tables, t)
    ensures OnlyPublished(tables', t)
  {
    forall k | k in t ensures WasPublished(tables', k) {
      var i :| 0 <= i < |tables| && k in tables[i];
      assert k in tables'[i];
    }
  }

  /** What a right reply announces was published. */
  lemma AnnouncementsPublished(s: State, r: Reply)
    requires HasData(r) && ReplyInv(s, r)
    ensures OnlyPublished(s.tables, Announced(r.vrps))
  {
    forall k | k in Announced(r.vrps) ensures WasPublished(s.tables, k) {
      assert k in s.tables[r.dataAt];
    }
  }

  /** One message of a data reply adds at most a key the reply announces. */
  lemma MessageAdds(c: Config, r: Reply, n: nat, v: View)
    requires c.version <= 1 && HasData(r) && AllKeysSendable(r.vrps) && n < |Delivered(c, r)|
    ensures var v' := Receive(v, Delivered(c, r)[n], c.breakRTR);
            && v'.working <= v.working + Announced(r.vrps)
            && (v'.shown == v.shown || v'.shown == v.working)
  {
    OnePduEach(c.version, r.vrps);
    if 0 < n < |Delivered(c, r)| - 1 {
      assert Delivered(c, r)[n] == AllPrefixPdus(c.version, r.vrps)[n - 1];
      PrefixAdds(c, r.vrps, r.vrps[n - 1], Delivered(c, r)[n], v);
    }
  }

  lemma PrefixAdds(c: Config, vrps: seq<VRP>, vrp: VRP, p: PDU, v: View)
    requires vrp in vrps && Carries(p, vrp)
    ensures var v' := Receive(v, p, c.breakRTR);
            v'.working <= v.working + Announced(vrps) && v'.shown == v.shown
  {
  }

  lemma DeliverPublished(c: Config, s: State, s': State)
    requires Inv(c, s) && NothingInvented(s) && DeliverStep(c, s, s')
    ensures NothingInvented(s')
  {
    var r := s.replies[0];
    if HasData(r) {
      assert ReplyInv(s, r);
      MessageAdds(c, r, s.router.received, s.router.view);
      AnnouncementsPublished(s, r);
    }
  }

  /** At every point of every run the router holds and shows only VRPs that were published. */
  lemma {:induction false} NoVrpInvented(c: Config, states: seq<State>, actions: seq<Action>, i: nat)
    requires IsRun(c, states, actions) && i < |states|
    ensures NothingInvented(states[i])
  {
    if i == 0 {
    } else {
      var j := i - 1;
      NoVrpInvented(c, states, actions, j);
      assert StepAt(c, states, actions, j);
      if actions[j].Deliver? {
        RunInv(c, states, actions, j);
        DeliverPublished(c, states[j], states[i]);
      } else if actions[j].Publish? {
        OnlyPublishedStays(states[j].tables, states[i].tables, states[j].router.view.working);
        OnlyPublishedStays(states[j].tables, states[i].tables, states[j].router.view.shown);
      }
    }
  }

  // ---- The cache behind the server steps

  /** The lists published by a sequence of actions. */
  function Lists(actions: seq<Action>): seq<seq<VRP>> {
    if actions == [] then []
    else
      var last := actions[|actions| - 1];
      Lists(actions[..|actions| - 1]) + (if last.Publish? then [last.list] else [])
  }

  /** The server of a run after its first `i` actions. */
  ghost function ServerAt(c: Config, actions: seq<Action>, i: nat): (r: Run)
    requires i <= |actions|
    ensures |r.cache.diffs| == |r.cache.serials|
  {
    RunOf(c.keepDiff, c.first, Lists(actions[..i]))
  }

  /** At every point of every run the tables and serials are those of a diff cache given the lists published so far. */
  lemma {:induction false} TablesAreTheCaches(c: Config, states: seq<State>, actions: seq<Action>, i: nat)
    requires IsRun(c, states, actions) && i < |states|
    ensures var r := ServerAt(c, actions, i); states[i].tables == r.tables && states[i].names == r.names
  {
    if i == 0 {
      assert Lists(actions[..0]) == [];
    } else {
      var j := i - 1;
      TablesAreTheCaches(c, states, actions, j);
      assert StepAt(c, states, actions, j);
      var before, now := Lists(actions[..j]), Lists(actions[..i]);
      assert actions[..i][..j] == actions[..j];
      if actions[j].Publish? {
        assert now == before + [actions[j].list];
        assert now[..|now| - 1] == before;
      } else {
        assert now == before;
      }
    }
  }

  /** The cache can be asked for the data of a query: the index used is in range. */
  predicate InRange(cache: Cache, q: Query) {
    q.SerialQ? && q.serial != cache.serial && q.serial in cache.index ==>
      0 <= cache.index[q.serial] < |cache.diffs|
  }

  /** The data the cache hands to the handler: the current table, or the answer for the queried serial. */
  function CacheData(cache: Cache, q: Query): seq<VRP>
    requires InRange(cache, q)
  {
    match q
    case ResetQ => cache.current
    case SerialQ(s, _) => match Answer(cache, s) case None => [] case Some(d) => d
  }

  /** The diff cache implements the server steps: at every point of every run, whatever query is being handled, what
      the cache of the lists published so far holds for it is data the handler's second read may return. */
  lemma CacheImplementsReads(c: Config, states: seq<State>, actions: seq<Action>, i: nat)
    requires IsRun(c, states, actions) && i < |states| && states[i].handler.GotSerial?
    requires var q := states[i].handler.query; q.SerialQ? ==> |states[i].names| < q.since + SERIAL_SPACE
    ensures var q, cache := states[i].handler.query, ServerAt(c, actions, i).cache;
            InRange(cache, q) && exists s' :: ReadDataStep(c, states[i], s', CacheData(cache, q))
  {
    RunInv(c, states, actions, i);
    TablesAreTheCaches(c, states, actions, i);
    RunAgrees(c.keepDiff, c.first, Lists(actions[..i]));
    CacheImplementsRead(c, ServerAt(c, actions, i), states[i]);
  }

  lemma CacheImplementsRead(c: Config, r: Run, s: State)
    requires RunOk(c.keepDiff, c.first, r) && r.names != [] && s.tables == r.tables && s.names == r.names
    requires s.handler.GotSerial?
    requires s.handler.query.SerialQ? ==> |s.names| < s.handler.query.since + SERIAL_SPACE
    ensures InRange(r.cache, s.handler.query)
    ensures exists s' :: ReadDataStep(c, s, s', CacheData(r.cache, s.handler.query))
  {
    var h := s.handler;
    if h.query.ResetQ? {
      var s' := s.(handler := Idle, replies := s.replies + [Full(h.serialAt, |s.names|, h.serial, r.cache.current)]);
      assert ReadDataStep(c, s, s', CacheData(r.cache, h.query));
    } else {
      AgreedAnswer(c.keepDiff, r.names, r.tables, r.unique, r.cache, h.query.serial);
      CacheImplementsQuery(c, r, s, CacheData(r.cache, h.query));
    }
  }

  lemma CacheImplementsQuery(c: Config, r: Run, s: State, data: seq<VRP>)
    requires RunOk(c.keepDiff, c.first, r) && r.names != [] && s.tables == r.tables && s.names == r.names
    requires s.handler.GotSerial? && s.handler.query.SerialQ?
    requires |s.names| < s.handler.query.since + SERIAL_SPACE
    requires InRange(r.cache, s.handler.query) && data == CacheData(r.cache, s.handler.query)
    ensures exists s' :: ReadDataStep(c, s, s', data)
  {
    var h := s.handler;
    AgreedAnswer(c.keepDiff, r.names, r.tables, r.unique, r.cache, h.query.serial);
    if IsServed(s.names, c.keepDiff, h.query.serial) {
      var b :| Serves(r.names, c.keepDiff, h.query.serial, b) && Answers(data, r.tables, b);
      var s' := s.(handler := Idle, replies := s.replies + [Incremental(b, h.serialAt, |s.names|, h.serial, data)]);
      assert ServedStep(c, s, s', data, b);
      assert ReadDataStep(c, s, s', data);
    } else {
      assert ReadDataStep(c, s, s.(handler := Idle, replies := s.replies + [Reset]), data);
    }
  }
}
