/** The router side of the protocol: rtrmon's handling of received messages (cmd/rtrmon/rtrmon.go). */
module RtrClient {
  import opened Basics
  import opened Vrps
  import opened Pdus
  import opened History

  /** What the client holds of the protocol state: the working keys, the keys shown to the comparator, and the
      session data. */
  datatype View = View(working: Table, shown: Table, serial: u32, session: u16,
                       refresh: u32, retry: u32, expire: u32, connected: bool)

  function PrefixKey(p: PDU): Key
    requires p.IPv4Prefix? || p.IPv6Prefix?
  {
    Key(p.prefix, p.maxLen, p.asn)
  }

  function Receive(v: View, p: PDU, breakRTR: bool): View {
    match p
    case IPv4Prefix(_, _, _, _, flags) => ReceivePrefix(v, PrefixKey(p), flags)
    case IPv6Prefix(_, _, _, _, flags) => ReceivePrefix(v, PrefixKey(p), flags)
    case EndOfData(_, _, serial, refresh, retry, expire) =>
      v.(shown := v.working, serial := serial, refresh := refresh, retry := retry, expire := expire,
         connected := v.connected && !breakRTR)
    case CacheResponse(_, session) => v.(session := session)
    case CacheReset(_) => v
    case SerialNotify(_, _, _) => v
    case _ => v.(connected := false)
  }

  function ReceivePrefix(v: View, k: Key, flags: u8): View {
    v.(working := if flags == FLAG_ADDED then v.working + {k} else v.working - {k})
  }

  function ReceiveAll(v: View, ps: seq<PDU>, breakRTR: bool): View {
    if ps == [] then v
    else Receive(ReceiveAll(v, ps[..|ps| - 1], breakRTR), ps[|ps| - 1], breakRTR)
  }

  lemma {:induction false} ReceiveConcat(v: View, a: seq<PDU>, b: seq<PDU>, breakRTR: bool)
    ensures ReceiveAll(v, a + b, breakRTR) == ReceiveAll(ReceiveAll(v, a, breakRTR), b, breakRTR)
  {
    if b == [] {
      assert a + b == a;
    } else {
      var init := b[..|b| - 1];
      assert (a + b)[..|a + b| - 1] == a + init;
      ReceiveConcat(v, a, init, breakRTR);
    }
  }

  /** One VRP as shown by the monitor. */
  datatype Entry = Entry(key: Key, firstSeen: int, lastSeen: int)

  type VRPMap = map<Key, Entry>

  /** Every entry is stored under its own key. */
  predicate Keyed(m: VRPMap) {
    forall k | k in m :: m[k].key == k
  }

  /** Copies a map entry by entry, in whatever order it is walked. */
  method Copied(m: VRPMap) returns (copy: VRPMap)
    ensures copy == m
  {
    copy := map[];
    var todo := m.Keys;
    while todo != {}
      invariant todo <= m.Keys
      invariant copy == map k | k in m && k !in todo :: m[k]
    {
      var k :| k in todo;
      copy := copy[k := m[k]];
      todo := todo - {k};
    }
  }

  class Client {
    const breakRTR: bool
    var vrpsRtr: VRPMap
    var vrps: VRPMap
    var serial: u32
    var sessionID: u16
    var rtrRefresh: u32
    var rtrRetry: u32
    var rtrExpire: u32
    var connected: bool

    constructor (breakRTR: bool)
      ensures Shows() == View({}, {}, 0, 0, 0, 0, 0, true)
    {
      this.breakRTR := breakRTR;
      vrpsRtr, vrps, serial, sessionID := map[], map[], 0, 0;
      rtrRefresh, rtrRetry, rtrExpire, connected := 0, 0, 0, true;
    }

    ghost function Shows(): View
      reads this
    {
      View(vrpsRtr.Keys, vrps.Keys, serial, sessionID, rtrRefresh, rtrRetry, rtrExpire, connected)
    }

    /** A prefix message inserts or deletes one key, End of Data publishes a copy of the working map. */
    method HandlePDU(p: PDU, now: int)
      modifies this
      ensures Shows() == Receive(old(Shows()), p, breakRTR)
      ensures p.EndOfData? ==>
                && vrps == vrpsRtr && serial == p.serial
                && rtrRefresh == p.refresh && rtrRetry == p.retry && rtrExpire == p.expire
      ensures p.IPv4Prefix? || p.IPv6Prefix? ==>
                var k := Key(p.prefix, p.maxLen, p.asn);
                vrpsRtr == if p.flags == 1 then old(vrpsRtr)[k := Entry(k, now, 0)] else old(vrpsRtr) - {k}
      ensures !(p.IPv4Prefix? || p.IPv6Prefix?) ==> vrpsRtr == old(vrpsRtr)
      ensures !p.EndOfData? ==>
                vrps == old(vrps) && serial == old(serial) && rtrRefresh == old(rtrRefresh) &&
                rtrRetry == old(rtrRetry) && rtrExpire == old(rtrExpire)
      ensures sessionID == if p.CacheResponse? then p.session else old(sessionID)
      ensures p.SerialQuery? || p.ResetQuery? || p.RouterKey? || p.ErrorReport? ==> !connected
      ensures Keyed(old(vrpsRtr)) && Keyed(old(vrps)) ==> Keyed(vrpsRtr) && Keyed(vrps)
    {
      match p
      case IPv4Prefix(_, _, _, _, flags) =>
        HandlePrefix(PrefixKey(p), flags, now);
      case IPv6Prefix(_, _, _, _, flags) =>
        HandlePrefix(PrefixKey(p), flags, now);
      case EndOfData(_, _, number, refresh, retry, expire) =>
        serial := number;
        var tmpVrpMap := Copied(vrpsRtr);
        vrps := tmpVrpMap;
        rtrRefresh, rtrRetry, rtrExpire := refresh, retry, expire;
        if breakRTR {
          connected := false;
        }
      case CacheResponse(_, session) =>
        sessionID := session;
      case CacheReset(_) =>
      case SerialNotify(_, _, _) =>
      case _ =>
        connected := false;
    }

    method HandlePrefix(k: Key, flags: u8, now: int)
      modifies this`vrpsRtr
      ensures vrpsRtr == if flags == FLAG_ADDED then old(vrpsRtr)[k := Entry(k, now, 0)] else old(vrpsRtr) - {k}
    {
      if flags == FLAG_ADDED {
        vrpsRtr := vrpsRtr[k := Entry(k, now, 0)];
      } else {
        vrpsRtr := vrpsRtr - {k};
      }
    }
  }
}
