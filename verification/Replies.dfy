/** What a server sends for a query (lib/server.go), what it looks like on the wire, and what it does to a router. */
module Replies {
  import opened Basics
  import opened Vrps
  import opened Pdus
  import opened Layout
  import opened RtrServer
  import opened History
  import opened RtrClient
  import opened Serials

  /** The refresh, retry and expire intervals a client was configured with. */
  datatype Intervals = Intervals(refresh: u32, retry: u32, expire: u32)

  /** A key whose prefix has an IPv4 address, or an IPv6 address that is not IPv4-mapped, and a mask that fits. */
  predicate Sendable(k: Key) {
    && k.prefix.mask.CIDR?
    && if |k.prefix.ip| == 4 then k.prefix.mask.ones <= 32
       else |k.prefix.ip| == 16 && !IsMapped(k.prefix.ip) && k.prefix.mask.ones <= 128
  }

  predicate AllKeysSendable(vrps: seq<VRP>) {
    forall v | v in vrps :: Sendable(v.key)
  }

  /** The message for one VRP; none for an address that is neither IPv4 nor IPv6. */
  function PrefixPdus(version: u8, v: VRP): seq<PDU> {
    if To4(v.key.prefix.ip) == None && To16(v.key.prefix.ip) != None then
      [IPv6Prefix(version, v.key.prefix, v.key.maxLen, v.key.asn, v.flags)]
    else if To4(v.key.prefix.ip) != None then
      [IPv4Prefix(version, v.key.prefix, v.key.maxLen, v.key.asn, v.flags)]
    else []
  }

  function AllPrefixPdus(version: u8, vrps: seq<VRP>): seq<PDU> {
    if vrps == [] then []
    else AllPrefixPdus(version, vrps[..|vrps| - 1]) + PrefixPdus(version, vrps[|vrps| - 1])
  }

  /** A whole data reply: Cache Response, the prefixes, End of Data. */
  function ReplyPdus(version: u8, session: u16, serial: u32, iv: Intervals, vrps: seq<VRP>): seq<PDU> {
    [CacheResponse(version, session)] + AllPrefixPdus(version, vrps) +
    [EndOfData(version, session, serial, iv.refresh, iv.retry, iv.expire)]
  }

  /** The bytes of an ASCII text. */
  function Ascii(text: string): (b: seq<Byte>)
    ensures |b| == |text| && forall i | 0 <= i < |text| && text[i] < 128 as char :: b[i] == text[i] as int
  {
    seq(|text|, i requires 0 <= i < |text| => (text[i] as int) % 0x100)
  }

  function NoDataError(version: u8): PDU {
    ErrorReport(version, 2, [], Ascii("No data available"))
  }

  /** One connected router as the server sees it; `transmits` is its send queue. */
  class Connection {
    var version: u8
    var intervals: Intervals
    var transmits: seq<PDU>

    constructor (version: u8, intervals: Intervals)
      ensures this.version == version && this.intervals == intervals && transmits == []
    {
      this.version, this.intervals, transmits := version, intervals, [];
    }

    method SendPDU(p: PDU)
      modifies this`transmits
      ensures transmits == old(transmits) + [p.(version := version)]
    {
      transmits := transmits + [p.(version := version)];
    }

    method SendVRP(v: VRP)
      modifies this`transmits
      ensures transmits == old(transmits) + PrefixPdus(version, v)
      ensures var ip := v.key.prefix.ip;
              if |ip| == 4 || IsMapped(ip) then
                transmits == old(transmits) + [IPv4Prefix(version, v.key.prefix, v.key.maxLen, v.key.asn, v.flags)]
              else if |ip| == 16 then
                transmits == old(transmits) + [IPv6Prefix(version, v.key.prefix, v.key.maxLen, v.key.asn, v.flags)]
              else transmits == old(transmits)
    {
      if To4(v.key.prefix.ip) == None && To16(v.key.prefix.ip) != None {
        SendPDU(IPv6Prefix(0, v.key.prefix, v.key.maxLen, v.key.asn, v.flags));
      } else if To4(v.key.prefix.ip) != None {
        SendPDU(IPv4Prefix(0, v.key.prefix, v.key.maxLen, v.key.asn, v.flags));
      }
    }

    method SendVRPs(session: u16, serial: u32, vrps: seq<VRP>)
      modifies this`transmits
      ensures transmits == old(transmits) + ReplyPdus(version, session, serial, intervals, vrps)
    {
      ghost var was := transmits;
      SendPDU(CacheResponse(0, session));
      for i := 0 to |vrps|
        invariant transmits == was + [CacheResponse(version, session)] + AllPrefixPdus(version, vrps[..i])
      {
        SendVRP(vrps[i]);
        assert vrps[..i + 1][..i] == vrps[..i];
      }
      assert vrps[..|vrps|] == vrps;
      SendPDU(EndOfData(0, session, serial, intervals.refresh, intervals.retry, intervals.expire));
    }
  }

  /** A Reset Query is answered with the whole current table under the current serial, or with No Data. */
  method RequestCache(s: Server, session: u16, c: Connection)
    requires s.Valid()
    modifies c`transmits
    ensures s.names == [] ==>
              c.transmits == old(c.transmits) + [ErrorReport(c.version, 2, [], Ascii("No data available"))]
    ensures s.names != [] ==>
              exists vrps :: AllAnnounced(vrps) && Keys(vrps) == Last(s.tables) && c.transmits == old(c.transmits) +
                ReplyPdus(c.version, session, s.vrpCurrentSerial, c.intervals, vrps)
  {
    var serial, valid := s.GetCurrentSerial();
    if !valid {
      c.SendPDU(NoDataError(0));
    } else {
      // The current table always exists, so the internal error reply of the original is never sent.
      var vrps, _ := s.GetCurrentVRPs();
      c.SendVRPs(session, serial, vrps);
    }
  }

  /** A Serial Query is answered with the exact record since the table the serial stands for, or with Cache Reset
      when it stands for none that is retained, or with No Data. */
  method RequestNewVersion(s: Server, session: u16, serialNumber: u32, c: Connection)
    requires s.Valid()
    modifies c`transmits
    ensures s.names == [] ==>
              c.transmits == old(c.transmits) + [ErrorReport(c.version, 2, [], Ascii("No data available"))]
    ensures s.names != [] && !IsServed(s.names, s.keepDiff, serialNumber) ==>
              c.transmits == old(c.transmits) + [CacheReset(c.version)]
    ensures s.names != [] && IsServed(s.names, s.keepDiff, serialNumber) ==>
              exists since: nat, vrps ::
                && Serves(s.names, s.keepDiff, serialNumber, since)
                && Answers(vrps, s.tables, since)
                && c.transmits == old(c.transmits) +
                     ReplyPdus(c.version, session, s.vrpCurrentSerial, c.intervals, vrps)
  {
    var serial, valid := s.GetCurrentSerial();
    if !valid {
      c.SendPDU(NoDataError(0));
    } else {
      var vrps, exists_ := s.GetVRPsSerialDiff(serialNumber);
      if !exists_ {
        c.SendPDU(CacheReset(0));
      } else {
        c.SendVRPs(session, serial, vrps);
      }
    }
  }

  // ---- On the wire

  lemma PrefixPduOf(version: u8, v: VRP)
    requires Sendable(v.key)
    ensures var ps := PrefixPdus(version, v);
            |ps| == 1 && ps[0].version == version && Carries(ps[0], v)
  {
  }

  /** Message `p` carries exactly the VRP `v`. */
  predicate Carries(p: PDU, v: VRP) {
    SentPrefix(p) && PrefixKey(p) == v.key && p.flags == v.flags
  }

  lemma {:induction false} OnePduEach(version: u8, vrps: seq<VRP>)
    requires AllKeysSendable(vrps)
    ensures var ps := AllPrefixPdus(version, vrps);
            && |ps| == |vrps|
            && forall i | 0 <= i < |ps| :: Carries(ps[i], vrps[i])
  {
    if vrps == [] {
    } else {
      var init, last := vrps[..|vrps| - 1], vrps[|vrps| - 1];
      assert last in vrps && forall v | v in init :: v in vrps;
      OnePduEach(version, init);
      PrefixPduOf(version, last);
      var ps, p := AllPrefixPdus(version, init), PrefixPdus(version, last)[0];
      assert AllPrefixPdus(version, vrps) == ps + [p];
      forall i | 0 <= i < |vrps| ensures Carries((ps + [p])[i], vrps[i]) {
        assert i < |init| ==> Carries(ps[i], init[i]);
      }
    }
  }

  /** A reply is Cache Response, one message per VRP in order, and End of Data. */
  lemma ReplyMessages(version: u8, session: u16, serial: u32, iv: Intervals, vrps: seq<VRP>)
    requires AllKeysSendable(vrps)
    ensures var ps := ReplyPdus(version, session, serial, iv, vrps);
            && |ps| == |vrps| + 2 && ps[0] == CacheResponse(version, session)
            && ps[|vrps| + 1] == EndOfData(version, session, serial, iv.refresh, iv.retry, iv.expire)
            && forall i | 0 <= i < |vrps| :: Carries(ps[i + 1], vrps[i])
  {
    OnePduEach(version, vrps);
    var ps := ReplyPdus(version, session, serial, iv, vrps);
    forall i | 0 <= i < |vrps| ensures Carries(ps[i + 1], vrps[i]) {
      assert ps[i + 1] == AllPrefixPdus(version, vrps)[i];
    }
  }

  /** On the wire the flags byte of a VRP's message is 1 if the reply announces the VRP and 0 if it withdraws it; in a
      whole table it is always 1. */
  lemma FlagsOnTheWire(p: PDU, v: VRP, vrps: seq<VRP>)
    requires v in vrps && Carries(p, v)
    ensures |Encode(p)| >= 16
    ensures Coherent(vrps) ==> Encode(p)[8] == if v.key in Announced(vrps) then 1 else 0
    ensures AllAnnounced(vrps) ==> Encode(p)[8] == 1
  {
    FitsTheWire(p);
    MessageLayout(p);
    if Coherent(vrps) {
      assert v.flags == FLAG_REMOVED ==> v.key in Withdrawn(vrps);
    }
  }

  /** A prefix message that fits the wire format and arrives as it was sent. */
  predicate SentPrefix(p: PDU) {
    (p.IPv4Prefix? || p.IPv6Prefix?) && WellFormed(p) && Received(p) == p
  }

  /** The bytes of a whole reply decode, by repeated decoding, to the same messages with nothing left over: one
      prefix message per VRP between Cache Response and End of Data, whose intervals version 0 drops. */
  lemma ReplyOnTheWire(version: u8, session: u16, serial: u32, iv: Intervals, vrps: seq<VRP>)
    requires version <= 1 && AllKeysSendable(vrps)
    ensures var seen := if version == 0 then Intervals(0, 0, 0) else iv;
            ParseAll(EncodeAll(ReplyPdus(version, session, serial, iv, vrps))) ==
            (ReplyPdus(version, session, serial, seen, vrps), true)
    ensures |AllPrefixPdus(version, vrps)| == |vrps|
  {
    OnePduEach(version, vrps);
    ReplySendable(version, session, serial, iv, AllPrefixPdus(version, vrps));
    StreamRoundTrip(ReplyPdus(version, session, serial, iv, vrps));
  }

  lemma ReplySendable(version: u8, session: u16, serial: u32, iv: Intervals, prefixes: seq<PDU>)
    requires version <= 1 && forall p | p in prefixes :: SentPrefix(p)
    ensures var seen := if version == 0 then Intervals(0, 0, 0) else iv;
            var ps := [CacheResponse(version, session)] + prefixes +
                      [EndOfData(version, session, serial, iv.refresh, iv.retry, iv.expire)];
            && AllSendable(ps)
            && ReceivedAll(ps) == [CacheResponse(version, session)] + prefixes +
                 [EndOfData(version, session, serial, seen.refresh, seen.retry, seen.expire)]
  {
    var ps := [CacheResponse(version, session)] + prefixes +
              [EndOfData(version, session, serial, iv.refresh, iv.retry, iv.expire)];
    forall p | p in ps ensures WellFormed(p) && |Encode(p)| <= MESSAGE_MAX_SIZE {
      FitsTheWire(p);
    }
    forall i | 0 <= i < |prefixes| ensures Received(ps[i + 1]) == prefixes[i] {
      assert ps[i + 1] == prefixes[i] && prefixes[i] in prefixes;
    }
  }

  lemma FitsTheWire(p: PDU)
    requires WellFormed(p) && !p.ErrorReport?
    ensures |Encode(p)| <= MESSAGE_MAX_SIZE
  {
    EncodeFramed(p);
    OnlyErrorReportsAreLong(p);
  }

  // ---- At the router

  lemma ReceiveOne(v: View, version: u8, vrp: VRP, breakRTR: bool)
    requires Sendable(vrp.key)
    ensures ReceiveAll(v, PrefixPdus(version, vrp), breakRTR) == ReceivePrefix(v, vrp.key, vrp.flags)
  {
    PrefixPduOf(version, vrp);
    var ps := PrefixPdus(version, vrp);
    assert ps[..0] == [];
    assert ReceiveAll(v, [], breakRTR) == v;
  }

  lemma CoherentInit(init: seq<VRP>, last: VRP)
    requires Coherent(init + [last])
    ensures Coherent(init) && (last.flags == FLAG_ADDED || last.flags == FLAG_REMOVED)
    ensures last.flags == FLAG_REMOVED ==> last.key !in Announced(init)
    ensures Announced(init + [last]) == Announced(init) + (if last.flags == FLAG_ADDED then {last.key} else {})
    ensures Withdrawn(init + [last]) == Withdrawn(init) + (if last.flags == FLAG_REMOVED then {last.key} else {})
    ensures last.flags == FLAG_ADDED ==> last.key !in Withdrawn(init)
  {
    assert last in init + [last] && forall v | v in init :: v in init + [last];
    ConcatSets(init, [last]);
  }

  lemma {:induction false} ReceivePrefixes(v: View, version: u8, vrps: seq<VRP>, breakRTR: bool)
    requires Coherent(vrps) && AllKeysSendable(vrps)
    ensures ReceiveAll(v, AllPrefixPdus(version, vrps), breakRTR) ==
            v.(working := Patch(v.working, Announced(vrps), Withdrawn(vrps)))
  {
    if vrps == [] {
    } else {
      var init, last := vrps[..|vrps| - 1], vrps[|vrps| - 1];
      assert vrps == init + [last];
      CoherentInit(init, last);
      assert last in vrps && forall x | x in init :: x in vrps;
      ReceivePrefixes(v, version, init, breakRTR);
      ReceiveConcat(v, AllPrefixPdus(version, init), PrefixPdus(version, last), breakRTR);
      ReceiveOne(ReceiveAll(v, AllPrefixPdus(version, init), breakRTR), version, last, breakRTR);
    }
  }

  /** A router that handles a reply message by message ends up with its table patched by what the reply announces
      and withdraws, shown under the reply's serial. */
  lemma ReceiveReply(v: View, version: u8, session: u16, serial: u32, iv: Intervals, vrps: seq<VRP>,
                     breakRTR: bool)
    requires Coherent(vrps) && AllKeysSendable(vrps)
    ensures var v' := ReceiveAll(v, ReplyPdus(version, session, serial, iv, vrps), breakRTR);
            && v'.working == v'.shown == Patch(v.working, Announced(vrps), Withdrawn(vrps))
            && v'.serial == serial && v'.session == session && v'.connected == (v.connected && !breakRTR)
            && v'.refresh == iv.refresh && v'.retry == iv.retry && v'.expire == iv.expire
  {
    var open := [CacheResponse(version, session)];
    var end := [EndOfData(version, session, serial, iv.refresh, iv.retry, iv.expire)];
    var v1 := v.(session := session);
    ReceiveConcat(v, open + AllPrefixPdus(version, vrps), end, breakRTR);
    ReceiveConcat(v, open, AllPrefixPdus(version, vrps), breakRTR);
    assert ReceiveAll(v, [], breakRTR) == v;
    assert ReceiveAll(v, open, breakRTR) == v1;
    ReceivePrefixes(v1, version, vrps, breakRTR);
    var v2 := ReceiveAll(v1, AllPrefixPdus(version, vrps), breakRTR);
    assert end[..0] == [];
    assert ReceiveAll(v2, end, breakRTR) == Receive(v2, end[0], breakRTR);
  }
}
