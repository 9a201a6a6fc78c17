/** The protocol data units of RFC 6810 (version 0) and RFC 8210 (version 1) and their wire format
    (lib/structs.go). */
module Pdus {
  import opened Basics
  import opened Vrps

  const MESSAGE_MAX_SIZE := 2048

  const SERIAL_NOTIFY: u8 := 0
  const SERIAL_QUERY: u8 := 1
  const RESET_QUERY: u8 := 2
  const CACHE_RESPONSE: u8 := 3
  const IPV4_PREFIX: u8 := 4
  const IPV6_PREFIX: u8 := 6
  const END_OF_DATA: u8 := 7
  const CACHE_RESET: u8 := 8
  const ROUTER_KEY: u8 := 9
  const ERROR_REPORT: u8 := 10

  datatype PDU =
    | SerialNotify(version: u8, session: u16, serial: u32)
    | SerialQuery(version: u8, session: u16, serial: u32)
    | ResetQuery(version: u8)
    | CacheResponse(version: u8, session: u16)
    | IPv4Prefix(version: u8, prefix: IPNet, maxLen: u8, asn: u32, flags: u8)
    | IPv6Prefix(version: u8, prefix: IPNet, maxLen: u8, asn: u32, flags: u8)
    | EndOfData(version: u8, session: u16, serial: u32, refresh: u32, retry: u32, expire: u32)
    | CacheReset(version: u8)
    | RouterKey(version: u8, flags: u8, ski: seq<Byte>, asn: u32, spki: u32)
    | ErrorReport(version: u8, code: u16, copy: seq<Byte>, text: seq<Byte>)

  // ---- Big-endian integers

  function E8(x: u8): seq<Byte> { [x] }

  function E16(x: u16): seq<Byte> { [x / 256, x % 256] }

  function D16(s: seq<Byte>): u16
    requires |s| == 2
  {
    256 * (s[0] as int) + (s[1] as int)
  }

  function E32(x: u32): seq<Byte> { E16(x / 0x1_0000) + E16(x % 0x1_0000) }

  function D32(s: seq<Byte>): u32
    requires |s| == 4
  {
    D16(s[..2]) * 0x1_0000 + D16(s[2..])
  }

  lemma RoundTrip16(x: u16)
    ensures D16(E16(x)) == x
  {
  }

  lemma RoundTrip32(x: u32)
    ensures D32(E32(x)) == x
  {
    RoundTrip16(x / 0x1_0000);
    RoundTrip16(x % 0x1_0000);
    assert E32(x)[..2] == E16(x / 0x1_0000) && E32(x)[2..] == E16(x % 0x1_0000);
  }

  // ---- Addresses

  /** The 96-bit prefix under which an IPv4 address is written as a 16-byte one. */
  const MAPPED: seq<Byte> := [0, 0, 0, 0, 0, 0, 0, 0, 0, 0, 255, 255]

  predicate IsMapped(ip: seq<Byte>) {
    |ip| == 16 && ip[..12] == MAPPED
  }

  /** Ten zero bytes and two bytes of ones come first. */
  lemma MappedBytes(ip: seq<Byte>)
    ensures IsMapped(ip) <==> |ip| == 16 && (forall i | 0 <= i < 10 :: ip[i] == 0) && ip[10] == ip[11] == 255
  {
    assert IsMapped(ip) ==> forall i | 0 <= i < 12 :: ip[i] == ip[..12][i];
  }

  function To4(ip: seq<Byte>): Option<seq<Byte>> {
    if |ip| == 4 then Some(ip) else if IsMapped(ip) then Some(ip[12..]) else None
  }

  function To16(ip: seq<Byte>): Option<seq<Byte>> {
    if |ip| == 4 then Some(MAPPED + ip) else if |ip| == 16 then Some(ip) else None
  }

  /** The bytes a possibly nil address contributes to a message. */
  function AddressBytes(ip: Option<seq<Byte>>): seq<Byte> {
    match ip case None => [] case Some(b) => b
  }

  function Size(m: Mask): nat {
    match m case NoMask => 0 case CIDR(n) => n
  }

  function CIDRMask(ones: nat, bits: nat): Mask {
    if ones <= bits then CIDR(ones) else NoMask
  }

  // ---- Encoding

  /** A length, truncated to 32 bits as the conversion does. */
  function LengthField(n: nat): (b: seq<Byte>)
    ensures |b| == 4
  {
    E32(n % 0x1_0000_0000)
  }

  lemma LengthFieldRoundTrip(n: u32)
    ensures D32(LengthField(n)) == n
  {
    assert LengthField(n) == E32(n);
    RoundTrip32(n);
  }

  function Header(version: u8, kind: u8, field: u16, length: nat): (h: seq<Byte>)
    ensures |h| == 8
  {
    E8(version) + E8(kind) + E16(field) + LengthField(length)
  }

  function PrefixBody(p: PDU, address: seq<Byte>): seq<Byte>
    requires p.IPv4Prefix? || p.IPv6Prefix?
  {
    E8(p.flags) + E8(Size(p.prefix.mask) % 256) + E8(p.maxLen) + E8(0) + address + E32(p.asn)
  }

  /** The error text with the terminating NUL some clients need. */
  function ErrorText(text: seq<Byte>): seq<Byte> {
    if text == [] then [] else text + [0]
  }

  function ErrorBody(copy: seq<Byte>, sent: seq<Byte>): seq<Byte> {
    LengthField(|copy|) + copy + LengthField(|sent|) + sent
  }

  function Encode(p: PDU): seq<Byte> {
    match p
    case SerialNotify(v, session, serial) => Header(v, SERIAL_NOTIFY, session, 12) + E32(serial)
    case SerialQuery(v, session, serial) => Header(v, SERIAL_QUERY, session, 12) + E32(serial)
    case ResetQuery(v) => Header(v, RESET_QUERY, 0, 8)
    case CacheResponse(v, session) => Header(v, CACHE_RESPONSE, session, 8)
    case IPv4Prefix(v, prefix, _, _, _) =>
      Header(v, IPV4_PREFIX, 0, 20) + PrefixBody(p, AddressBytes(To4(prefix.ip)))
    case IPv6Prefix(v, prefix, _, _, _) =>
      Header(v, IPV6_PREFIX, 0, 32) + PrefixBody(p, AddressBytes(To16(prefix.ip)))
    case EndOfData(v, session, serial, refresh, retry, expire) =>
      if v == 0 then Header(v, END_OF_DATA, session, 12) + E32(serial)
      else if v == 1 then
        Header(v, END_OF_DATA, session, 24) + (E32(serial) + E32(refresh) + E32(retry) + E32(expire))
      else E8(v) + E8(END_OF_DATA) + E16(session)
    case CacheReset(v) => Header(v, CACHE_RESET, 0, 8)
    case RouterKey(v, flags, ski, asn, spki) =>
      Header(v, ROUTER_KEY, flags * 256, 36) + (ski + E32(asn) + E32(spki))
    case ErrorReport(v, code, copy, text) =>
      Header(v, ERROR_REPORT, code, 16 + |copy| + |ErrorText(text)|) + ErrorBody(copy, ErrorText(text))
  }

  // ---- Decoding

  datatype Decoding = Decoded(pdu: PDU, rest: seq<Byte>) | Malformed(rest: seq<Byte>)

  /** The prefix announced by an IPv4 or IPv6 prefix body; the mask is nil when the length is impossible. */
  function BodyPrefix(body: seq<Byte>, bytes: nat): IPNet
    requires |body| == 8 + bytes
  {
    IPNet(body[4..4 + bytes], CIDRMask(body[1], 8 * bytes))
  }

  function ParseError(v: u8, code: u16, body: seq<Byte>): Option<PDU> {
    if |body| < 8 then None
    else
      var lenPdu := D32(body[..4]);
      if |body| < lenPdu + 8 then None
      else
        var lenText := D32(body[lenPdu + 4..lenPdu + 8]);
        if |body| < lenPdu + 8 + lenText then None
        else Some(ErrorReport(v, code, body[4..lenPdu + 4], body[lenPdu + 8..lenPdu + 8 + lenText]))
  }

  function ParseBody(v: u8, kind: u8, field: u16, body: seq<Byte>): Option<PDU> {
    if kind == SERIAL_NOTIFY then
      if |body| != 4 then None else Some(SerialNotify(v, field, D32(body)))
    else if kind == SERIAL_QUERY then
      if |body| != 4 then None else Some(SerialQuery(v, field, D32(body)))
    else if kind == RESET_QUERY then
      if |body| != 0 then None else Some(ResetQuery(v))
    else if kind == CACHE_RESPONSE then
      if |body| != 0 then None else Some(CacheResponse(v, field))
    else if kind == IPV4_PREFIX then
      if |body| != 12 then None
      else Some(IPv4Prefix(v, BodyPrefix(body, 4), body[2], D32(body[8..]), body[0]))
    else if kind == IPV6_PREFIX then
      if |body| != 24 then None
      else Some(IPv6Prefix(v, BodyPrefix(body, 16), body[2], D32(body[20..]), body[0]))
    else if kind == END_OF_DATA then
      if |body| == 4 then Some(EndOfData(v, field, D32(body), 0, 0, 0))
      else if |body| == 16 then
        Some(EndOfData(v, field, D32(body[..4]), D32(body[4..8]), D32(body[8..12]), D32(body[12..])))
      else None
    else if kind == CACHE_RESET then
      if |body| != 0 then None else Some(CacheReset(v))
    else if kind == ROUTER_KEY then
      if |body| != 28 then None
      else Some(RouterKey(v, 0, body[..20], D32(body[20..24]), D32(body[24..])))
    else if kind == ERROR_REPORT then ParseError(v, field, body)
    else None
  }

  /** One message off the front of a byte stream. A stream that ends early is used up; a bad length consumes the
      header only; a bad body consumes the whole message. */
  function Parse(s: seq<Byte>): Decoding {
    if |s| < 8 then Malformed([])
    else
      var length := D32(s[4..8]);
      if length < 8 || length > MESSAGE_MAX_SIZE then Malformed(s[8..])
      else if |s| < length then Malformed([])
      else
        match ParseBody(s[0], s[1], D16(s[2..4]), s[8..length])
        case None => Malformed(s[length..])
        case Some(p) => Decoded(p, s[length..])
  }

  // ---- Round trips

  /** Messages whose fields fit their wire format. */
  predicate WellFormed(p: PDU) {
    match p
    case IPv4Prefix(_, prefix, _, _, _) => |prefix.ip| == 4 && prefix.mask.CIDR? && prefix.mask.ones <= 32
    case IPv6Prefix(_, prefix, _, _, _) => |prefix.ip| == 16 && prefix.mask.CIDR? && prefix.mask.ones <= 128
    case EndOfData(v, _, _, _, _, _) => v <= 1
    case RouterKey(_, _, ski, _, _) => |ski| == 20
    case _ => true
  }

  /** What the receiver of a message sees: version 0 carries no intervals, Router Key flags are not read back, and
      an error text arrives with its terminating NUL. */
  function Received(p: PDU): PDU {
    match p
    case EndOfData(v, session, serial, _, _, _) => if v == 0 then EndOfData(v, session, serial, 0, 0, 0) else p
    case RouterKey(v, _, ski, asn, spki) => RouterKey(v, 0, ski, asn, spki)
    case ErrorReport(v, code, copy, text) => ErrorReport(v, code, copy, ErrorText(text))
    case _ => p
  }

  /** A header followed by a body of the announced length is parsed as that header and that body. */
  lemma ParseFramed(v: u8, kind: u8, field: u16, body: seq<Byte>, rest: seq<Byte>)
    requires 8 + |body| <= MESSAGE_MAX_SIZE
    ensures Parse(Header(v, kind, field, 8 + |body|) + body + rest) ==
            match ParseBody(v, kind, field, body)
            case None => Malformed(rest)
            case Some(p) => Decoded(p, rest)
  {
    var n := 8 + |body|;
    var s := Header(v, kind, field, n) + body + rest;
    assert s == Header(v, kind, field, n) + (body + rest);
    HeaderFields(v, kind, field, n, body + rest);
    assert s[8..n] == body && s[n..] == rest;
  }

  lemma HeaderFields(v: u8, kind: u8, field: u16, n: u32, tail: seq<Byte>)
    ensures var s := Header(v, kind, field, n) + tail;
            s[0] == v && s[1] == kind && D16(s[2..4]) == field && D32(s[4..8]) == n
  {
    var a, b, c, d := E8(v), E8(kind), E16(field), LengthField(n);
    var s := a + b + c + d + tail;
    RoundTrip16(field);
    LengthFieldRoundTrip(n);
    HeaderSlices(a, b, c, d, tail);
    assert s == Header(v, kind, field, n) + tail;
  }

  lemma HeaderSlices(a: seq<Byte>, b: seq<Byte>, c: seq<Byte>, d: seq<Byte>, tail: seq<Byte>)
    requires |a| == |b| == 1 && |c| == 2 && |d| == 4
    ensures var s := a + b + c + d + tail;
            s[0] == a[0] && s[1] == b[0] && s[2..4] == c && s[4..8] == d
  {
  }

  lemma PrefixBodyFields(p: PDU, bytes: nat)
    requires p.IPv4Prefix? || p.IPv6Prefix?
    requires |p.prefix.ip| == bytes <= 16 && p.prefix.mask.CIDR? && p.prefix.mask.ones <= 8 * bytes
    ensures var body := PrefixBody(p, p.prefix.ip);
            && |body| == 8 + bytes
            && BodyPrefix(body, bytes) == p.prefix
            && body[0] == p.flags && body[2] == p.maxLen
            && D32(body[4 + bytes..]) == p.asn
  {
    var body := PrefixBody(p, p.prefix.ip);
    assert body[4..4 + bytes] == p.prefix.ip;
    assert body[4 + bytes..] == E32(p.asn);
    RoundTrip32(p.asn);
  }

  lemma ErrorBodyFields(v: u8, code: u16, copy: seq<Byte>, sent: seq<Byte>)
    requires |copy| < 0x1_0000_0000 && |sent| < 0x1_0000_0000
    ensures |ErrorBody(copy, sent)| == 8 + |copy| + |sent|
    ensures ParseError(v, code, ErrorBody(copy, sent)) == Some(ErrorReport(v, code, copy, sent))
  {
    LengthFieldRoundTrip(|copy|);
    LengthFieldRoundTrip(|sent|);
    ErrorParts(v, code, LengthField(|copy|), copy, LengthField(|sent|), sent);
  }

  lemma ErrorParts(v: u8, code: u16, a: seq<Byte>, copy: seq<Byte>, b: seq<Byte>, text: seq<Byte>)
    requires |a| == |b| == 4 && D32(a) == |copy| && D32(b) == |text|
    ensures |a + copy + b + text| == 8 + |copy| + |text|
    ensures ParseError(v, code, a + copy + b + text) == Some(ErrorReport(v, code, copy, text))
  {
    var body, n := a + copy + b + text, |copy|;
    assert body[..4] == a && body[4..n + 4] == copy && body[n + 4..n + 8] == b;
    assert body[n + 8..n + 8 + |text|] == text;
  }

  lemma IntervalFields(serial: u32, refresh: u32, retry: u32, expire: u32)
    ensures var body := E32(serial) + E32(refresh) + E32(retry) + E32(expire);
            && |body| == 16
            && D32(body[..4]) == serial && D32(body[4..8]) == refresh
            && D32(body[8..12]) == retry && D32(body[12..]) == expire
  {
    var body := E32(serial) + E32(refresh) + E32(retry) + E32(expire);
    assert body[..4] == E32(serial) && body[4..8] == E32(refresh);
    assert body[8..12] == E32(retry) && body[12..] == E32(expire);
    RoundTrip32(serial);
    RoundTrip32(refresh);
    RoundTrip32(retry);
    RoundTrip32(expire);
  }

  lemma RouterKeyFields(ski: seq<Byte>, asn: u32, spki: u32)
    requires |ski| == 20
    ensures var body := ski + E32(asn) + E32(spki);
            |body| == 28 && body[..20] == ski && D32(body[20..24]) == asn && D32(body[24..]) == spki
  {
    var body := ski + E32(asn) + E32(spki);
    assert body[20..24] == E32(asn) && body[24..] == E32(spki);
    RoundTrip32(asn);
    RoundTrip32(spki);
  }

  /** Everything after the eight header bytes. */
  function Payload(p: PDU): seq<Byte> {
    match p
    case SerialNotify(_, _, serial) => E32(serial)
    case SerialQuery(_, _, serial) => E32(serial)
    case IPv4Prefix(_, prefix, _, _, _) => PrefixBody(p, prefix.ip)
    case IPv6Prefix(_, prefix, _, _, _) => PrefixBody(p, prefix.ip)
    case EndOfData(v, _, serial, refresh, retry, expire) =>
      if v == 0 then E32(serial) else E32(serial) + E32(refresh) + E32(retry) + E32(expire)
    case RouterKey(_, _, ski, asn, spki) => ski + E32(asn) + E32(spki)
    case ErrorReport(_, _, copy, text) => ErrorBody(copy, ErrorText(text))
    case _ => []
  }

  function Kind(p: PDU): u8 {
    match p
    case SerialNotify(_, _, _) => SERIAL_NOTIFY
    case SerialQuery(_, _, _) => SERIAL_QUERY
    case ResetQuery(_) => RESET_QUERY
    case CacheResponse(_, _) => CACHE_RESPONSE
    case IPv4Prefix(_, _, _, _, _) => IPV4_PREFIX
    case IPv6Prefix(_, _, _, _, _) => IPV6_PREFIX
    case EndOfData(_, _, _, _, _, _) => END_OF_DATA
    case CacheReset(_) => CACHE_RESET
    case RouterKey(_, _, _, _, _) => ROUTER_KEY
    case ErrorReport(_, _, _, _) => ERROR_REPORT
  }

  /** The two header bytes between type and length. */
  function HeaderField(p: PDU): u16 {
    match p
    case SerialNotify(_, session, _) => session
    case SerialQuery(_, session, _) => session
    case CacheResponse(_, session) => session
    case EndOfData(_, session, _, _, _, _) => session
    case RouterKey(_, flags, _, _, _) => flags * 256
    case ErrorReport(_, code, _, _) => code
    case _ => 0
  }

  /** A well-formed message is a header that announces its true length, followed by its payload. */
  lemma EncodeFramed(p: PDU)
    requires WellFormed(p)
    ensures Encode(p) == Header(p.version, Kind(p), HeaderField(p), 8 + |Payload(p)|) + Payload(p)
  {
  }

  /** The payload of a well-formed message parses back to what its receiver should see. */
  lemma PayloadParsed(p: PDU)
    requires WellFormed(p) && |Payload(p)| < 0x1_0000_0000
    ensures ParseBody(p.version, Kind(p), HeaderField(p), Payload(p)) == Some(Received(p))
  {
    match p
    case SerialNotify(_, _, serial) => RoundTrip32(serial);
    case SerialQuery(_, _, serial) => RoundTrip32(serial);
    case IPv4Prefix(_, _, _, _, _) => PrefixParsed(p);
    case IPv6Prefix(_, _, _, _, _) => PrefixParsed(p);
    case EndOfData(_, _, _, _, _, _) => EndOfDataParsed(p);
    case RouterKey(_, _, _, _, _) => RouterKeyParsed(p);
    case ErrorReport(_, _, _, _) => ErrorReportParsed(p);
    case _ =>
  }

  lemma PrefixParsed(p: PDU)
    requires WellFormed(p) && (p.IPv4Prefix? || p.IPv6Prefix?)
    ensures ParseBody(p.version, Kind(p), 0, Payload(p)) == Some(p)
  {
    PrefixBodyFields(p, if p.IPv4Prefix? then 4 else 16);
  }

  lemma EndOfDataParsed(p: PDU)
    requires WellFormed(p) && p.EndOfData?
    ensures ParseBody(p.version, END_OF_DATA, p.session, Payload(p)) == Some(Received(p))
  {
    RoundTrip32(p.serial);
    IntervalFields(p.serial, p.refresh, p.retry, p.expire);
  }

  lemma RouterKeyParsed(p: PDU)
    requires WellFormed(p) && p.RouterKey?
    ensures ParseBody(p.version, ROUTER_KEY, p.flags * 256, Payload(p)) == Some(Received(p))
  {
    RouterKeyFields(p.ski, p.asn, p.spki);
  }

  lemma ErrorReportParsed(p: PDU)
    requires p.ErrorReport? && |Payload(p)| < 0x1_0000_0000
    ensures ParseBody(p.version, ERROR_REPORT, p.code, Payload(p)) == Some(Received(p))
  {
    ErrorBodyFields(p.version, p.code, p.copy, ErrorText(p.text));
  }

  /** Every well-formed message of at most 2048 bytes comes back, whatever follows it on the stream. */
  lemma RoundTrip(p: PDU, rest: seq<Byte>)
    requires WellFormed(p) && |Encode(p)| <= MESSAGE_MAX_SIZE
    ensures Parse(Encode(p) + rest) == Decoded(Received(p), rest)
  {
    EncodeFramed(p);
    ParseFramed(p.version, Kind(p), HeaderField(p), Payload(p), rest);
    PayloadParsed(p);
  }

  /** A message over 2048 bytes, which only an Error Report can be, is refused. */
  lemma OversizeRefused(p: PDU, rest: seq<Byte>)
    requires WellFormed(p) && MESSAGE_MAX_SIZE < |Encode(p)| < 0x1_0000_0000
    ensures p.ErrorReport? && Parse(Encode(p) + rest).Malformed?
  {
    EncodeFramed(p);
    if !p.ErrorReport? {
      OnlyErrorReportsAreLong(p);
      assert false;
    }
    BadLengthRefused(p.version, Kind(p), HeaderField(p), 8 + |Payload(p)|, Payload(p), rest);
  }

  lemma OnlyErrorReportsAreLong(p: PDU)
    requires WellFormed(p) && !p.ErrorReport?
    ensures |Payload(p)| <= 28
  {
  }

  lemma BadLengthRefused(v: u8, kind: u8, field: u16, n: u32, body: seq<Byte>, rest: seq<Byte>)
    requires n > MESSAGE_MAX_SIZE
    ensures Parse(Header(v, kind, field, n) + body + rest).Malformed?
  {
    HeaderFields(v, kind, field, n, body + rest);
    assert Header(v, kind, field, n) + body + rest == Header(v, kind, field, n) + (body + rest);
  }

  /** Decoding is self-delimiting: success consumes exactly the length the header announces, and what follows
      the message changes nothing. */
  lemma SelfDelimiting(s: seq<Byte>, more: seq<Byte>)
    requires Parse(s).Decoded?
    ensures |s| >= 8 && 8 <= D32(s[4..8]) <= |s| && Parse(s).rest == s[D32(s[4..8])..]
    ensures Parse(s).pdu.version == s[0] && Kind(Parse(s).pdu) == s[1]
    ensures Parse(s + more) == Decoded(Parse(s).pdu, Parse(s).rest + more)
  {
    var t, n := s + more, D32(s[4..8]);
    assert t[4..8] == s[4..8] && t[2..4] == s[2..4];
    assert t[8..n] == s[8..n] && t[n..] == s[n..] + more;
  }

  // ---- Streams

  function EncodeAll(ps: seq<PDU>): seq<Byte> {
    if ps == [] then [] else Encode(ps[0]) + EncodeAll(ps[1..])
  }

  /** The messages a session reads off a stream before it ends or fails, and whether it was used up cleanly. */
  function ParseAll(s: seq<Byte>): (seq<PDU>, bool)
    decreases |s|
  {
    if s == [] then ([], true)
    else
      match Parse(s)
      case Malformed(_) => ([], false)
      case Decoded(p, rest) =>
        assert |rest| < |s| by { SelfDelimiting(s, []); }
        var (ps, ok) := ParseAll(rest);
        ([p] + ps, ok)
  }

  /** Reading a stream is reading one message and then the rest. */
  lemma ParseAllStep(s: seq<Byte>)
    ensures ParseAll(s) ==
            match Parse(s)
            case Malformed(_) => ([], s == [])
            case Decoded(p, rest) => ([p] + ParseAll(rest).0, ParseAll(rest).1)
  {
  }

  ghost predicate AllSendable(ps: seq<PDU>) {
    forall p | p in ps :: WellFormed(p) && |Encode(p)| <= MESSAGE_MAX_SIZE
  }

  function ReceivedAll(ps: seq<PDU>): seq<PDU> {
    seq(|ps|, i requires 0 <= i < |ps| => Received(ps[i]))
  }

  /** A stream of well-formed messages decodes, by repeated decoding, to the same messages with nothing left. */
  lemma {:induction false} StreamRoundTrip(ps: seq<PDU>)
    requires AllSendable(ps)
    ensures ParseAll(EncodeAll(ps)) == (ReceivedAll(ps), true)
  {
    if ps == [] {
      assert ReceivedAll(ps) == [];
    } else {
      var p, rest := ps[0], ps[1..];
      StreamRoundTrip(rest);
      RoundTrip(p, EncodeAll(rest));
      var s := Encode(p) + EncodeAll(rest);
      ParseAllStep(s);
      assert EncodeAll(ps) == s;
      assert ParseAll(s) == ([Received(p)] + ReceivedAll(rest), true);
      assert ReceivedAll(ps) == [Received(p)] + ReceivedAll(rest);
    }
  }
}
