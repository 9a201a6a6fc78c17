/** Writing messages to and reading them from a byte buffer, field by field (lib/structs.go, lib/client.go). */
module Wire {
  import opened Basics
  import opened Pdus

  class Buffer {
    var bytes: seq<Byte>

    constructor (initial: seq<Byte>)
      ensures bytes == initial
    {
      bytes := initial;
    }

    method Put(b: seq<Byte>)
      modifies this
      ensures bytes == old(bytes) + b
    {
      bytes := bytes + b;
    }

    /** The next `n` bytes, or failure after using up a buffer that holds fewer. */
    method Take(n: nat) returns (ok: bool, b: seq<Byte>)
      modifies this
      ensures ok <==> n <= |old(bytes)|
      ensures ok ==> b == old(bytes)[..n] && bytes == old(bytes)[n..]
      ensures !ok ==> bytes == []
    {
      if |bytes| < n {
        ok, b, bytes := false, bytes, [];
      } else {
        ok, b, bytes := true, bytes[..n], bytes[n..];
      }
    }
  }

  method WriteHeader(version: u8, kind: u8, field: u16, length: nat, wr: Buffer)
    modifies wr
    ensures wr.bytes == old(wr.bytes) + Header(version, kind, field, length)
  {
    ghost var was := wr.bytes;
    wr.Put(E8(version));
    wr.Put(E8(kind));
    wr.Put(E16(field));
    wr.Put(LengthField(length));
    assert wr.bytes == was + (E8(version) + E8(kind) + E16(field) + LengthField(length));
  }

  method WritePrefixBody(p: PDU, address: seq<Byte>, wr: Buffer)
    requires p.IPv4Prefix? || p.IPv6Prefix?
    modifies wr
    ensures wr.bytes == old(wr.bytes) + PrefixBody(p, address)
  {
    ghost var was := wr.bytes;
    wr.Put(E8(p.flags));
    wr.Put(E8(Size(p.prefix.mask) % 256));
    wr.Put(E8(p.maxLen));
    wr.Put(E8(0));
    wr.Put(address);
    wr.Put(E32(p.asn));
    assert wr.bytes == was + PrefixBody(p, address);
  }

  method WriteErrorBody(copy: seq<Byte>, text: seq<Byte>, wr: Buffer)
    modifies wr
    ensures wr.bytes == old(wr.bytes) + ErrorBody(copy, ErrorText(text))
  {
    ghost var was := wr.bytes;
    var addlen := if text != [] then 1 else 0;
    wr.Put(LengthField(|copy|));
    wr.Put(copy);
    wr.Put(LengthField(|text| + addlen));
    if text != [] {
      wr.Put(text);
      wr.Put(E8(0));
    }
    assert wr.bytes == was + (LengthField(|copy|) + copy + LengthField(|text| + addlen) + ErrorText(text));
  }

  method WriteFour(a: u32, b: u32, c: u32, d: u32, wr: Buffer)
    modifies wr
    ensures wr.bytes == old(wr.bytes) + (E32(a) + E32(b) + E32(c) + E32(d))
  {
    ghost var was := wr.bytes;
    wr.Put(E32(a));
    wr.Put(E32(b));
    wr.Put(E32(c));
    wr.Put(E32(d));
    assert wr.bytes == was + (E32(a) + E32(b) + E32(c) + E32(d));
  }

  method WriteFramed(version: u8, kind: u8, field: u16, length: nat, body: seq<Byte>, wr: Buffer)
    modifies wr
    ensures wr.bytes == old(wr.bytes) + (Header(version, kind, field, length) + body)
  {
    ghost var was := wr.bytes;
    WriteHeader(version, kind, field, length, wr);
    wr.Put(body);
    assert wr.bytes == was + (Header(version, kind, field, length) + body);
  }

  method WriteIPv4Prefix(p: PDU, wr: Buffer)
    requires p.IPv4Prefix?
    modifies wr
    ensures wr.bytes == old(wr.bytes) + Encode(p)
  {
    ghost var was, address := wr.bytes, AddressBytes(To4(p.prefix.ip));
    WriteHeader(p.version, IPV4_PREFIX, 0, 20, wr);
    WritePrefixBody(p, AddressBytes(To4(p.prefix.ip)), wr);
    Associate(was, Header(p.version, IPV4_PREFIX, 0, 20), PrefixBody(p, address));
  }

  method WriteIPv6Prefix(p: PDU, wr: Buffer)
    requires p.IPv6Prefix?
    modifies wr
    ensures wr.bytes == old(wr.bytes) + Encode(p)
  {
    ghost var was, address := wr.bytes, AddressBytes(To16(p.prefix.ip));
    WriteHeader(p.version, IPV6_PREFIX, 0, 32, wr);
    WritePrefixBody(p, AddressBytes(To16(p.prefix.ip)), wr);
    Associate(was, Header(p.version, IPV6_PREFIX, 0, 32), PrefixBody(p, address));
  }

  lemma Associate(a: seq<Byte>, b: seq<Byte>, c: seq<Byte>)
    ensures a + b + c == a + (b + c)
  {
  }

  method WriteEndOfData(p: PDU, wr: Buffer)
    requires p.EndOfData?
    modifies wr
    ensures wr.bytes == old(wr.bytes) + Encode(p)
  {
    ghost var was := wr.bytes;
    if p.version == 0 {
      WriteFramed(p.version, END_OF_DATA, p.session, 12, E32(p.serial), wr);
    } else if p.version == 1 {
      WriteHeader(p.version, END_OF_DATA, p.session, 24, wr);
      WriteFour(p.serial, p.refresh, p.retry, p.expire, wr);
      Associate(was, Header(p.version, END_OF_DATA, p.session, 24),
                E32(p.serial) + E32(p.refresh) + E32(p.retry) + E32(p.expire));
    } else {
      wr.Put(E8(p.version));
      wr.Put(E8(END_OF_DATA));
      wr.Put(E16(p.session));
      Associate(was, E8(p.version), E8(END_OF_DATA));
      Associate(was, E8(p.version) + E8(END_OF_DATA), E16(p.session));
    }
  }

  method WriteRouterKey(p: PDU, wr: Buffer)
    requires p.RouterKey?
    modifies wr
    ensures wr.bytes == old(wr.bytes) + Encode(p)
  {
    ghost var was := wr.bytes;
    WriteHeader(p.version, ROUTER_KEY, p.flags * 256, 36, wr);
    wr.Put(p.ski);
    wr.Put(E32(p.asn));
    wr.Put(E32(p.spki));
    assert wr.bytes == was + (Header(p.version, ROUTER_KEY, p.flags * 256, 36) + (p.ski + E32(p.asn) + E32(p.spki)));
  }

  method WriteErrorReport(p: PDU, wr: Buffer)
    requires p.ErrorReport?
    modifies wr
    ensures wr.bytes == old(wr.bytes) + Encode(p)
  {
    ghost var was := wr.bytes;
    var addlen := if p.text != [] then 1 else 0;
    WriteHeader(p.version, ERROR_REPORT, p.code, 12 + |p.copy| + 4 + |p.text| + addlen, wr);
    WriteErrorBody(p.copy, p.text, wr);
    assert wr.bytes == was + Encode(p);
  }

  /** The Write methods of all ten messages. */
  method Write(p: PDU, wr: Buffer)
    modifies wr
    ensures wr.bytes == old(wr.bytes) + Encode(p)
  {
    match p {
      case SerialNotify(v, session, serial) => WriteFramed(v, SERIAL_NOTIFY, session, 12, E32(serial), wr);
      case SerialQuery(v, session, serial) => WriteFramed(v, SERIAL_QUERY, session, 12, E32(serial), wr);
      case ResetQuery(v) => WriteHeader(v, RESET_QUERY, 0, 8, wr);
      case CacheResponse(v, session) => WriteHeader(v, CACHE_RESPONSE, session, 8, wr);
      case IPv4Prefix(_, _, _, _, _) => WriteIPv4Prefix(p, wr);
      case IPv6Prefix(_, _, _, _, _) => WriteIPv6Prefix(p, wr);
      case EndOfData(_, _, _, _, _, _) => WriteEndOfData(p, wr);
      case CacheReset(v) => WriteHeader(v, CACHE_RESET, 0, 8, wr);
      case RouterKey(_, _, _, _, _) => WriteRouterKey(p, wr);
      case ErrorReport(_, _, _, _) => WriteErrorReport(p, wr);
    }
  }

  /** Reads one message; every error leaves the buffer where the reader stopped. */
  method Decode(rd: Buffer) returns (p: Option<PDU>)
    modifies rd
    ensures rd.bytes == Parse(old(rd.bytes)).rest
    ensures p == match Parse(old(rd.bytes)) case Decoded(q, _) => Some(q) case Malformed(_) => None
  {
    ghost var s := rd.bytes;
    var ok, version := rd.Take(1);
    if !ok { return None; }
    var kind, field, length, body;
    ok, kind := rd.Take(1);
    if !ok { return None; }
    ok, field := rd.Take(2);
    if !ok { return None; }
    ok, length := rd.Take(4);
    if !ok { return None; }
    assert version[0] == s[0] && kind[0] == s[1] && field == s[2..4] && length == s[4..8] && rd.bytes == s[8..];
    var n := D32(length);
    if n < 8 { return None; }
    if n > MESSAGE_MAX_SIZE { return None; }
    ok, body := rd.Take(n - 8);
    if !ok { return None; }
    assert body == s[8..n] && rd.bytes == s[n..];
    p := ParseBody(version[0], kind[0], D16(field), body);
  }

  /** The receive loop of a session: decode and hand on messages until decoding fails. */
  method ReadMessages(rd: Buffer) returns (handled: seq<PDU>)
    modifies rd
    ensures handled == ParseAll(old(rd.bytes)).0
  {
    handled := [];
    ghost var all := ParseAll(rd.bytes).0;
    while true
      invariant all == handled + ParseAll(rd.bytes).0
      decreases |rd.bytes|
    {
      ghost var s := rd.bytes;
      ParseAllStep(s);
      var p := Decode(rd);
      if p == None {
        return;
      }
      SelfDelimiting(s, []);
      ghost var rest := ParseAll(rd.bytes).0;
      assert handled + ([p.value] + rest) == (handled + [p.value]) + rest;
      handled := handled + [p.value];
    }
  }
}
