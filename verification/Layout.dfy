/** What the messages look like byte by byte, in the terms of section 5 of RFC 6810 and section 5 of RFC 8210, and that
    the encoder and the decoder of lib/structs.go agree with it. */
module Layout {
  import opened Basics
  import opened Vrps
  import opened Pdus

  /** Two bytes spell `x`, the more significant one first. */
  predicate U16At(e: seq<Byte>, at: nat, x: int) {
    at + 2 <= |e| && x == 256 * (e[at] as int) + (e[at + 1] as int)
  }

  /** Four bytes spell `x`, the most significant one first. */
  predicate U32At(e: seq<Byte>, at: nat, x: int) {
    at + 4 <= |e| &&
    x == 16777216 * (e[at] as int) + 65536 * (e[at + 1] as int) + 256 * (e[at + 2] as int) + (e[at + 3] as int)
  }

  /** The bytes of exactly one message, as its receiver reads it. */
  predicate Spells(e: seq<Byte>, p: PDU) {
    && |e| >= 8 && e[0] == p.version && U32At(e, 4, |e|)
    && match p
       case SerialNotify(_, session, serial) =>
         e[1] == 0 && |e| == 12 && U16At(e, 2, session) && U32At(e, 8, serial)
       case SerialQuery(_, session, serial) =>
         e[1] == 1 && |e| == 12 && U16At(e, 2, session) && U32At(e, 8, serial)
       case ResetQuery(_) => e[1] == 2 && |e| == 8
       case CacheResponse(_, session) => e[1] == 3 && |e| == 8 && U16At(e, 2, session)
       case IPv4Prefix(_, prefix, maxLen, asn, flags) =>
         e[1] == 4 && |e| == 20 && SpellsPrefix(e, 4, prefix, maxLen, asn, flags)
       case IPv6Prefix(_, prefix, maxLen, asn, flags) =>
         e[1] == 6 && |e| == 32 && SpellsPrefix(e, 16, prefix, maxLen, asn, flags)
       case EndOfData(_, session, serial, refresh, retry, expire) =>
         && e[1] == 7 && U16At(e, 2, session) && U32At(e, 8, serial)
         && if |e| == 12 then refresh == retry == expire == 0
            else |e| == 24 && U32At(e, 12, refresh) && U32At(e, 16, retry) && U32At(e, 20, expire)
       case CacheReset(_) => e[1] == 8 && |e| == 8
       case RouterKey(_, flags, ski, asn, spki) =>
         e[1] == 9 && |e| == 36 && flags == 0 && e[8..28] == ski && U32At(e, 28, asn) && U32At(e, 32, spki)
       case ErrorReport(_, code, copy, text) =>
         && e[1] == 10 && U16At(e, 2, code) && |e| >= 16 + |copy| + |text|
         && U32At(e, 8, |copy|) && e[12..12 + |copy|] == copy
         && U32At(e, 12 + |copy|, |text|) && e[16 + |copy|..16 + |copy| + |text|] == text
  }

  /** Flags, prefix length, maximum length, a byte that is not read, the address and the AS number. An impossible prefix
      length gives a nil mask. */
  predicate SpellsPrefix(e: seq<Byte>, bytes: nat, prefix: IPNet, maxLen: u8, asn: u32, flags: u8)
    requires |e| == 16 + bytes
  {
    && e[8] == flags && e[10] == maxLen && U32At(e, 12 + bytes, asn)
    && prefix == IPNet(e[12..12 + bytes], if e[9] <= 8 * bytes then CIDR(e[9]) else NoMask)
  }

  // ---- Numbers

  /** Numbers go out most significant byte first. */
  lemma BigEndian(x: u16, y: u32)
    ensures |E16(x)| == 2 && U16At(E16(x), 0, x)
    ensures |E32(y)| == 4 && U32At(E32(y), 0, y)
  {
  }

  lemma ReadsU16(e: seq<Byte>, at: nat)
    requires at + 2 <= |e|
    ensures U16At(e, at, D16(e[at..at + 2]))
  {
  }

  lemma ReadsU32(e: seq<Byte>, at: nat)
    requires at + 4 <= |e|
    ensures U32At(e, at, D32(e[at..at + 4]))
  {
    var s := e[at..at + 4];
    assert s[..2] == e[at..at + 2] && s[2..] == e[at + 2..at + 4];
  }

  lemma BodyU32(e: seq<Byte>, at: nat)
    requires 8 <= at && at + 4 <= |e|
    ensures U32At(e, at, D32(e[8..][at - 8..at - 4]))
  {
    assert e[8..][at - 8..at - 4] == e[at..at + 4];
    ReadsU32(e, at);
  }

  // ---- The decoder

  /** The decoder reads a body as `p` iff the whole message spells `p`. */
  ghost predicate ReadAs(e: seq<Byte>, p: PDU)
    requires |e| >= 8
  {
    ParseBody(e[0], e[1], D16(e[2..4]), e[8..]) == Some(p)
  }

  lemma ShortRead(e: seq<Byte>, p: PDU)
    requires |e| >= 8 && U32At(e, 4, |e|)
    requires p.SerialNotify? || p.SerialQuery? || p.ResetQuery? || p.CacheResponse? || p.CacheReset?
    ensures ReadAs(e, p) <==> Spells(e, p)
  {
    ReadsU16(e, 2);
    if |e| == 12 {
      assert e[8..] == e[8..12];
      ReadsU32(e, 8);
    }
  }

  lemma PrefixRead(e: seq<Byte>, p: PDU)
    requires |e| >= 8 && U32At(e, 4, |e|) && (p.IPv4Prefix? || p.IPv6Prefix?)
    ensures ReadAs(e, p) <==> Spells(e, p)
  {
    var n := if p.IPv4Prefix? then 4 else 16;
    if |e| == 16 + n {
      assert e[8..][4..4 + n] == e[12..12 + n];
      assert e[8..][4 + n..] == e[12 + n..16 + n];
      ReadsU32(e, 12 + n);
    }
  }

  lemma EndOfDataRead(e: seq<Byte>, p: PDU)
    requires |e| >= 8 && U32At(e, 4, |e|) && p.EndOfData?
    ensures ReadAs(e, p) <==> Spells(e, p)
  {
    ReadsU16(e, 2);
    if |e| == 12 {
      assert e[8..] == e[8..12];
      ReadsU32(e, 8);
    } else if |e| == 24 {
      BodyU32(e, 8);
      BodyU32(e, 12);
      BodyU32(e, 16);
      BodyU32(e, 20);
      assert e[8..][12..] == e[8..][12..16];
    }
  }

  lemma RouterKeyRead(e: seq<Byte>, p: PDU)
    requires |e| >= 8 && U32At(e, 4, |e|) && p.RouterKey?
    ensures ReadAs(e, p) <==> Spells(e, p)
  {
    if |e| == 36 {
      assert e[8..][..20] == e[8..28];
      BodyU32(e, 28);
      BodyU32(e, 32);
      assert e[8..][24..] == e[8..][24..28];
    }
  }

  lemma ErrorRead(e: seq<Byte>, p: PDU)
    requires |e| >= 8 && U32At(e, 4, |e|) && p.ErrorReport?
    ensures ReadAs(e, p) <==> Spells(e, p)
  {
    ReadsU16(e, 2);
    ErrorBodyRead(e, p.version, p.code, p.copy, p.text);
  }

  lemma ErrorBodyRead(e: seq<Byte>, v: u8, code: u16, copy: seq<Byte>, text: seq<Byte>)
    requires |e| >= 8
    ensures ParseError(v, code, e[8..]) == Some(ErrorReport(v, code, copy, text)) <==>
              && |e| >= 16 + |copy| + |text|
              && U32At(e, 8, |copy|) && e[12..12 + |copy|] == copy
              && U32At(e, 12 + |copy|, |text|) && e[16 + |copy|..16 + |copy| + |text|] == text
  {
    var n, m := |copy|, |text|;
    if |e| >= 16 {
      BodySlice(e, 8, 12);
      ReadsU32(e, 8);
    }
    if |e| >= 16 + n {
      BodySlice(e, 12, 12 + n);
      BodySlice(e, 12 + n, 16 + n);
      ReadsU32(e, 12 + n);
    }
    if |e| >= 16 + n + m {
      BodySlice(e, 16 + n, 16 + n + m);
    }
  }

  lemma BodySlice(e: seq<Byte>, i: nat, j: nat)
    requires 8 <= i <= j <= |e|
    ensures e[8..][i - 8..j - 8] == e[i..j]
  {
  }

  lemma ReadExactly(e: seq<Byte>, p: PDU)
    requires |e| >= 8 && U32At(e, 4, |e|)
    ensures ReadAs(e, p) <==> Spells(e, p)
  {
    match p
    case IPv4Prefix(_, _, _, _, _) => PrefixRead(e, p);
    case IPv6Prefix(_, _, _, _, _) => PrefixRead(e, p);
    case EndOfData(_, _, _, _, _, _) => EndOfDataRead(e, p);
    case RouterKey(_, _, _, _, _) => RouterKeyRead(e, p);
    case ErrorReport(_, _, _, _) => ErrorRead(e, p);
    case _ => ShortRead(e, p);
  }

  /** Decoding takes `e` off a stream as message `p` iff `e` spells `p` and is at most 2048 bytes long. */
  lemma DecodesExactly(e: seq<Byte>, rest: seq<Byte>, p: PDU)
    ensures Parse(e + rest) == Decoded(p, rest) <==> Spells(e, p) && |e| <= 2048
  {
    var s := e + rest;
    if Parse(s) == Decoded(p, rest) {
      SelfDelimiting(s, []);
      assert |e| == D32(s[4..8]);
    }
    if |e| >= 8 {
      assert s[4..8] == e[4..8] && s[2..4] == e[2..4] && s[..8] == e[..8];
      ReadsU32(e, 4);
      if D32(e[4..8]) == |e| {
        assert s[8..|e|] == e[8..] && s[|e|..] == rest;
        ReadExactly(e, p);
      }
    }
  }

  // ---- The encoder

  /** A message spells what its receiver should see: itself, except that version 0 carries no intervals, Router Key
      flags are not read, and an error text ends in a NUL. The bytes that are not read are the Router Key flags and
      zeros. */
  lemma MessageLayout(p: PDU)
    requires WellFormed(p) && |Encode(p)| < 0x1_0000_0000
    ensures Spells(Encode(p), match p
              case EndOfData(v, session, serial, _, _, _) =>
                if v == 0 then EndOfData(v, session, serial, 0, 0, 0) else p
              case RouterKey(v, _, ski, asn, spki) => RouterKey(v, 0, ski, asn, spki)
              case ErrorReport(v, code, copy, text) => ErrorReport(v, code, copy, if text == [] then [] else text + [0])
              case _ => p)
    ensures |Encode(p)| >= 8 && UnreadBytes(p, Encode(p))
  {
    SpellsReceived(p);
    Unread(p);
  }

  lemma SpellsReceived(p: PDU)
    requires WellFormed(p) && |Encode(p)| < 0x1_0000_0000
    ensures Spells(Encode(p), Received(p))
  {
    EncodeFramed(p);
    var e, n := Encode(p), 8 + |Payload(p)|;
    assert |e| == n;
    HeaderFields(p.version, Kind(p), HeaderField(p), n, Payload(p));
    assert e[8..] == Payload(p);
    PayloadParsed(p);
    ReadsU32(e, 4);
    ReadExactly(e, Received(p));
  }

  predicate UnreadBytes(p: PDU, e: seq<Byte>)
    requires |e| >= 8
  {
    match p
    case ResetQuery(_) => e[2] == e[3] == 0
    case IPv4Prefix(_, _, _, _, _) => |e| == 20 && e[2] == e[3] == e[11] == 0
    case IPv6Prefix(_, _, _, _, _) => |e| == 32 && e[2] == e[3] == e[11] == 0
    case EndOfData(v, _, _, _, _, _) => |e| == if v == 0 then 12 else 24
    case CacheReset(_) => e[2] == e[3] == 0
    case RouterKey(_, flags, _, _, _) => e[2] == flags && e[3] == 0
    case ErrorReport(_, _, copy, text) => |e| == 16 + |copy| + (if text == [] then 0 else |text| + 1)
    case _ => true
  }

  lemma Unread(p: PDU)
    requires WellFormed(p)
    ensures |Encode(p)| >= 8 && UnreadBytes(p, Encode(p))
  {
    EncodeFramed(p);
    BigEndian(HeaderField(p), 0);
  }
}
