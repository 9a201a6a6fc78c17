/** Prefixes as bytes: masks, last addresses and containment (prefixfile/prefixfile.go, and the IPNet.Contains of
    the Go net package that it is used with). */
module Prefixes {
  import opened Basics
  import opened Vrps

  /** An IPv4 or IPv6 address as bytes that bit operations apply to. */
  type Address = seq<bv8>

  /** A network: an address and the number of leading bits that count. */
  datatype Net = Net(ip: Address, ones: nat)

  /** A byte whose `k` leading bits are ones. */
  function OnesByte(k: nat): bv8
    requires k <= 8
  {
    if k == 0 then 0 else if k == 1 then 128 else if k == 2 then 192 else if k == 3 then 224
    else if k == 4 then 240 else if k == 5 then 248 else if k == 6 then 252 else if k == 7 then 254 else 255
  }

  /** How many of the leading `ones` bits of an address fall into byte `i`. */
  function OnesIn(ones: nat, i: nat): (k: nat)
    ensures k <= 8
  {
    if ones <= 8 * i then 0 else if ones >= 8 * i + 8 then 8 else ones - 8 * i
  }

  /** Byte `i` of the mask with `ones` leading ones. */
  function MaskByte(ones: nat, i: nat): bv8 {
    OnesByte(OnesIn(ones, i))
  }

  /** Two bytes agree on the bits of a mask. */
  predicate Agree(a: bv8, b: bv8, m: bv8) {
    a & m == b & m
  }

  /** A byte has no bits outside a mask. */
  predicate Clean(b: bv8, m: bv8) {
    b & m == b
  }

  /** A byte with every bit outside a mask set. */
  function Fill(b: bv8, m: bv8): bv8 {
    b | !m
  }

  /** What parsing a CIDR string yields: an IPv4 or IPv6 network address without host bits, and a mask that fits. */
  predicate IsNetwork(n: Net) {
    && (|n.ip| == 4 || |n.ip| == 16)
    && n.ones <= 8 * |n.ip|
    && forall i | 0 <= i < |n.ip| :: Clean(n.ip[i], MaskByte(n.ones, i))
  }

  /** The last address of a network: every bit outside the mask set. */
  function LastAddress(n: Net): (a: Address)
    ensures |a| == |n.ip|
    ensures forall i | 0 <= i < |a| :: a[i] == Fill(n.ip[i], MaskByte(n.ones, i))
  {
    seq(|n.ip|, i requires 0 <= i < |n.ip| => Fill(n.ip[i], MaskByte(n.ones, i)))
  }

  method GetIPBroadcast(n: Net) returns (last: Address)
    ensures last == LastAddress(n)
  {
    var br := new bv8[|n.ip|];
    for i := 0 to |n.ip|
      invariant forall j | 0 <= j < i :: br[j] == Fill(n.ip[j], MaskByte(n.ones, j))
    {
      br[i] := Fill(n.ip[i], MaskByte(n.ones, i));
    }
    last := br[..];
  }

  // ---- Membership and coverage

  /** Address `a` lies in network `n`: it agrees with it on every masked bit. */
  predicate Member(n: Net, a: Address) {
    |a| == |n.ip| && forall i | 0 <= i < |a| :: Agree(a[i], n.ip[i], MaskByte(n.ones, i))
  }

  /** Every address of `r` is an address of `f`. */
  ghost predicate Covers(f: Net, r: Net) {
    forall a | Member(r, a) :: Member(f, a)
  }

  /** Bit `j` of a byte, the most significant one first. */
  function Bit(j: nat): bv8
    requires j < 8
  {
    if j == 0 then 128 else if j == 1 then 64 else if j == 2 then 32 else if j == 3 then 16
    else if j == 4 then 8 else if j == 5 then 4 else if j == 6 then 2 else 1
  }

  predicate SameBit(a: bv8, b: bv8, j: nat)
    requires j < 8
  {
    Agree(a, b, Bit(j))
  }

  /** The first `n` bits of two addresses agree. */
  ghost predicate LeadingBitsAgree(a: Address, b: Address, n: nat)
    requires |a| == |b|
  {
    forall i, j | 0 <= i < |a| && 0 <= j < 8 && 8 * i + j < n :: SameBit(a[i], b[i], j)
  }

  // ---- One byte

  /** If both ends of a range agree with `f` under its mask, that mask lies inside the range's and the whole range
      agrees with `f`. */
  lemma EndsOfByte(r: bv8, rm: bv8, f: bv8, fm: bv8, a: bv8)
    requires Clean(r, rm)
    requires Agree(r, f, fm) && Agree(Fill(r, rm), f, fm)
    ensures fm & !rm == 0
    ensures Agree(a, r, rm) ==> Agree(a, f, fm)
  {
  }

  lemma CoarserByte(k: nat, fine: nat)
    requires k <= fine <= 8
    ensures OnesByte(k) & !OnesByte(fine) == 0
  {
  }

  lemma FinerByte(k: nat, fine: nat)
    requires k < fine <= 8
    ensures OnesByte(fine) & !OnesByte(k) != 0
  {
  }

  lemma InsideMask(a: bv8, r: bv8, f: bv8, rm: bv8, fm: bv8)
    requires fm & !rm == 0 && Agree(a, r, rm) && Agree(r, f, fm)
    ensures Agree(a, f, fm)
  {
  }

  /** Agreement on two masks is agreement on their union. */
  lemma AgreeUnion(a: bv8, b: bv8, m: bv8, m': bv8)
    ensures Agree(a, b, m | m') <==> Agree(a, b, m) && Agree(a, b, m')
  {
    if Agree(a, b, m | m') {
      AgreePart(a, b, m | m', m);
      AgreePart(a, b, m | m', m');
    }
    MaskUnion(a, m, m');
    MaskUnion(b, m, m');
  }

  lemma AgreePart(a: bv8, b: bv8, m: bv8, part: bv8)
    requires Agree(a, b, m) && part & !m == 0
    ensures Agree(a, b, part)
  {
    InsideMask(a, b, b, m, part);
  }

  lemma MaskUnion(a: bv8, m: bv8, m': bv8)
    ensures a & (m | m') == (a & m) | (a & m')
    ensures m & !(m | m') == 0
  {
  }

  lemma NextBit(k: nat)
    requires k < 8
    ensures OnesByte(k + 1) == OnesByte(k) | Bit(k)
  {
  }

  lemma OneMoreBit(a: bv8, b: bv8, k: nat)
    requires k < 8
    ensures Agree(a, b, OnesByte(k + 1)) <==> Agree(a, b, OnesByte(k)) && SameBit(a, b, k)
  {
    NextBit(k);
    AgreeUnion(a, b, OnesByte(k), Bit(k));
  }

  /** Two bytes agree under a mask of `k` leading ones iff their first `k` bits agree. */
  lemma {:induction false} BitsOfByte(a: bv8, b: bv8, k: nat)
    requires k <= 8
    ensures Agree(a, b, OnesByte(k)) <==> forall j | 0 <= j < k :: SameBit(a, b, j)
  {
    if k == 0 {
    } else {
      BitsOfByte(a, b, k - 1);
      OneMoreBit(a, b, k - 1);
    }
  }

  // ---- Whole addresses

  lemma NetworkEnds(n: Net)
    requires IsNetwork(n)
    ensures Member(n, n.ip) && Member(n, LastAddress(n))
  {
    forall i | 0 <= i < |n.ip| ensures Agree(LastAddress(n)[i], n.ip[i], MaskByte(n.ones, i)) {
      FillKeepsMasked(n.ip[i], MaskByte(n.ones, i));
    }
  }

  lemma FillKeepsMasked(b: bv8, m: bv8)
    ensures Agree(Fill(b, m), b, m)
  {
  }

  /** A network that contains the first and the last address of another covers it, and has no longer a mask. */
  lemma EndsCover(f: Net, r: Net)
    requires IsNetwork(f) && IsNetwork(r) && Member(f, r.ip) && Member(f, LastAddress(r))
    ensures Covers(f, r) && f.ones <= r.ones
  {
    forall a | Member(r, a) ensures Member(f, a) {
      EndsContain(f, r, a);
    }
    EndsMask(f, r);
  }

  lemma EndsContain(f: Net, r: Net, a: Address)
    requires IsNetwork(r) && Member(f, r.ip) && Member(f, LastAddress(r)) && Member(r, a)
    ensures Member(f, a)
  {
    forall i | 0 <= i < |a| ensures Agree(a[i], f.ip[i], MaskByte(f.ones, i)) {
      assert Member(f, LastAddress(r));
      EndsOfByte(r.ip[i], MaskByte(r.ones, i), f.ip[i], MaskByte(f.ones, i), a[i]);
    }
  }

  lemma EndsMask(f: Net, r: Net)
    requires IsNetwork(f) && IsNetwork(r) && Member(f, r.ip) && Member(f, LastAddress(r))
    ensures f.ones <= r.ones
  {
    if r.ones < f.ones {
      var i := r.ones / 8;
      FirstByteThatDiffers(r.ones, f.ones);
      assert Member(f, LastAddress(r)) && Clean(r.ip[i], MaskByte(r.ones, i));
      EndsMaskByte(r.ip[i], f.ip[i], OnesIn(r.ones, i), OnesIn(f.ones, i));
      assert false;
    }
  }

  lemma FirstByteThatDiffers(fewer: nat, more: nat)
    requires fewer < more
    ensures OnesIn(fewer, fewer / 8) < OnesIn(more, fewer / 8)
  {
  }

  lemma EndsMaskByte(r: bv8, f: bv8, rk: nat, fk: nat)
    requires rk <= 8 && fk <= 8 && Clean(r, OnesByte(rk))
    requires Agree(r, f, OnesByte(fk)) && Agree(Fill(r, OnesByte(rk)), f, OnesByte(fk))
    ensures fk <= rk
  {
    EndsOfByte(r, OnesByte(rk), f, OnesByte(fk), 0);
    if rk < fk {
      FinerByte(rk, fk);
      assert false;
    }
  }

  lemma ShorterMaskCovers(f: Net, r: Net)
    requires IsNetwork(f) && IsNetwork(r) && f.ones <= r.ones && Member(f, r.ip)
    ensures Covers(f, r)
  {
    forall a, i | Member(r, a) && 0 <= i < |a|
      ensures Agree(a[i], f.ip[i], MaskByte(f.ones, i))
    {
      CoarserByte(OnesIn(f.ones, i), OnesIn(r.ones, i));
      InsideMask(a[i], r.ip[i], f.ip[i], MaskByte(r.ones, i), MaskByte(f.ones, i));
    }
  }

  lemma MemberIsLeadingBits(f: Net, a: Address)
    requires IsNetwork(f) && |a| == |f.ip|
    ensures Member(f, a) <==> LeadingBitsAgree(a, f.ip, f.ones)
  {
    forall i | 0 <= i < |a|
      ensures Agree(a[i], f.ip[i], MaskByte(f.ones, i)) <==>
              forall j | 0 <= j < OnesIn(f.ones, i) :: SameBit(a[i], f.ip[i], j)
    {
      BitsOfByte(a[i], f.ip[i], OnesIn(f.ones, i));
    }
  }

  /** For networks of one family, containing both end addresses, covering every address, and having no longer a mask
      with agreeing leading bits are the same thing. */
  lemma EndpointsAreCoverage(f: Net, r: Net)
    requires IsNetwork(f) && IsNetwork(r) && |f.ip| == |r.ip|
    ensures Member(f, r.ip) && Member(f, LastAddress(r)) <==> Covers(f, r)
    ensures Covers(f, r) <==> f.ones <= r.ones && LeadingBitsAgree(r.ip, f.ip, f.ones)
  {
    NetworkEnds(r);
    MemberIsLeadingBits(f, r.ip);
    if Member(f, r.ip) && Member(f, LastAddress(r)) {
      EndsCover(f, r);
    }
    if f.ones <= r.ones && Member(f, r.ip) {
      ShorterMaskCovers(f, r);
    }
  }

  // ---- Contains, with the library's preference for four-byte addresses

  /** An IPv4 address written as a 16-byte one. */
  predicate IsMapped(a: Address) {
    |a| == 16 && (forall i | 0 <= i < 10 :: a[i] == 0) && a[10] == 255 && a[11] == 255
  }

  /** The shortest form: a mapped address loses its 12-byte prefix. */
  function Shorten(a: Address): Address {
    if IsMapped(a) then a[12..] else a
  }

  function To16(a: Address): Address {
    if |a| == 4 then [0, 0, 0, 0, 0, 0, 0, 0, 0, 0, 255, 255] + a else a
  }

  /** IPNet.Contains: both sides in their shortest form, equal lengths, equal masked bytes. */
  predicate Contains(f: Net, a: Address) {
    var nn, x := Shorten(f.ip), Shorten(a);
    var skip := |f.ip| - |nn|;
    AgreeFrom(x, nn, f.ones, skip)
  }

  /** The prefix test of a SLURM filter: both end addresses, widened to 16 bytes, are contained. */
  predicate MatchesPrefix(f: Net, r: Net) {
    Contains(f, To16(r.ip)) && Contains(f, To16(LastAddress(r)))
  }

  /** A network of IPv4-mapped addresses as the IPv4 network it stands for; any other network as it is. */
  function Narrow(n: Net): Net {
    if IsMapped(n.ip) && n.ones >= 96 then Net(n.ip[12..], n.ones - 96) else n
  }

  /** The network address of a mapped network fixes its mask to cover the mapped prefix. */
  lemma MappedMask(n: Net)
    requires IsNetwork(n) && IsMapped(n.ip)
    ensures n.ones >= 96
  {
    assert Clean(n.ip[11], MaskByte(n.ones, 11));
    LowBitNeedsFullMask(OnesIn(n.ones, 11));
  }

  lemma NarrowMask(n: Net, i: nat)
    requires IsNetwork(n) && IsMapped(n.ip) && i < 4
    ensures n.ones >= 96 && MaskByte(n.ones, i + 12) == MaskByte(n.ones - 96, i)
  {
    MappedMask(n);
  }

  lemma NarrowNetwork(n: Net)
    requires IsNetwork(n)
    ensures IsNetwork(Narrow(n)) && Narrow(n).ip == Shorten(n.ip)
  {
    if IsMapped(n.ip) {
      MappedMask(n);
      forall i | 0 <= i < 4 ensures Clean(n.ip[12..][i], MaskByte(n.ones - 96, i)) {
        NarrowMask(n, i);
        assert Clean(n.ip[i + 12], MaskByte(n.ones, i + 12));
      }
    }
  }

  /** The mask bytes that count for a shortened address are those of the narrowed network. */
  lemma NarrowMasks(f: Net)
    requires IsNetwork(f) && IsMapped(f.ip)
    ensures forall i | 0 <= i < 4 :: MaskByte(Narrow(f).ones, i) == MaskByte(f.ones, i + 12)
  {
    forall i | 0 <= i < 4 ensures MaskByte(Narrow(f).ones, i) == MaskByte(f.ones, i + 12) {
      NarrowMask(f, i);
    }
  }

  lemma ShortenWidened(a: Address)
    requires |a| == 4 || |a| == 16
    ensures Shorten(To16(a)) == Shorten(a)
  {
    assert |a| == 4 ==> To16(a)[12..] == a;
  }

  /** Two addresses agree under the mask bytes from `skip` on. */
  predicate AgreeFrom(a: Address, b: Address, ones: nat, skip: nat) {
    |a| == |b| && forall i | 0 <= i < |a| :: Agree(a[i], b[i], MaskByte(ones, i + skip))
  }

  lemma AgreeShifted(a: Address, b: Address, ones: nat, skip: nat, ones': nat)
    requires forall i | 0 <= i < |b| :: MaskByte(ones', i) == MaskByte(ones, i + skip)
    ensures AgreeFrom(a, b, ones, skip) <==> AgreeFrom(a, b, ones', 0)
  {
    if AgreeFrom(a, b, ones, skip) {
      forall i | 0 <= i < |a| ensures Agree(a[i], b[i], MaskByte(ones', i + 0)) {
        assert MaskByte(ones', i) == MaskByte(ones, i + skip);
      }
    }
    if AgreeFrom(a, b, ones', 0) {
      forall i | 0 <= i < |a| ensures Agree(a[i], b[i], MaskByte(ones, i + skip)) {
        assert MaskByte(ones', i) == MaskByte(ones, i + skip);
        assert Agree(a[i], b[i], MaskByte(ones', i + 0));
      }
    }
  }

  lemma MemberAgrees(n: Net, a: Address)
    ensures Member(n, a) <==> AgreeFrom(a, n.ip, n.ones, 0)
  {
    assert AgreeFrom(a, n.ip, n.ones, 0) ==> forall i | 0 <= i < |a| ::
      Agree(a[i], n.ip[i], MaskByte(n.ones, i + 0));
  }

  lemma ContainsAgrees(f: Net, a: Address)
    requires IsNetwork(f)
    ensures Contains(f, a) <==> AgreeFrom(Shorten(a), Shorten(f.ip), Narrow(f).ones, 0)
  {
    if IsMapped(f.ip) {
      NarrowMasks(f);
      AgreeShifted(Shorten(a), Shorten(f.ip), f.ones, 12, Narrow(f).ones);
    }
  }

  /** Containment is membership of the shortened address in the narrowed network. */
  lemma ContainsIsMember(f: Net, a: Address)
    requires IsNetwork(f) && (|a| == 4 || |a| == 16)
    ensures Contains(f, To16(a)) <==> Member(Narrow(f), Shorten(a))
  {
    ShortenWidened(a);
    NarrowNetwork(f);
    ContainsAgrees(f, To16(a));
    MemberAgrees(Narrow(f), Shorten(a));
  }

  /** The last address of a mapped network is the mapped last address of the IPv4 network it stands for. */
  lemma MappedLast(r: Net)
    requires IsNetwork(r) && IsMapped(r.ip)
    ensures IsMapped(LastAddress(r)) && Shorten(LastAddress(r)) == LastAddress(Narrow(r))
  {
    MappedMask(r);
    forall i | 0 <= i < 12 ensures LastAddress(r)[i] == r.ip[i] {
      assert MaskByte(r.ones, i) == 255;
      FullMask(r.ip[i]);
    }
    forall i | 0 <= i < 4 ensures LastAddress(r)[i + 12] == LastAddress(Narrow(r))[i] {
      NarrowMask(r, i);
    }
  }

  lemma LowBitNeedsFullMask(k: nat)
    requires k <= 8 && 255 & OnesByte(k) == 255
    ensures k == 8
  {
  }

  lemma FullMask(b: bv8)
    ensures b | !(255 as bv8) == b
  {
  }

  /** Networks of any families: containing both ends is coverage. */
  lemma EndsAreCoverage(f: Net, r: Net)
    requires IsNetwork(f) && IsNetwork(r)
    ensures Member(f, r.ip) && Member(f, LastAddress(r)) <==> Covers(f, r)
  {
    NetworkEnds(r);
    if |f.ip| == |r.ip| {
      EndpointsAreCoverage(f, r);
    }
  }

  /** A network has a mapped first address only if its last one is mapped too; the ends of the narrowed network are
      then the shortened ends. */
  lemma NarrowEnds(r: Net)
    requires IsNetwork(r)
    ensures Narrow(r).ip == Shorten(r.ip)
    ensures IsMapped(r.ip) ==> IsMapped(LastAddress(r))
    ensures |Shorten(r.ip)| == |Shorten(LastAddress(r))| ==> Shorten(LastAddress(r)) == LastAddress(Narrow(r))
  {
    NarrowNetwork(r);
    if IsMapped(r.ip) {
      MappedLast(r);
    }
  }

  /** The filter's prefix test is true coverage, with networks of IPv4-mapped addresses standing for IPv4 ones, except
      that it also fails for every network that only ends on an IPv4-mapped address. */
  lemma MatchesPrefixExactly(f: Net, r: Net)
    requires IsNetwork(f) && IsNetwork(r)
    ensures MatchesPrefix(f, r) <==>
              Covers(Narrow(f), Narrow(r)) && (IsMapped(LastAddress(r)) ==> IsMapped(r.ip))
  {
    MatchesEnds(f, r, Narrow(f));
    NarrowEnds(r);
    NarrowNetwork(f);
    NarrowNetwork(r);
    EndsAreCoverage(Narrow(f), Narrow(r));
  }

  lemma MatchesEnds(f: Net, r: Net, n: Net)
    requires IsNetwork(f) && IsNetwork(r) && n == Narrow(f)
    ensures MatchesPrefix(f, r) <==> Member(n, Shorten(r.ip)) && Member(n, Shorten(LastAddress(r)))
  {
    ContainsIsMember(f, r.ip);
    ContainsIsMember(f, LastAddress(r));
  }

  /** The filter ::ffff:0:0/96 matches every IPv4 network. */
  lemma MappedFilterMatchesIPv4(f: Net, r: Net)
    requires IsNetwork(f) && IsMapped(f.ip) && f.ones == 96
    requires IsNetwork(r) && |r.ip| == 4
    ensures MatchesPrefix(f, r)
  {
    NarrowNetwork(f);
    forall a | Member(r, a) ensures Member(Narrow(f), a) {
      ZeroMask(a, Narrow(f).ip);
    }
    MatchesPrefixExactly(f, r);
  }

  lemma ZeroMask(a: Address, b: Address)
    ensures forall i | 0 <= i < |a| && i < |b| :: Agree(a[i], b[i], MaskByte(0, i))
  {
    forall i | 0 <= i < |a| && i < |b| ensures Agree(a[i], b[i], MaskByte(0, i)) {
      ZeroMasked(a[i]);
      ZeroMasked(b[i]);
    }
  }

  /** The network ::/ones. */
  function ZeroNet(ones: nat): (n: Net)
    ensures |n.ip| == 16 && n.ones == ones && forall i | 0 <= i < 16 :: n.ip[i] == 0
  {
    Net(seq(16, i => 0 as bv8), ones)
  }

  lemma ZeroNetIsNetwork(ones: nat)
    requires ones <= 128
    ensures IsNetwork(ZeroNet(ones)) && !IsMapped(ZeroNet(ones).ip)
  {
    var n := ZeroNet(ones);
    forall i | 0 <= i < 16 ensures Clean(n.ip[i], MaskByte(ones, i)) {
      ZeroMasked(MaskByte(ones, i));
    }
    assert n.ip[10] == 0;
  }

  lemma ZeroMasked(m: bv8)
    ensures (0 as bv8) & m == 0 && m & (0 as bv8) == 0
  {
  }

  lemma LastOfEighty()
    ensures IsMapped(LastAddress(ZeroNet(80)))
  {
    var r := ZeroNet(80);
    forall i | 0 <= i < 12 ensures LastAddress(r)[i] == if i < 10 then 0 else 255 {
      assert OnesIn(80, i) == if i < 10 then 8 else 0;
    }
  }

  /** For example ::/80 is covered by ::/0 but not matched by it. */
  lemma CoveredButNotMatched()
    ensures IsNetwork(ZeroNet(0)) && IsNetwork(ZeroNet(80))
    ensures Covers(ZeroNet(0), ZeroNet(80)) && !MatchesPrefix(ZeroNet(0), ZeroNet(80))
  {
    var f, r := ZeroNet(0), ZeroNet(80);
    ZeroNetIsNetwork(0);
    ZeroNetIsNetwork(80);
    ShorterMaskCovers(f, r);
    LastOfEighty();
    MatchesPrefixExactly(f, r);
  }

  /** A byte as a bit vector, bit by bit. */
  function BitsOf(b: Byte): bv8 {
    if b == 0 then 0 else (BitsOf(b / 2) << 1) | (if b % 2 == 0 then 0 else 1)
  }

  lemma NextDigit(x: bv8, odd: bool)
    requires x as int < 128
    ensures ((x << 1) | (if odd then 1 else 0)) as int == 2 * (x as int) + (if odd then 1 else 0)
  {
  }

  /** It keeps its value. */
  lemma {:induction false} BitsOfValue(b: Byte)
    ensures BitsOf(b) as int == b
  {
    if b == 0 {
    } else {
      BitsOfValue(b / 2);
      NextDigit(BitsOf(b / 2), b % 2 == 1);
    }
  }

  /** The network of a parsed prefix. */
  function NetOf(n: IPNet): Net {
    Net(seq(|n.ip|, i requires 0 <= i < |n.ip| => BitsOf(n.ip[i])), match n.mask case NoMask => 0 case CIDR(k) => k)
  }

  /** It has the same bytes in the same order, and as many leading ones as the mask. */
  lemma NetOfBytes(n: IPNet)
    ensures |NetOf(n).ip| == |n.ip| && forall i | 0 <= i < |n.ip| :: NetOf(n).ip[i] as int == n.ip[i]
    ensures n.mask.CIDR? ==> NetOf(n).ones == n.mask.ones
    ensures n.mask.NoMask? ==> NetOf(n).ones == 0
  {
    forall i | 0 <= i < |n.ip| ensures NetOf(n).ip[i] as int == n.ip[i] {
      BitsOfValue(n.ip[i]);
    }
  }
}
