/** Addresses as numbers: a network is the range of 2^h addresses from its own on, where h is the number of host
    bits. */
module Ranges {
  import opened Prefixes

  function Pow2(n: nat): (p: nat)
    ensures p >= 1
  {
    if n == 0 then 1 else 2 * Pow2(n - 1)
  }

  /** The number an address spells out, most significant byte first. */
  function Value(a: Address): nat {
    if a == [] then 0 else (a[0] as int) * Pow2(8 * (|a| - 1)) + Value(a[1..])
  }

  /** A network address without host bits, of any number of bytes. */
  predicate NoHostBits(n: Net) {
    n.ones <= 8 * |n.ip| && forall i | 0 <= i < |n.ip| :: Clean(n.ip[i], MaskByte(n.ones, i))
  }

  function HostBits(n: Net): nat
    requires n.ones <= 8 * |n.ip|
  {
    8 * |n.ip| - n.ones
  }

  // ---- One byte

  lemma Powers()
    ensures Pow2(0) == 1 && Pow2(1) == 2 && Pow2(2) == 4 && Pow2(3) == 8 && Pow2(4) == 16
    ensures Pow2(5) == 32 && Pow2(6) == 64 && Pow2(7) == 128 && Pow2(8) == 256
  {
    assert Pow2(4) == 16;
  }

  /** A byte with `k` leading ones is 256 less 2^(8-k). */
  lemma OnesValue(k: nat)
    requires k <= 8
    ensures OnesByte(k) as int == 256 - Pow2(8 - k)
  {
    Powers();
  }

  lemma FillValue(b: bv8, k: nat)
    requires k <= 8 && Clean(b, OnesByte(k))
    ensures Fill(b, OnesByte(k)) as int == b as int + Pow2(8 - k) - 1
  {
    Powers();
  }

  lemma AgreeRange(a: bv8, b: bv8, k: nat)
    requires k <= 8 && Clean(b, OnesByte(k))
    ensures Agree(a, b, OnesByte(k)) <==> b <= a <= Fill(b, OnesByte(k))
  {
  }

  lemma OrderValue(x: bv8, y: bv8)
    ensures x <= y <==> x as int <= y as int
  {
  }

  /** Bytes that agree with a clean byte under a mask of `k` ones are the 2^(8-k) from that byte on. */
  lemma ByteRange(a: bv8, b: bv8, k: nat)
    requires k <= 8 && Clean(b, OnesByte(k))
    ensures Agree(a, b, OnesByte(k)) <==> b as int <= a as int < b as int + Pow2(8 - k)
    ensures b as int + Pow2(8 - k) <= 256
  {
    AgreeRange(a, b, k);
    FillValue(b, k);
    OrderValue(b, a);
    OrderValue(a, Fill(b, OnesByte(k)));
  }

  // ---- Whole addresses

  lemma {:induction false} PowSum(m: nat, n: nat)
    ensures Pow2(m + n) == Pow2(m) * Pow2(n)
  {
    if n == 0 {
    } else {
      PowSum(m, n - 1);
      assert Pow2(m + n) == 2 * Pow2(m + (n - 1));
    }
  }

  /** The network without its first byte. */
  function Tail(n: Net): Net
    requires n.ip != []
  {
    Net(n.ip[1..], if n.ones <= 8 then 0 else n.ones - 8)
  }

  function FirstOnes(n: Net): (k: nat)
    ensures k <= 8
  {
    if n.ones <= 8 then n.ones else 8
  }

  lemma TailMasks(n: Net, i: nat)
    ensures n.ip != [] ==> MaskByte(Tail(n).ones, i) == MaskByte(n.ones, i + 1)
    ensures MaskByte(n.ones, 0) == OnesByte(FirstOnes(n))
  {
  }

  lemma TailNoHostBits(n: Net)
    requires NoHostBits(n) && n.ip != []
    ensures NoHostBits(Tail(n)) && Clean(n.ip[0], OnesByte(FirstOnes(n)))
  {
    TailMasks(n, 0);
    forall i | 0 <= i < |n.ip| - 1 ensures Clean(Tail(n).ip[i], MaskByte(Tail(n).ones, i)) {
      TailMasks(n, i);
      assert Clean(n.ip[i + 1], MaskByte(n.ones, i + 1));
    }
  }

  /** The range of a network, when its first byte is fixed or not. */
  lemma HostPowers(n: Net)
    requires n.ip != [] && n.ones <= 8 * |n.ip|
    ensures Pow2(8 * |n.ip|) == 256 * Pow2(8 * (|n.ip| - 1))
    ensures n.ones <= 8 ==> Pow2(HostBits(n)) == Pow2(8 - n.ones) * Pow2(8 * (|n.ip| - 1))
    ensures n.ones >= 8 ==> HostBits(Tail(n)) == HostBits(n)
    ensures n.ones <= 8 ==> HostBits(Tail(n)) == 8 * (|n.ip| - 1)
  {
    var m := 8 * (|n.ip| - 1);
    Powers();
    PowSum(8, m);
    if n.ones <= 8 {
      PowSum(8 - n.ones, m);
    }
  }

  lemma Times(x: int, y: int, p: nat)
    ensures x <= y ==> x * p <= y * p
    ensures (x + y) * p == x * p + y * p
  {
  }

  /** The last address of a network still fits. */
  lemma {:induction false} RangeFits(n: Net)
    requires NoHostBits(n)
    ensures Value(n.ip) + Pow2(HostBits(n)) <= Pow2(8 * |n.ip|)
    decreases |n.ip|
  {
    if n.ip == [] {
    } else {
      TailNoHostBits(n);
      RangeFits(Tail(n));
      ByteRange(n.ip[0], n.ip[0], FirstOnes(n));
      FitsStep(n, n.ip[0] as int, Value(n.ip[1..]));
    }
  }

  lemma FitsStep(n: Net, b: int, low: nat)
    requires n.ip != [] && n.ones <= 8 * |n.ip|
    requires b + Pow2(8 - FirstOnes(n)) <= 256 && low + Pow2(HostBits(Tail(n))) <= Pow2(8 * (|n.ip| - 1))
    ensures b * Pow2(8 * (|n.ip| - 1)) + low + Pow2(HostBits(n)) <= Pow2(8 * |n.ip|)
  {
    var k, p := FirstOnes(n), Pow2(8 * (|n.ip| - 1));
    HostPowers(n);
    Powers();
    Times(b + Pow2(8 - k), 256, p);
    Times(b, Pow2(8 - k), p);
  }

  lemma {:induction false} ValueBound(a: Address)
    ensures Value(a) < Pow2(8 * |a|)
  {
    if a == [] {
    } else {
      var b, p := a[0] as int, Pow2(8 * (|a| - 1));
      ValueBound(a[1..]);
      Powers();
      PowSum(8, 8 * (|a| - 1));
      Times(b + 1, 256, p);
      Times(b, 1, p);
    }
  }

  lemma LastTail(n: Net)
    requires n.ip != []
    ensures LastAddress(n)[0] == Fill(n.ip[0], OnesByte(FirstOnes(n)))
    ensures LastAddress(n)[1..] == LastAddress(Tail(n))
  {
    TailMasks(n, 0);
    forall i | 0 <= i < |n.ip| - 1 ensures LastAddress(n)[i + 1] == LastAddress(Tail(n))[i] {
      TailMasks(n, i);
    }
  }

  /** The last address of a network is the last of its range: its address plus 2^h - 1 for h host bits. */
  lemma {:induction false} LastAddressValue(n: Net)
    requires NoHostBits(n)
    ensures Value(LastAddress(n)) == Value(n.ip) + Pow2(HostBits(n)) - 1
    decreases |n.ip|
  {
    if n.ip == [] {
    } else {
      var k := FirstOnes(n);
      TailNoHostBits(n);
      LastAddressValue(Tail(n));
      LastTail(n);
      FillValue(n.ip[0], k);
      ValueSplit(LastAddress(n), Fill(n.ip[0], OnesByte(k)), LastAddress(Tail(n)));
      LastStep(n, n.ip[0] as int, Value(n.ip[1..]), Fill(n.ip[0], OnesByte(k)) as int, Value(LastAddress(Tail(n))));
    }
  }

  lemma LastStep(n: Net, b: int, low: int, high: int, rest: int)
    requires n.ip != [] && n.ones <= 8 * |n.ip|
    requires high == b + Pow2(8 - FirstOnes(n)) - 1 && rest == low + Pow2(HostBits(Tail(n))) - 1
    ensures var p := Pow2(8 * (|n.ip| - 1)); high * p + rest == b * p + low + Pow2(HostBits(n)) - 1
  {
    HostPowers(n);
    Powers();
    LastDigits(b, Pow2(8 - FirstOnes(n)), Pow2(8 * (|n.ip| - 1)), low, Pow2(HostBits(Tail(n))));
  }

  lemma ValueSplit(a: Address, first: bv8, rest: Address)
    requires a != [] && a[0] == first && a[1..] == rest
    ensures Value(a) == (first as int) * Pow2(8 * |rest|) + Value(rest)
  {
  }

  lemma LastDigits(b: int, width: int, p: nat, low: int, size: int)
    ensures (b + width - 1) * p + (low + size - 1) == b * p + low + (width * p - p + size) - 1
  {
    Times(b, width - 1, p);
    Times(width, -1, p);
  }

  lemma MemberTail(n: Net, a: Address)
    requires n.ip != [] && |a| == |n.ip|
    ensures Member(n, a) <==> Agree(a[0], n.ip[0], OnesByte(FirstOnes(n))) && Member(Tail(n), a[1..])
  {
    TailMasks(n, 0);
    forall i | 0 <= i < |n.ip| - 1
      ensures Agree(a[i + 1], n.ip[i + 1], MaskByte(n.ones, i + 1)) <==>
              Agree(a[1..][i], Tail(n).ip[i], MaskByte(Tail(n).ones, i))
    {
      TailMasks(n, i);
    }
    if Member(Tail(n), a[1..]) {
      forall i | 1 <= i < |n.ip| ensures Agree(a[i], n.ip[i], MaskByte(n.ones, i)) {
        TailMasks(n, i - 1);
        assert Agree(a[1..][i - 1], Tail(n).ip[i - 1], MaskByte(Tail(n).ones, i - 1));
      }
    }
  }

  /** Comparing two-digit numbers whose lower digits range below `p`. */
  lemma TwoDigits(b: int, a: int, p: nat, low: int, size: int, x: int)
    requires 0 <= low && 0 < size && low + size <= p && 0 <= x < p
    ensures b * p + low <= a * p + x < b * p + low + size <==> a == b && low <= x < low + size
  {
    if a < b {
      Times(a + 1, b, p);
      Times(a, 1, p);
    } else if b < a {
      Times(b + 1, a, p);
      Times(b, 1, p);
    }
  }

  /** Comparing by the higher digit alone. */
  lemma HighDigit(b: int, a: int, p: nat, width: int, x: int)
    requires 0 <= x < p
    ensures b * p <= a * p + x < b * p + width * p <==> b <= a < b + width
  {
    Times(b, width, p);
    Times(a, 1, p);
    if a < b {
      Times(a + 1, b, p);
    } else if a < b + width {
      Times(b, a, p);
      Times(a + 1, b + width, p);
    } else {
      Times(b + width, a, p);
    }
  }

  /** One more byte in front, fixed by the mask or not. */
  lemma RangeStep(n: Net, b: int, x: int, low: int, rest: int, first: bool, others: bool)
    requires n.ip != [] && n.ones <= 8 * |n.ip|
    requires var t, p := Tail(n), Pow2(8 * (|n.ip| - 1));
             && 0 <= low && low + Pow2(HostBits(t)) <= p && 0 <= rest < p
             && (first <==> b <= x < b + Pow2(8 - FirstOnes(n)))
             && (others <==> low <= rest < low + Pow2(HostBits(t)))
    ensures var p := Pow2(8 * (|n.ip| - 1));
            first && others <==> b * p + low <= x * p + rest < b * p + low + Pow2(HostBits(n))
  {
    var t, p := Tail(n), Pow2(8 * (|n.ip| - 1));
    HostPowers(n);
    Powers();
    if n.ones >= 8 {
      TwoDigits(b, x, p, low, Pow2(HostBits(t)), rest);
    } else {
      HighDigit(b, x, p, Pow2(8 - n.ones), rest);
    }
  }

  /** An address lies in a network iff its number lies in the network's range. */
  lemma {:induction false} MemberRange(n: Net, a: Address)
    requires NoHostBits(n) && |a| == |n.ip|
    ensures Member(n, a) <==> Value(n.ip) <= Value(a) < Value(n.ip) + Pow2(HostBits(n))
    decreases |a|
  {
    if a == [] {
    } else {
      var t := Tail(n);
      TailNoHostBits(n);
      MemberTail(n, a);
      MemberRange(t, a[1..]);
      ByteRange(a[0], n.ip[0], FirstOnes(n));
      RangeFits(t);
      ValueBound(a[1..]);
      RangeStep(n, n.ip[0] as int, a[0] as int, Value(t.ip), Value(a[1..]),
                Agree(a[0], n.ip[0], OnesByte(FirstOnes(n))), Member(t, a[1..]));
    }
  }

  /** A network covers another of its family iff its range includes the other's. */
  lemma CoversRange(f: Net, r: Net)
    requires IsNetwork(f) && IsNetwork(r) && |f.ip| == |r.ip|
    ensures Covers(f, r) <==>
              Value(f.ip) <= Value(r.ip) && Value(r.ip) + Pow2(HostBits(r)) <= Value(f.ip) + Pow2(HostBits(f))
  {
    EndpointsAreCoverage(f, r);
    LastAddressValue(r);
    MemberRange(f, r.ip);
    MemberRange(f, LastAddress(r));
  }
}
