/** Local exceptions to the validated payloads, as in RFC 8416 (prefixfile/slurm.go). Prefixes and AS numbers are
    taken as parsed; `None` stands for one that is missing or does not parse. */
module Slurm {
  import opened Basics
  import opened Vrps
  import opened Prefixes

  /** One entry of the input list. */
  datatype VRPJson = VRPJson(prefix: Option<IPNet>, length: u8, asn: Option<u32>)

  /** An entry whose prefix and AS number parse. */
  predicate Readable(v: VRPJson) {
    v.prefix.Some? && v.asn.Some?
  }

  function KeyOf(v: VRPJson): Key
    requires Readable(v)
  {
    Key(v.prefix.value, v.length, v.asn.value)
  }

  /** The list has an entry with exactly the fields of `k`. */
  predicate HasEntry(list: seq<VRPJson>, k: Key) {
    VRPJson(Some(k.prefix), k.maxLen, Some(k.asn)) in list
  }

  datatype PrefixFilter = PrefixFilter(prefix: Option<IPNet>, asn: Option<u32>)

  datatype PrefixAssertion = PrefixAssertion(prefix: Option<IPNet>, asn: u32, maxPrefixLength: int)

  datatype Config = Config(filters: seq<PrefixFilter>, assertions: seq<PrefixAssertion>)

  /** The AS number of an entry, zero when it does not parse. */
  function GetASN(v: VRPJson): u32 {
    match v.asn case None => 0 case Some(n) => n
  }

  /** A filter matches an entry when it matches both its prefix, unless either is missing, and its AS number, unless
      the filter names none. */
  predicate Matches(f: PrefixFilter, v: VRPJson) {
    && (f.prefix.Some? && v.prefix.Some? ==> MatchesPrefix(NetOf(f.prefix.value), NetOf(v.prefix.value)))
    && (f.asn.Some? ==> GetASN(v) == f.asn.value)
  }

  predicate IsFiltered(filters: seq<PrefixFilter>, v: VRPJson) {
    exists f | f in filters :: Matches(f, v)
  }

  /** The AS number a filter names, if any, is the entry's; an entry whose AS number does not parse counts as AS 0. */
  predicate NamesOrigin(f: PrefixFilter, v: VRPJson) {
    f.asn.Some? ==> v.asn == f.asn || (v.asn == None && f.asn.value == 0)
  }

  /** A filter matches an entry iff it names the entry's AS number or none, and, if both have a prefix, it covers every
      address of the entry's, IPv4-mapped networks counting as IPv4 ones; an IPv6 prefix that only ends on an
      IPv4-mapped address is not matched. */
  lemma MatchMeaning(f: PrefixFilter, v: VRPJson)
    requires f.prefix.Some? ==> IsNetwork(NetOf(f.prefix.value))
    requires v.prefix.Some? ==> IsNetwork(NetOf(v.prefix.value))
    ensures Matches(f, v) <==>
              && NamesOrigin(f, v)
              && (f.prefix.Some? && v.prefix.Some? ==>
                    var n, r := NetOf(f.prefix.value), NetOf(v.prefix.value);
                    Covers(Narrow(n), Narrow(r)) && (IsMapped(LastAddress(r)) ==> IsMapped(r.ip)))
  {
    if f.prefix.Some? && v.prefix.Some? {
      MatchesPrefixExactly(NetOf(f.prefix.value), NetOf(v.prefix.value));
    }
  }

  function SomeMatch(filters: seq<PrefixFilter>): VRPJson -> bool {
    (v: VRPJson) => IsFiltered(filters, v)
  }

  function NoneMatch(filters: seq<PrefixFilter>): VRPJson -> bool {
    (v: VRPJson) => !IsFiltered(filters, v)
  }

  method FilterOnVRPs(filters: seq<PrefixFilter>, vrps: seq<VRPJson>)
    returns (kept: seq<VRPJson>, removed: seq<VRPJson>)
    ensures kept == Filter(NoneMatch(filters), vrps)
    ensures removed == Filter(SomeMatch(filters), vrps)
  {
    kept, removed := [], [];
    if |filters| == 0 {
      FilterAll(NoneMatch(filters), vrps);
      FilterNone(SomeMatch(filters), vrps);
      return vrps, removed;
    }
    for i := 0 to |vrps|
      invariant kept == Filter(NoneMatch(filters), vrps[..i])
      invariant removed == Filter(SomeMatch(filters), vrps[..i])
    {
      FilterStep(NoneMatch(filters), vrps, i);
      FilterStep(SomeMatch(filters), vrps, i);
      var wasRemoved := AnyFilter(filters, vrps[i]);
      if wasRemoved {
        removed := removed + [vrps[i]];
      } else {
        kept := kept + [vrps[i]];
      }
    }
    assert vrps[..|vrps|] == vrps;
  }

  /** The inner loop: the filters in order, up to the first that matches. */
  method AnyFilter(filters: seq<PrefixFilter>, vrp: VRPJson) returns (wasRemoved: bool)
    ensures wasRemoved == IsFiltered(filters, vrp)
  {
    var ends: (Address, Address) := ([], []);
    if vrp.prefix.Some? {
      var net := NetOf(vrp.prefix.value);
      var last := GetIPBroadcast(net);
      ends := (To16(net.ip), To16(last));
    }
    for i := 0 to |filters|
      invariant forall j | 0 <= j < i :: !Matches(filters[j], vrp)
    {
      var f := filters[i];
      var isMatch := true;
      if f.prefix.Some? && vrp.prefix.Some? {
        var fNet := NetOf(f.prefix.value);
        if !(Contains(fNet, ends.0) && Contains(fNet, ends.1)) {
          isMatch := false;
        }
      }
      if isMatch && f.asn.Some? {
        if GetASN(vrp) != f.asn.value {
          isMatch := false;
        }
      }
      assert isMatch == Matches(f, vrp);
      if isMatch {
        return true;
      }
    }
    return false;
  }

  lemma {:induction false} FilterNone<T>(p: T -> bool, s: seq<T>)
    requires forall x | x in s :: !p(x)
    ensures Filter(p, s) == []
  {
    if s == [] {
    } else {
      FilterNone(p, s[..|s| - 1]);
    }
  }

  // ---- Filtering is an exact, order-preserving partition

  /** Some way of merging `a` and `b`, each kept in order, gives `s`. */
  predicate Interleaves<T(==)>(a: seq<T>, b: seq<T>, s: seq<T>) {
    if s == [] then a == [] && b == []
    else
      var init, last := s[..|s| - 1], s[|s| - 1];
      || (a != [] && a[|a| - 1] == last && Interleaves(a[..|a| - 1], b, init))
      || (b != [] && b[|b| - 1] == last && Interleaves(a, b[..|b| - 1], init))
  }

  /** Kept and removed entries interleave back to the input; an entry is kept iff no filter matches it. */
  lemma {:induction false} FilterPartition(filters: seq<PrefixFilter>, vrps: seq<VRPJson>)
    ensures Interleaves(Filter(NoneMatch(filters), vrps), Filter(SomeMatch(filters), vrps), vrps)
    ensures forall v | v in vrps :: v in Filter(SomeMatch(filters), vrps) <==> IsFiltered(filters, v)
    ensures forall v | v in vrps :: v in Filter(NoneMatch(filters), vrps) <==> !IsFiltered(filters, v)
  {
    FilterMembers(NoneMatch(filters), vrps);
    FilterMembers(SomeMatch(filters), vrps);
    PartitionInterleaves(NoneMatch(filters), SomeMatch(filters), vrps);
  }

  lemma {:induction false} PartitionInterleaves<T>(p: T -> bool, q: T -> bool, s: seq<T>)
    requires forall x | x in s :: p(x) != q(x)
    ensures Interleaves(Filter(p, s), Filter(q, s), s)
  {
    if s == [] {
    } else {
      var init, last := s[..|s| - 1], s[|s| - 1];
      assert last in s && forall x | x in init :: x in s;
      PartitionInterleaves(p, q, init);
      if p(last) {
        assert Filter(p, s)[..|Filter(p, s)| - 1] == Filter(p, init);
      } else {
        assert Filter(q, s)[..|Filter(q, s)| - 1] == Filter(q, init);
      }
    }
  }

  /** Filtering with two lists of filters joined is filtering with one and then with the other. */
  lemma FilterTwice(f1: seq<PrefixFilter>, f2: seq<PrefixFilter>, vrps: seq<VRPJson>)
    ensures Filter(NoneMatch(f1 + f2), vrps) == Filter(NoneMatch(f2), Filter(NoneMatch(f1), vrps))
  {
    forall v | v in vrps ensures IsFiltered(f1 + f2, v) == (IsFiltered(f1, v) || IsFiltered(f2, v)) {
      assert forall f :: f in f1 + f2 <==> f in f1 || f in f2;
    }
    FilterFilter(NoneMatch(f1), NoneMatch(f2), NoneMatch(f1 + f2), vrps);
  }

  // ---- Assertions

  /** The entry an assertion adds: its maximum length is at least the prefix length, and is stored in eight bits. */
  function Asserted(a: PrefixAssertion): seq<VRPJson> {
    match a.prefix
    case None => []
    case Some(n) =>
      var size := NetOf(n).ones;
      [VRPJson(a.prefix, (if a.maxPrefixLength <= size then size else a.maxPrefixLength) % 0x100, Some(a.asn))]
  }

  function AllAsserted(assertions: seq<PrefixAssertion>): seq<VRPJson> {
    if assertions == [] then []
    else AllAsserted(assertions[..|assertions| - 1]) + Asserted(assertions[|assertions| - 1])
  }

  /** The asserted entries are exactly those of the assertions whose prefix parses: that prefix and AS number, and a
      maximum length that is the larger of the two given, in eight bits. */
  lemma {:induction false} AssertedEntries(assertions: seq<PrefixAssertion>)
    ensures forall v :: v in AllAsserted(assertions) <==> exists a :: a in assertions && IsAssertedBy(v, a)
    ensures |AllAsserted(assertions)| <= |assertions|
  {
    if assertions == [] {
    } else {
      var init, last := assertions[..|assertions| - 1], assertions[|assertions| - 1];
      AssertedEntries(init);
      assert forall a :: a in assertions <==> a in init || a == last;
      assert forall v :: v in Asserted(last) <==> IsAssertedBy(v, last);
    }
  }

  /** They come in the order of the assertions. */
  lemma {:induction false} AssertedInOrder(a: seq<PrefixAssertion>, b: seq<PrefixAssertion>)
    ensures AllAsserted(a + b) == AllAsserted(a) + AllAsserted(b)
  {
    if b == [] {
      assert a + b == a;
    } else {
      var init := b[..|b| - 1];
      assert (a + b)[..|a + b| - 1] == a + init;
      AssertedInOrder(a, init);
    }
  }

  predicate IsAssertedBy(v: VRPJson, a: PrefixAssertion) {
    && a.prefix.Some? && v.prefix == a.prefix && v.asn == Some(a.asn)
    && var size := NetOf(a.prefix.value).ones;
       && (a.maxPrefixLength >= size ==> v.length == a.maxPrefixLength % 0x100)
       && (a.maxPrefixLength < size ==> v.length == size % 0x100)
  }

  method AssertVRPs(assertions: seq<PrefixAssertion>) returns (vrps: seq<VRPJson>)
    ensures vrps == AllAsserted(assertions)
  {
    vrps := [];
    if |assertions| == 0 {
      return;
    }
    for i := 0 to |assertions|
      invariant vrps == AllAsserted(assertions[..i])
    {
      var assertion := assertions[i];
      assert assertions[..i + 1][..i] == assertions[..i];
      if assertion.prefix == None {
        continue;
      }
      var size := NetOf(assertion.prefix.value).ones;
      var maxLength := assertion.maxPrefixLength;
      if assertion.maxPrefixLength <= size {
        maxLength := size;
      }
      vrps := vrps + [VRPJson(assertion.prefix, maxLength % 0x100, Some(assertion.asn))];
    }
    assert assertions[..|assertions|] == assertions;
  }

  method FilterAssert(c: Config, vrps: seq<VRPJson>) returns (out: seq<VRPJson>)
    ensures out == Filter(NoneMatch(c.filters), vrps) + AllAsserted(c.assertions)
  {
    var a, _ := FilterOnVRPs(c.filters, vrps);
    var b := AssertVRPs(c.assertions);
    out := a + b;
  }
}
