/** From the input list to the server table (cmd/stayrtr/stayrtr.go). */
module Pipeline {
  import opened Basics
  import opened Vrps
  import opened Pdus
  import opened Slurm
  import opened History
  import opened RtrServer
  import Replies

  /** The prefix length is positive, at most the maximum length, and that at most the width of the family. */
  predicate IsValidPrefixLength(prefix: IPNet, maxLength: u8) {
    var plen, max := Size(prefix.mask), 8 * |prefix.ip|;
    !(plen == 0 || plen % 0x100 > maxLength || maxLength > max % 0x100)
  }

  /** An entry that is turned into a VRP. */
  predicate Accepted(v: VRPJson) {
    Readable(v) && IsValidPrefixLength(v.prefix.value, v.length)
  }

  /** What parsing a prefix yields: an IPv4 or IPv6 address and a mask that fits it. */
  predicate Parsed(n: IPNet) {
    n.mask.CIDR? && (|n.ip| == 4 || |n.ip| == 16) && n.mask.ones <= 8 * |n.ip|
  }

  predicate AllParsed(list: seq<VRPJson>) {
    forall v | v in list && v.prefix.Some? :: Parsed(v.prefix.value)
  }

  predicate NoneMapped(list: seq<VRPJson>) {
    forall v | v in list && v.prefix.Some? :: !IsMapped(v.prefix.value.ip)
  }

  /** A well-formed entry: 0 < prefix length <= maximum length <= width of the family. */
  predicate Proper(v: VRPJson) {
    && Readable(v) && v.prefix.value.mask.CIDR?
    && 0 < v.prefix.value.mask.ones <= v.length <= 8 * |v.prefix.value.ip|
  }

  /** For a parsed prefix the length test says what it should, and an accepted entry outside the IPv4-mapped space
      becomes a VRP that can be sent. */
  lemma AcceptedMeaning(v: VRPJson)
    requires v.prefix.Some? ==> Parsed(v.prefix.value)
    ensures Accepted(v) <==> Proper(v)
    ensures Accepted(v) && !IsMapped(v.prefix.value.ip) ==> Replies.Sendable(KeyOf(v))
  {
  }

  /** The maximum length of an assertion is cut to eight bits: for a prefix that parses, the asserted entry is accepted
      iff the prefix is not empty and the cut length lies between the prefix length and the family's width. */
  lemma AssertionAccepted(a: PrefixAssertion)
    requires a.prefix.Some? && Parsed(a.prefix.value)
    ensures var size, width := a.prefix.value.mask.ones, 8 * |a.prefix.value.ip|;
            var max := if a.maxPrefixLength <= size then size else a.maxPrefixLength;
            && |Asserted(a)| == 1
            && (Accepted(Asserted(a)[0]) <==> 0 < size <= max % 0x100 <= width)
            && (max < 0x100 ==> (Accepted(Asserted(a)[0]) <==> 0 < size && max <= width))
  {
  }

  /** So a maximum length of 288 asserted for 10.0.0.0/8 passes as 32. */
  lemma TooLongPasses(asn: u32)
    ensures var n := IPNet([10, 0, 0, 0], CIDR(8));
            var entries := Asserted(PrefixAssertion(Some(n), asn, 288));
            |entries| == 1 && Accepted(entries[0]) && KeyOf(entries[0]) == Key(n, 32, asn)
  {
    AssertionAccepted(PrefixAssertion(Some(IPNet([10, 0, 0, 0], CIDR(8))), asn, 288));
  }

  /** The keys of the accepted entries. */
  function AcceptedKeys(list: seq<VRPJson>): set<Key> {
    set v | v in list && Accepted(v) :: KeyOf(v)
  }

  /** They are the keys that some accepted entry spells out field by field. */
  lemma AcceptedFields(list: seq<VRPJson>)
    ensures forall k :: k in AcceptedKeys(list) <==>
              HasEntry(list, k) && Accepted(VRPJson(Some(k.prefix), k.maxLen, Some(k.asn)))
  {
    forall k ensures k in AcceptedKeys(list) <==>
                     HasEntry(list, k) && Accepted(VRPJson(Some(k.prefix), k.maxLen, Some(k.asn)))
    {
      if k in AcceptedKeys(list) {
        var v :| v in list && Accepted(v) && KeyOf(v) == k;
        assert v == VRPJson(Some(k.prefix), k.maxLen, Some(k.asn));
      }
      if HasEntry(list, k) {
        assert KeyOf(VRPJson(Some(k.prefix), k.maxLen, Some(k.asn))) == k;
      }
    }
  }

  /** The accepted entries' keys in order, each at its first occurrence only. */
  function FirstKeys(list: seq<VRPJson>): seq<Key> {
    if list == [] then []
    else
      var init, last := FirstKeys(list[..|list| - 1]), list[|list| - 1];
      if Accepted(last) && KeyOf(last) !in init then init + [KeyOf(last)] else init
  }

  function Unflagged(keys: seq<Key>): (l: seq<VRP>)
    ensures |l| == |keys| && forall i | 0 <= i < |keys| :: l[i] == VRP(keys[i], 0)
  {
    seq(|keys|, i requires 0 <= i < |keys| => VRP(keys[i], 0))
  }

  lemma {:induction false} FirstKeysExact(list: seq<VRPJson>)
    ensures forall k :: k in FirstKeys(list) <==> k in AcceptedKeys(list)
    ensures forall i, j | 0 <= i < j < |FirstKeys(list)| :: FirstKeys(list)[i] != FirstKeys(list)[j]
  {
    if list == [] {
    } else {
      var init, last := list[..|list| - 1], list[|list| - 1];
      FirstKeysExact(init);
      assert list == init + [last];
      assert AcceptedKeys(list) == AcceptedKeys(init) + (if Accepted(last) then {KeyOf(last)} else {});
    }
  }

  /** An entry of `k` comes before any of `k'`. */
  ghost predicate AppearsBefore(list: seq<VRPJson>, k: Key, k': Key) {
    exists i | 0 <= i < |list| :: HasEntry([list[i]], k) && !HasEntry(list[..i], k')
  }

  /** The keys come in the order of their first entries. */
  lemma {:induction false} FirstKeysInOrder(list: seq<VRPJson>, i: nat, j: nat)
    requires i < j < |FirstKeys(list)|
    ensures AppearsBefore(list, FirstKeys(list)[i], FirstKeys(list)[j])
  {
    var init, last := list[..|list| - 1], list[|list| - 1];
    var keys := FirstKeys(init);
    if j < |keys| {
      FirstKeysInOrder(init, i, j);
    } else {
      FirstKeysExact(init);
      AcceptedFields(init);
      assert keys[i] in keys;
      assert last == VRPJson(Some(KeyOf(last).prefix), KeyOf(last).maxLen, Some(KeyOf(last).asn));
    }
    OneMoreInOrder(init, last, FirstKeys(list)[i], FirstKeys(list)[j]);
    assert list == init + [last];
  }

  lemma OneMoreInOrder(init: seq<VRPJson>, last: VRPJson, k: Key, k': Key)
    requires AppearsBefore(init, k, k') || (HasEntry(init, k) && !HasEntry(init, k'))
    ensures AppearsBefore(init + [last], k, k')
  {
    var list := init + [last];
    var i :| 0 <= i < |init| && HasEntry([init[i]], k) && !HasEntry(init[..i], k');
    assert list[..i] == init[..i] && list[i] == init[i];
  }

  lemma UnflaggedKeys(keys: seq<Key>)
    ensures Keys(Unflagged(keys)) == set k | k in keys
    ensures (forall i, j | 0 <= i < j < |keys| :: keys[i] != keys[j]) ==> Unique(Unflagged(keys))
  {
    forall k | k in keys ensures k in Keys(Unflagged(keys)) {
      var i :| 0 <= i < |keys| && keys[i] == k;
      assert Unflagged(keys)[i] in Unflagged(keys);
    }
  }

  predicate IsV4(v: VRPJson) {
    v.prefix.Some? && To4(v.prefix.value.ip).Some?
  }

  function AcceptedV4(): VRPJson -> bool { (v: VRPJson) => Accepted(v) && IsV4(v) }

  function AcceptedV6(): VRPJson -> bool { (v: VRPJson) => Accepted(v) && !IsV4(v) }

  /** The positions of accepted entries with an IPv4 prefix, or with any other. */
  ghost function AcceptedAt(list: seq<VRPJson>, v4: bool): set<int> {
    set i | 0 <= i < |list| && Accepted(list[i]) &&
            (|list[i].prefix.value.ip| == 4 || IsMapped(list[i].prefix.value.ip)) == v4
  }

  lemma AcceptedCounts(list: seq<VRPJson>)
    ensures |Filter(AcceptedV4(), list)| == |AcceptedAt(list, true)|
    ensures |Filter(AcceptedV6(), list)| == |AcceptedAt(list, false)|
  {
    FilterCounts(AcceptedV4(), list, AcceptedAt(list, true));
    FilterCounts(AcceptedV6(), list, AcceptedAt(list, false));
  }

  /** The list is what it should be: each key that an accepted entry spells out, once, in order of the first such
      entries. */
  ghost predicate IsProcessed(list: seq<VRPJson>, vrps: seq<VRP>) {
    && (forall k :: k in Keys(vrps) <==> HasEntry(list, k) && Accepted(VRPJson(Some(k.prefix), k.maxLen, Some(k.asn))))
    && Unique(vrps)
    && forall i, j | 0 <= i < j < |vrps| :: AppearsBefore(list, vrps[i].key, vrps[j].key)
  }

  lemma ProcessedMeaning(list: seq<VRPJson>)
    ensures var vrps := Unflagged(FirstKeys(list)); IsProcessed(list, vrps) && Keys(vrps) == AcceptedKeys(list)
  {
    var keys := FirstKeys(list);
    FirstKeysExact(list);
    UnflaggedKeys(keys);
    assert Keys(Unflagged(keys)) == AcceptedKeys(list);
    AcceptedFields(list);
    forall i, j | 0 <= i < j < |keys| ensures AppearsBefore(list, keys[i], keys[j]) {
      FirstKeysInOrder(list, i, j);
    }
  }

  /** Converts a list: no key twice, exactly the accepted keys, in order of first appearance; the counts include
      duplicates. */
  method ProcessData(list: seq<VRPJson>) returns (vrps: seq<VRP>, count: nat, countv4: nat, countv6: nat)
    ensures vrps == Unflagged(FirstKeys(list))
    ensures IsProcessed(list, vrps) && Keys(vrps) == AcceptedKeys(list)
    ensures AllParsed(list) && NoneMapped(list) ==> Replies.AllKeysSendable(vrps)
    ensures countv4 == |AcceptedAt(list, true)| && countv6 == |AcceptedAt(list, false)|
    ensures count == countv4 + countv6
  {
    var seen: set<Key> := {};
    vrps, countv4, countv6 := [], 0, 0;
    for i := 0 to |list|
      invariant vrps == Unflagged(FirstKeys(list[..i]))
      invariant forall k :: k in seen <==> k in FirstKeys(list[..i])
      invariant countv4 == |Filter(AcceptedV4(), list[..i])| && countv6 == |Filter(AcceptedV6(), list[..i])|
    {
      var v := list[i];
      FilterStep(AcceptedV4(), list, i);
      FilterStep(AcceptedV6(), list, i);
      assert list[..i + 1][..i] == list[..i];
      if v.prefix == None {
        continue;
      }
      if v.asn == None {
        continue;
      }
      if !IsValidPrefixLength(v.prefix.value, v.length) {
        continue;
      }
      if To4(v.prefix.value.ip) != None {
        countv4 := countv4 + 1;
      } else {
        countv6 := countv6 + 1;
      }
      var key := KeyOf(v);
      if key in seen {
        continue;
      }
      seen := seen + {key};
      vrps := vrps + [VRP(key, 0)];
    }
    assert list[..|list|] == list;
    count := countv4 + countv6;
    ProcessedMeaning(list);
    AcceptedCounts(list);
    if AllParsed(list) && NoneMapped(list) {
      AcceptedSendable(list);
      assert forall v | v in vrps :: v.key in Keys(vrps);
    }
  }

  lemma AcceptedSendable(list: seq<VRPJson>)
    requires AllParsed(list) && NoneMapped(list)
    ensures forall k | k in AcceptedKeys(list) :: Replies.Sendable(k)
  {
    forall v | v in list && Accepted(v) ensures Replies.Sendable(KeyOf(v)) {
      AcceptedMeaning(v);
    }
  }

  // ---- The whole update

  /** The list that is processed and exported: filtered input, then assertions. */
  function Overridden(slurm: Option<Config>, data: seq<VRPJson>): seq<VRPJson> {
    match slurm
    case None => data
    case Some(c) => Filter(NoneMatch(c.filters), data) + AllAsserted(c.assertions)
  }

  /** Entry `v` goes into the update: an input entry no filter matches, or the entry of an assertion. */
  ghost predicate Contributes(slurm: Option<Config>, data: seq<VRPJson>, v: VRPJson) {
    match slurm
    case None => v in data
    case Some(c) =>
      (v in data && !IsFiltered(c.filters, v)) || exists a :: a in c.assertions && IsAssertedBy(v, a)
  }

  /** Key `k` belongs in the table: a well-formed entry of the update spells it out. */
  ghost predicate Belongs(slurm: Option<Config>, data: seq<VRPJson>, k: Key) {
    var v := VRPJson(Some(k.prefix), k.maxLen, Some(k.asn));
    Contributes(slurm, data, v) && Proper(v)
  }

  ghost predicate IsTableOf(slurm: Option<Config>, data: seq<VRPJson>, t: Table) {
    forall k :: k in t <==> Belongs(slurm, data, k)
  }

  /** All prefixes of the input and of the assertions were parsed. */
  predicate InputParsed(slurm: Option<Config>, data: seq<VRPJson>) {
    && AllParsed(data)
    && (slurm.Some? ==> forall a | a in slurm.value.assertions && a.prefix.Some? :: Parsed(a.prefix.value))
  }

  lemma OverriddenEntries(slurm: Option<Config>, data: seq<VRPJson>)
    ensures forall v :: v in Overridden(slurm, data) <==> Contributes(slurm, data, v)
    ensures InputParsed(slurm, data) ==> AllParsed(Overridden(slurm, data))
  {
    if slurm.Some? {
      FilterMembers(NoneMatch(slurm.value.filters), data);
      AssertedEntries(slurm.value.assertions);
    }
  }

  /** The table of an update: exactly the keys of the well-formed entries among the input entries no filter matches and
      the assertions, which survive even where a filter would match them. */
  lemma UpdateTable(slurm: Option<Config>, data: seq<VRPJson>)
    requires InputParsed(slurm, data)
    ensures IsTableOf(slurm, data, AcceptedKeys(Overridden(slurm, data)))
  {
    OverriddenEntries(slurm, data);
    AcceptedFields(Overridden(slurm, data));
    forall v | v in Overridden(slurm, data) ensures Accepted(v) <==> Proper(v) {
      AcceptedMeaning(v);
    }
  }

  /** How long data may be used after it was built, in seconds. */
  const MAX_AGE := 24 * 60 * 60

  class State {
    const server: Server
    const checktime: bool
    var slurm: Option<Config>
    var lastdata: Option<seq<VRPJson>>
    var exported: seq<VRPJson>

    constructor (server: Server, checktime: bool)
      ensures this.server == server && this.checktime == checktime
      ensures slurm == None && lastdata == None && exported == []
    {
      this.server, this.checktime := server, checktime;
      slurm, lastdata, exported := None, None, [];
    }

    /** Publishes the current data under the current exceptions: the server's new table is exactly the keys of the
        accepted entries of the overridden list, which are those that belong in the table. Without data nothing
        happens. When times are checked, data whose build time does not parse or is over a day ago is refused. */
    method UpdateFromNewState(buildTime: Option<int>, now: int) returns (ok: bool)
      requires server.Valid()
      modifies this`exported, server
      ensures server.Valid()
      ensures ok == (lastdata == None || !checktime || (buildTime.Some? && now - buildTime.value <= 86400))
      ensures lastdata != None && ok ==>
                && exported == Overridden(slurm, lastdata.value)
                && (slurm == None ==> exported == lastdata.value)
                && (slurm.Some? ==> var c := slurm.value;
                      exported == Filter(NoneMatch(c.filters), lastdata.value) + AllAsserted(c.assertions))
                && server.tables == old(server.tables) + [AcceptedKeys(exported)]
                && server.unique == old(server.unique)
                && (InputParsed(slurm, lastdata.value) ==> IsTableOf(slurm, lastdata.value, Last(server.tables)))
      ensures lastdata == None || !ok ==> exported == old(exported) && unchanged(server)
    {
      if lastdata == None {
        return true;
      }
      if checktime {
        if buildTime == None {
          return false;
        }
        var notafter := buildTime.value + MAX_AGE;
        if now > notafter {
          return false;
        }
      }
      var vrpsjson := Override(lastdata.value);
      PublishList(vrpsjson);
      if InputParsed(slurm, lastdata.value) {
        UpdateTable(slurm, lastdata.value);
      }
      exported := vrpsjson;
      ok := true;
    }

    /** Applies the exceptions, if there are any. */
    method Override(data: seq<VRPJson>) returns (vrpsjson: seq<VRPJson>)
      ensures vrpsjson == Overridden(slurm, data)
    {
      vrpsjson := data;
      if slurm != None {
        var kept, removed := FilterOnVRPs(slurm.value.filters, vrpsjson);
        var asserted := AssertVRPs(slurm.value.assertions);
        vrpsjson := kept + asserted;
      }
    }

    /** Converts and publishes a list. */
    method PublishList(vrpsjson: seq<VRPJson>)
      requires server.Valid()
      modifies server
      ensures server.Valid()
      ensures server.tables == old(server.tables) + [AcceptedKeys(vrpsjson)] && server.unique == old(server.unique)
    {
      var vrps, count, countv4, countv6 := ProcessData(vrpsjson);
      server.AddVRPs(vrps);
    }
  }

  /** A follower fed with the leader's export builds the leader's table, with the same exceptions or with none. */
  lemma FollowersAgree(c: Config, data: seq<VRPJson>)
    ensures var exported := Overridden(Some(c), data);
            && AcceptedKeys(Overridden(Some(c), exported)) == AcceptedKeys(exported)
            && Overridden(None, exported) == exported
  {
    var kept, added := Filter(NoneMatch(c.filters), data), AllAsserted(c.assertions);
    var p := NoneMatch(c.filters);
    FilterMembers(p, data);
    FilterConcat(p, kept, added);
    FilterAll(p, kept);
    FilterMembers(p, added);
    var again := kept + Filter(p, added) + added;
    assert Overridden(Some(c), kept + added) == again;
    assert forall v :: v in again <==> v in kept + added;
  }
}
