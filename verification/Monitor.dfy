/** rtrmon's view of a polled VRP list over time, and its comparison of two views (cmd/rtrmon/rtrmon.go). */
module Monitor {
  import opened Basics
  import opened Vrps
  import opened Slurm
  import opened RtrClient

  function InputKeys(list: seq<VRPJson>): set<Key> {
    set v | v in list && Readable(v) :: KeyOf(v)
  }

  /** The input keys are those that some entry spells out field by field. */
  lemma InputFields(list: seq<VRPJson>)
    ensures forall k :: k in InputKeys(list) <==> HasEntry(list, k)
  {
    forall k ensures k in InputKeys(list) <==> HasEntry(list, k) {
      if k in InputKeys(list) {
        var v :| v in list && Readable(v) && KeyOf(v) == k;
        assert v == VRPJson(Some(k.prefix), k.maxLen, Some(k.asn));
      }
      if HasEntry(list, k) {
        assert KeyOf(VRPJson(Some(k.prefix), k.maxLen, Some(k.asn))) == k;
      }
    }
  }

  /** The map after an update at time `now` with input keys `keys`: the input is visible now, the rest is kept while
      it was last seen no longer than the grace period ago. */
  function Rebuilt(current: VRPMap, keys: set<Key>, now: int, grace: int): VRPMap {
    map k | k in keys + current.Keys && (k in keys || current[k].lastSeen >= now - grace) ::
      if k in keys then Entry(k, if k in current then current[k].firstSeen else now, now) else current[k]
  }

  /** Keys kept although they are not in the input. */
  function InGrace(current: VRPMap, keys: set<Key>, now: int, grace: int): set<Key> {
    set k | k in current && k !in keys && current[k].lastSeen >= now - grace
  }

  /** The input as visible now, with the first appearance carried over. */
  function Visible(current: VRPMap, keys: set<Key>, now: int): VRPMap {
    map k | k in keys :: Entry(k, if k in current then current[k].firstSeen else now, now)
  }

  method BuildNewVrpMap(current: VRPMap, newVrps: seq<VRPJson>, now: int, grace: int)
    returns (res: VRPMap, inGracePeriod: nat)
    ensures res == Rebuilt(current, InputKeys(newVrps), now, grace)
    ensures inGracePeriod == |InGrace(current, InputKeys(newVrps), now, grace)|
    ensures forall k :: k in res <==> HasEntry(newVrps, k) || (k in current && current[k].lastSeen >= now - grace)
    ensures Keyed(current) ==> Keyed(res)
  {
    InputFields(newVrps);
    var visible := ReadInput(current, newVrps, now);
    res, inGracePeriod := KeepInGrace(current, visible, now - grace);
    RebuiltIs(current, visible, InputKeys(newVrps), now, grace);
  }

  /** The first loop: the readable input entries. */
  method ReadInput(current: VRPMap, newVrps: seq<VRPJson>, now: int) returns (res: VRPMap)
    ensures res == Visible(current, InputKeys(newVrps), now)
  {
    res := map[];
    for i := 0 to |newVrps|
      invariant res == Visible(current, InputKeys(newVrps[..i]), now)
    {
      var vrp := newVrps[i];
      assert newVrps[..i + 1] == newVrps[..i] + [vrp];
      assert InputKeys(newVrps[..i + 1]) == InputKeys(newVrps[..i]) + (if Readable(vrp) then {KeyOf(vrp)} else {});
      if vrp.asn == None {
        continue;
      }
      if vrp.prefix == None {
        continue;
      }
      var key := KeyOf(vrp);
      var firstSeen := now;
      if key in current {
        firstSeen := current[key].firstSeen;
      }
      res := res[key := Entry(key, firstSeen, now)];
    }
    assert newVrps[..|newVrps|] == newVrps;
  }

  /** An entry that is no longer visible but last seen no earlier than `ends`. */
  predicate Keeps(current: VRPMap, visible: VRPMap, k: Key, ends: int) {
    k in current && k !in visible && current[k].lastSeen >= ends
  }

  /** The keys kept so far, when those in `todo` have not been looked at. */
  function Kept(current: VRPMap, visible: VRPMap, todo: set<Key>, ends: int): set<Key> {
    set k | k in current && k !in todo && Keeps(current, visible, k, ends)
  }

  /** The visible entries and those of `current` under the keys `kept`. */
  function Merged(current: VRPMap, visible: VRPMap, kept: set<Key>): VRPMap {
    map k | k in visible.Keys + kept * current.Keys :: if k in visible then visible[k] else current[k]
  }

  lemma MergedStep(current: VRPMap, visible: VRPMap, kept: set<Key>, k: Key)
    requires k in current && k !in visible
    ensures Merged(current, visible, kept + {k}) == Merged(current, visible, kept)[k := current[k]]
  {
  }

  lemma KeptStep(current: VRPMap, visible: VRPMap, todo: set<Key>, k: Key, ends: int)
    requires k in todo && k in current
    ensures var before := Kept(current, visible, todo, ends);
            && k !in before
            && Kept(current, visible, todo - {k}, ends) ==
                 before + (if Keeps(current, visible, k, ends) then {k} else {})
  {
  }

  /** The second loop: copies what is still within the grace period, in whatever order the map is walked. */
  method KeepInGrace(current: VRPMap, visible: VRPMap, gracePeriodEnds: int) returns (res: VRPMap, inGracePeriod: nat)
    ensures res == Merged(current, visible, Kept(current, visible, {}, gracePeriodEnds))
    ensures inGracePeriod == |Kept(current, visible, {}, gracePeriodEnds)|
  {
    res, inGracePeriod := visible, 0;
    var todo := current.Keys;
    ghost var kept: set<Key> := {};
    while todo != {}
      invariant todo <= current.Keys
      invariant kept == Kept(current, visible, todo, gracePeriodEnds)
      invariant res == Merged(current, visible, kept)
      invariant inGracePeriod == |kept|
    {
      var k :| k in todo;
      KeptStep(current, visible, todo, k, gracePeriodEnds);
      if k !in res {
        if current[k].lastSeen >= gracePeriodEnds {
          MergedStep(current, visible, kept, k);
          res := res[k := current[k]];
          inGracePeriod := inGracePeriod + 1;
          kept := kept + {k};
        }
      }
      todo := todo - {k};
    }
  }

  lemma RebuiltIs(current: VRPMap, visible: VRPMap, keys: set<Key>, now: int, grace: int)
    requires visible == Visible(current, keys, now)
    ensures Kept(current, visible, {}, now - grace) == InGrace(current, keys, now, grace)
    ensures Merged(current, visible, Kept(current, visible, {}, now - grace)) == Rebuilt(current, keys, now, grace)
  {
    assert Kept(current, visible, {}, now - grace) == InGrace(current, keys, now, grace);
    var a, b := Merged(current, visible, InGrace(current, keys, now, grace)), Rebuilt(current, keys, now, grace);
    assert a.Keys == b.Keys;
    assert forall k | k in a :: a[k] == b[k];
  }

  // ---- Whole runs of updates

  /** One poll: its time and the keys it returned. */
  datatype Poll = Poll(time: int, keys: set<Key>)

  function MapAfter(polls: seq<Poll>, grace: int): VRPMap {
    if polls == [] then map[]
    else
      var last := polls[|polls| - 1];
      Rebuilt(MapAfter(polls[..|polls| - 1], grace), last.keys, last.time, grace)
  }

  ghost predicate InTimeOrder(polls: seq<Poll>) {
    forall i, j | 0 <= i <= j < |polls| :: polls[i].time <= polls[j].time
  }

  /** Key `k` appeared in some poll no longer than the grace period before poll `n`. */
  ghost predicate SeenRecently(polls: seq<Poll>, n: nat, grace: int, k: Key)
    requires n < |polls|
  {
    exists j :: 0 <= j <= n && k in polls[j].keys && polls[j].time >= polls[n].time - grace
  }

  /** Poll `j` is the latest up to `n` in which `k` appeared. */
  ghost predicate LatestAppearance(polls: seq<Poll>, n: nat, k: Key, j: nat)
    requires n < |polls|
  {
    j <= n && k in polls[j].keys && forall i | j < i <= n :: k !in polls[i].keys
  }

  /** Poll `f` is where the current visibility of `k` began: it appeared there, was retained ever since, and was not
      retained just before. */
  ghost predicate VisibleSince(polls: seq<Poll>, n: nat, grace: int, k: Key, f: nat)
    requires n < |polls|
  {
    && f <= n && k in polls[f].keys
    && (forall i | f <= i <= n :: SeenRecently(polls, i, grace, k))
    && (f == 0 || !SeenRecently(polls, f - 1, grace, k))
  }

  /** Everything the map records about `k` after poll `n`. */
  ghost predicate RightEntry(polls: seq<Poll>, n: nat, grace: int, k: Key, e: Entry)
    requires n < |polls|
  {
    && e.key == k && e.firstSeen <= e.lastSeen <= polls[n].time
    && (exists j: nat :: LatestAppearance(polls, n, k, j) && e.lastSeen == polls[j].time)
    && (exists f: nat :: VisibleSince(polls, n, grace, k, f) && e.firstSeen == polls[f].time)
  }

  lemma SeenRecentlyStep(polls: seq<Poll>, n: nat, grace: int, k: Key)
    requires InTimeOrder(polls) && grace >= 0 && 0 < n < |polls|
    ensures SeenRecently(polls, n, grace, k) && k !in polls[n].keys ==> SeenRecently(polls, n - 1, grace, k)
  {
    if SeenRecently(polls, n, grace, k) && k !in polls[n].keys {
      var j :| 0 <= j <= n && k in polls[j].keys && polls[j].time >= polls[n].time - grace;
      assert polls[n - 1].time <= polls[n].time;
    }
  }

  /** After every poll the map holds exactly the keys seen recently, with the right first and last appearance. */
  lemma {:induction false} MapIsRight(polls: seq<Poll>, n: nat, grace: int, k: Key)
    requires InTimeOrder(polls) && grace >= 0 && n < |polls|
    ensures var m := MapAfter(polls[..n + 1], grace);
            && (k in m <==> SeenRecently(polls, n, grace, k))
            && (k in m ==> RightEntry(polls, n, grace, k, m[k]))
  {
    var before, now := MapAfter(polls[..n], grace), polls[n];
    assert polls[..n + 1][..n] == polls[..n];
    var m := MapAfter(polls[..n + 1], grace);
    assert m == Rebuilt(before, now.keys, now.time, grace);
    if n == 0 {
      FirstPoll(polls, grace, k);
    } else {
      MapIsRight(polls, n - 1, grace, k);
      assert polls[..n - 1 + 1] == polls[..n];
      if k in now.keys {
        Appears(polls, n, grace, k, before, m[k]);
      } else {
        StaysAway(polls, n, grace, k, before);
      }
    }
  }

  lemma FirstPoll(polls: seq<Poll>, grace: int, k: Key)
    requires polls != [] && grace >= 0
    ensures SeenRecently(polls, 0, grace, k) <==> k in polls[0].keys
    ensures k in polls[0].keys ==> RightEntry(polls, 0, grace, k, Entry(k, polls[0].time, polls[0].time))
  {
    if k in polls[0].keys {
      assert SeenRecently(polls, 0, grace, k);
      assert LatestAppearance(polls, 0, k, 0);
      assert VisibleSince(polls, 0, grace, k, 0);
    }
  }

  lemma Appears(polls: seq<Poll>, n: nat, grace: int, k: Key, before: VRPMap, e: Entry)
    requires InTimeOrder(polls) && grace >= 0 && 0 < n < |polls| && k in polls[n].keys
    requires k in before <==> SeenRecently(polls, n - 1, grace, k)
    requires k in before ==> RightEntry(polls, n - 1, grace, k, before[k])
    requires e == Entry(k, if k in before then before[k].firstSeen else polls[n].time, polls[n].time)
    ensures SeenRecently(polls, n, grace, k) && RightEntry(polls, n, grace, k, e)
  {
    assert SeenRecently(polls, n, grace, k);
    assert LatestAppearance(polls, n, k, n);
    if k in before {
      var f: nat :| VisibleSince(polls, n - 1, grace, k, f) && before[k].firstSeen == polls[f].time;
      assert VisibleSince(polls, n, grace, k, f);
    } else {
      assert VisibleSince(polls, n, grace, k, n);
    }
  }

  lemma StaysAway(polls: seq<Poll>, n: nat, grace: int, k: Key, before: VRPMap)
    requires InTimeOrder(polls) && grace >= 0 && 0 < n < |polls| && k !in polls[n].keys
    requires k in before <==> SeenRecently(polls, n - 1, grace, k)
    requires k in before ==> RightEntry(polls, n - 1, grace, k, before[k])
    ensures SeenRecently(polls, n, grace, k) <==> k in before && before[k].lastSeen >= polls[n].time - grace
    ensures SeenRecently(polls, n, grace, k) ==> RightEntry(polls, n, grace, k, before[k])
  {
    SeenRecentlyStep(polls, n, grace, k);
    if k in before {
      var j: nat :| LatestAppearance(polls, n - 1, k, j) && before[k].lastSeen == polls[j].time;
      assert LatestAppearance(polls, n, k, j);
      if SeenRecently(polls, n, grace, k) {
        var i :| 0 <= i <= n && k in polls[i].keys && polls[i].time >= polls[n].time - grace;
        assert i <= j;
        var f: nat :| VisibleSince(polls, n - 1, grace, k, f) && before[k].firstSeen == polls[f].time;
        assert VisibleSince(polls, n, grace, k, f);
      }
    }
  }

  /** Retention over runs: the map after the last poll holds exactly the keys that appeared within the grace period,
      and the number reported for a poll is that of the retained keys missing from it. */
  lemma RetentionOverRuns(polls: seq<Poll>, grace: int)
    requires InTimeOrder(polls) && grace >= 0 && polls != []
    ensures var n, m := |polls| - 1, MapAfter(polls, grace);
            && (forall k :: k in m <==> SeenRecently(polls, n, grace, k))
            && (forall k | k in m :: RightEntry(polls, n, grace, k, m[k]))
            && InGrace(MapAfter(polls[..n], grace), polls[n].keys, polls[n].time, grace) == m.Keys - polls[n].keys
  {
    var n, m := |polls| - 1, MapAfter(polls, grace);
    assert polls[..n + 1] == polls;
    forall k ensures k in m <==> SeenRecently(polls, n, grace, k)
             ensures k in m ==> RightEntry(polls, n, grace, k, m[k]) {
      MapIsRight(polls, n, grace, k);
    }
  }

  // ---- Comparing two views

  /** The slice holds one entry of `a` for each of the keys. */
  ghost predicate Lists(a: VRPMap, keys: set<Key>, entries: seq<Entry>)
    requires keys <= a.Keys
  {
    && |entries| == |keys|
    && (forall k | k in keys :: a[k] in entries)
    && (forall e | e in entries :: exists k | k in keys :: e == a[k])
  }

  lemma ListsOneMore(a: VRPMap, keys: set<Key>, entries: seq<Entry>, k: Key)
    requires keys <= a.Keys && Lists(a, keys, entries) && k in a && k !in keys
    ensures Lists(a, keys + {k}, entries + [a[k]])
  {
  }

  /** The entries of `a` whose keys are not in `b`, in whatever order the map is walked. */
  method Diff(a: VRPMap, b: VRPMap) returns (onlyInA: seq<Entry>)
    ensures Lists(a, a.Keys - b.Keys, onlyInA)
  {
    onlyInA := [];
    var todo := a.Keys;
    ghost var done: set<Key> := {};
    while todo != {}
      invariant todo <= a.Keys && done <= a.Keys - b.Keys && done !! todo
      invariant forall k | k in a.Keys - b.Keys :: k in todo || k in done
      invariant Lists(a, done, onlyInA)
    {
      var k :| k in todo;
      if k !in b {
        ListsOneMore(a, done, onlyInA, k);
        onlyInA := onlyInA + [a[k]];
        done := done + {k};
      }
      todo := todo - {k};
    }
    assert done == a.Keys - b.Keys;
  }

  function EntryKeys(entries: seq<Entry>): set<Key> {
    set e | e in entries :: e.key
  }

  /** The comparator's two one-sided differences name exactly the keys of one view that the other lacks: no key is in
      both, both are empty iff the views have the same keys, and what is left of each view is the same common part. */
  method Compare(a: VRPMap, b: VRPMap) returns (onlyIn1: seq<Entry>, onlyIn2: seq<Entry>)
    requires Keyed(a) && Keyed(b)
    ensures EntryKeys(onlyIn1) == a.Keys - b.Keys && EntryKeys(onlyIn2) == b.Keys - a.Keys
    ensures forall e | e in onlyIn1 :: e.key in a && a[e.key] == e
    ensures forall e | e in onlyIn2 :: e.key in b && b[e.key] == e
    ensures EntryKeys(onlyIn1) !! EntryKeys(onlyIn2)
    ensures onlyIn1 == [] && onlyIn2 == [] <==> a.Keys == b.Keys
    ensures |a| - |onlyIn1| == |b| - |onlyIn2| == |a.Keys * b.Keys|
  {
    onlyIn1 := Diff(a, b);
    onlyIn2 := Diff(b, a);
    DiffKeys(a, b, onlyIn1);
    DiffKeys(b, a, onlyIn2);
    SplitSize(a.Keys, b.Keys);
    SplitSize(b.Keys, a.Keys);
    assert a.Keys * b.Keys == b.Keys * a.Keys;
  }

  /** Entries stored under their own keys name exactly the keys they were found under. */
  lemma DiffKeys(a: VRPMap, b: VRPMap, only: seq<Entry>)
    requires Keyed(a) && Lists(a, a.Keys - b.Keys, only)
    ensures EntryKeys(only) == a.Keys - b.Keys
    ensures forall e | e in only :: e.key in a && a[e.key] == e
  {
    forall k | k in a.Keys - b.Keys ensures k in EntryKeys(only) {
      assert a[k] in only && a[k].key == k;
    }
  }

  lemma SplitSize(x: set<Key>, y: set<Key>)
    ensures |x| == |x - y| + |x * y|
    ensures x - y == {} <==> x <= y
  {
    assert x == (x - y) + x * y;
    assert (x - y) !! (x * y);
  }

  function SeenBy(threshold: int): Entry -> bool {
    (e: Entry) => e.firstSeen <= threshold
  }

  method CountFirstSeenOnOrBefore(vrps: seq<Entry>, threshold: int) returns (count: nat)
    ensures count == |Filter(SeenBy(threshold), vrps)|
    ensures count == |set i | 0 <= i < |vrps| && vrps[i].firstSeen <= threshold|
  {
    FilterCounts(SeenBy(threshold), vrps, set i | 0 <= i < |vrps| && vrps[i].firstSeen <= threshold);
    count := 0;
    for i := 0 to |vrps|
      invariant count == |Filter(SeenBy(threshold), vrps[..i])|
    {
      FilterStep(SeenBy(threshold), vrps, i);
      if vrps[i].firstSeen <= threshold {
        count := count + 1;
      }
    }
    assert vrps[..|vrps|] == vrps;
  }

  /** The longer a difference must have been visible, the fewer are counted. */
  lemma {:induction false} CountFallsWithAge(vrps: seq<Entry>, older: int, newer: int)
    requires older <= newer
    ensures |Filter(SeenBy(older), vrps)| <= |Filter(SeenBy(newer), vrps)|
  {
    if vrps == [] {
    } else {
      CountFallsWithAge(vrps[..|vrps| - 1], older, newer);
    }
  }
}
