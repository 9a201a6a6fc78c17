/** ComputeDiff and ApplyDiff (lib/server.go): the loops, their list-level meaning and the laws relating them. */
module Diffs {
  import opened Basics
  import opened Vrps

  function Outside(ks: set<Key>): VRP -> bool {
    (v: VRP) => v.key !in ks
  }

  function Inside(ks: set<Key>): VRP -> bool {
    (v: VRP) => v.key in ks
  }

  /** Key to entry, a later entry replacing an earlier one with the same key. */
  function ToMap(l: seq<VRP>): map<Key, VRP> {
    if l == [] then map[] else ToMap(l[..|l| - 1])[l[|l| - 1].key := l[|l| - 1]]
  }

  /** No later entry has the key of entry `i`. */
  ghost predicate LastOfKey(l: seq<VRP>, i: nat)
    requires i < |l|
  {
    forall j | i < j < |l| :: l[j].key != l[i].key
  }

  lemma {:induction false} ToMapEntries(l: seq<VRP>)
    ensures ToMap(l).Keys == Keys(l)
    ensures forall k | k in ToMap(l) :: ToMap(l)[k] in l && ToMap(l)[k].key == k
  {
    if l == [] {
    } else {
      var init, last := l[..|l| - 1], l[|l| - 1];
      ToMapEntries(init);
      assert l == init + [last];
      assert Keys(l) == Keys(init) + {last.key};
    }
  }

  /** The last entry with a key is the one that is found under it. */
  lemma {:induction false} ToMapLast(l: seq<VRP>, i: nat)
    requires i < |l| && LastOfKey(l, i)
    ensures l[i].key in ToMap(l) && ToMap(l)[l[i].key] == l[i]
  {
    if i == |l| - 1 {
    } else {
      var init := l[..|l| - 1];
      assert l[|l| - 1].key != l[i].key;
      assert LastOfKey(init, i);
      ToMapLast(init, i);
    }
  }

  method ConvertVRPListToMap(vrps: seq<VRP>) returns (m: map<Key, VRP>)
    ensures m == ToMap(vrps) && m.Keys == Keys(vrps)
    ensures forall i | 0 <= i < |vrps| && LastOfKey(vrps, i) :: m[vrps[i].key] == vrps[i]
  {
    ToMapEntries(vrps);
    forall i | 0 <= i < |vrps| && LastOfKey(vrps, i) ensures ToMap(vrps)[vrps[i].key] == vrps[i] {
      ToMapLast(vrps, i);
    }
    m := map[];
    for i := 0 to |vrps|
      invariant m == ToMap(vrps[..i])
    {
      m := m[vrps[i].key := vrps[i]];
      assert vrps[..i + 1][..i] == vrps[..i];
    }
    assert vrps[..|vrps|] == vrps;
  }

  // ---- ComputeDiff

  /** What is in `now` but not in `before`, stamped with `flags`. */
  function Missing(now: seq<VRP>, before: seq<VRP>, flags: u8): seq<VRP> {
    Stamp(Filter(Outside(Keys(before)), now), flags)
  }

  method ComputeDiff(newVrps: seq<VRP>, prevVrps: seq<VRP>)
    returns (added: seq<VRP>, removed: seq<VRP>, kept: seq<VRP>)
    ensures added == Missing(newVrps, prevVrps, FLAG_ADDED)
    ensures removed == Missing(prevVrps, newVrps, FLAG_REMOVED)
    ensures kept == Filter(Inside(Keys(newVrps)), prevVrps)
  {
    var newVrpsMap := ConvertVRPListToMap(newVrps);
    var prevVrpsMap := ConvertVRPListToMap(prevVrps);
    added := FindAdded(newVrps, prevVrpsMap);
    removed, kept := FindRemoved(prevVrps, newVrpsMap);
  }

  /** The first loop: what is new, announced. */
  method FindAdded(newVrps: seq<VRP>, prevVrpsMap: map<Key, VRP>) returns (added: seq<VRP>)
    ensures added == Stamp(Filter(Outside(prevVrpsMap.Keys), newVrps), FLAG_ADDED)
  {
    added := [];
    ghost var isNew := Outside(prevVrpsMap.Keys);
    for i := 0 to |newVrps|
      invariant added == Stamp(Filter(isNew, newVrps[..i]), FLAG_ADDED)
    {
      FilterStep(isNew, newVrps, i);
      if newVrps[i].key !in prevVrpsMap {
        added := added + [VRP(newVrps[i].key, FLAG_ADDED)];
      }
    }
    assert newVrps[..|newVrps|] == newVrps;
  }

  /** The second loop: what is gone, withdrawn, and what stays. */
  method FindRemoved(prevVrps: seq<VRP>, newVrpsMap: map<Key, VRP>) returns (removed: seq<VRP>, kept: seq<VRP>)
    ensures removed == Stamp(Filter(Outside(newVrpsMap.Keys), prevVrps), FLAG_REMOVED)
    ensures kept == Filter(Inside(newVrpsMap.Keys), prevVrps)
  {
    removed, kept := [], [];
    ghost var gone, stays := Outside(newVrpsMap.Keys), Inside(newVrpsMap.Keys);
    for i := 0 to |prevVrps|
      invariant removed == Stamp(Filter(gone, prevVrps[..i]), FLAG_REMOVED)
      invariant kept == Filter(stays, prevVrps[..i])
    {
      FilterStep(gone, prevVrps, i);
      FilterStep(stays, prevVrps, i);
      if prevVrps[i].key !in newVrpsMap {
        removed := removed + [VRP(prevVrps[i].key, FLAG_REMOVED)];
      } else {
        kept := kept + [prevVrps[i]];
      }
    }
    assert prevVrps[..|prevVrps|] == prevVrps;
  }

  lemma MissingKeys(now: seq<VRP>, before: seq<VRP>, flags: u8)
    ensures Keys(Missing(now, before, flags)) == Keys(now) - Keys(before)
    ensures forall v | v in Missing(now, before, flags) :: v.flags == flags
    ensures Unique(now) ==> Unique(Missing(now, before, flags))
  {
    var kept := Filter(Outside(Keys(before)), now);
    StampKeys(kept, flags);
    FilterMembers(Outside(Keys(before)), now);
    if Unique(now) {
      FilterUnique(Outside(Keys(before)), now);
    }
    assert Keys(kept) == Keys(now) - Keys(before);
  }

  /** The diff AddVRPs hands on: additions, then removals. */
  function Change(newVrps: seq<VRP>, prevVrps: seq<VRP>): seq<VRP> {
    Missing(newVrps, prevVrps, FLAG_ADDED) + Missing(prevVrps, newVrps, FLAG_REMOVED)
  }

  /** A diff announces exactly what is new and withdraws exactly what is gone, each key once. */
  lemma ChangeMeaning(newVrps: seq<VRP>, prevVrps: seq<VRP>)
    ensures var d := Change(newVrps, prevVrps);
            && Announced(d) == Keys(newVrps) - Keys(prevVrps)
            && Withdrawn(d) == Keys(prevVrps) - Keys(newVrps)
            && Coherent(d)
            && (Unique(newVrps) && Unique(prevVrps) ==> Unique(d))
  {
    var a, r := Missing(newVrps, prevVrps, FLAG_ADDED), Missing(prevVrps, newVrps, FLAG_REMOVED);
    MissingKeys(newVrps, prevVrps, FLAG_ADDED);
    MissingKeys(prevVrps, newVrps, FLAG_REMOVED);
    UniformSets(a);
    UniformSets(r);
    ConcatSets(a, r);
    if Unique(newVrps) && Unique(prevVrps) {
      UniqueConcat(a, r);
    }
  }

  /** An entry of a diff carries the flag 1 if its key is in the new list and 0 if it is not. */
  lemma ChangeFlags(newVrps: seq<VRP>, prevVrps: seq<VRP>)
    ensures forall v | v in Change(newVrps, prevVrps) :: v.flags == if v.key in Keys(newVrps) then 1 else 0
  {
    MissingKeys(newVrps, prevVrps, FLAG_ADDED);
    MissingKeys(prevVrps, newVrps, FLAG_REMOVED);
    forall v | v in Change(newVrps, prevVrps) ensures v.flags == if v.key in Keys(newVrps) then 1 else 0 {
      if v in Missing(newVrps, prevVrps, FLAG_ADDED) {
        assert v.key in Keys(Missing(newVrps, prevVrps, FLAG_ADDED));
      } else {
        assert v.key in Keys(Missing(prevVrps, newVrps, FLAG_REMOVED));
      }
    }
  }

  /** The announcements of a diff come before its withdrawals. */
  lemma ChangeOrder(newVrps: seq<VRP>, prevVrps: seq<VRP>)
    ensures var d := Change(newVrps, prevVrps); forall i, j | 0 <= i < j < |d| :: d[j].flags <= d[i].flags
  {
    var a, r := Missing(newVrps, prevVrps, FLAG_ADDED), Missing(prevVrps, newVrps, FLAG_REMOVED);
    assert forall i | 0 <= i < |a| :: a[i].flags == 1;
    assert forall i | 0 <= i < |r| :: r[i].flags == 0;
  }

  /** Every previous entry is either removed or unchanged, and swapping the arguments flips the flags. */
  lemma ComputeDiffConservation(newVrps: seq<VRP>, prevVrps: seq<VRP>)
    ensures |Missing(prevVrps, newVrps, FLAG_REMOVED)| + |Filter(Inside(Keys(newVrps)), prevVrps)| == |prevVrps|
    ensures Announced(Change(newVrps, prevVrps)) == Withdrawn(Change(prevVrps, newVrps))
    ensures Withdrawn(Change(newVrps, prevVrps)) == Announced(Change(prevVrps, newVrps))
  {
    FilterComplement(Outside(Keys(newVrps)), Inside(Keys(newVrps)), prevVrps);
    ChangeMeaning(newVrps, prevVrps);
    ChangeMeaning(prevVrps, newVrps);
  }

  // ---- ApplyDiff

  /** Which entries of a diff are carried over onto a list indexed by `prev`: every announcement, and a
      withdrawal unless it cancels an announcement. */
  function Carried(prev: map<Key, VRP>): VRP -> bool {
    (v: VRP) => v.flags == FLAG_ADDED ||
      (v.flags == FLAG_REMOVED && (v.key !in prev || prev[v.key].flags == FLAG_REMOVED))
  }

  function Applied(diff: seq<VRP>, prevVrps: seq<VRP>): seq<VRP> {
    Filter(Outside(Keys(diff)), prevVrps) + Filter(Carried(ToMap(prevVrps)), diff)
  }

  method ApplyDiff(diff: seq<VRP>, prevVrps: seq<VRP>) returns (newvrps: seq<VRP>)
    ensures newvrps == Applied(diff, prevVrps)
  {
    var diffMap := ConvertVRPListToMap(diff);
    var prevVrpsMap := ConvertVRPListToMap(prevVrps);
    newvrps := KeepUntouched(prevVrps, diffMap);
    newvrps := CarryOver(diff, prevVrpsMap, newvrps);
  }

  /** The first loop: the previous entries that the diff does not mention. */
  method KeepUntouched(prevVrps: seq<VRP>, diffMap: map<Key, VRP>) returns (newvrps: seq<VRP>)
    ensures newvrps == Filter(Outside(diffMap.Keys), prevVrps)
  {
    newvrps := [];
    ghost var untouched := Outside(diffMap.Keys);
    for i := 0 to |prevVrps|
      invariant newvrps == Filter(untouched, prevVrps[..i])
    {
      FilterStep(untouched, prevVrps, i);
      if prevVrps[i].key !in diffMap {
        newvrps := newvrps + [prevVrps[i]];
      }
    }
    assert prevVrps[..|prevVrps|] == prevVrps;
  }

  /** The second loop: appends what the diff carries over. */
  method CarryOver(diff: seq<VRP>, prevVrpsMap: map<Key, VRP>, patched: seq<VRP>) returns (newvrps: seq<VRP>)
    ensures newvrps == patched + Filter(Carried(prevVrpsMap), diff)
  {
    newvrps := patched;
    ghost var carried := Carried(prevVrpsMap);
    for i := 0 to |diff|
      invariant newvrps == patched + Filter(carried, diff[..i])
    {
      FilterStep(carried, diff, i);
      var vrp := diff[i];
      if vrp.flags == FLAG_ADDED {
        newvrps := newvrps + [vrp];
      } else if vrp.flags == FLAG_REMOVED {
        if vrp.key !in prevVrpsMap {
          newvrps := newvrps + [vrp];
        } else if prevVrpsMap[vrp.key].flags == FLAG_REMOVED {
          newvrps := newvrps + [vrp];
        }
      }
    }
    assert diff[..|diff|] == diff;
  }

  /** In a coherent list the indexed flag of a key says how the list records that key. */
  lemma ToMapFlag(l: seq<VRP>, k: Key)
    requires Coherent(l)
    ensures k in Announced(l) <==> k in ToMap(l) && ToMap(l)[k].flags == FLAG_ADDED
  {
    ToMapEntries(l);
    if k in ToMap(l) {
      var v := ToMap(l)[k];
      if v.flags == FLAG_REMOVED {
        assert k in Withdrawn(l);
      }
    }
  }

  /** An announcement in the diff wins; a withdrawal is recorded unless it cancels an announcement. */
  lemma AppliedMeaning(diff: seq<VRP>, prev: seq<VRP>)
    requires Coherent(diff) && Coherent(prev)
    ensures Announced(Applied(diff, prev)) == (Announced(prev) - Keys(diff)) + Announced(diff)
    ensures Withdrawn(Applied(diff, prev)) == (Withdrawn(prev) - Keys(diff)) + (Withdrawn(diff) - Announced(prev))
    ensures Coherent(Applied(diff, prev))
    ensures Unique(diff) && Unique(prev) ==> Unique(Applied(diff, prev))
  {
    var a, b := Filter(Outside(Keys(diff)), prev), Filter(Carried(ToMap(prev)), diff);
    FilterMembers(Outside(Keys(diff)), prev);
    FilterMembers(Carried(ToMap(prev)), diff);
    assert Announced(a) == Announced(prev) - Keys(diff);
    assert Withdrawn(a) == Withdrawn(prev) - Keys(diff);
    ToMapEntries(prev);
    forall v | v in diff ensures v in b <==> v.flags == FLAG_ADDED || v.key !in Announced(prev) {
      ToMapFlag(prev, v.key);
    }
    assert Announced(b) == Announced(diff);
    assert Withdrawn(b) == Withdrawn(diff) - Announced(prev);
    ConcatSets(a, b);
    assert Announced(diff) <= Keys(diff) && Withdrawn(diff) <= Keys(diff);
    if Unique(diff) && Unique(prev) {
      FilterUnique(Outside(Keys(diff)), prev);
      FilterUnique(Carried(ToMap(prev)), diff);
      UniqueConcat(a, b);
    }
  }

  /** The untouched entries come first, in their order, and then those of the diff, in theirs. */
  lemma AppliedOrder(diff: seq<VRP>, prev: seq<VRP>)
    ensures var r := Applied(diff, prev);
            forall i, j | 0 <= i < j < |r| && r[i].key in Keys(diff) :: r[j].key in Keys(diff)
  {
    var a, b := Filter(Outside(Keys(diff)), prev), Filter(Carried(ToMap(prev)), diff);
    FilterMembers(Outside(Keys(diff)), prev);
    FilterMembers(Carried(ToMap(prev)), diff);
    assert forall i | 0 <= i < |a| :: a[i] in a;
    assert forall i | 0 <= i < |b| :: b[i] in b && b[i] in diff;
  }

  /** Patching an all-announced table with a computed diff yields an all-announced table with the new keys. */
  lemma PatchedTable(newVrps: seq<VRP>, table: seq<VRP>)
    requires AllAnnounced(table)
    ensures var t := Applied(Change(newVrps, table), table);
            && Keys(t) == Keys(newVrps) && AllAnnounced(t)
            && (Unique(newVrps) && Unique(table) ==> Unique(t))
  {
    var d := Change(newVrps, table);
    ChangeMeaning(newVrps, table);
    AnnouncedOnly(table);
    CoherentKeys(d);
    AppliedMeaning(d, table);
    AnnouncedOnly(Applied(d, table));
  }

  /** A coherent list without withdrawals is an all-announced table, and conversely. */
  lemma AnnouncedOnly(l: seq<VRP>)
    ensures AllAnnounced(l) <==> Coherent(l) && Withdrawn(l) == {}
    ensures AllAnnounced(l) ==> Announced(l) == Keys(l)
  {
    UniformSets(l);
    if Coherent(l) && Withdrawn(l) == {} {
      forall v | v in l ensures v.flags == FLAG_ADDED {
        assert v.flags == FLAG_REMOVED ==> v.key in Withdrawn(l);
      }
    }
  }

  lemma CoherentKeys(l: seq<VRP>)
    requires Coherent(l)
    ensures Keys(l) == Announced(l) + Withdrawn(l)
  {
  }

  /** ComputeDiff and ApplyDiff undo each other: patching there and back restores the key set. */
  lemma PatchRoundTrip(newVrps: seq<VRP>, table: seq<VRP>)
    requires AllAnnounced(table)
    ensures var t := Applied(Change(newVrps, table), table);
            Keys(Applied(Change(table, t), t)) == Keys(table)
  {
    PatchedTable(newVrps, table);
    PatchedTable(table, Applied(Change(newVrps, table), table));
  }
}
