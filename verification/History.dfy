/** The tables a server has published, and what an accumulated diff means in terms of them. */
module History {
  import opened Vrps
  import opened Diffs

  type Table = set<Key>

  function Last(h: seq<Table>): Table
    requires h != []
  {
    h[|h| - 1]
  }

  /** Key `k` was missing from some table at or after index `b`. */
  ghost predicate AbsentSince(h: seq<Table>, b: nat, k: Key) {
    exists t :: b <= t < |h| && k !in h[t]
  }

  /** Key `k` was in every table from `b` up to `t`, and in none from `t` on. */
  ghost predicate LeavesAt(h: seq<Table>, b: nat, k: Key, t: nat) {
    && b < t < |h|
    && (forall i | b <= i < t :: k in h[i])
    && (forall i | t <= i < |h| :: k !in h[i])
  }

  ghost predicate LeftForGood(h: seq<Table>, b: nat, k: Key) {
    exists t :: LeavesAt(h, b, k, t)
  }

  /** Key `k` was missing from a table after `b` and back in a later one. */
  ghost predicate CameBack(h: seq<Table>, b: nat, k: Key) {
    exists t, u :: b < t < u < |h| && k !in h[t] && k in h[u]
  }

  /** What the diff since `b` announces. */
  ghost function Announces(h: seq<Table>, b: nat): Table
    requires b < |h|
  {
    set k | k in Last(h) && AbsentSince(h, b, k)
  }

  /** What the diff since `b` withdraws. */
  ghost function Withdraws(h: seq<Table>, b: nat): Table
    requires b < |h|
  {
    set k | k in h[b] && LeftForGood(h, b, k)
  }

  /** What the diff since `b` leaves behind on a router that holds `held`: keys gone by now that the diff is silent
      about, because they were not in table `b` or left, came back and left again. */
  ghost function LeftBehind(h: seq<Table>, b: nat, held: Table): Table
    requires b < |h|
  {
    set k | k in held && k !in Last(h) && (k !in h[b] || CameBack(h, b, k))
  }

  /** What the diff since `b` leaves behind on a router that holds table `b`. */
  ghost function Leftover(h: seq<Table>, b: nat): Table
    requires b < |h|
  {
    LeftBehind(h, b, h[b])
  }

  /** A router's table after the announcements and withdrawals of one reply. */
  function Patch(t: Table, announced: Table, withdrawn: Table): Table {
    (t - withdrawn) + announced
  }

  /** The list `d` is an exact record of the changes since table `b`. */
  ghost predicate Records(d: seq<VRP>, h: seq<Table>, b: nat)
    requires b < |h|
  {
    Coherent(d) && Announced(d) == Announces(h, b) && Withdrawn(d) == Withdraws(h, b)
  }

  // ---- Folding one more update into a record

  lemma AnnouncesStep(h: seq<Table>, t: Table, b: nat)
    requires b < |h|
    ensures Announces(h + [t], b) == (Announces(h, b) - (Last(h) - t)) + (t - Last(h))
  {
    var h' := h + [t];
    forall k | k in t ensures AbsentSince(h', b, k) <==> AbsentSince(h, b, k) {
      if AbsentSince(h, b, k) {
        var i :| b <= i < |h| && k !in h[i];
        assert k !in h'[i];
      }
      if AbsentSince(h', b, k) {
        var i :| b <= i < |h'| && k !in h'[i];
        assert k !in h[i];
      }
    }
    forall k | k in t - Last(h) ensures AbsentSince(h, b, k) {
      assert k !in h[|h| - 1];
    }
  }

  lemma LeftForGoodStep(h: seq<Table>, t: Table, b: nat, k: Key)
    requires b < |h| && k in h[b]
    ensures LeftForGood(h + [t], b, k) <==>
            k !in t && (if k in Last(h) then !AbsentSince(h, b, k) else LeftForGood(h, b, k))
  {
    var h' := h + [t];
    assert forall j | b <= j < |h| :: h'[j] == h[j];
    assert h'[|h|] == t;
    if LeftForGood(h', b, k) {
      var i :| LeavesAt(h', b, k, i);
      assert k !in h'[|h|];
      if k in Last(h) {
        assert k in h'[|h| - 1];
        assert i == |h|;
      } else {
        assert k !in h'[|h| - 1];
        assert LeavesAt(h, b, k, i);
      }
    }
    if k !in t && k in Last(h) && !AbsentSince(h, b, k) {
      assert LeavesAt(h', b, k, |h|);
    }
    if k !in t && k !in Last(h) && LeftForGood(h, b, k) {
      var i :| LeavesAt(h, b, k, i);
      assert LeavesAt(h', b, k, i);
    }
  }

  lemma WithdrawsStep(h: seq<Table>, t: Table, b: nat)
    requires b < |h|
    ensures Withdraws(h + [t], b) ==
            (Withdraws(h, b) - (t - Last(h)) - (Last(h) - t)) + ((Last(h) - t) - Announces(h, b))
  {
    forall k | k in h[b] ensures LeftForGood(h + [t], b, k) <==>
        k !in t && (if k in Last(h) then !AbsentSince(h, b, k) else LeftForGood(h, b, k)) {
      LeftForGoodStep(h, t, b, k);
    }
    assert forall k, i | LeavesAt(h, b, k, i) :: k !in h[|h| - 1];
    assert forall k | k in Last(h) && k !in h[b] :: AbsentSince(h, b, k);
    assert (h + [t])[b] == h[b];
  }

  /** ApplyDiff keeps every stored record exact when a new table is published. */
  lemma RecordFolds(d: seq<VRP>, change: seq<VRP>, h: seq<Table>, t: Table, b: nat)
    requires b < |h| && Records(d, h, b)
    requires Coherent(change) && Announced(change) == t - Last(h) && Withdrawn(change) == Last(h) - t
    ensures Records(Applied(change, d), h + [t], b)
    ensures Unique(change) && Unique(d) ==> Unique(Applied(change, d))
  {
    AppliedMeaning(change, d);
    CoherentKeys(change);
    AnnouncesStep(h, t, b);
    WithdrawsStep(h, t, b);
    AnnouncedNotJustAnnounced(h, t, b);
  }

  lemma AnnouncedNotJustAnnounced(h: seq<Table>, t: Table, b: nat)
    requires b < |h|
    ensures Announces(h, b) !! (t - Last(h))
  {
  }

  /** The diff of the newest update is itself the exact record since the table it replaced. */
  lemma RecordStarts(change: seq<VRP>, h: seq<Table>, t: Table)
    requires h != []
    requires Coherent(change) && Announced(change) == t - Last(h) && Withdrawn(change) == Last(h) - t
    ensures Records(change, h + [t], |h| - 1)
  {
    var b := |h| - 1;
    AnnouncesStep(h, t, b);
    WithdrawsStep(h, t, b);
    NoChangeYet(h);
  }

  /** Since the current table nothing has changed. */
  lemma NoChangeYet(h: seq<Table>)
    requires h != []
    ensures Announces(h, |h| - 1) == {} && Withdraws(h, |h| - 1) == {} && Leftover(h, |h| - 1) == {}
  {
  }

  // ---- What a served record does to a router

  /** Applied to anything that includes some table published since `b`, the diff since `b` yields the current table
      plus exactly what it leaves behind. */
  lemma PatchedHeldTable(h: seq<Table>, b: nat, j: nat, held: Table)
    requires b <= j < |h| && h[j] <= held
    ensures Patch(held, Announces(h, b), Withdraws(h, b)) == Last(h) + LeftBehind(h, b, held)
    ensures Last(h) !! LeftBehind(h, b, held)
    ensures Patch(held, Announces(h, b), Withdraws(h, b)) == Last(h) <==> LeftBehind(h, b, held) == {}
  {
    PatchCovers(h, b, j, held);
    RecordsWellFormed(h, b);
    forall k | k in held && k !in Last(h)
      ensures k in Withdraws(h, b) <==> k in h[b] && !CameBack(h, b, k)
    {
      if k in h[b] {
        LeftOrCameBack(h, b, k);
      }
    }
  }

  /** Old table plus served diff is the current table plus exactly the keys that left, came back and left again. */
  lemma PatchedOldTable(h: seq<Table>, b: nat)
    requires b < |h|
    ensures Patch(h[b], Announces(h, b), Withdraws(h, b)) == Last(h) + Leftover(h, b)
    ensures Last(h) !! Leftover(h, b)
    ensures Patch(h[b], Announces(h, b), Withdraws(h, b)) == Last(h) <==> Leftover(h, b) == {}
  {
    PatchedHeldTable(h, b, b, h[b]);
  }

  /** The diff since `b` withdraws only keys a router holds that includes table `j` iff the router still holds every
      key that left for good between the two tables; a router that holds just table `j` must have none of them. */
  lemma WithdrawsOnlyHeld(h: seq<Table>, b: nat, j: nat, held: Table)
    requires b <= j < |h| && h[j] <= held
    ensures Withdraws(h, b) <= held <==> forall k, t: nat | LeavesAt(h, b, k, t) && t <= j :: k in held
    ensures Withdraws(h, b) <= h[j] <==> forall k, t | LeavesAt(h, b, k, t) :: j < t
  {
    assert forall k, t | LeavesAt(h, b, k, t) :: k in h[b] && k in Withdraws(h, b) && (k in h[j] <==> j < t);
  }

  lemma StillThere(h: seq<Table>, b: nat, k: Key)
    requires b < |h| && k in Last(h)
    ensures !LeftForGood(h, b, k)
    ensures k in Announces(h, b) || forall i | b <= i < |h| :: k in h[i]
  {
    assert k in h[|h| - 1];
    assert forall t :: !LeavesAt(h, b, k, t);
  }

  /** A key that was in table `b` and is gone now either left for good in one go or came back in between. */
  lemma {:induction false} LeftOrCameBack(h: seq<Table>, b: nat, k: Key)
    requires b < |h| && k in h[b] && k !in Last(h)
    ensures LeftForGood(h, b, k) <==> !CameBack(h, b, k)
  {
    var t := FirstAbsence(h, b, k);
    if !CameBack(h, b, k) {
      assert LeavesAt(h, b, k, t);
    }
    assert forall s, x, y | LeavesAt(h, b, k, s) && b < x < y < |h| && k !in h[x] :: k !in h[y];
  }

  lemma {:induction false} FirstAbsence(h: seq<Table>, b: nat, k: Key) returns (t: nat)
    requires b < |h| && k in h[b] && k !in Last(h)
    ensures b < t < |h| && k !in h[t] && forall i | b <= i < t :: k in h[i]
    decreases |h| - b
  {
    if k !in h[b + 1] {
      t := b + 1;
    } else {
      t := FirstAbsence(h, b + 1, k);
    }
  }

  /** No VRP is lost: a router holding at least some table published at or after `b` holds, after the diff
      since `b`, at least the current table. */
  lemma PatchCovers(h: seq<Table>, b: nat, j: nat, held: Table)
    requires b <= j < |h| && h[j] <= held
    ensures Last(h) <= Patch(held, Announces(h, b), Withdraws(h, b))
  {
    forall k | k in Last(h) ensures k in Patch(held, Announces(h, b), Withdraws(h, b)) {
      StillThere(h, b, k);
      assert k !in Announces(h, b) ==> k in h[j];
    }
  }

  /** A diff that spans at most two updates leaves nothing behind. */
  lemma ShortLagExact(h: seq<Table>, b: nat)
    requires b < |h| <= b + 3
    ensures Leftover(h, b) == {}
    ensures Patch(h[b], Announces(h, b), Withdraws(h, b)) == Last(h)
  {
    PatchedOldTable(h, b);
  }

  /** A diff over at most one update leaves nothing behind on a router that holds either of its two tables. */
  lemma OneUpdateExact(h: seq<Table>, b: nat, j: nat)
    requires b <= j < |h| <= b + 2
    ensures Patch(h[j], Announces(h, b), Withdraws(h, b)) == Last(h)
  {
    PatchedHeldTable(h, b, j, h[j]);
  }

  /** Served records are well formed: withdrawals name keys of the old table, announcements name keys of the
      current one, and no key is both. */
  lemma RecordsWellFormed(h: seq<Table>, b: nat)
    requires b < |h|
    ensures Withdraws(h, b) <= h[b] && Withdraws(h, b) !! Last(h)
    ensures Announces(h, b) <= Last(h)
    ensures Announces(h, b) !! Withdraws(h, b)
  {
    assert forall k, t | LeavesAt(h, b, k, t) :: k !in h[|h| - 1];
  }
}
