/** The incremental diff cache of the RTR server (lib/server.go). */
module RtrServer {
  import opened Basics
  import opened Vrps
  import opened Diffs
  import opened History
  import opened Serials

  /** The retained serials are those of the newest updates. */
  ghost predicate Retained(serials: seq<u32>, names: seq<u32>, keepDiff: int) {
    |serials| == Window(|names|, keepDiff) && serials == names[|names| - |serials|..]
  }

  /** Entry `s -> i` of a serial index: `s` is at position `i - 1` and not again before the last position. */
  ghost predicate IndexEntry(serials: seq<u32>, s: u32, i: int) {
    1 <= i < |serials| && serials[i - 1] == s && forall j | i <= j < |serials| - 1 :: serials[j] != s
  }

  /** The index maps exactly the serials before the last one to one more than their latest position. */
  ghost predicate Indexed(index: map<u32, int>, serials: seq<u32>) {
    && (forall s | s in index :: IndexEntry(serials, s, index[s]))
    && (forall j | 0 <= j < |serials| - 1 :: serials[j] in index)
  }

  /** Stored diff `i` is the exact record since the table before the `i`-th retained update. */
  ghost predicate ExactRecords(diffs: seq<seq<VRP>>, h: seq<Table>) {
    && |diffs| < |h|
    && forall i | 0 <= i < |diffs| :: Records(diffs[i], h, |h| - 1 - |diffs| + i)
  }

  ghost predicate AllUnique(lists: seq<seq<VRP>>) {
    forall i | 0 <= i < |lists| :: Unique(lists[i])
  }

  /** The retained serials are pairwise distinct as long as at most 2^32 of them are kept. */
  lemma SerialsDistinct(serials: seq<u32>, names: seq<u32>, keepDiff: int)
    requires Consecutive(names) && Retained(serials, names, keepDiff) && |serials| <= SERIAL_SPACE
    ensures forall i, j | 0 <= i < j < |serials| :: serials[i] != serials[j]
  {
    var base := |names| - |serials|;
    forall i, j | 0 <= i < j < |serials| ensures serials[i] != serials[j] {
      NamesDiffer(names, base + i, base + j);
    }
  }

  /** The index after one update: the superseded serial is added, the others shift down with the window, and
      dropped serials disappear. */
  function Reindexed(index: map<u32, int>, superseded: u32, position: int, dropped: seq<u32>): map<u32, int> {
    map s | s in index.Keys + {superseded} && s !in dropped ::
      if s == superseded then position else if s in index then index[s] - |dropped| else 0
  }

  /** All an update needs of the index: right entries, except perhaps for the serial it supersedes. */
  ghost predicate Shiftable(index: map<u32, int>, serials: seq<u32>) {
    && serials != []
    && (forall s | s in index && s != Superseded(serials) :: IndexEntry(serials, s, index[s]))
    && (forall j | 0 <= j < |serials| - 1 :: serials[j] in index)
  }

  lemma ReindexedIsIndexed(index: map<u32, int>, serials: seq<u32>, dropped: nat, next: u32)
    requires Shiftable(index, serials) && dropped < |serials|
    requires dropped > 0 ==> forall i, j | 0 <= i < j < |serials| :: serials[i] != serials[j]
    ensures Indexed(Reindexed(index, Superseded(serials), |serials| - dropped, serials[..dropped]),
                    serials[dropped..] + [next])
  {
    var cur := Superseded(serials);
    var out := serials[dropped..] + [next];
    var index' := Reindexed(index, cur, |serials| - dropped, serials[..dropped]);
    forall s | s in index' ensures IndexEntry(out, s, index'[s]) {
      if s != cur {
        var i := index[s];
        assert IndexEntry(serials, s, i);
        assert s !in serials[..dropped];
        assert forall j | 0 <= j < dropped :: serials[j] in serials[..dropped];
        assert out[i - dropped - 1] == s;
        assert forall j | i - dropped <= j < |out| - 1 :: out[j] == serials[j + dropped];
      } else {
        assert out[|serials| - dropped - 1] == s;
      }
    }
    forall j | 0 <= j < |out| - 1 ensures out[j] in index' {
      assert out[j] == serials[j + dropped];
      assert forall i | 0 <= i < dropped :: serials[i] != serials[j + dropped];
    }
  }

  /** How many of `n` retained serials the next update drops. */
  function Dropped(n: nat, keepDiff: int): nat {
    if 0 < keepDiff <= n then n - keepDiff else 0
  }

  /** Every stored diff with the new one folded in. */
  function Folded(diff: seq<VRP>, diffs: seq<seq<VRP>>): (r: seq<seq<VRP>>)
    ensures |r| == |diffs|
    ensures forall i | 0 <= i < |diffs| :: r[i] == Applied(diff, diffs[i])
  {
    seq(|diffs|, i requires 0 <= i < |diffs| => Applied(diff, diffs[i]))
  }

  /** The serial that a new update supersedes. */
  function Superseded(serials: seq<u32>): u32
    requires serials != []
  {
    serials[|serials| - 1]
  }

  /** `change` is the exact difference between the current table and `t`. */
  ghost predicate IsChange(change: seq<VRP>, now: Table, t: Table) {
    Coherent(change) && Announced(change) == t - now && Withdrawn(change) == now - t
  }

  /** Folding the change into every stored diff, appending it, and dropping the oldest keeps all records exact. */
  lemma NextRecords(diffs: seq<seq<VRP>>, folded: seq<seq<VRP>>, change: seq<VRP>, h: seq<Table>, t: Table, drop: nat)
    requires ExactRecords(diffs, h) && IsChange(change, Last(h), t)
    requires |folded| == |diffs| && drop <= |diffs|
    requires forall i | 0 <= i < |diffs| :: folded[i] == Applied(change, diffs[i])
    ensures ExactRecords((folded + [change])[drop..], h + [t])
    ensures AllUnique(diffs) && Unique(change) ==> AllUnique((folded + [change])[drop..])
  {
    var all := folded + [change];
    forall i | 0 <= i < |all|
      ensures Records(all[i], h + [t], |h| - |all| + i)
      ensures AllUnique(diffs) && Unique(change) ==> Unique(all[i])
    {
      if i < |diffs| {
        RecordFolds(diffs[i], change, h, t, |h| - |all| + i);
      } else {
        RecordStarts(change, h, t);
      }
    }
  }

  /** A non-current serial found in the index stands for the update its entry names. */
  lemma IndexHit(serials: seq<u32>, names: seq<u32>, keepDiff: int, s: u32, i: int)
    requires names != [] && Retained(serials, names, keepDiff)
    requires IndexEntry(serials, s, i) && s != names[|names| - 1]
    ensures Serves(names, keepDiff, s, |names| - |serials| + i)
  {
    var base := |names| - |serials|;
    assert names[base + i - 1] == serials[i - 1];
    forall d | base + i <= d < |names| ensures names[d] != s {
      assert names[d] == serials[d - base];
    }
  }

  /** A non-current serial missing from the index stands for no retained update. */
  lemma IndexMiss(serials: seq<u32>, names: seq<u32>, keepDiff: int, index: map<u32, int>, s: u32)
    requires names != [] && Retained(serials, names, keepDiff)
    requires IndexState(index, serials)
    requires s !in index && s != names[|names| - 1]
    ensures !IsServed(names, keepDiff, s)
  {
    var base := |names| - |serials|;
    forall i | base <= i < |names| - 1 ensures names[i] != s {
      assert names[i] == serials[i - base];
    }
  }

  /** The index in use with the given retained serials. */
  ghost predicate IndexState(index: map<u32, int>, serials: seq<u32>) {
    if |serials| == 0 then index == map[]
    else if |serials| == 1 then index == map[serials[0] := 0]
    else Indexed(index, serials)
  }

  /** One update keeps the index state. */
  lemma NextIndex(index: map<u32, int>, serials: seq<u32>, cur: u32, dropped: nat, next: u32)
    requires IndexState(index, serials)
    requires if serials == [] then dropped == 0 && cur == next else dropped < |serials| && cur == Superseded(serials)
    requires dropped > 0 ==> forall i, j | 0 <= i < j < |serials| :: serials[i] != serials[j]
    ensures IndexState(Reindexed(index, cur, |serials| - dropped, serials[..dropped]), serials[dropped..] + [next])
  {
    if serials == [] {
      assert Reindexed(index, cur, 0, []) == map[cur := 0];
    } else {
      ReindexedIsIndexed(index, serials, dropped, next);
    }
  }

  /** The serial the next update gets: one more than the last retained one, or the current one before any data. */
  function NextSerial(serials: seq<u32>, current: u32): u32 {
    if |serials| > 0 then Successor(serials[|serials| - 1]) else current
  }

  /** The fields of a server that an update changes. */
  datatype Cache = Cache(diffs: seq<seq<VRP>>, index: map<u32, int>, serials: seq<u32>,
                         current: seq<VRP>, serial: u32)

  /** The cache after folding in a diff, whatever it says, and moving the window. */
  function Next(c: Cache, diff: seq<VRP>, keepDiff: int): (c': Cache)
    requires |c.diffs| == |c.serials|
    ensures |c'.diffs| == |c'.serials|
  {
    var r, serial := Dropped(|c.serials|, keepDiff), NextSerial(c.serials, c.serial);
    Cache((Folded(diff, c.diffs) + [diff])[r..],
          Reindexed(c.index, c.serial, |c.serials| - r, c.serials[..r]),
          c.serials[r..] + [serial],
          Applied(diff, c.current),
          serial)
  }

  /** Window, index and current serial are those of the newest of the updates published under `names`. */
  ghost predicate SerialsAgree(keepDiff: int, names: seq<u32>, serials: seq<u32>, index: map<u32, int>, serial: u32) {
    && keepDiff < SERIAL_SPACE
    && Consecutive(names)
    && Retained(serials, names, keepDiff)
    && (names != [] ==> serial == names[|names| - 1])
    && IndexState(index, serials)
  }

  /** The current table is the last one published, all announced, and every stored diff is exact. */
  ghost predicate TablesAgree(h: seq<Table>, c: Cache)
    requires h != []
  {
    && AllAnnounced(c.current) && Keys(c.current) == Last(h)
    && |c.diffs| == |c.serials|
    && ExactRecords(c.diffs, h)
  }

  ghost predicate NoRepeats(c: Cache) {
    Unique(c.current) && AllUnique(c.diffs)
  }

  lemma SerialsAgreeNext(keepDiff: int, names: seq<u32>, serials: seq<u32>, index: map<u32, int>, serial: u32,
                         names': seq<u32>, serials': seq<u32>, index': map<u32, int>, serial': u32)
    requires SerialsAgree(keepDiff, names, serials, index, serial)
    requires names' == names + [serial'] && serial' == NextSerial(serials, serial)
    requires serials' == serials[Dropped(|serials|, keepDiff)..] + [serial']
    requires var r := Dropped(|serials|, keepDiff); index' == Reindexed(index, serial, |serials| - r, serials[..r])
    ensures SerialsAgree(keepDiff, names', serials', index', serial')
  {
    RetainedNext(keepDiff, names, serials, serial, names', serials', serial');
    IndexNext(keepDiff, names, serials, index, serial, serial');
  }

  lemma IndexNext(keepDiff: int, names: seq<u32>, serials: seq<u32>, index: map<u32, int>, serial: u32, serial': u32)
    requires SerialsAgree(keepDiff, names, serials, index, serial) && serial' == NextSerial(serials, serial)
    ensures var r := Dropped(|serials|, keepDiff);
            IndexState(Reindexed(index, serial, |serials| - r, serials[..r]), serials[r..] + [serial'])
  {
    var r := Dropped(|serials|, keepDiff);
    if r > 0 {
      SerialsDistinct(serials, names, keepDiff);
    }
    NextIndex(index, serials, serial, r, serial');
  }

  lemma RetainedNext(keepDiff: int, names: seq<u32>, serials: seq<u32>, serial: u32,
                     names': seq<u32>, serials': seq<u32>, serial': u32)
    requires Consecutive(names) && Retained(serials, names, keepDiff)
    requires names' == names + [serial'] && serial' == NextSerial(serials, serial)
    requires serials' == serials[Dropped(|serials|, keepDiff)..] + [serial']
    ensures Consecutive(names') && Retained(serials', names', keepDiff)
  {
    assert serials' == names'[|names'| - |serials'|..];
  }

  lemma TablesAgreeNext(keepDiff: int, h: seq<Table>, c: Cache, vrps: seq<VRP>, h': seq<Table>, c': Cache)
    requires h != [] && TablesAgree(h, c)
    requires h' == h + [Keys(vrps)] && c' == Next(c, Change(vrps, c.current), keepDiff)
    ensures TablesAgree(h', c') && (NoRepeats(c) && Unique(vrps) ==> NoRepeats(c'))
  {
    var diff := Change(vrps, c.current);
    ChangeMeaning(vrps, c.current);
    PatchedTable(vrps, c.current);
    NextRecords(c.diffs, Folded(diff, c.diffs), diff, h, Keys(vrps), Dropped(|c.serials|, keepDiff));
  }

  /** The cache agrees with the tables `h` published so far under the serials `names` (`h[0]` is the empty table
      before any data; `h[i]` was published under `names[i - 1]`). When `unique`, no list given so far repeated a key,
      and no list held repeats one. */
  ghost predicate Agrees(keepDiff: int, names: seq<u32>, h: seq<Table>, unique: bool, c: Cache) {
    && |h| == |names| + 1
    && SerialsAgree(keepDiff, names, c.serials, c.index, c.serial)
    && TablesAgree(h, c)
    && (unique ==> NoRepeats(c))
  }

  /** Publishing a list keeps the cache in agreement. */
  lemma AgreesNext(keepDiff: int, names: seq<u32>, h: seq<Table>, unique: bool, c: Cache, vrps: seq<VRP>,
                   names': seq<u32>, h': seq<Table>, unique': bool, c': Cache)
    requires Agrees(keepDiff, names, h, unique, c)
    requires names' == names + [c'.serial] && h' == h + [Keys(vrps)] && unique' == (unique && Unique(vrps))
    requires c' == Next(c, Change(vrps, c.current), keepDiff)
    ensures Agrees(keepDiff, names', h', unique', c')
  {
    SerialsAgreeNext(keepDiff, names, c.serials, c.index, c.serial, names', c'.serials, c'.index, c'.serial);
    TablesAgreeNext(keepDiff, h, c, vrps, h', c');
  }

  // ---- Whole runs

  /** A server after some updates: what it published, under which serials, whether no list repeated a key, and its
      cache. */
  datatype Run = Run(names: seq<u32>, tables: seq<Table>, unique: bool, cache: Cache)

  /** The serial that follows the ones given. */
  function NameAfter(first: u32, names: seq<u32>): u32 {
    if names == [] then first else Successor(names[|names| - 1])
  }

  ghost function Publish(keepDiff: int, first: u32, r: Run, vrps: seq<VRP>): Run
    requires |r.cache.diffs| == |r.cache.serials|
  {
    Run(r.names + [NameAfter(first, r.names)], r.tables + [Keys(vrps)], r.unique && Unique(vrps),
        Next(r.cache, Change(vrps, r.cache.current), keepDiff))
  }

  /** Publishing the lists one after the other, starting with serial `first`. */
  ghost function RunOf(keepDiff: int, first: u32, lists: seq<seq<VRP>>): (r: Run)
    ensures |r.cache.diffs| == |r.cache.serials|
  {
    if lists == [] then Run([], [{}], true, Cache([], map[], [], [], first))
    else Publish(keepDiff, first, RunOf(keepDiff, first, lists[..|lists| - 1]), lists[|lists| - 1])
  }

  ghost predicate RunOk(keepDiff: int, first: u32, r: Run) {
    && Agrees(keepDiff, r.names, r.tables, r.unique, r.cache)
    && (if r.names == [] then r.cache.serial == first else r.names[0] == first)
  }

  lemma NextSerialIsName(keepDiff: int, names: seq<u32>, serials: seq<u32>, index: map<u32, int>, serial: u32,
                         first: u32)
    requires SerialsAgree(keepDiff, names, serials, index, serial) && (names == [] ==> serial == first)
    ensures NextSerial(serials, serial) == NameAfter(first, names)
  {
  }

  lemma PublishOk(keepDiff: int, first: u32, r: Run, vrps: seq<VRP>)
    requires RunOk(keepDiff, first, r)
    ensures RunOk(keepDiff, first, Publish(keepDiff, first, r, vrps))
  {
    var r' := Publish(keepDiff, first, r, vrps);
    NextSerialIsName(keepDiff, r.names, r.cache.serials, r.cache.index, r.cache.serial, first);
    assert r'.cache.serial == NameAfter(first, r.names);
    AgreesNext(keepDiff, r.names, r.tables, r.unique, r.cache, vrps, r'.names, r'.tables, r'.unique, r'.cache);
  }

  /** After any run of updates the cache, which only ever patches what it held before, agrees with the plain list of
      everything published: current table, window, serial index, and the meaning of every stored diff. */
  lemma {:induction false} RunAgrees(keepDiff: int, first: u32, lists: seq<seq<VRP>>)
    requires keepDiff < SERIAL_SPACE
    ensures RunOk(keepDiff, first, RunOf(keepDiff, first, lists))
  {
    if lists == [] {
    } else {
      RunAgrees(keepDiff, first, lists[..|lists| - 1]);
      PublishOk(keepDiff, first, RunOf(keepDiff, first, lists[..|lists| - 1]), lists[|lists| - 1]);
    }
  }

  /** The empty table, then the key set of each list. */
  ghost predicate TablesOf(lists: seq<seq<VRP>>, tables: seq<Table>) {
    && |tables| == |lists| + 1 && tables[0] == {}
    && forall i | 0 < i < |tables| :: tables[i] == Keys(lists[i - 1])
  }

  lemma TablesOfStep(init: seq<seq<VRP>>, last: seq<VRP>, tables: seq<Table>)
    requires TablesOf(init, tables)
    ensures TablesOf(init + [last], tables + [Keys(last)])
  {
  }

  /** The tables of a run are the key sets of the lists, whatever the cache did with them. */
  lemma {:induction false} RunTables(keepDiff: int, first: u32, lists: seq<seq<VRP>>)
    ensures TablesOf(lists, RunOf(keepDiff, first, lists).tables)
    ensures RunOf(keepDiff, first, lists).unique == AllUnique(lists)
  {
    if lists == [] {
    } else {
      var init, last := lists[..|lists| - 1], lists[|lists| - 1];
      RunTables(keepDiff, first, init);
      AllUniqueStep(init, last);
      TablesOfStep(init, last, RunOf(keepDiff, first, init).tables);
      assert lists == init + [last];
    }
  }

  lemma AllUniqueStep(init: seq<seq<VRP>>, last: seq<VRP>)
    ensures AllUnique(init + [last]) == (AllUnique(init) && Unique(last))
  {
    var all := init + [last];
    assert forall i | 0 <= i < |init| :: all[i] == init[i];
    assert all[|init|] == last;
  }

  /** Table agreement over runs: the current table has exactly the keys of the last list, all announced, none twice if
      no list repeated one. */
  lemma CurrentTableOverRuns(keepDiff: int, first: u32, lists: seq<seq<VRP>>)
    requires keepDiff < SERIAL_SPACE && lists != []
    ensures var c := RunOf(keepDiff, first, lists).cache;
            && Keys(c.current) == Keys(lists[|lists| - 1]) && AllAnnounced(c.current)
            && (AllUnique(lists) ==> Unique(c.current))
  {
    RunAgrees(keepDiff, first, lists);
    RunTables(keepDiff, first, lists);
  }

  /** A right window after `m` updates: as many diffs as serials, namely one for each update or, when `keepDiff` is
      positive, for each of the newest `keepDiff + 1`; serials that count up to the current one; and an index of them
      from the second update on. */
  ghost predicate RightWindow(keepDiff: int, m: nat, c: Cache) {
    && |c.diffs| == |c.serials| >= 1
    && |c.serials| == (if keepDiff <= 0 || m <= keepDiff then m else keepDiff + 1)
    && Consecutive(c.serials) && c.serials[|c.serials| - 1] == c.serial
    && (m >= 2 ==> Indexed(c.index, c.serials))
  }

  /** The retained serials are pairwise distinct, and from the second update on the index maps the `j`-th of them to
      `j + 1`, for all but the last. */
  ghost predicate RightPositions(m: nat, c: Cache) {
    && (forall i, j | 0 <= i < j < |c.serials| :: c.serials[i] != c.serials[j])
    && (m >= 2 ==> forall j | 0 <= j < |c.serials| - 1 ::
          c.serials[j] in c.index && c.index[c.serials[j]] == j + 1)
  }

  /** The window is right after any run of updates, across 32-bit wrap-around, and when `keepDiff` is positive so are
      the positions in it. */
  lemma WindowOverRuns(keepDiff: int, first: u32, lists: seq<seq<VRP>>)
    requires keepDiff < SERIAL_SPACE && lists != []
    ensures RightWindow(keepDiff, |lists|, RunOf(keepDiff, first, lists).cache)
    ensures keepDiff > 0 ==> RightPositions(|lists|, RunOf(keepDiff, first, lists).cache)
  {
    RunAgrees(keepDiff, first, lists);
    RunTables(keepDiff, first, lists);
    var r := RunOf(keepDiff, first, lists);
    assert |r.names| == |lists|;
    AgreedWindow(keepDiff, r.names, r.tables, r.unique, r.cache);
    if keepDiff > 0 {
      AgreedPositions(keepDiff, r.names, r.tables, r.unique, r.cache);
    }
  }

  lemma AgreedWindow(keepDiff: int, names: seq<u32>, h: seq<Table>, unique: bool, c: Cache)
    requires Agrees(keepDiff, names, h, unique, c) && names != []
    ensures RightWindow(keepDiff, |names|, c)
  {
    SuffixConsecutive(names, c.serials);
  }

  lemma AgreedPositions(keepDiff: int, names: seq<u32>, h: seq<Table>, unique: bool, c: Cache)
    requires Agrees(keepDiff, names, h, unique, c) && keepDiff > 0
    ensures RightPositions(|names|, c)
  {
    SerialsDistinct(c.serials, names, keepDiff);
    if |names| >= 2 {
      IndexPositions(c.index, c.serials);
    }
  }

  lemma SuffixConsecutive(names: seq<u32>, serials: seq<u32>)
    requires Consecutive(names) && |serials| <= |names| && serials == names[|names| - |serials|..]
    ensures Consecutive(serials)
  {
    var base := |names| - |serials|;
    assert forall i | 0 <= i < |serials| :: serials[i] == names[base + i];
  }

  lemma IndexPositions(index: map<u32, int>, serials: seq<u32>)
    requires Indexed(index, serials) && forall i, j | 0 <= i < j < |serials| :: serials[i] != serials[j]
    ensures forall j | 0 <= j < |serials| - 1 :: serials[j] in index && index[serials[j]] == j + 1
  {
    forall j | 0 <= j < |serials| - 1 ensures index[serials[j]] == j + 1 {
      var i := index[serials[j]];
      assert IndexEntry(serials, serials[j], i);
      assert serials[i - 1] == serials[j];
    }
  }

  /** What the cache answers for a queried serial. */
  function Answer(c: Cache, s: u32): Option<seq<VRP>>
    requires s != c.serial && s in c.index ==> 0 <= c.index[s] < |c.diffs|
  {
    if s == c.serial then Some([]) else if s in c.index then Some(c.diffs[c.index[s]]) else None
  }

  /** An agreeing cache answers exactly the serials that stand for a retained update, with the exact record since. */
  lemma AgreedAnswer(keepDiff: int, names: seq<u32>, h: seq<Table>, unique: bool, c: Cache, s: u32)
    requires Agrees(keepDiff, names, h, unique, c) && names != []
    ensures s != c.serial && s in c.index ==> 0 <= c.index[s] < |c.diffs|
    ensures Answer(c, s).Some? <==> IsServed(names, keepDiff, s)
    ensures Answer(c, s).Some? ==> exists b :: Serves(names, keepDiff, s, b) && Answers(Answer(c, s).value, h, b)
    ensures Answer(c, s).Some? && unique ==> Unique(Answer(c, s).value)
  {
    if s == c.serial {
      NoChangeYet(h);
      RecordAnswers([], h, |names|);
      assert Serves(names, keepDiff, s, |names|);
    } else if s in c.index {
      AgreedHit(keepDiff, names, h, unique, c, s);
    } else {
      IndexMiss(c.serials, names, keepDiff, c.index, s);
    }
  }

  lemma AgreedHit(keepDiff: int, names: seq<u32>, h: seq<Table>, unique: bool, c: Cache, s: u32)
    requires Agrees(keepDiff, names, h, unique, c) && names != [] && s != c.serial && s in c.index
    ensures 0 <= c.index[s] < |c.diffs|
    ensures var b := |names| - |c.serials| + c.index[s];
            Serves(names, keepDiff, s, b) && Answers(c.diffs[c.index[s]], h, b)
  {
    var i := c.index[s];
    assert IndexEntry(c.serials, s, i);
    IndexHit(c.serials, names, keepDiff, s, i);
    RecordAnswers(c.diffs[i], h, |names| - |c.serials| + i);
  }

  /** The answer over runs: a serial is answered iff it stands for a retained update, the index used is in range, and
      the answer turns the table of that update into the current table plus exactly the keys that left, came back and
      left again since. No key occurs twice in it if no list repeated one. */
  lemma AnswerOverRuns(keepDiff: int, first: u32, lists: seq<seq<VRP>>, s: u32)
    requires keepDiff < SERIAL_SPACE && lists != []
    ensures var r := RunOf(keepDiff, first, lists);
            && (s != r.cache.serial && s in r.cache.index ==> 0 <= r.cache.index[s] < |r.cache.diffs|)
            && (Answer(r.cache, s).Some? <==> IsServed(r.names, keepDiff, s))
            && (Answer(r.cache, s).Some? ==>
                  exists b :: Serves(r.names, keepDiff, s, b) && Answers(Answer(r.cache, s).value, r.tables, b))
            && (Answer(r.cache, s).Some? && AllUnique(lists) ==> Unique(Answer(r.cache, s).value))
  {
    RunAgrees(keepDiff, first, lists);
    RunTables(keepDiff, first, lists);
    var r := RunOf(keepDiff, first, lists);
    AgreedAnswer(keepDiff, r.names, r.tables, r.unique, r.cache, s);
  }

  /** What the server answers for serial `s` after publishing the lists. */
  ghost function AnswerAfter(keepDiff: int, first: u32, lists: seq<seq<VRP>>, s: u32): Option<seq<VRP>>
    requires keepDiff < SERIAL_SPACE && lists != []
  {
    AnswerOverRuns(keepDiff, first, lists, s);
    Answer(RunOf(keepDiff, first, lists).cache, s)
  }

  /** The diff `d` patches table `c` to the current table and the keys left behind, withdrawing only keys of table `c`
      and announcing only current keys. */
  ghost predicate Answers(d: seq<VRP>, h: seq<Table>, c: nat) {
    && c < |h|
    && Records(d, h, c)
    && Patch(h[c], Announced(d), Withdrawn(d)) == Last(h) + Leftover(h, c)
    && Withdrawn(d) <= h[c] && Announced(d) <= Last(h) && Announced(d) !! Withdrawn(d)
  }

  lemma RecordAnswers(d: seq<VRP>, h: seq<Table>, c: nat)
    requires c < |h| && Records(d, h, c)
    ensures Answers(d, h, c)
  {
    PatchedOldTable(h, c);
    RecordsWellFormed(h, c);
  }

  class Server {
    const keepDiff: int
    var vrpListDiff: seq<seq<VRP>>
    var vrpMapSerial: map<u32, int>
    var vrpListSerial: seq<u32>
    var vrpCurrent: seq<VRP>
    var vrpCurrentSerial: u32

    /** The tables published so far, oldest first, starting from the empty table before any data. */
    ghost var tables: seq<Table>
    /** Whether every list given to AddVRPs so far had unique keys. */
    ghost var unique: bool
    /** The serials they were published under. */
    ghost var names: seq<u32>

    ghost function Snapshot(): Cache
      reads this
    {
      Cache(vrpListDiff, vrpMapSerial, vrpListSerial, vrpCurrent, vrpCurrentSerial)
    }

    /** The cache agrees with the tables published so far: the window invariant, the serial index, the current
        table and the exact meaning of every stored diff. */
    ghost predicate Valid()
      reads this
    {
      Agrees(keepDiff, names, tables, unique, Snapshot())
    }

    constructor (keepDifference: int)
      requires keepDifference < SERIAL_SPACE
      ensures Valid() && names == [] && tables == [{}] && unique && keepDiff == keepDifference
      ensures vrpCurrentSerial == 0
    {
      keepDiff := keepDifference;
      vrpListDiff, vrpMapSerial, vrpListSerial, vrpCurrent, vrpCurrentSerial := [], map[], [], [], 0;
      names, tables, unique := [], [{}], true;
    }

    /** Must be called before data is added. */
    method SetSerial(serial: u32)
      requires Valid() && names == []
      modifies this`vrpCurrentSerial
      ensures Valid() && vrpCurrentSerial == serial
    {
      vrpCurrentSerial := serial;
    }

    method GetCurrentSerial() returns (serial: u32, valid: bool)
      requires Valid()
      ensures serial == vrpCurrentSerial
      ensures valid <==> names != []
      ensures valid ==> serial == names[|names| - 1]
    {
      serial, valid := vrpCurrentSerial, |vrpListSerial| > 0;
    }

    method GetCurrentVRPs() returns (vrps: seq<VRP>, exists_: bool)
      requires Valid()
      ensures exists_ && AllAnnounced(vrps) && Keys(vrps) == Last(tables)
      ensures unique ==> Unique(vrps)
    {
      vrps, exists_ := vrpCurrent, true;
    }

    /** The answer for a queried serial: the exact record since the table the serial stands for, or no answer
        when the serial stands for no retained update. */
    method GetVRPsSerialDiff(serial: u32) returns (vrps: seq<VRP>, ok: bool)
      requires Valid()
      ensures names == [] ==> (ok <==> serial == vrpCurrentSerial) && vrps == []
      ensures names != [] ==> (ok <==> IsServed(names, keepDiff, serial))
      ensures names != [] && ok ==> exists b :: Serves(names, keepDiff, serial, b) && Answers(vrps, tables, b)
      ensures unique ==> Unique(vrps)
    {
      if names != [] {
        AgreedAnswer(keepDiff, names, tables, unique, Snapshot(), serial);
      }
      if serial == vrpCurrentSerial {
        return [], true;
      }
      vrps, ok := [], false;
      if serial in vrpMapSerial {
        vrps, ok := vrpListDiff[vrpMapSerial[serial]], true;
      }
    }

    method GenerateSerial() returns (newserial: u32)
      ensures newserial == NextSerial(vrpListSerial, vrpCurrentSerial)
    {
      newserial := vrpCurrentSerial;
      if |vrpListSerial| > 0 {
        newserial := Successor(vrpListSerial[|vrpListSerial| - 1]);
      }
    }

    method AddSerial(serial: u32) returns (removed: seq<u32>)
      modifies this`vrpListSerial
      ensures var r := Dropped(|old(vrpListSerial)|, keepDiff);
              removed == old(vrpListSerial)[..r] && vrpListSerial == old(vrpListSerial)[r..] + [serial]
    {
      removed := [];
      if |vrpListSerial| >= keepDiff && keepDiff > 0 {
        var removeDiff := |vrpListSerial| - keepDiff;
        removed := vrpListSerial[..removeDiff];
        vrpListSerial := vrpListSerial[removeDiff..];
      }
      vrpListSerial := vrpListSerial + [serial];
    }

    /** Folds the new diff into every stored one. */
    method FoldDiffs(diff: seq<VRP>) returns (next: seq<seq<VRP>>)
      ensures next == Folded(diff, vrpListDiff)
    {
      next := [];
      for i := 0 to |vrpListDiff|
        invariant |next| == i
        invariant forall j | 0 <= j < i :: next[j] == Applied(diff, vrpListDiff[j])
      {
        var d := ApplyDiff(diff, vrpListDiff[i]);
        next := next + [d];
      }
    }

    /** Adds the superseded serial to the index, shifts the other entries, and deletes the dropped serials. */
    method Reindex(curserial: u32, position: int, removed: seq<u32>)
      modifies this`vrpMapSerial
      ensures vrpMapSerial == Reindexed(old(vrpMapSerial), curserial, position, removed)
    {
      vrpMapSerial := vrpMapSerial[curserial := position];
      if |removed| > 0 {
        ShiftIndex(curserial, |removed|);
      }
      DropSerials(removed);
    }

    method DropSerials(removed: seq<u32>)
      modifies this`vrpMapSerial
      ensures vrpMapSerial == map s | s in old(vrpMapSerial) && s !in removed :: old(vrpMapSerial)[s]
    {
      ghost var was := vrpMapSerial;
      for i := 0 to |removed|
        invariant vrpMapSerial == map s | s in was && s !in removed[..i] :: was[s]
      {
        vrpMapSerial := vrpMapSerial - {removed[i]};
      }
    }

    /** The entries move down with the window, in whatever order the map is walked. */
    method ShiftIndex(curserial: u32, shift: nat)
      modifies this`vrpMapSerial
      ensures vrpMapSerial == map s | s in old(vrpMapSerial) ::
                if s == curserial then old(vrpMapSerial)[s] else old(vrpMapSerial)[s] - shift
    {
      ghost var was := vrpMapSerial;
      var todo := vrpMapSerial.Keys;
      while todo != {}
        invariant todo <= vrpMapSerial.Keys == was.Keys
        invariant forall s | s in was ::
                    vrpMapSerial[s] == if s == curserial || s in todo then was[s] else was[s] - shift
      {
        var k :| k in todo;
        if k != curserial {
          vrpMapSerial := vrpMapSerial[k := vrpMapSerial[k] - shift];
        }
        todo := todo - {k};
      }
    }

    /** Folds a diff, whatever it says, into the current table and every stored diff, and moves the window. */
    method AddVRPsDiff(diff: seq<VRP>)
      requires |vrpListDiff| == |vrpListSerial|
      modifies this`vrpListDiff, this`vrpMapSerial, this`vrpListSerial, this`vrpCurrent, this`vrpCurrentSerial
      ensures Snapshot() == Next(old(Snapshot()), diff, keepDiff)
    {
      var nextDiff := FoldDiffs(diff);
      var newVrpCurrent := ApplyDiff(diff, vrpCurrent);
      var curserial := vrpCurrentSerial;
      var newserial := GenerateSerial();
      var removed := AddSerial(newserial);
      nextDiff := nextDiff + [diff];
      if |nextDiff| >= keepDiff && keepDiff > 0 {
        nextDiff := nextDiff[|removed|..];
      }
      Reindex(curserial, |nextDiff| - 1, removed);
      vrpListDiff := nextDiff;
      vrpCurrent := newVrpCurrent;
      vrpCurrentSerial := newserial;
    }

    /** Publishes a list: the table becomes exactly its keys, under the next serial. */
    method AddVRPs(vrps: seq<VRP>)
      requires Valid()
      modifies this
      ensures Valid()
      ensures tables == old(tables) + [Keys(vrps)] && unique == (old(unique) && Unique(vrps))
      ensures names == old(names) + [vrpCurrentSerial]
      ensures Snapshot() == Next(old(Snapshot()), Change(vrps, old(vrpCurrent)), keepDiff)
      ensures old(names) == [] ==> vrpCurrentSerial == old(vrpCurrentSerial)
    {
      ghost var c, ns, h, u := Snapshot(), names, tables, unique;
      var added, removed, kept := ComputeDiff(vrps, vrpCurrent);
      AddVRPsDiff(added + removed);
      names, tables, unique := names + [vrpCurrentSerial], tables + [Keys(vrps)], unique && Unique(vrps);
      AgreesNext(keepDiff, ns, h, u, c, vrps, names, tables, unique, Snapshot());
    }
  }
}
