/** When the answers of a server bring a router exactly up to date. */
module Exactness {
  import opened Basics
  import opened Vrps
  import opened History
  import opened Serials
  import opened RtrServer

  /** After publishing the lists, the answer for serial `s`, if there is one, takes the table that `s` stands for
      exactly to the current one. */
  ghost predicate AnswersExactly(keepDiff: int, first: u32, lists: seq<seq<VRP>>, s: u32)
    requires keepDiff < SERIAL_SPACE && lists != []
  {
    var r, answer := RunOf(keepDiff, first, lists), AnswerAfter(keepDiff, first, lists, s);
    forall b: nat | answer.Some? && Serves(r.names, keepDiff, s, b) && b < |r.tables| ::
      Patch(r.tables[b], Announced(answer.value), Withdrawn(answer.value)) == Last(r.tables)
  }

  /** A server with this window answers exactly, whatever it is given to publish. */
  ghost predicate AlwaysExact(keepDiff: int)
    requires keepDiff < SERIAL_SPACE
  {
    forall first, lists, s | lists != [] :: AnswersExactly(keepDiff, first, lists, s)
  }

  /** Over all runs: an answer is exact iff no key of the table asked about has since left, come back and left
      again. */
  lemma ExactAnswer(keepDiff: int, first: u32, lists: seq<seq<VRP>>, s: u32, b: nat)
    requires keepDiff < SERIAL_SPACE && lists != []
    requires Serves(RunOf(keepDiff, first, lists).names, keepDiff, s, b)
    ensures var r, answer := RunOf(keepDiff, first, lists), AnswerAfter(keepDiff, first, lists, s);
            && answer.Some? && b < |r.tables| && Records(answer.value, r.tables, b)
            && (Patch(r.tables[b], Announced(answer.value), Withdrawn(answer.value)) == Last(r.tables)
                <==> Leftover(r.tables, b) == {})
  {
    var r := RunOf(keepDiff, first, lists);
    RunAgrees(keepDiff, first, lists);
    AnswerOverRuns(keepDiff, first, lists, s);
    PatchedOldTable(r.tables, b);
    var c :| Serves(r.names, keepDiff, s, c) && Answers(Answer(r.cache, s).value, r.tables, c);
    ServesOneUpdate(r.names, keepDiff, s, b, c);
  }

  /** A key that is there, gone, back and gone again. */
  function Flapping(v: VRP): seq<seq<VRP>> {
    [[v], [], [v], []]
  }

  /** A server that keeps three diffs, as configured, or more answers a router that asks about the first of four such
      updates with an empty diff, although the router's table holds the key and the current table does not. */
  lemma FlappingIsLeftBehind(keepDiff: int, first: u32, v: VRP)
    requires keepDiff < SERIAL_SPACE && (keepDiff <= 0 || 3 <= keepDiff)
    ensures var r := RunOf(keepDiff, first, Flapping(v));
            && Serves(r.names, keepDiff, first, 1)
            && AnswerAfter(keepDiff, first, Flapping(v), first) == Some([])
            && r.tables == [{}, {v.key}, {}, {v.key}, {}]
  {
    FlappingRun(keepDiff, first, v, Flapping(v));
  }

  lemma FlappingRun(keepDiff: int, first: u32, v: VRP, lists: seq<seq<VRP>>)
    requires keepDiff < SERIAL_SPACE && (keepDiff <= 0 || 3 <= keepDiff) && lists == Flapping(v)
    ensures var r := RunOf(keepDiff, first, lists);
            && Serves(r.names, keepDiff, first, 1)
            && AnswerAfter(keepDiff, first, lists, first) == Some([])
            && r.tables == [{}, {v.key}, {}, {v.key}, {}]
  {
    var r := RunOf(keepDiff, first, lists);
    RunAgrees(keepDiff, first, lists);
    RunTables(keepDiff, first, lists);
    FlappingTables(v, lists, r.tables);
    RetainedIsServed(r.names, keepDiff, 1);
    ExactAnswer(keepDiff, first, lists, first, 1);
    NothingRecorded(r.tables, v.key, AnswerAfter(keepDiff, first, lists, first).value);
  }

  lemma FlappingTables(v: VRP, lists: seq<seq<VRP>>, tables: seq<Table>)
    requires lists == Flapping(v) && TablesOf(lists, tables)
    ensures tables == [{}, {v.key}, {}, {v.key}, {}]
  {
    assert Keys([v]) == {v.key} && Keys([]) == {};
  }

  /** The record of a key that flaps is empty. */
  lemma NothingRecorded(h: seq<Table>, k: Key, d: seq<VRP>)
    requires h == [{}, {k}, {}, {k}, {}] && Records(d, h, 1)
    ensures d == []
  {
    assert h[2] == {} && h[3] == {k};
    assert CameBack(h, 1, k);
    LeftOrCameBack(h, 1, k);
    assert Withdraws(h, 1) == {};
    assert d != [] ==> d[0] in d && d[0].key in Announced(d) + Withdrawn(d);
  }

  /** Exactly the servers that keep one or two diffs always answer exactly; the configured three do not. */
  lemma ExactWindows(keepDiff: int)
    requires keepDiff < SERIAL_SPACE
    ensures AlwaysExact(keepDiff) <==> keepDiff == 1 || keepDiff == 2
  {
    if keepDiff == 1 || keepDiff == 2 {
      forall first, lists, s | lists != [] ensures AnswersExactly(keepDiff, first, lists, s) {
        ShortWindowExact(keepDiff, first, lists, s);
      }
    } else {
      var v := VRP(Key(IPNet([0, 0, 0, 0], CIDR(8)), 8, 0), FLAG_ADDED);
      FlappingIsLeftBehind(keepDiff, 0, v);
      var r := RunOf(keepDiff, 0, Flapping(v));
      assert Patch(r.tables[1], Announced([]), Withdrawn([])) == {v.key};
      assert !AnswersExactly(keepDiff, 0, Flapping(v), 0);
    }
  }

  lemma ShortWindowExact(keepDiff: int, first: u32, lists: seq<seq<VRP>>, s: u32)
    requires (keepDiff == 1 || keepDiff == 2) && lists != []
    ensures AnswersExactly(keepDiff, first, lists, s)
  {
    var r := RunOf(keepDiff, first, lists);
    RunAgrees(keepDiff, first, lists);
    forall b: nat | Serves(r.names, keepDiff, s, b) && b < |r.tables|
      ensures var d := AnswerAfter(keepDiff, first, lists, s).value;
              Patch(r.tables[b], Announced(d), Withdrawn(d)) == Last(r.tables)
    {
      ExactAnswer(keepDiff, first, lists, s, b);
      ShortLagExact(r.tables, b);
    }
  }
}
