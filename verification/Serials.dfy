/** 32-bit serial numbers, the retained window, and which published table a queried serial stands for. */
module Serials {
  import opened Basics

  const SERIAL_SPACE := 0x1_0000_0000

  /** Unsigned 32-bit increment. */
  function Successor(s: u32): u32 {
    if s == SERIAL_SPACE - 1 then 0 else s + 1
  }

  lemma SuccessorWraps(s: u32)
    ensures Successor(s) == (s + 1) % 0x1_0000_0000
  {
  }

  /** `names[i]` is the serial under which update `i + 1` was published: they count up and wrap around. */
  ghost predicate Consecutive(names: seq<u32>) {
    forall i, j | 0 <= i < j < |names| && j == i + 1 :: names[j] == Successor(names[i])
  }

  /** How many of `m` updates are still retained; a non-positive `keepDiff` retains all of them. */
  function Window(m: nat, keepDiff: int): nat {
    if keepDiff > 0 && m > keepDiff + 1 then keepDiff + 1 else m
  }

  /** After the updates published under `names`, serial `s` stands for update `c` (counting from one): the latest
      retained update published under `s`. */
  ghost predicate Serves(names: seq<u32>, keepDiff: int, s: u32, c: nat) {
    && |names| - Window(|names|, keepDiff) < c <= |names|
    && names[c - 1] == s
    && forall i | c <= i < |names| :: names[i] != s
  }

  /** Serial `s` stands for some retained update. */
  ghost predicate IsServed(names: seq<u32>, keepDiff: int, s: u32) {
    exists c :: Serves(names, keepDiff, s, c)
  }

  lemma {:induction false} NameModulo(names: seq<u32>, i: nat, j: nat)
    requires Consecutive(names) && i <= j < |names|
    ensures names[j] == (names[i] + (j - i)) % SERIAL_SPACE
  {
    if i == j {
    } else {
      NameModulo(names, i, j - 1);
    }
  }

  /** Serials less than 2^32 updates apart differ. */
  lemma NamesDiffer(names: seq<u32>, i: nat, j: nat)
    requires Consecutive(names) && i < j < |names| && j < i + SERIAL_SPACE
    ensures names[i] != names[j]
  {
    NameModulo(names, i, j);
  }

  /** A serial stands for at most one update. */
  lemma ServesOneUpdate(names: seq<u32>, keepDiff: int, s: u32, b: nat, c: nat)
    requires Serves(names, keepDiff, s, b) && Serves(names, keepDiff, s, c)
    ensures b == c
  {
  }

  /** A serial less than 2^32 updates old is never mistaken for another update. */
  lemma ServesOwnUpdate(names: seq<u32>, keepDiff: int, f: nat, c: nat)
    requires Consecutive(names) && 1 <= f <= |names| < f + SERIAL_SPACE
    requires Serves(names, keepDiff, names[f - 1], c)
    ensures c == f
  {
    if f < c {
      NamesDiffer(names, f - 1, c - 1);
      assert false;
    }
    assert forall i | c <= i < |names| :: names[i] != names[f - 1];
  }

  /** Every retained update is served under its own serial while it is less than 2^32 updates old. */
  lemma RetainedIsServed(names: seq<u32>, keepDiff: int, f: nat)
    requires Consecutive(names) && 1 <= f <= |names| < f + SERIAL_SPACE
    requires |names| - Window(|names|, keepDiff) < f
    ensures Serves(names, keepDiff, names[f - 1], f)
  {
    forall i | f <= i < |names| ensures names[i] != names[f - 1] {
      NamesDiffer(names, f - 1, i);
    }
  }
}
