/** Validated ROA payloads, their keys, and what a list of flagged payloads records. */
module Vrps {
  import opened Basics

  const FLAG_ADDED: u8 := 1
  const FLAG_REMOVED: u8 := 0

  /** A mask of `ones` leading one bits; `NoMask` is the nil mask an impossible prefix length yields. */
  datatype Mask = NoMask | CIDR(ones: nat)

  datatype IPNet = IPNet(ip: seq<Byte>, mask: Mask)

  /** The identity of a VRP: what its text key spells out. */
  datatype Key = Key(prefix: IPNet, maxLen: u8, asn: u32)

  datatype VRP = VRP(key: Key, flags: u8)

  function Keys(l: seq<VRP>): set<Key> {
    set v | v in l :: v.key
  }

  function Announced(l: seq<VRP>): set<Key> {
    set v | v in l && v.flags == FLAG_ADDED :: v.key
  }

  function Withdrawn(l: seq<VRP>): set<Key> {
    set v | v in l && v.flags == FLAG_REMOVED :: v.key
  }

  /** No key occurs twice. */
  ghost predicate Unique(l: seq<VRP>) {
    forall i, j | 0 <= i < j < |l| :: l[i].key != l[j].key
  }

  /** Every entry is an announcement or a withdrawal, and no key is recorded as both. */
  ghost predicate Coherent(l: seq<VRP>) {
    && (forall v | v in l :: v.flags == FLAG_ADDED || v.flags == FLAG_REMOVED)
    && Announced(l) !! Withdrawn(l)
  }

  /** The same payloads, all carrying `flags`. */
  function Stamp(l: seq<VRP>, flags: u8): (r: seq<VRP>)
    ensures |r| == |l|
    ensures forall i | 0 <= i < |l| :: r[i] == VRP(l[i].key, flags)
  {
    seq(|l|, i requires 0 <= i < |l| => VRP(l[i].key, flags))
  }

  predicate AllAnnounced(l: seq<VRP>) {
    forall v | v in l :: v.flags == FLAG_ADDED
  }

  lemma StampKeys(l: seq<VRP>, flags: u8)
    ensures Keys(Stamp(l, flags)) == Keys(l)
    ensures forall v | v in Stamp(l, flags) :: v.flags == flags
    ensures Unique(l) ==> Unique(Stamp(l, flags))
  {
    forall k | k in Keys(l) ensures k in Keys(Stamp(l, flags)) {
      var i :| 0 <= i < |l| && l[i].key == k;
      assert Stamp(l, flags)[i] in Stamp(l, flags);
    }
  }

  lemma {:induction false} FilterUnique(p: VRP -> bool, l: seq<VRP>)
    requires Unique(l)
    ensures Unique(Filter(p, l))
  {
    if l == [] {
    } else {
      var init, last := l[..|l| - 1], l[|l| - 1];
      FilterUnique(p, init);
      FilterMembers(p, init);
      var f := Filter(p, init);
      forall i | 0 <= i < |f| ensures f[i].key != last.key {
        assert f[i] in init;
      }
    }
  }

  lemma UniqueConcat(a: seq<VRP>, b: seq<VRP>)
    requires Unique(a) && Unique(b) && Keys(a) !! Keys(b)
    ensures Unique(a + b)
  {
    forall i, j | 0 <= i < j < |a + b| ensures (a + b)[i].key != (a + b)[j].key {
      if i < |a| <= j {
        assert a[i].key in Keys(a) && b[j - |a|].key in Keys(b);
      }
    }
  }

  lemma ConcatSets(a: seq<VRP>, b: seq<VRP>)
    ensures Keys(a + b) == Keys(a) + Keys(b)
    ensures Announced(a + b) == Announced(a) + Announced(b)
    ensures Withdrawn(a + b) == Withdrawn(a) + Withdrawn(b)
  {
  }

  /** A single-flag list records exactly its keys, all the same way. */
  lemma UniformSets(l: seq<VRP>)
    ensures AllAnnounced(l) ==> Announced(l) == Keys(l) && Withdrawn(l) == {}
    ensures (forall v | v in l :: v.flags == FLAG_REMOVED) ==> Withdrawn(l) == Keys(l) && Announced(l) == {}
  {
    if AllAnnounced(l) {
      assert Announced(l) == Keys(l);
    }
  }
}
