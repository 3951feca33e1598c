/** The pair buffer of the engine: the globals Pairs, PairCnt and PairSz, and
    AddPair, which appends the two spike indices of a visited pair.

    The buffer is allocated with PairBlockSize entries on the first append
    after a reset. When it is full the original prints a warning and writes
    past its end anyway; here the pair is not stored and the flag overflowed
    records the warning instead. */
module PairBuffers {

  /** Entries allocated at the first append (PAIRBLOCKSIZE). */
  const PairBlockSize: nat := 1000000000

  /** An ordered pair of spike indices: a centre spike and a partner its scan visited. */
  datatype Pair = Pair(center: nat, second: nat)

  /** The spike indices of a list of pairs, two entries per pair. */
  function Flatten(pairs: seq<Pair>): seq<nat> {
    if |pairs| == 0 then []
    else
      var last := pairs[|pairs| - 1];
      Flatten(pairs[..|pairs| - 1]) + [last.center, last.second]
  }

  /** Entries 2i and 2i + 1 of the flattened list are the centre and the
      partner of pair i. */
  lemma {:induction false} FlattenEntries(pairs: seq<Pair>)
    ensures |Flatten(pairs)| == 2 * |pairs|
    ensures forall i :: 0 <= i < |pairs| ==>
      Flatten(pairs)[2 * i] == pairs[i].center && Flatten(pairs)[2 * i + 1] == pairs[i].second
  {
    if pairs != [] {
      var front := pairs[..|pairs| - 1];
      FlattenEntries(front);
      assert forall i :: 0 <= i < |front| ==> front[i] == pairs[i];
    }
  }

  /** Entry i of the flattened list, read straight from the pairs. */
  function EntryOf(pairs: seq<Pair>, i: nat): nat
    requires i < 2 * |pairs|
  {
    if i % 2 == 0 then pairs[i / 2].center else pairs[i / 2].second
  }

  /** The part of a list of entries that a buffer of PairBlockSize entries holds. */
  function Retained(entries: seq<nat>): seq<nat> {
    if |entries| <= PairBlockSize then entries else entries[..PairBlockSize]
  }

  /** The retained part is the longest prefix that fits in the block. */
  lemma RetainedPrefix(entries: seq<nat>)
    ensures var r := Retained(entries);
      |r| == (if |entries| <= PairBlockSize then |entries| else PairBlockSize) && r == entries[..|r|]
  {
  }

  /** Appending a pair leaves the entries of the earlier pairs unchanged. */
  lemma EntriesKept(stored: seq<nat>, pairs: seq<Pair>, p: Pair)
    requires |stored| <= 2 * |pairs|
    requires forall i :: 0 <= i < |stored| ==> stored[i] == EntryOf(pairs, i)
    ensures forall i :: 0 <= i < |stored| ==> stored[i] == EntryOf(pairs + [p], i)
  {
    forall i | 0 <= i < |stored|
      ensures EntryOf(pairs + [p], i) == EntryOf(pairs, i)
    {
      assert (pairs + [p])[i / 2] == pairs[i / 2];
    }
  }

  /** The two entries of an appended pair follow those of the earlier pairs. */
  lemma EntriesExtended(stored: seq<nat>, pairs: seq<Pair>, p: Pair)
    requires |stored| == 2 * |pairs|
    requires forall i :: 0 <= i < |stored| ==> stored[i] == EntryOf(pairs + [p], i)
    ensures forall i :: 0 <= i < |stored| + 2 ==> (stored + [p.center, p.second])[i] == EntryOf(pairs + [p], i)
  {
    var n := |stored|;
    assert n / 2 == |pairs| && (n + 1) / 2 == |pairs|;
  }

  class PairBuffer {
    var pairs: array<nat>
    var pairCnt: nat
    var pairSz: nat
    var overflowed: bool
    /** Every pair appended since the last reset, stored or not. */
    ghost var Added: seq<Pair>
    ghost var Repr: set<object>

    /** PairSz is 0 before the first append after a reset and PairBlockSize
        afterwards; PairCnt is even and never passes PairSz. The stored
        entries are the leading entries of the appended pairs, and the flag
        is raised exactly when some did not fit. */
    ghost predicate Valid()
      reads this, Repr
    {
      this in Repr && pairs in Repr &&
      pairCnt % 2 == 0 && pairCnt <= pairSz &&
      (pairSz == 0 || (pairSz == PairBlockSize && pairs.Length == PairBlockSize)) &&
      pairCnt == (if 2 * |Added| <= PairBlockSize then 2 * |Added| else PairBlockSize) &&
      overflowed == (2 * |Added| > PairBlockSize) &&
      forall i :: 0 <= i < pairCnt ==> pairs[i] == EntryOf(Added, i)
    }

    /** The stored entries, in the order they were appended. */
    ghost function Contents(): seq<nat>
      reads this, Repr
      requires Valid()
    {
      pairs[..pairCnt]
    }

    /** The buffer holds the retained prefix of the flattened appended pairs. */
    lemma ContentsRetained()
      requires Valid()
      ensures Contents() == Retained(Flatten(Added))
    {
      FlattenEntries(Added);
      var r := Retained(Flatten(Added));
      assert |Contents()| == |r|;
      forall i | 0 <= i < pairCnt
        ensures Contents()[i] == r[i]
      {
        var j := i / 2;
        if i % 2 == 0 {
          assert i == 2 * j;
        } else {
          assert i == 2 * j + 1;
        }
      }
    }

    /** The state of the globals at program start: nothing allocated, nothing stored. */
    constructor ()
      ensures Valid() && fresh(Repr)
      ensures Added == [] && Contents() == [] && pairSz == 0 && !overflowed
    {
      pairs := new nat[0];
      pairCnt, pairSz := 0, 0;
      overflowed := false;
      Added := [];
      Repr := {this, pairs};
    }

    /** The reset at the start of every engine call: PairCnt = 0; PairSz = 0. */
    method Reset()
      requires Valid()
      modifies this
      ensures Valid() && Repr == old(Repr)
      ensures Added == [] && Contents() == [] && pairSz == 0 && !overflowed
    {
      pairCnt, pairSz := 0, 0;
      overflowed := false;
      Added := [];
    }

    /** The allocation on the first append after a reset: a block of
        PairBlockSize entries, with nothing stored in it yet. */
    method Allocate()
      requires Valid() && pairSz == 0
      modifies this
      ensures Valid() && fresh(Repr - old(Repr))
      ensures pairSz == PairBlockSize && pairCnt == old(pairCnt) && Added == old(Added)
      ensures overflowed == old(overflowed) && Contents() == old(Contents())
    {
      pairs := new nat[PairBlockSize];
      pairSz := PairBlockSize;
      Repr := Repr + {pairs};
    }

    /** Appends n1 and then n2, allocating the block on first use. A full
        buffer keeps its contents and raises the overflow flag. */
    method AddPair(n1: nat, n2: nat)
      requires Valid()
      modifies Repr
      ensures Valid() && fresh(Repr - old(Repr))
      ensures pairSz == PairBlockSize
      ensures Added == old(Added) + [Pair(n1, n2)]
      ensures Contents() == Retained(old(Contents()) + [n1, n2])
      ensures overflowed == (old(overflowed) || |old(Contents())| >= PairBlockSize)
    {
      if pairSz == 0 {
        Allocate();
      }
      ghost var before := Added;
      Added := Added + [Pair(n1, n2)];
      ghost var stored := pairs[..pairCnt];
      EntriesKept(stored, before, Pair(n1, n2));
      if pairCnt >= pairSz {
        overflowed := true;
        assert (old(Contents()) + [n1, n2])[..PairBlockSize] == old(Contents());
      } else {
        pairs[pairCnt] := n1;
        pairs[pairCnt + 1] := n2;
        pairCnt := pairCnt + 2;
        EntriesExtended(stored, before, Pair(n1, n2));
        assert pairs[..pairCnt] == stored + [n1, n2];
      }
    }
  }
}
