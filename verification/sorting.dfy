/**
 * Ordering by sequence number, the age of an instruction. The issue stage
 * sorts the issue-queue slots with it before its oldest-first scan, and the
 * simulator sorts the retired list with it before reporting. Both comparators
 * reduce to `a.seqNum < b.seqNum`: the extra `>= 0` tests are made on an
 * unsigned number and always hold.
 */
module Ordering {
  import opened Instructions

  /** Ascending (non-strictly) in sequence number. */
  predicate SortedBySeq(q: seq<Instruction>)
  {
    forall i, j :: 0 <= i < j < |q| ==> q[i].seqNum <= q[j].seqNum
  }

  /** Places `x` before the first element that is not younger than it. */
  function Insert(x: Instruction, q: seq<Instruction>): (r: seq<Instruction>)
    requires SortedBySeq(q)
    ensures SortedBySeq(r)
    ensures multiset(r) == multiset(q) + multiset{x}
    ensures |r| == |q| + 1
  {
    if |q| == 0 then [x]
    else if x.seqNum <= q[0].seqNum then [x] + q
    else
      var rest := Insert(x, q[1..]);
      ConsSorted(q, x, rest);
      [q[0]] + rest
  }

  /** Putting the head back in front of the insertion into the tail keeps the order and the elements. */
  lemma ConsSorted(q: seq<Instruction>, x: Instruction, rest: seq<Instruction>)
    requires |q| > 0 && SortedBySeq(q) && q[0].seqNum < x.seqNum
    requires SortedBySeq(rest) && multiset(rest) == multiset(q[1..]) + multiset{x}
    ensures SortedBySeq([q[0]] + rest)
    ensures multiset([q[0]] + rest) == multiset(q) + multiset{x}
  {
    assert q == [q[0]] + q[1..];
    forall k | 0 <= k < |rest|
      ensures q[0].seqNum <= rest[k].seqNum
    {
      assert rest[k] in multiset(rest);
      if rest[k] != x {
        assert rest[k] in multiset(q[1..]);
        var j :| 0 <= j < |q[1..]| && q[1..][j] == rest[k];
        assert q[j + 1] == rest[k];
      }
    }
    var c := [q[0]] + rest;
    forall i, j | 0 <= i < j < |c|
      ensures c[i].seqNum <= c[j].seqNum
    {
      if i > 0 {
        assert c[i] == rest[i - 1] && c[j] == rest[j - 1];
      } else {
        assert c[j] == rest[j - 1];
      }
    }
  }

  /**
   * The effect of `std::sort` with the sequence-number comparator: a
   * permutation of the input in ascending sequence-number order.
   */
  function SortBySeq(q: seq<Instruction>): (r: seq<Instruction>)
    ensures SortedBySeq(r)
    ensures multiset(r) == multiset(q)
    ensures |r| == |q|
  {
    if |q| == 0 then []
    else
      assert q == [q[0]] + q[1..];
      Insert(q[0], SortBySeq(q[1..]))
  }

  /** Sorting an already sorted list changes nothing. */
  lemma {:induction false} SortSortedIsIdentity(q: seq<Instruction>)
    requires SortedBySeq(q)
    ensures SortBySeq(q) == q
  {
    if |q| > 0 {
      SortSortedIsIdentity(q[1..]);
      assert SortBySeq(q[1..]) == q[1..];
      assert q == [q[0]] + q[1..];
    }
  }
}
