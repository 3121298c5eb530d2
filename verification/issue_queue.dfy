/**
 * The issue queue: a fixed array of instruction slots, each with a valid
 * bit. Slot position carries no age; age is the sequence number.
 */
module IssueQueues {
  import opened Instructions
  import opened StageBuffers

  datatype IssueQueue = IssueQueue(slots: seq<Instruction>)

  /** The constructor: `size` slots, each a default instruction marked not valid. */
  function NewIssueQueue(size: nat): (q: IssueQueue)
    ensures |q.slots| == size
    ensures forall i :: 0 <= i < size ==> q.slots[i] == BLANK
    ensures forall i :: 0 <= i < size ==>
      && !q.slots[i].validInIQ && q.slots[i].opType == -1 && q.slots[i].latency == -1
      && !q.slots[i].src1.exist && !q.slots[i].src1.isReady
      && !q.slots[i].src2.exist && !q.slots[i].src2.isReady
      && !q.slots[i].dest.exist && !q.slots[i].dest.isReady
    ensures FreeEntries(q) == size && IsEmpty(q)
  {
    var q := IssueQueue(seq(size, i => BLANK.(validInIQ := false)));
    FreeCountAll(q.slots);
    q
  }

  /** The number of slots not holding a valid instruction. */
  function CountFree(slots: seq<Instruction>): (n: nat)
    ensures n <= |slots|
  {
    if |slots| == 0 then 0
    else CountFree(slots[..|slots| - 1]) + (if slots[|slots| - 1].validInIQ then 0 else 1)
  }

  /** The indices of the slots not holding a valid instruction. */
  ghost function FreeSlots(slots: seq<Instruction>): set<nat>
  {
    set i: nat | i < |slots| && !slots[i].validInIQ
  }

  /** The count is the number of invalid slots; it is the slot count exactly when no slot is valid, 0 exactly when all are. */
  lemma FreeCountAll(slots: seq<Instruction>)
    ensures CountFree(slots) == |FreeSlots(slots)|
    ensures CountFree(slots) == |slots| <==> forall i :: 0 <= i < |slots| ==> !slots[i].validInIQ
    ensures CountFree(slots) == 0 <==> forall i :: 0 <= i < |slots| ==> slots[i].validInIQ
  {
    FreeCountSet(slots);
    FreeCountBounds(slots);
  }

  lemma {:induction false} FreeCountSet(slots: seq<Instruction>)
    ensures CountFree(slots) == |FreeSlots(slots)|
  {
    if |slots| > 0 {
      var init := slots[..|slots| - 1];
      FreeCountSet(init);
      var last := |slots| - 1;
      if slots[last].validInIQ {
        assert FreeSlots(slots) == FreeSlots(init);
      } else {
        assert FreeSlots(slots) == FreeSlots(init) + {last};
      }
    }
  }

  lemma {:induction false} FreeCountBounds(slots: seq<Instruction>)
    ensures CountFree(slots) == |slots| <==> forall i :: 0 <= i < |slots| ==> !slots[i].validInIQ
    ensures CountFree(slots) == 0 <==> forall i :: 0 <= i < |slots| ==> slots[i].validInIQ
  {
    if |slots| > 0 {
      var init := slots[..|slots| - 1];
      FreeCountBounds(init);
      assert forall i :: 0 <= i < |init| ==> slots[i] == init[i];
    }
  }

  /** Slots with the same validity bits have the same free count. */
  lemma {:induction false} CountFreeSameValidity(a: seq<Instruction>, b: seq<Instruction>)
    requires |a| == |b| && forall i :: 0 <= i < |a| ==> a[i].validInIQ == b[i].validInIQ
    ensures CountFree(a) == CountFree(b)
  {
    if |a| > 0 {
      CountFreeSameValidity(a[..|a| - 1], b[..|b| - 1]);
    }
  }

  /** The free count only depends on the multiset of slots. */
  lemma {:induction false} CountFreePermutation(a: seq<Instruction>, b: seq<Instruction>)
    requires multiset(a) == multiset(b)
    ensures CountFree(a) == CountFree(b)
    decreases |a|
  {
    if |a| > 0 {
      var x := a[|a| - 1];
      assert x in multiset(b);
      var j :| 0 <= j < |b| && b[j] == x;
      var b' := b[..j] + b[j + 1..];
      assert b == b' [..j] + [x] + b'[j..];
      assert a == a[..|a| - 1] + [x];
      assert multiset(a) == multiset(a[..|a| - 1]) + multiset{x};
      assert multiset(b) == multiset(b'[..j]) + multiset{x} + multiset(b'[j..]);
      assert b'[..j] + b'[j..] == b';
      assert multiset(b') == multiset(b'[..j]) + multiset(b'[j..]);
      assert multiset(a[..|a| - 1]) == multiset(a) - multiset{x};
      assert multiset(b') == multiset(b) - multiset{x};
      CountFreePermutation(a[..|a| - 1], b');
      CountFreeMiddle(b'[..j], x, b'[j..]);
      assert b'[..j] + b'[j..] == b';
    }
  }

  /** Removing one slot from anywhere removes its contribution to the free count. */
  lemma {:induction false} CountFreeMiddle(p: seq<Instruction>, x: Instruction, s: seq<Instruction>)
    ensures CountFree(p + [x] + s) == CountFree(p + s) + (if x.validInIQ then 0 else 1)
    decreases |s|
  {
    if |s| == 0 {
      assert p + [x] + s == p + [x];
      assert (p + [x])[..|p|] == p;
      assert p + s == p;
    } else {
      var s' := s[..|s| - 1];
      CountFreeMiddle(p, x, s');
      assert (p + [x] + s)[..|p + [x] + s| - 1] == p + [x] + s';
      assert (p + s)[..|p + s| - 1] == p + s';
    }
  }

  /** The free count read from the front: the first slot, then the rest. */
  lemma CountFreeCons(x: Instruction, s: seq<Instruction>)
    ensures CountFree([x] + s) == CountFree(s) + (if x.validInIQ then 0 else 1)
  {
    CountFreeMiddle([], x, s);
    assert [] + [x] + s == [x] + s && [] + s == s;
  }

  /** `GetFreeIssueQueueEntries`: the number of invalid slots, between 0 and the size. */
  function FreeEntries(q: IssueQueue): (n: nat)
    ensures n <= |q.slots|
    ensures n == |FreeSlots(q.slots)|
  {
    FreeCountAll(q.slots);
    CountFree(q.slots)
  }

  /** `IsEmpty`: every slot is free, i.e. no slot holds a valid instruction. */
  predicate IsEmpty(q: IssueQueue)
    ensures IsEmpty(q) <==> forall i :: 0 <= i < |q.slots| ==> !q.slots[i].validInIQ
  {
    FreeCountAll(q.slots);
    FreeEntries(q) == |q.slots|
  }

  /**
   * `RemoveElementAtIndex`: clears the valid bit of slot `index` only (the
   * instruction data stays in the slot); on a valid slot the free count
   * rises by one.
   */
  function RemoveElementAtIndex(q: IssueQueue, index: nat): (r: IssueQueue)
    requires index < |q.slots|
    ensures |r.slots| == |q.slots|
    ensures r.slots[index] == q.slots[index].(validInIQ := false)
    ensures forall i :: 0 <= i < |q.slots| && i != index ==> r.slots[i] == q.slots[i]
    ensures FreeEntries(r) == FreeEntries(q) + (if q.slots[index].validInIQ then 1 else 0)
  {
    var r := IssueQueue(q.slots[index := q.slots[index].(validInIQ := false)]);
    InvalidateCount(q.slots, index);
    r
  }

  /** Clearing one valid bit adds one to the free count, or nothing if it was already clear. */
  lemma InvalidateCount(slots: seq<Instruction>, index: nat)
    requires index < |slots|
    ensures CountFree(slots[index := slots[index].(validInIQ := false)])
         == CountFree(slots) + (if slots[index].validInIQ then 1 else 0)
  {
    var x, y := slots[index], slots[index].(validInIQ := false);
    var p, q := slots[..index], slots[index + 1..];
    assert slots == p + [x] + q;
    assert slots[index := y] == p + [y] + q;
    CountFreeMiddle(p, x, q);
    CountFreeMiddle(p, y, q);
  }

  /**
   * `CheckAndWakeupSourceOperandsInInstructions` over every slot, valid or
   * not: only source ready flags change, so validity and the free count
   * are kept.
   */
  function Wakeup(q: IssueQueue, tag: int): (r: IssueQueue)
    ensures |r.slots| == |q.slots|
    ensures forall i :: 0 <= i < |q.slots| ==> Woken(q.slots[i], r.slots[i], {tag})
    ensures forall i :: 0 <= i < |q.slots| ==> r.slots[i].validInIQ == q.slots[i].validInIQ
    ensures FreeEntries(r) == FreeEntries(q)
  {
    var r := IssueQueue(WakeAll(q.slots, tag));
    CountFreeSameValidity(q.slots, r.slots);
    r
  }

  /** Wakeup of the issue queue never clears readiness and is idempotent. */
  lemma WakeupIdempotent(q: IssueQueue, tag: int)
    ensures forall i :: 0 <= i < |q.slots| ==>
      (q.slots[i].src1.isReady ==> Wakeup(q, tag).slots[i].src1.isReady) &&
      (q.slots[i].src2.isReady ==> Wakeup(q, tag).slots[i].src2.isReady)
    ensures Wakeup(Wakeup(q, tag), tag) == Wakeup(q, tag)
  {
    WakeAllIdempotent(q.slots, tag);
  }
}
