/**
 * The stage buffer (`InstructionsTable`): a bounded FIFO of instructions used
 * for the DE, RN, RR and DI latches and for the execute and writeback lists,
 * together with the tag-wakeup scan that all buffers share.
 */
module StageBuffers {
  import opened Instructions

  /*
   * Wakeup. A broadcast of tag `t` marks ready every source operand that
   * holds a tag equal to `t`; it touches nothing else.
   */

  function WakeOperand(r: Register, tag: int): Register
  {
    if r.hasRobValue && r.value == tag then r.(isReady := true) else r
  }

  function WakeInstruction(i: Instruction, tag: int): Instruction
  {
    i.(src1 := WakeOperand(i.src1, tag), src2 := WakeOperand(i.src2, tag))
  }

  /** `after` is `before` once the tags in `tags` have been broadcast: only the ready flag may differ. */
  ghost predicate OperandWoken(before: Register, after: Register, tags: set<int>)
  {
    && after.(isReady := before.isReady) == before
    && (after.isReady <==> before.isReady || (before.hasRobValue && before.value in tags))
  }

  /** The relation between an instruction before and after a broadcast of `tags`. */
  ghost predicate Woken(before: Instruction, after: Instruction, tags: set<int>)
  {
    && after.(src1 := before.src1, src2 := before.src2) == before
    && OperandWoken(before.src1, after.src1, tags)
    && OperandWoken(before.src2, after.src2, tags)
  }

  /** The scan over a queue: every element is woken by `tag`, in place. */
  function WakeAll(q: seq<Instruction>, tag: int): (r: seq<Instruction>)
    ensures |r| == |q|
    ensures forall k :: 0 <= k < |q| ==> Woken(q[k], r[k], {tag})
  {
    if |q| == 0 then [] else [WakeInstruction(q[0], tag)] + WakeAll(q[1..], tag)
  }

  /** The woken relation determines its result. */
  lemma WokenUnique(b: Instruction, a1: Instruction, a2: Instruction, tags: set<int>)
    requires Woken(b, a1, tags) && Woken(b, a2, tags)
    ensures a1 == a2
  {
    assert a1.src1 == a2.src1 by {
      assert a1.src1.(isReady := b.src1.isReady) == a2.src1.(isReady := b.src1.isReady);
    }
    assert a1.src2 == a2.src2 by {
      assert a1.src2.(isReady := b.src2.isReady) == a2.src2.(isReady := b.src2.isReady);
    }
    assert a1 == a2.(src1 := a1.src1, src2 := a1.src2);
  }

  /** Two broadcasts in a row act as one broadcast of both tag sets. */
  lemma WokenCompose(b: Instruction, m: Instruction, a: Instruction, t1: set<int>, t2: set<int>)
    requires Woken(b, m, t1) && Woken(m, a, t2)
    ensures Woken(b, a, t1 + t2)
  {
  }

  /** Wakeup never clears readiness, and a second broadcast of the same tag changes nothing. */
  lemma {:induction false} WakeAllIdempotent(q: seq<Instruction>, tag: int)
    ensures forall k :: 0 <= k < |q| ==>
      (q[k].src1.isReady ==> WakeAll(q, tag)[k].src1.isReady) &&
      (q[k].src2.isReady ==> WakeAll(q, tag)[k].src2.isReady)
    ensures WakeAll(WakeAll(q, tag), tag) == WakeAll(q, tag)
  {
    var once := WakeAll(q, tag);
    var twice := WakeAll(once, tag);
    forall k | 0 <= k < |q|
      ensures twice[k] == once[k]
    {
      assert Woken(q[k], once[k], {tag});
      assert Woken(once[k], twice[k], {tag});
      assert Woken(once[k], once[k], {tag});
      WokenUnique(once[k], twice[k], once[k], {tag});
    }
  }

  /** The order of two broadcasts does not matter. */
  lemma {:induction false} WakeAllCommute(q: seq<Instruction>, t1: int, t2: int)
    ensures WakeAll(WakeAll(q, t1), t2) == WakeAll(WakeAll(q, t2), t1)
  {
    var a := WakeAll(WakeAll(q, t1), t2);
    var b := WakeAll(WakeAll(q, t2), t1);
    forall k | 0 <= k < |q|
      ensures a[k] == b[k]
    {
      WokenCompose(q[k], WakeAll(q, t1)[k], a[k], {t1}, {t2});
      WokenCompose(q[k], WakeAll(q, t2)[k], b[k], {t2}, {t1});
      assert {t1} + {t2} == {t2} + {t1};
      WokenUnique(q[k], a[k], b[k], {t1} + {t2});
    }
  }

  /*
   * The bounded FIFO.
   */

  /** A stage buffer: the queued instructions, oldest first, and the capacity `size`. */
  datatype Table = Table(queue: seq<Instruction>, size: nat)

  /** A buffer within its capacity. */
  predicate Bounded(t: Table)
  {
    |t.queue| <= t.size
  }

  function NewTable(size: nat): (t: Table)
    ensures t.queue == [] && t.size == size && Bounded(t)
  {
    Table([], size)
  }

  /** `PushInstruction`: appends at the back unless the buffer is full, in which case nothing happens. */
  function Push(t: Table, i: Instruction): (r: Table)
    ensures r.size == t.size
    ensures |t.queue| >= t.size ==> r == t
    ensures |t.queue| < t.size ==> r.queue == t.queue + [i]
    ensures Bounded(t) ==> Bounded(r)
  {
    if |t.queue| >= t.size then t else Table(t.queue + [i], t.size)
  }

  /** `PopInstruction`: removes the head, keeping the rest in order. */
  function Pop(t: Table): (r: Table)
    requires |t.queue| > 0
    ensures r.size == t.size && [Front(t)] + r.queue == t.queue
    ensures |r.queue| == |t.queue| - 1
  {
    Table(t.queue[1..], t.size)
  }

  /** `Front`: the oldest element. */
  function Front(t: Table): Instruction
    requires |t.queue| > 0
  {
    t.queue[0]
  }

  function GetSize(t: Table): nat
  {
    |t.queue|
  }

  predicate IsEmpty(t: Table)
  {
    |t.queue| == 0
  }

  predicate IsFull(t: Table)
  {
    |t.queue| == t.size
  }

  /** `FreeEntries` (`GetFreeEntries` in the second draft): an unsigned subtraction, so it wraps below zero. */
  function FreeEntries(t: Table): (n: nat)
    ensures n < WORD
    ensures Bounded(t) && t.size < WORD ==> n + GetSize(t) == t.size
  {
    (t.size - |t.queue|) % WORD
  }

  /** The size queries agree with one another on a buffer within its capacity. */
  lemma SizeQueries(t: Table)
    requires Bounded(t) && t.size < WORD
    ensures GetSize(t) + FreeEntries(t) == t.size
    ensures IsFull(t) <==> FreeEntries(t) == 0
    ensures IsEmpty(t) <==> GetSize(t) == 0
  {
  }

  /** FIFO order: pushing then popping a non-empty buffer is popping then pushing, and the head stays. */
  lemma PushPopCommute(t: Table, i: Instruction)
    requires 0 < |t.queue| < t.size
    ensures Front(Push(t, i)) == Front(t)
    ensures Pop(Push(t, i)) == Push(Pop(t), i)
  {
  }

  /** `CheckAndWakeupSourceOperandsInInstructions` on a buffer: length, order and capacity are kept. */
  function Wakeup(t: Table, tag: int): (r: Table)
    ensures r.size == t.size && |r.queue| == |t.queue|
    ensures forall k :: 0 <= k < |t.queue| ==> Woken(t.queue[k], r.queue[k], {tag})
    ensures forall k :: 0 <= k < |t.queue| ==> r.queue[k].seqNum == t.queue[k].seqNum
  {
    Table(WakeAll(t.queue, tag), t.size)
  }

  /** `f` applied to every element, in order. */
  function MapSeq(f: Instruction -> Instruction, q: seq<Instruction>): (r: seq<Instruction>)
    ensures |r| == |q| && forall k :: 0 <= k < |q| ==> r[k] == f(q[k])
  {
    seq(|q|, k requires 0 <= k < |q| => f(q[k]))
  }

  function Min(a: nat, b: nat): nat
  {
    if a <= b then a else b
  }

  /**
   * Pushing a list one element after another: the elements that fit are
   * appended in order, the rest are silently dropped.
   */
  function PushAll(t: Table, xs: seq<Instruction>): (r: Table)
    decreases |xs|
    ensures r.size == t.size
    ensures Bounded(t) ==> r.queue == t.queue + xs[..Min(|xs|, t.size - |t.queue|)]
    ensures !Bounded(t) ==> r == t
  {
    if |xs| == 0 then t
    else
      var r := PushAll(Push(t, xs[0]), xs[1..]);
      assert Bounded(t) && |t.queue| < t.size ==>
        xs[..Min(|xs|, t.size - |t.queue|)] == [xs[0]] + xs[1..][..Min(|xs| - 1, t.size - |t.queue| - 1)];
      r
  }

  /** Pushing one element and then a list is pushing the longer list. */
  lemma PushAllCons(t: Table, x: Instruction, xs: seq<Instruction>)
    ensures PushAll(Push(t, x), xs) == PushAll(t, [x] + xs)
  {
    assert ([x] + xs)[1..] == xs;
  }

  /** Pushing a list that fits into an empty buffer leaves exactly that list. */
  lemma PushAllEmpty(t: Table, xs: seq<Instruction>)
    requires t.queue == [] && |xs| <= t.size
    ensures PushAll(t, xs).queue == xs
  {
    assert xs[..Min(|xs|, t.size)] == xs;
  }

  /**
   * The "move as many as fit" loop of Decode and ReadRegister: while the
   * source is non-empty and the destination is not full, transform the
   * source's head with `f`, push it onto the destination and pop it. On an
   * over-full destination the loop never sees it full: it drains the source
   * and every push is dropped.
   */
  function Transfer(src: Table, dst: Table, f: Instruction -> Instruction): (r: (Table, Table))
    decreases |src.queue|
    ensures Bounded(dst) ==>
      var n := Min(|src.queue|, dst.size - |dst.queue|);
      && r.0 == Table(src.queue[n..], src.size)
      && r.1 == Table(dst.queue + MapSeq(f, src.queue[..n]), dst.size)
    ensures !Bounded(dst) ==> r == (Table([], src.size), dst)
  {
    if IsEmpty(src) || IsFull(dst) then (src, dst)
    else
      var r := Transfer(Pop(src), Push(dst, f(Front(src))), f);
      TransferStep(src, dst, f);
      r
  }

  /** One move of `Transfer` into a destination with room: the rest of the transfer moves one fewer. */
  lemma TransferStep(src: Table, dst: Table, f: Instruction -> Instruction)
    requires |src.queue| > 0
    ensures |dst.queue| < dst.size ==>
      var n, d := Min(|src.queue|, dst.size - |dst.queue|), Push(dst, f(Front(src)));
      && Min(|Pop(src).queue|, d.size - |d.queue|) == n - 1
      && Pop(src).queue[n - 1..] == src.queue[n..]
      && d.queue + MapSeq(f, Pop(src).queue[..n - 1]) == dst.queue + MapSeq(f, src.queue[..n])
  {
    if |dst.queue| < dst.size {
      var n, x, t := Min(|src.queue|, dst.size - |dst.queue|), f(src.queue[0]), src.queue[1..];
      assert src.queue[..n] == [src.queue[0]] + t[..n - 1];
      MapSeqCons(f, src.queue[0], t[..n - 1]);
      AppendAssoc(dst.queue, [x], MapSeq(f, t[..n - 1]));
    }
  }

  lemma MapSeqCons(f: Instruction -> Instruction, x: Instruction, q: seq<Instruction>)
    ensures MapSeq(f, [x] + q) == [f(x)] + MapSeq(f, q)
  {
    var a, b := MapSeq(f, [x] + q), [f(x)] + MapSeq(f, q);
    forall k | 0 <= k < |a|
      ensures a[k] == b[k]
    {
      if k > 0 {
        assert ([x] + q)[k] == q[k - 1];
      }
    }
  }

  lemma AppendAssoc(a: seq<Instruction>, b: seq<Instruction>, c: seq<Instruction>)
    ensures a + b + c == a + (b + c)
  {
  }

  /** A transformation that keeps sequence numbers keeps the list of them. */
  lemma MapSeqNums(f: Instruction -> Instruction, q: seq<Instruction>)
    requires forall x :: f(x).seqNum == x.seqNum
    ensures SeqNums(MapSeq(f, q)) == SeqNums(q)
  {
  }

  /**
   * A transfer keeps the destination followed by the source in the same
   * order of sequence numbers: it only moves the boundary between them.
   */
  lemma TransferKeepsOrder(src: Table, dst: Table, f: Instruction -> Instruction)
    requires Bounded(dst) && forall x :: f(x).seqNum == x.seqNum
    ensures var r := Transfer(src, dst, f);
      SeqNums(r.1.queue + r.0.queue) == SeqNums(dst.queue + src.queue)
  {
    var n := Min(|src.queue|, dst.size - |dst.queue|);
    var moved := MapSeq(f, src.queue[..n]);
    assert forall k :: 0 <= k < n ==> moved[k].seqNum == src.queue[k].seqNum;
    MoveKeepsSeqNums(dst.queue, moved, src.queue, n);
  }

  /** Replacing the first `n` of `src` by `m` with the same sequence numbers, behind `d`. */
  lemma MoveKeepsSeqNums(d: seq<Instruction>, m: seq<Instruction>, src: seq<Instruction>, n: nat)
    requires n <= |src| && |m| == n
    requires forall k :: 0 <= k < n ==> m[k].seqNum == src[k].seqNum
    ensures SeqNums(d + m + src[n..]) == SeqNums(d + src)
  {
    var a, b := d + m + src[n..], d + src;
    forall k | 0 <= k < |a|
      ensures a[k].seqNum == b[k].seqNum
    {
      if |d| <= k < |d| + n {
        assert a[k] == m[k - |d|];
      } else if |d| + n <= k {
        assert a[k] == src[k - |d|];
      }
    }
    assert SeqNums(a) == SeqNums(b);
  }
}
