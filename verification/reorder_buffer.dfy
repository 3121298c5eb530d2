/**
 * The reorder buffer: a FIFO of in-flight instructions, allocated in program
 * order with tags handed out by a circular counter, queried for liveness and
 * readiness by tag, and marked ready at writeback.
 */
module ReorderBuffers {
  import opened Instructions
  import opened StageBuffers

  /**
   * The buffer owns a stage buffer of capacity `queueSize` (its FIFO plumbing)
   * and the last tag handed out, `tailIndex`, which starts at -1.
   */
  datatype Rob = Rob(buffer: Table, queueSize: nat, tailIndex: int)

  /** The result of an allocation: the new buffer and the tag given to the entry. */
  datatype Allocation = Allocation(rob: Rob, tag: int)

  /** Well-formed buffer: the counter lies in -1..queueSize and fits the source's `int`. */
  predicate Valid(rob: Rob)
  {
    && rob.buffer.size == rob.queueSize
    && rob.queueSize < INT_MAX
    && -1 <= rob.tailIndex <= rob.queueSize
  }

  function NewRob(queueSize: nat): (rob: Rob)
    requires queueSize < INT_MAX
    ensures Valid(rob) && rob.queueSize == queueSize && rob.buffer.queue == []
  {
    Rob(NewTable(queueSize), queueSize, -1)
  }

  function Entries(rob: Rob): seq<Instruction>
  {
    rob.buffer.queue
  }

  /**
   * `CreateNewEntryAndGetRobValue`. The comparison `tailIndex >= queueSize`
   * is made in `unsigned long`, where the initial -1 is the largest value,
   * so the counter resets there too. The net effect is a counter modulo
   * `queueSize + 1`: tags run 0, 1, ..., queueSize, 0, ... The entry stored
   * is the given instruction with its tag; there is no capacity check.
   */
  function Allocate(rob: Rob, i: Instruction): (r: Allocation)
    requires Valid(rob)
    ensures Valid(r.rob)
    ensures 0 <= r.tag <= rob.queueSize
    ensures r.tag == (rob.tailIndex + 1) % (rob.queueSize + 1)
    ensures Entries(r.rob) == Entries(rob) + [i.(robValue := r.tag)]
    ensures r.rob == Rob(Table(Entries(r.rob), rob.buffer.size), rob.queueSize, r.tag)
  {
    var tail := if AsUnsigned(rob.tailIndex) >= rob.queueSize then -1 else rob.tailIndex;
    var tag := tail + 1;
    Allocation(Rob(Table(rob.buffer.queue + [i.(robValue := tag)], rob.buffer.size), rob.queueSize, tag), tag)
  }

  /** The result of allocating a whole list of instructions one after another. */
  datatype Allocations = Allocations(rob: Rob, tags: seq<int>)

  /** The instructions of a bundle, each carrying its allocated tag. */
  function Tagged(insts: seq<Instruction>, tags: seq<int>): (r: seq<Instruction>)
    requires |tags| == |insts|
    ensures |r| == |insts| && forall j :: 0 <= j < |insts| ==> r[j] == insts[j].(robValue := tags[j])
  {
    seq(|insts|, j requires 0 <= j < |insts| => insts[j].(robValue := tags[j]))
  }

  lemma TaggedCons(insts: seq<Instruction>, first: int, rest: seq<int>)
    requires |insts| > 0 && |rest| == |insts| - 1
    ensures Tagged(insts, [first] + rest) == [insts[0].(robValue := first)] + Tagged(insts[1..], rest)
  {
    var l, r := Tagged(insts, [first] + rest), [insts[0].(robValue := first)] + Tagged(insts[1..], rest);
    forall j | 0 <= j < |insts|
      ensures l[j] == r[j]
    {
      if j > 0 {
        assert insts[1..][j - 1] == insts[j];
      }
    }
  }

  /**
   * Allocating a whole list one entry after another: the entries are
   * appended in order and the j-th gets tag `tailIndex + 1 + j` modulo
   * `queueSize + 1`.
   */
  function AllocateAll(rob: Rob, insts: seq<Instruction>): (r: Allocations)
    requires Valid(rob)
    decreases |insts|
    ensures Valid(r.rob) && |r.tags| == |insts|
    ensures r.rob.queueSize == rob.queueSize && r.rob.buffer.size == rob.buffer.size
    ensures Entries(r.rob) == Entries(rob) + Tagged(insts, r.tags)
    ensures r.rob.tailIndex == if |insts| == 0 then rob.tailIndex else r.tags[|insts| - 1]
  {
    if |insts| == 0 then Allocations(rob, [])
    else
      var a := Allocate(rob, insts[0]);
      var rest := AllocateAll(a.rob, insts[1..]);
      var tags := [a.tag] + rest.tags;
      TaggedCons(insts, a.tag, rest.tags);
      AppendAssoc(Entries(rob), [insts[0].(robValue := a.tag)], Tagged(insts[1..], rest.tags));
      Allocations(rest.rob, tags)
  }

  /** Allocating a non-empty list: the first tag, then the tags of the rest allocated after it. */
  lemma AllocateAllCons(rob: Rob, insts: seq<Instruction>)
    requires Valid(rob) && |insts| > 0
    ensures var a := Allocate(rob, insts[0]);
      AllocateAll(rob, insts) == Allocations(AllocateAll(a.rob, insts[1..]).rob, [a.tag] + AllocateAll(a.rob, insts[1..]).tags)
  {
  }

  /** The tag after `t` on the circular counter 0..n (the initial -1 is followed by 0). */
  function Succ(t: int, n: nat): int
  {
    if t < 0 || t >= n then 0 else t + 1
  }

  /** `d` steps forward from `t` on the circular counter 0..n, for at most one full turn. */
  function Forward(t: int, d: nat, n: nat): int
  {
    if t + d <= n then t + d else t + d - (n + 1)
  }

  lemma {:induction false} ForwardSteps(tags: seq<int>, n: nat, i: nat, d: nat)
    requires forall j :: 0 <= j < |tags| ==> 0 <= tags[j] <= n
    requires forall j :: 0 <= j < |tags| - 1 ==> tags[j + 1] == Succ(tags[j], n)
    requires i + d < |tags| && d <= n + 1
    ensures tags[i + d] == Forward(tags[i], d, n)
    decreases d
  {
    if d > 0 {
      ForwardSteps(tags, n, i, d - 1);
    }
  }

  /**
   * What a run of the circular counter 0..n handed out after `start` looks
   * like: it repeats with period n + 1, any n + 1 consecutive tags are
   * pairwise distinct, and after the initial -1 the j-th tag is j for the
   * first turn.
   */
  predicate CounterTags(tags: seq<int>, start: int, n: nat)
  {
    && (forall j :: 0 <= j && j + n + 1 < |tags| ==> tags[j + n + 1] == tags[j])
    && (forall i, j :: 0 <= i < j < |tags| && j - i <= n ==> tags[i] != tags[j])
    && (start == -1 ==> forall j :: 0 <= j < |tags| && j <= n ==> tags[j] == j)
  }

  /** A run of the circular counter 0..n starting after `start` repeats with period n + 1 and has no repeats within it. */
  lemma CounterRun(tags: seq<int>, start: int, n: nat)
    requires forall j :: 0 <= j < |tags| ==> 0 <= tags[j] <= n
    requires |tags| > 0 ==> tags[0] == Succ(start, n)
    requires forall j :: 0 <= j < |tags| - 1 ==> tags[j + 1] == Succ(tags[j], n)
    ensures CounterTags(tags, start, n)
  {
    forall j | 0 <= j && j + n + 1 < |tags|
      ensures tags[j + n + 1] == tags[j]
    {
      ForwardSteps(tags, n, j, n + 1);
    }
    forall i, j | 0 <= i < j < |tags| && j - i <= n
      ensures tags[i] != tags[j]
    {
      ForwardSteps(tags, n, i, j - i);
    }
    if start == -1 {
      forall j | 0 <= j < |tags| && j <= n
        ensures tags[j] == j
      {
        ForwardSteps(tags, n, 0, j);
      }
    }
  }

  /** Each allocated tag lies in 0..queueSize and follows its predecessor on the counter. */
  lemma {:induction false} AllocationSteps(rob: Rob, insts: seq<Instruction>)
    requires Valid(rob)
    ensures var tags, n := AllocateAll(rob, insts).tags, rob.queueSize;
      && (forall j :: 0 <= j < |insts| ==> 0 <= tags[j] <= n)
      && (|insts| > 0 ==> tags[0] == Succ(rob.tailIndex, n))
      && (forall j :: 0 <= j < |insts| - 1 ==> tags[j + 1] == Succ(tags[j], n))
    decreases |insts|
  {
    if |insts| > 0 {
      var n := rob.queueSize;
      var tags := AllocateAll(rob, insts).tags;
      var a := Allocate(rob, insts[0]);
      var rest := AllocateAll(a.rob, insts[1..]).tags;
      assert tags == [a.tag] + rest;
      AllocationSteps(a.rob, insts[1..]);
      forall j | 0 <= j < |insts| - 1
        ensures tags[j + 1] == Succ(tags[j], n)
      {
        if j > 0 {
          assert tags[j + 1] == rest[j] && tags[j] == rest[j - 1];
        }
      }
    }
  }

  /**
   * Successive allocations hand out the tags of a counter modulo
   * `queueSize + 1`: the sequence repeats with period `queueSize + 1`, any
   * `queueSize + 1` consecutive tags are pairwise distinct, and from a fresh
   * buffer the j-th tag is j while j <= queueSize.
   */
  lemma AllocationTags(rob: Rob, insts: seq<Instruction>)
    requires Valid(rob)
    ensures CounterTags(AllocateAll(rob, insts).tags, rob.tailIndex, rob.queueSize)
  {
    var tags := AllocateAll(rob, insts).tags;
    AllocationSteps(rob, insts);
    CounterRun(tags, rob.tailIndex, rob.queueSize);
  }

  /*
   * Tag queries. Both scan the whole buffer, like the source's copy-and-pop loops.
   */

  function ScanReady(q: seq<Instruction>, tag: int): (b: bool)
    ensures b <==> exists k :: 0 <= k < |q| && q[k].robValue == tag && q[k].dest.isReady
  {
    if |q| == 0 then false
    else if q[0].robValue == tag && q[0].dest.isReady then true
    else
      var b := ScanReady(q[1..], tag);
      assert forall k :: 1 <= k < |q| ==> q[k] == q[1..][k - 1];
      b
  }

  function ScanTag(q: seq<Instruction>, tag: int): (b: bool)
    ensures b <==> exists k :: 0 <= k < |q| && q[k].robValue == tag
  {
    if |q| == 0 then false
    else if q[0].robValue == tag then true
    else
      var b := ScanTag(q[1..], tag);
      assert forall k :: 1 <= k < |q| ==> q[k] == q[1..][k - 1];
      b
  }

  /** `IsRobEntryReady`: some entry carries the tag and has a ready destination. */
  function IsRobEntryReady(rob: Rob, tag: int): (b: bool)
    ensures b <==> exists k :: 0 <= k < |Entries(rob)| && Entries(rob)[k].robValue == tag && Entries(rob)[k].dest.isReady
  {
    ScanReady(Entries(rob), tag)
  }

  /** `HasRobEntry`: some entry carries the tag. */
  function HasRobEntry(rob: Rob, tag: int): (b: bool)
    ensures b <==> exists k :: 0 <= k < |Entries(rob)| && Entries(rob)[k].robValue == tag
    ensures IsRobEntryReady(rob, tag) ==> b
  {
    ScanTag(Entries(rob), tag)
  }

  /** One entry after writeback of `tag`: a matching entry becomes ready and takes the given cycle records. */
  function MarkEntry(e: Instruction, tag: int, cycles: map<Stage, CycleInfo>): Instruction
  {
    if e.robValue == tag then e.(dest := e.dest.(isReady := true), cycles := cycles) else e
  }

  function MarkAll(q: seq<Instruction>, tag: int, cycles: map<Stage, CycleInfo>): (r: seq<Instruction>)
    ensures |r| == |q|
    ensures forall k :: 0 <= k < |q| ==> r[k] == MarkEntry(q[k], tag, cycles)
  {
    if |q| == 0 then [] else [MarkEntry(q[0], tag, cycles)] + MarkAll(q[1..], tag, cycles)
  }

  /**
   * `UpdateReadinessOfTheInstruction`: keeps length, order and every tag;
   * entries tagged `tag` get a ready destination and the given cycle records,
   * all other entries are unchanged.
   */
  function UpdateReadiness(rob: Rob, tag: int, cycles: map<Stage, CycleInfo>): (r: Rob)
    ensures r.queueSize == rob.queueSize && r.tailIndex == rob.tailIndex && r.buffer.size == rob.buffer.size
    ensures |Entries(r)| == |Entries(rob)|
    ensures forall k :: 0 <= k < |Entries(rob)| ==>
      var e, e' := Entries(rob)[k], Entries(r)[k];
      if e.robValue == tag then e'.dest.isReady && e' == e.(dest := e'.dest, cycles := cycles)
                                 && e'.dest.(isReady := e.dest.isReady) == e.dest
      else e' == e
  {
    rob.(buffer := rob.buffer.(queue := MarkAll(rob.buffer.queue, tag, cycles)))
  }

  /**
   * After writeback of `tag`, the tag is ready exactly when it is live;
   * liveness of every tag and readiness of every other tag are unchanged.
   */
  lemma UpdateReadinessQueries(rob: Rob, tag: int, cycles: map<Stage, CycleInfo>, other: int)
    ensures IsRobEntryReady(UpdateReadiness(rob, tag, cycles), tag) == HasRobEntry(rob, tag)
    ensures HasRobEntry(UpdateReadiness(rob, tag, cycles), other) == HasRobEntry(rob, other)
    ensures other != tag ==>
      IsRobEntryReady(UpdateReadiness(rob, tag, cycles), other) == IsRobEntryReady(rob, other)
  {
    UpdatedTagReady(rob, tag, cycles);
    UpdateKeepsLive(rob, tag, cycles, other);
    UpdateKeepsOtherReady(rob, tag, cycles, other);
  }

  lemma UpdatedTagReady(rob: Rob, tag: int, cycles: map<Stage, CycleInfo>)
    ensures IsRobEntryReady(UpdateReadiness(rob, tag, cycles), tag) == HasRobEntry(rob, tag)
  {
    var r := UpdateReadiness(rob, tag, cycles);
    if HasRobEntry(rob, tag) {
      var k :| 0 <= k < |Entries(rob)| && Entries(rob)[k].robValue == tag;
      assert Entries(r)[k].robValue == tag && Entries(r)[k].dest.isReady;
    }
  }

  lemma UpdateKeepsLive(rob: Rob, tag: int, cycles: map<Stage, CycleInfo>, other: int)
    ensures HasRobEntry(UpdateReadiness(rob, tag, cycles), other) == HasRobEntry(rob, other)
  {
    var r := UpdateReadiness(rob, tag, cycles);
    if HasRobEntry(rob, other) {
      var k :| 0 <= k < |Entries(rob)| && Entries(rob)[k].robValue == other;
      assert Entries(r)[k].robValue == other;
    }
  }

  lemma UpdateKeepsOtherReady(rob: Rob, tag: int, cycles: map<Stage, CycleInfo>, other: int)
    ensures other != tag ==>
      IsRobEntryReady(UpdateReadiness(rob, tag, cycles), other) == IsRobEntryReady(rob, other)
  {
    var r := UpdateReadiness(rob, tag, cycles);
    if other != tag && IsRobEntryReady(rob, other) {
      var k :| 0 <= k < |Entries(rob)| && Entries(rob)[k].robValue == other && Entries(rob)[k].dest.isReady;
      assert Entries(r)[k] == Entries(rob)[k];
    }
  }

  /** The head entry, removed at retirement. */
  function PopHead(rob: Rob): (r: Rob)
    requires |Entries(rob)| > 0
    ensures Entries(r) == Entries(rob)[1..]
    ensures r.queueSize == rob.queueSize && r.tailIndex == rob.tailIndex && r.buffer.size == rob.buffer.size
  {
    rob.(buffer := Pop(rob.buffer))
  }

  /*
   * The live tags form a window ending at the last tag handed out.
   */

  /** `d` steps back from `t` on the circular counter 0..n, for less than one full turn. */
  function Back(t: int, d: nat, n: nat): int
  {
    if d <= t then t - d else t - d + (n + 1)
  }

  /**
   * The k-th of the live entries, oldest first, holds the tag `|entries| - 1 - k`
   * steps before the last tag handed out, so the live tags are one contiguous
   * run of the circular counter.
   */
  ghost predicate TagWindow(rob: Rob)
  {
    var q := Entries(rob);
    && |q| <= rob.queueSize + 1
    && (|q| > 0 ==> 0 <= rob.tailIndex <= rob.queueSize)
    && forall k :: 0 <= k < |q| ==> q[k].robValue == Back(rob.tailIndex, |q| - 1 - k, rob.queueSize)
  }

  lemma NewRobWindow(queueSize: nat)
    requires queueSize < INT_MAX
    ensures TagWindow(NewRob(queueSize))
  {
  }

  /** Allocating into a buffer with a free entry extends the window by the new tag. */
  lemma AllocateWindow(rob: Rob, i: Instruction)
    requires Valid(rob) && TagWindow(rob) && |Entries(rob)| <= rob.queueSize
    ensures TagWindow(Allocate(rob, i).rob)
  {
    var r := Allocate(rob, i).rob;
    var n := |Entries(rob)|;
    forall k | 0 <= k < n + 1
      ensures Entries(r)[k].robValue == Back(r.tailIndex, n - k, rob.queueSize)
    {
      if k < n {
        assert Entries(r)[k] == Entries(rob)[k];
      }
    }
  }

  lemma {:induction false} AllocateAllWindow(rob: Rob, insts: seq<Instruction>)
    requires Valid(rob) && TagWindow(rob) && |Entries(rob)| + |insts| <= rob.queueSize
    ensures TagWindow(AllocateAll(rob, insts).rob)
    decreases |insts|
  {
    if |insts| > 0 {
      AllocateWindow(rob, insts[0]);
      AllocateAllWindow(Allocate(rob, insts[0]).rob, insts[1..]);
    }
  }

  lemma PopHeadWindow(rob: Rob)
    requires |Entries(rob)| > 0 && TagWindow(rob)
    ensures TagWindow(PopHead(rob))
  {
    var r := PopHead(rob);
    forall k | 0 <= k < |Entries(r)|
      ensures Entries(r)[k].robValue == Back(r.tailIndex, |Entries(r)| - 1 - k, r.queueSize)
    {
      assert Entries(r)[k] == Entries(rob)[k + 1];
    }
  }

  lemma UpdateReadinessWindow(rob: Rob, tag: int, cycles: map<Stage, CycleInfo>)
    requires TagWindow(rob)
    ensures TagWindow(UpdateReadiness(rob, tag, cycles))
  {
    var r := UpdateReadiness(rob, tag, cycles);
    forall k | 0 <= k < |Entries(r)|
      ensures Entries(r)[k].robValue == Entries(rob)[k].robValue
    {
    }
  }

  /** No two live entries share a tag. */
  lemma {:induction false} WindowTagsDistinct(rob: Rob)
    requires TagWindow(rob)
    ensures forall i, j :: 0 <= i < j < |Entries(rob)| ==> Entries(rob)[i].robValue != Entries(rob)[j].robValue
  {
  }
}
