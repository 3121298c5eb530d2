/**
 * The two stages that complete an instruction: Writeback marks reorder
 * buffer entries ready, and Retire removes ready entries from the head of
 * the reorder buffer in program order, releasing their rename mappings.
 */
module Commit {
  import opened Wrappers
  import opened Instructions
  import opened StageBuffers
  import opened Pipeline
  import RB = ReorderBuffers
  import RM = RenameMapTables

  /*
   * Writeback.
   */

  /** The move WB -> RT of a writeback-list entry. */
  function ToRetire(i: Instruction, cycle: nat): (o: Instruction)
    ensures o.(cycles := i.cycles) == i
    ensures EndCycle(o, WB) == cycle + 1 - BeginCycle(i, WB) && BeginCycle(o, RT) == cycle + 1
  {
    MoveStage(i, WB, RT, cycle)
  }

  /** The index of the last writeback entry whose destination is `tag`, or -1 when there is none. */
  function LastWrite(wb: seq<Instruction>, tag: int): (j: int)
    ensures -1 <= j < |wb|
    ensures j >= 0 ==> wb[j].dest.value == tag
    ensures forall k :: j < k < |wb| ==> wb[k].dest.value != tag
  {
    if |wb| == 0 then -1
    else if wb[|wb| - 1].dest.value == tag then |wb| - 1
    else LastWrite(wb[..|wb| - 1], tag)
  }

  /**
   * Entry `e` of the reorder buffer before writeback of the list `wb`, and
   * `e2` after it: an entry some writeback names becomes ready and takes the
   * cycle records of the last entry that names it; any other entry is
   * unchanged.
   */
  predicate WrittenBack(e: Instruction, e2: Instruction, wb: seq<Instruction>, cycle: nat)
  {
    var j := LastWrite(wb, e.robValue);
    if j < 0 then e2 == e
    else e2.dest.isReady && e2 == e.(dest := e2.dest, cycles := ToRetire(wb[j], cycle).cycles)
         && e2.dest.(isReady := e.dest.isReady) == e.dest
  }

  /**
   * The writeback loop: each entry of the list, in order, closes WB, opens
   * RT and marks the reorder-buffer entries carrying its destination tag.
   */
  function WritebackAll(rob: RB.Rob, wb: seq<Instruction>, cycle: nat): (r: RB.Rob)
    ensures r.queueSize == rob.queueSize && r.tailIndex == rob.tailIndex && r.buffer.size == rob.buffer.size
    ensures |RB.Entries(r)| == |RB.Entries(rob)|
    ensures forall k :: 0 <= k < |RB.Entries(rob)| ==> WrittenBack(RB.Entries(rob)[k], RB.Entries(r)[k], wb, cycle)
    ensures RB.TagWindow(rob) ==> RB.TagWindow(r)
  {
    if |wb| == 0 then rob
    else
      var prev := WritebackAll(rob, wb[..|wb| - 1], cycle);
      var w := ToRetire(wb[|wb| - 1], cycle);
      var r := RB.UpdateReadiness(prev, w.dest.value, w.cycles);
      WritebackStep(rob, prev, r, wb, cycle);
      UpdateKeepsWindow(prev, w.dest.value, w.cycles);
      r
  }

  /** The step of `WritebackAll` for the last list entry. */
  lemma WritebackStep(rob: RB.Rob, prev: RB.Rob, r: RB.Rob, wb: seq<Instruction>, cycle: nat)
    requires |wb| > 0 && |RB.Entries(prev)| == |RB.Entries(rob)|
    requires forall k :: 0 <= k < |RB.Entries(rob)| ==>
      WrittenBack(RB.Entries(rob)[k], RB.Entries(prev)[k], wb[..|wb| - 1], cycle)
    requires var w := ToRetire(wb[|wb| - 1], cycle); r == RB.UpdateReadiness(prev, w.dest.value, w.cycles)
    ensures forall k :: 0 <= k < |RB.Entries(rob)| ==> WrittenBack(RB.Entries(rob)[k], RB.Entries(r)[k], wb, cycle)
  {
    var w := ToRetire(wb[|wb| - 1], cycle);
    forall k | 0 <= k < |RB.Entries(rob)|
      ensures WrittenBack(RB.Entries(rob)[k], RB.Entries(r)[k], wb, cycle)
    {
      var e, m := RB.Entries(rob)[k], RB.Entries(prev)[k];
      assert m.robValue == e.robValue;
      var j := LastWrite(wb[..|wb| - 1], e.robValue);
      if w.dest.value != e.robValue && j >= 0 {
        assert wb[..|wb| - 1][j] == wb[j];
      }
    }
  }

  lemma UpdateKeepsWindow(rob: RB.Rob, tag: int, cycles: map<Stage, CycleInfo>)
    ensures RB.TagWindow(rob) ==> RB.TagWindow(RB.UpdateReadiness(rob, tag, cycles))
  {
    if RB.TagWindow(rob) {
      RB.UpdateReadinessWindow(rob, tag, cycles);
    }
  }

  /**
   * `WritebackToRegister`: nothing on an empty list; otherwise the whole
   * list is written back and emptied. Entry by entry, an entry some list
   * entry names becomes ready with the last such entry's cycle records and
   * the others are unchanged; as queries, liveness of every tag is kept, a
   * named tag is ready exactly when it is live, and an unnamed tag keeps
   * its readiness. Nothing but the reorder buffer and the list changes.
   */
  function Writeback(s: State): (r: State)
    ensures r.(rob := s.rob, wb := s.wb) == s && r.wb == s.wb.(queue := [])
    ensures r.rob.queueSize == s.rob.queueSize && r.rob.tailIndex == s.rob.tailIndex
    ensures r.rob.buffer.size == s.rob.buffer.size && |RB.Entries(r.rob)| == |RB.Entries(s.rob)|
    ensures forall k :: 0 <= k < |RB.Entries(s.rob)| ==>
      WrittenBack(RB.Entries(s.rob)[k], RB.Entries(r.rob)[k], s.wb.queue, s.cycle)
    ensures RB.TagWindow(s.rob) ==> RB.TagWindow(r.rob)
    ensures ReadinessAfter(s.rob, r.rob, s.wb.queue)
  {
    WritebackQueries(s.rob, s.wb.queue, s.cycle);
    if IsEmpty(s.wb) then
      assert WritebackAll(s.rob, s.wb.queue, s.cycle) == s.rob;
      s
    else s.(rob := WritebackAll(s.rob, s.wb.queue, s.cycle), wb := s.wb.(queue := []))
  }

  /**
   * The reorder buffer's queries after the writeback of `wb`: liveness of
   * every tag is kept, a tag some entry of the list names is ready exactly
   * when it is live, and every other tag keeps its readiness.
   */
  ghost predicate ReadinessAfter(before: RB.Rob, after: RB.Rob, wb: seq<Instruction>)
  {
    && (forall tag :: RB.HasRobEntry(after, tag) == RB.HasRobEntry(before, tag))
    && (forall tag :: (exists j :: 0 <= j < |wb| && wb[j].dest.value == tag) ==>
          RB.IsRobEntryReady(after, tag) == RB.HasRobEntry(before, tag))
    && (forall tag :: (forall j :: 0 <= j < |wb| ==> wb[j].dest.value != tag) ==>
          RB.IsRobEntryReady(after, tag) == RB.IsRobEntryReady(before, tag))
  }

  lemma WritebackQueries(rob: RB.Rob, wb: seq<Instruction>, cycle: nat)
    ensures ReadinessAfter(rob, WritebackAll(rob, wb, cycle), wb)
  {
    forall tag {
      WritebackReadiness(rob, wb, cycle, tag);
    }
  }

  /**
   * What Writeback does to the reorder buffer's queries: a tag some entry
   * of the list names is ready afterwards exactly when it is live; liveness
   * of every tag, and readiness of every tag the list does not name, are
   * unchanged.
   */
  lemma WritebackReadiness(rob: RB.Rob, wb: seq<Instruction>, cycle: nat, tag: int)
    ensures var r := WritebackAll(rob, wb, cycle);
      && RB.HasRobEntry(r, tag) == RB.HasRobEntry(rob, tag)
      && ((exists j :: 0 <= j < |wb| && wb[j].dest.value == tag) ==> RB.IsRobEntryReady(r, tag) == RB.HasRobEntry(rob, tag))
      && ((forall j :: 0 <= j < |wb| ==> wb[j].dest.value != tag) ==> RB.IsRobEntryReady(r, tag) == RB.IsRobEntryReady(rob, tag))
  {
    var r := WritebackAll(rob, wb, cycle);
    var es, es2 := RB.Entries(rob), RB.Entries(r);
    assert forall k :: 0 <= k < |es| ==> es2[k].robValue == es[k].robValue;
    if exists j :: 0 <= j < |wb| && wb[j].dest.value == tag {
      WrittenTagReady(rob, r, wb, cycle, tag);
    } else {
      UnwrittenTagKept(rob, r, wb, cycle, tag);
    }
  }

  lemma WrittenTagReady(rob: RB.Rob, r: RB.Rob, wb: seq<Instruction>, cycle: nat, tag: int)
    requires |RB.Entries(r)| == |RB.Entries(rob)|
    requires forall k :: 0 <= k < |RB.Entries(rob)| ==> WrittenBack(RB.Entries(rob)[k], RB.Entries(r)[k], wb, cycle)
    requires exists j :: 0 <= j < |wb| && wb[j].dest.value == tag
    ensures RB.IsRobEntryReady(r, tag) == RB.HasRobEntry(rob, tag)
  {
    var es, es2 := RB.Entries(rob), RB.Entries(r);
    assert LastWrite(wb, tag) >= 0;
    if RB.HasRobEntry(rob, tag) {
      var k :| 0 <= k < |es| && es[k].robValue == tag;
      assert es2[k].robValue == tag && es2[k].dest.isReady;
    }
    if RB.IsRobEntryReady(r, tag) {
      var k :| 0 <= k < |es2| && es2[k].robValue == tag && es2[k].dest.isReady;
      assert es[k].robValue == tag;
    }
  }

  lemma UnwrittenTagKept(rob: RB.Rob, r: RB.Rob, wb: seq<Instruction>, cycle: nat, tag: int)
    requires |RB.Entries(r)| == |RB.Entries(rob)|
    requires forall k :: 0 <= k < |RB.Entries(rob)| ==> WrittenBack(RB.Entries(rob)[k], RB.Entries(r)[k], wb, cycle)
    requires forall j :: 0 <= j < |wb| ==> wb[j].dest.value != tag
    ensures RB.IsRobEntryReady(r, tag) == RB.IsRobEntryReady(rob, tag)
  {
    var es, es2 := RB.Entries(rob), RB.Entries(r);
    assert LastWrite(wb, tag) < 0;
    if RB.IsRobEntryReady(rob, tag) {
      var k :| 0 <= k < |es| && es[k].robValue == tag && es[k].dest.isReady;
      assert es2[k] == es[k];
    }
    if RB.IsRobEntryReady(r, tag) {
      var k :| 0 <= k < |es2| && es2[k].robValue == tag && es2[k].dest.isReady;
      assert es2[k].robValue == es[k].robValue;
      assert es2[k] == es[k];
    }
  }

  /*
   * Retire.
   */

  /** A retiring instruction's record: RT closes at the end of this cycle. */
  function RetireCopy(e: Instruction, cycle: nat): (o: Instruction)
    ensures o.(cycles := e.cycles) == e
    ensures EndCycle(o, RT) == cycle + 1 - BeginCycle(e, RT) && BeginCycle(o, RT) == BeginCycle(e, RT)
    ensures forall t: Stage :: t != RT ==> BeginCycle(o, t) == BeginCycle(e, t) && EndCycle(o, t) == EndCycle(e, t)
  {
    SetEnd(e, RT, cycle + 1 - BeginCycle(e, RT))
  }

  function RetireCopies(q: seq<Instruction>, cycle: nat): (r: seq<Instruction>)
    ensures |r| == |q| && forall k :: 0 <= k < |q| ==> r[k] == RetireCopy(q[k], cycle)
  {
    seq(|q|, k requires 0 <= k < |q| => RetireCopy(q[k], cycle))
  }

  /**
   * The number of entries retired from the head: the longest run of ready
   * entries at the front, cut at `budget`.
   */
  function ReadyRun(q: seq<Instruction>, budget: nat): (n: nat)
    ensures n <= |q| && n <= budget
    ensures forall k :: 0 <= k < n ==> q[k].dest.isReady
    ensures n < |q| && n < budget ==> !q[n].dest.isReady
  {
    if |q| == 0 || budget == 0 || !q[0].dest.isReady then 0
    else 1 + ReadyRun(q[1..], budget - 1)
  }

  /** Some retiree has architectural destination `reg` and reorder-buffer tag `tag`. */
  predicate Clears(q: seq<Instruction>, reg: int, tag: int)
  {
    exists j :: 0 <= j < |q| && q[j].dest.value == reg && q[j].robValue == tag
  }

  /**
   * The mapping update of one retirement: the entry of the retiree's
   * destination register is invalidated only while it still names the
   * retiree's tag.
   */
  function Unmap(rmt: RM.Rmt, e: Instruction): (r: RM.Rmt)
    requires RM.Valid(rmt)
    ensures RM.Valid(r)
    ensures forall reg :: RM.InRange(reg) ==>
      r.entries[reg] == (if rmt.entries[reg].valid && e.dest.value == reg && e.robValue == rmt.entries[reg].robIndex
                         then rmt.entries[reg].(valid := false) else rmt.entries[reg])
  {
    match RM.TryGetElement(rmt, e.dest.value)
    case Some(m) => if e.robValue == m.robIndex then RM.RemoveElement(rmt, e.dest.value) else rmt
    case None => rmt
  }

  /** The rename map table after the retirement of `q`, stated entry by entry. */
  ghost predicate Released(before: RM.Rmt, after: RM.Rmt, q: seq<Instruction>)
    requires |before.entries| == |after.entries| == RM.RMT_SIZE
  {
    forall reg :: RM.InRange(reg) ==>
      after.entries[reg] == (if before.entries[reg].valid && Clears(q, reg, before.entries[reg].robIndex)
                             then before.entries[reg].(valid := false) else before.entries[reg])
  }

  datatype Retired = Retired(rob: RB.Rob, rmt: RM.Rmt, final: seq<Instruction>)

  /**
   * The retire loop: while the head is ready and fewer than `budget` have
   * gone, the head is closed, appended to the retired list, its mapping
   * released if still current, and popped. Overall the ready run at the
   * head moves, in order, to the retired list.
   */
  function RetireLoop(rob: RB.Rob, rmt: RM.Rmt, final: seq<Instruction>, budget: nat, cycle: nat): (r: Retired)
    requires RM.Valid(rmt)
    decreases budget
    ensures var n := ReadyRun(RB.Entries(rob), budget);
      && RB.Entries(r.rob) == RB.Entries(rob)[n..]
      && r.final == final + RetireCopies(RB.Entries(rob)[..n], cycle)
    ensures r.rob.queueSize == rob.queueSize && r.rob.tailIndex == rob.tailIndex && r.rob.buffer.size == rob.buffer.size
    ensures RB.TagWindow(rob) ==> RB.TagWindow(r.rob)
    ensures RM.Valid(r.rmt)
    ensures Released(rmt, r.rmt, RB.Entries(rob)[..ReadyRun(RB.Entries(rob), budget)])
  {
    var es := RB.Entries(rob);
    if |es| == 0 || !es[0].dest.isReady || budget == 0 then
      assert es[..0] == [];
      Retired(rob, rmt, final)
    else
      var e := es[0];
      var rmt1 := Unmap(rmt, e);
      var rob1 := RB.PopHead(rob);
      PopKeepsWindow(rob);
      var r := RetireLoop(rob1, rmt1, final + [RetireCopy(e, cycle)], budget - 1, cycle);
      var es1 := RB.Entries(rob1);
      RetireStep(es, es1, RB.Entries(r.rob), final, r.final, budget, cycle);
      RunCons(es, es1, budget, cycle);
      ReleasedCons(rmt, rmt1, r.rmt, e, es1[..ReadyRun(es1, budget - 1)]);
      r
  }

  /**
   * The step of `RetireLoop` for a ready head, on the buffer contents `es`:
   * what remains and what was retired after the tail `es1` agree with the
   * whole run.
   */
  lemma RetireStep(es: seq<Instruction>, es1: seq<Instruction>, rest: seq<Instruction>,
                   final: seq<Instruction>, fin: seq<Instruction>, budget: nat, cycle: nat)
    requires |es| > 0 && es[0].dest.isReady && budget > 0 && es1 == es[1..]
    requires rest == es1[ReadyRun(es1, budget - 1)..]
    requires fin == final + [RetireCopy(es[0], cycle)] + RetireCopies(es1[..ReadyRun(es1, budget - 1)], cycle)
    ensures rest == es[ReadyRun(es, budget)..]
    ensures fin == final + RetireCopies(es[..ReadyRun(es, budget)], cycle)
  {
    var n1 := ReadyRun(es1, budget - 1);
    RunCons(es, es1, budget, cycle);
    AppendAssoc(final, [RetireCopy(es[0], cycle)], RetireCopies(es1[..n1], cycle));
  }

  /** A ready head heads the run: the run is the head followed by the run of the rest. */
  lemma RunCons(es: seq<Instruction>, es1: seq<Instruction>, budget: nat, cycle: nat)
    requires |es| > 0 && es[0].dest.isReady && budget > 0 && es1 == es[1..]
    ensures var n, n1 := ReadyRun(es, budget), ReadyRun(es1, budget - 1);
      && n == n1 + 1
      && es[..n] == [es[0]] + es1[..n1]
      && es[n..] == es1[n1..]
      && RetireCopies(es[..n], cycle) == [RetireCopy(es[0], cycle)] + RetireCopies(es1[..n1], cycle)
  {
    var n, n1 := ReadyRun(es, budget), ReadyRun(es1, budget - 1);
    assert es[..n] == [es[0]] + es1[..n1];
  }

  /** Releasing one retiree and then a run is releasing the longer run. */
  lemma ReleasedCons(rmt: RM.Rmt, rmt1: RM.Rmt, rmt2: RM.Rmt, e: Instruction, q: seq<Instruction>)
    requires RM.Valid(rmt) && rmt1 == Unmap(rmt, e) && |rmt2.entries| == RM.RMT_SIZE
    requires Released(rmt1, rmt2, q)
    ensures Released(rmt, rmt2, [e] + q)
  {
    forall reg | RM.InRange(reg)
      ensures rmt2.entries[reg] ==
        if rmt.entries[reg].valid && Clears([e] + q, reg, rmt.entries[reg].robIndex)
        then rmt.entries[reg].(valid := false) else rmt.entries[reg]
    {
      var x := rmt.entries[reg];
      if Clears(q, reg, x.robIndex) {
        var j :| 0 <= j < |q| && q[j].dest.value == reg && q[j].robValue == x.robIndex;
        assert ([e] + q)[j + 1] == q[j];
      }
      if e.dest.value == reg && e.robValue == x.robIndex {
        assert ([e] + q)[0] == e;
      }
      if Clears([e] + q, reg, x.robIndex) {
        var j :| 0 <= j < |[e] + q| && ([e] + q)[j].dest.value == reg && ([e] + q)[j].robValue == x.robIndex;
        if j > 0 {
          assert q[j - 1] == ([e] + q)[j];
        }
      }
    }
  }

  lemma PopKeepsWindow(rob: RB.Rob)
    requires |RB.Entries(rob)| > 0
    ensures RB.TagWindow(rob) ==> RB.TagWindow(RB.PopHead(rob))
  {
    if RB.TagWindow(rob) {
      RB.PopHeadWindow(rob);
    }
  }

  /**
   * `RetireInstructions`: the ready run at the head of the reorder buffer,
   * at most `width` long, leaves the buffer and is appended, closed and in
   * order, to the retired list; each retiree's mapping is released while it
   * still names the retiree's tag; the live tags stay a window, and nothing
   * else changes.
   */
  function Retire(s: State): (r: State)
    requires RM.Valid(s.rmt)
    ensures var n := ReadyRun(RB.Entries(s.rob), s.width);
      && RB.Entries(r.rob) == RB.Entries(s.rob)[n..]
      && r.final == s.final + RetireCopies(RB.Entries(s.rob)[..n], s.cycle)
    ensures r.rob.queueSize == s.rob.queueSize && r.rob.tailIndex == s.rob.tailIndex
    ensures r.rob.buffer.size == s.rob.buffer.size
    ensures RB.TagWindow(s.rob) ==> RB.TagWindow(r.rob)
    ensures RM.Valid(r.rmt)
    ensures Released(s.rmt, r.rmt, RB.Entries(s.rob)[..ReadyRun(RB.Entries(s.rob), s.width)])
    ensures r.(rob := s.rob, rmt := s.rmt, final := s.final) == s
  {
    var l := RetireLoop(s.rob, s.rmt, s.final, s.width, s.cycle);
    if |RB.Entries(s.rob)| == 0 || !RB.Entries(s.rob)[0].dest.isReady then
      assert l == Retired(s.rob, s.rmt, s.final);
      s
    else
      s.(rob := l.rob, rmt := l.rmt, final := l.final)
  }

  /**
   * Retirement moves instructions from the reorder buffer to the retired
   * list without losing, duplicating or reordering any: the sequence numbers
   * of the retired list followed by the reorder buffer are unchanged.
   */
  lemma RetireKeepsOrder(s: State)
    requires RM.Valid(s.rmt)
    ensures var r := Retire(s); SeqNums(r.final + RB.Entries(r.rob)) == SeqNums(s.final + RB.Entries(s.rob))
  {
    var es := RB.Entries(s.rob);
    CopiesKeepOrder(s.final, es, ReadyRun(es, s.width), s.cycle);
  }

  lemma CopiesKeepOrder(final: seq<Instruction>, es: seq<Instruction>, n: nat, cycle: nat)
    requires n <= |es|
    ensures SeqNums(final + RetireCopies(es[..n], cycle) + es[n..]) == SeqNums(final + es)
  {
    var copies := RetireCopies(es[..n], cycle);
    var a, b := final + copies + es[n..], final + es;
    forall k | 0 <= k < |a|
      ensures a[k].seqNum == b[k].seqNum
    {
      if k < |final| {
      } else if k < |final| + n {
        assert a[k] == copies[k - |final|];
      } else {
        assert a[k] == es[k - |final|];
      }
    }
    assert SeqNums(a) == SeqNums(b);
  }

  /**
   * The renaming correctness property: retirement leaves a mapping alone
   * while its producer is still in flight. If entry `reg` names the tag of
   * an instruction that stays in the reorder buffer, no retiree carries
   * that tag (tags in flight are distinct), so the mapping survives.
   */
  lemma RetireKeepsLiveMapping(s: State, reg: int)
    requires RM.Valid(s.rmt) && RB.TagWindow(s.rob) && RM.InRange(reg)
    requires var es, n := RB.Entries(s.rob), ReadyRun(RB.Entries(s.rob), s.width);
      exists j :: n <= j < |es| && es[j].robValue == s.rmt.entries[reg].robIndex
    ensures Retire(s).rmt.entries[reg] == s.rmt.entries[reg]
  {
    var es, n := RB.Entries(s.rob), ReadyRun(RB.Entries(s.rob), s.width);
    var j :| n <= j < |es| && es[j].robValue == s.rmt.entries[reg].robIndex;
    RB.WindowTagsDistinct(s.rob);
  }

  /**
   * And the converse: a mapping whose producer retires in this call is
   * released, so later readers of the register see the architectural value.
   */
  lemma RetireReleasesMapping(s: State, reg: int, i: nat)
    requires RM.Valid(s.rmt) && RM.InRange(reg)
    requires i < ReadyRun(RB.Entries(s.rob), s.width)
    requires RB.Entries(s.rob)[i].dest.value == reg && RB.Entries(s.rob)[i].robValue == s.rmt.entries[reg].robIndex
    ensures !Retire(s).rmt.entries[reg].valid
    ensures Retire(s).rmt.entries[reg].robIndex == s.rmt.entries[reg].robIndex
  {
    var es, n := RB.Entries(s.rob), ReadyRun(RB.Entries(s.rob), s.width);
    assert es[..n][i] == es[i];
  }
}
