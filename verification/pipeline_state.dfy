/**
 * The scheduler's state between stage calls: the remaining trace, the
 * pipeline latches, the issue queue, the execute and writeback lists, the
 * reorder buffer, the rename map table and the list of retired instructions.
 */
module Pipeline {
  import opened Instructions
  import opened StageBuffers
  import RB = ReorderBuffers
  import IQ = IssueQueues
  import RM = RenameMapTables

  /** One trace line: program counter, operation class, destination and two source registers (-1 for none). */
  datatype TraceRecord = TraceRecord(pc: nat, opType: int, dest: int, src1: int, src2: int)

  /**
   * `width`, the issue queue's slot count and the reorder buffer's
   * `queueSize` are the three parameters. `trace` holds the records not yet
   * read and `eof` the stream's end-of-file indicator; `fetched` is the
   * running count of records read, which numbers the next instruction.
   */
  datatype State = State(
    width: nat,
    cycle: nat,
    trace: seq<TraceRecord>,
    eof: bool,
    fetched: nat,
    de: Table,
    rn: Table,
    rr: Table,
    di: Table,
    iq: IQ.IssueQueue,
    ex: Table,
    wb: Table,
    rob: RB.Rob,
    rmt: RM.Rmt,
    final: seq<Instruction>)

  /** The constructor, with the cycle and fetched counters at zero. */
  function Init(width: nat, robSize: nat, iqSize: nat, trace: seq<TraceRecord>): (s: State)
    requires robSize < INT_MAX
    ensures s.de.size == width && s.rn.size == width && s.rr.size == width && s.di.size == width
    ensures s.ex.size == 5 * width && s.wb.size == 5 * width
    ensures s.de.queue == [] && s.rn.queue == [] && s.rr.queue == [] && s.di.queue == []
    ensures s.ex.queue == [] && s.wb.queue == [] && s.final == []
    ensures |s.iq.slots| == iqSize && IQ.IsEmpty(s.iq) && IQ.FreeEntries(s.iq) == iqSize
    ensures RB.Valid(s.rob) && s.rob.queueSize == robSize && RB.Entries(s.rob) == []
    ensures RM.Valid(s.rmt) && RM.IsEmpty(s.rmt)
    ensures s.trace == trace && !s.eof && s.cycle == 0 && s.fetched == 0
  {
    State(width, 0, trace, false, 0,
          NewTable(width), NewTable(width), NewTable(width), NewTable(width),
          IQ.NewIssueQueue(iqSize), NewTable(5 * width), NewTable(5 * width),
          RB.NewRob(robSize), RM.NewRmt(), [])
  }

  /** A destination the rename map table can index: absent, or an architectural register 0..66. */
  predicate DestMapped(i: Instruction)
  {
    i.dest.exist ==> RM.InRange(i.dest.value)
  }

  /** A trace record whose destination the rename map table can index. */
  predicate RecordOk(t: TraceRecord)
  {
    t.dest == -1 || RM.InRange(t.dest)
  }

  /** The sequence numbers `lo`, `lo + 1`, ..., `hi - 1`. */
  function Range(lo: nat, hi: nat): (r: seq<nat>)
    requires lo <= hi
    ensures |r| == hi - lo && forall k :: 0 <= k < |r| ==> r[k] == lo + k
  {
    seq(hi - lo, k requires 0 <= k < hi - lo => lo + k)
  }

  /**
   * Latch capacities: DE, RN, RR and DI hold one bundle of `width`, the
   * execute and writeback lists 5 x `width`, and no stage buffer exceeds
   * its capacity.
   */
  ghost predicate Shape(s: State)
  {
    && s.width >= 1
    && s.de.size == s.width && s.rn.size == s.width && s.rr.size == s.width && s.di.size == s.width
    && s.ex.size == 5 * s.width && s.wb.size == 5 * s.width
    && Bounded(s.de) && Bounded(s.rn) && Bounded(s.rr) && Bounded(s.di) && Bounded(s.ex) && Bounded(s.wb)
  }

  /** The reorder buffer within its capacity with its live tags a window; the rename map table well formed. */
  ghost predicate Tables(s: State)
  {
    && RB.Valid(s.rob) && |RB.Entries(s.rob)| <= s.rob.queueSize && RB.TagWindow(s.rob)
    && RM.Valid(s.rmt)
  }

  /** Every destination that has yet to be renamed can index the rename map table; end of file means no records remain. */
  ghost predicate Inputs(s: State)
  {
    && (forall k :: 0 <= k < |s.trace| ==> RecordOk(s.trace[k]))
    && (forall k :: 0 <= k < |s.de.queue| ==> DestMapped(s.de.queue[k]))
    && (forall k :: 0 <= k < |s.rn.queue| ==> DestMapped(s.rn.queue[k]))
    && (s.eof ==> s.trace == [])
  }

  /**
   * The retired list, the reorder buffer, RN and DE together hold every
   * fetched instruction exactly once, in program order: instructions enter
   * the reorder buffer at rename, so everything between rename and
   * retirement is counted there.
   */
  ghost predicate InOrder(s: State)
  {
    SeqNums(s.final + RB.Entries(s.rob) + s.rn.queue + s.de.queue) == Range(0, s.fetched)
  }

  /** The invariant of every state the simulator reaches. */
  ghost predicate Invariant(s: State)
  {
    Shape(s) && Tables(s) && Inputs(s) && InOrder(s)
  }

  /** The invariant of every state reached from a trace of `total` records. */
  ghost predicate Wf(s: State, total: nat)
  {
    Invariant(s) && s.fetched + |s.trace| == total
  }

  /** The initial state of a well-formed trace satisfies the invariant. */
  lemma InitWf(width: nat, robSize: nat, iqSize: nat, trace: seq<TraceRecord>)
    requires width >= 1 && robSize < INT_MAX
    requires forall k :: 0 <= k < |trace| ==> RecordOk(trace[k])
    ensures Wf(Init(width, robSize, iqSize, trace), |trace|)
  {
    RB.NewRobWindow(robSize);
    var s := Init(width, robSize, iqSize, trace);
    assert s.final + RB.Entries(s.rob) + s.rn.queue + s.de.queue == [];
    assert Shape(s) && Tables(s) && Inputs(s) && InOrder(s);
  }

  /**
   * `AdvanceToNextCycle` as written: the run goes on unless the trace is
   * exhausted and the reorder buffer is empty. It stops whenever the
   * corrected test stops, and it stops while the corrected test goes on
   * exactly when the trace is exhausted and the reorder buffer empty but DE
   * or RN still holds instructions.
   */
  predicate AdvanceToNextCycle(s: State): (b: bool)
    ensures !AdvanceToNextCycleDrained(s) ==> !b
    ensures (!b && AdvanceToNextCycleDrained(s)) <==>
      s.eof && RB.Entries(s.rob) == [] && (s.de.queue != [] || s.rn.queue != [])
  {
    !(s.eof && RB.Entries(s.rob) == [])
  }

  /**
   * The evidently intended continuation test: the run stops only once the
   * trace is exhausted and no fetched instruction is left in the reorder
   * buffer, RN or DE.
   */
  predicate AdvanceToNextCycleDrained(s: State)
  {
    !(s.eof && RB.Entries(s.rob) == [] && s.de.queue == [] && s.rn.queue == [])
  }

  /**
   * When the corrected test ends the run, every instruction of the trace
   * has retired exactly once, in program order.
   */
  lemma {:induction false} DrainedRunRetiredAll(s: State, total: nat)
    requires Wf(s, total) && !AdvanceToNextCycleDrained(s)
    ensures SeqNums(s.final) == Range(0, total)
  {
    assert s.final + RB.Entries(s.rob) + s.rn.queue + s.de.queue == s.final;
  }

  /**
   * What the corrected test means: in any reachable state it stops exactly
   * when the trace is exhausted and every instruction of it has retired.
   */
  lemma DrainedStopsWhenAllRetired(s: State, total: nat)
    requires Wf(s, total)
    ensures !AdvanceToNextCycleDrained(s) <==> s.eof && |s.final| == total
  {
    var all := s.final + RB.Entries(s.rob) + s.rn.queue + s.de.queue;
    assert |all| == |SeqNums(all)| == s.fetched;
  }

  /**
   * When the test as written ends the run, the instructions not yet retired
   * are exactly those still waiting in RN and DE.
   */
  lemma {:induction false} StoppedRunLeavesFrontEnd(s: State, total: nat)
    requires Wf(s, total) && !AdvanceToNextCycle(s)
    ensures SeqNums(s.final + s.rn.queue + s.de.queue) == Range(0, total)
  {
    assert s.final + RB.Entries(s.rob) + s.rn.queue + s.de.queue == s.final + s.rn.queue + s.de.queue;
  }
}
