/**
 * The driver: one cycle calls the nine stages in reverse pipeline order
 * and advances the cycle counter; the run repeats cycles until the
 * continuation test fails; the report lists the retired instructions in
 * sequence-number order. Every stage keeps the scheduler invariant, so
 * every state a run reaches satisfies it.
 */
module Simulator {
  import opened Instructions
  import opened StageBuffers
  import opened Pipeline
  import opened Ordering
  import opened FrontEnd
  import opened BackEnd
  import opened Commit
  import opened Loops
  import RB = ReorderBuffers
  import IQ = IssueQueues
  import RM = RenameMapTables

  /*
   * Each stage keeps the invariant.
   */

  /**
   * `r`, the state after one stage applied to `s`, satisfies the invariant
   * and has the same width, cycle and number of records overall.
   */
  ghost predicate Keeps(s: State, r: State)
  {
    && Invariant(r)
    && r.width == s.width && r.cycle == s.cycle
    && r.fetched + |r.trace| == s.fetched + |s.trace|
  }

  /** Replacing a middle part by one with the same sequence numbers keeps the sequence numbers of the whole. */
  lemma SwapMiddle(x: seq<Instruction>, m1: seq<Instruction>, m2: seq<Instruction>, y: seq<Instruction>)
    requires SeqNums(m1) == SeqNums(m2)
    ensures SeqNums(x + m1 + y) == SeqNums(x + m2 + y)
  {
    var a, b := x + m1 + y, x + m2 + y;
    assert |m1| == |SeqNums(m1)| == |SeqNums(m2)| == |m2|;
    forall k | 0 <= k < |a|
      ensures a[k].seqNum == b[k].seqNum
    {
      if |x| <= k < |x| + |m1| {
        assert a[k] == m1[k - |x|] && b[k] == m2[k - |x|];
        assert SeqNums(m1)[k - |x|] == SeqNums(m2)[k - |x|];
      }
    }
    assert SeqNums(a) == SeqNums(b);
  }

  /** A stage that leaves the trace, DE, RN, the reorder buffer, the map and the retired list alone keeps the invariant. */
  lemma BackFrame(s: State, r: State)
    requires Invariant(s)
    requires r.width == s.width && r.cycle == s.cycle && r.trace == s.trace && r.eof == s.eof && r.fetched == s.fetched
    requires r.de == s.de && r.rn == s.rn && r.rob == s.rob && r.rmt == s.rmt && r.final == s.final
    requires r.rr.size == s.rr.size && r.di.size == s.di.size && |r.di.queue| <= r.di.size
    requires r.ex.size == s.ex.size && r.wb.size == s.wb.size && Bounded(r.rr) && Bounded(r.ex) && Bounded(r.wb)
    ensures Keeps(s, r)
  {
    assert Shape(r) && Tables(r) && Inputs(r) && InOrder(r);
  }

  /**
   * A stage that changes only the reorder buffer, the map and the retired
   * list keeps the invariant if it keeps the tables well formed and the
   * sequence numbers of the retired list followed by the reorder buffer.
   */
  lemma CommitFrame(s: State, r: State)
    requires Invariant(s)
    requires r == s.(rob := r.rob, rmt := r.rmt, final := r.final, wb := r.wb)
    requires Tables(r) && r.wb.size == s.wb.size && Bounded(r.wb)
    requires SeqNums(r.final + RB.Entries(r.rob)) == SeqNums(s.final + RB.Entries(s.rob))
    ensures Keeps(s, r)
  {
    var e, e2 := RB.Entries(s.rob), RB.Entries(r.rob);
    SwapMiddle([], r.final + e2, s.final + e, s.rn.queue + s.de.queue);
    assert [] + (r.final + e2) + (s.rn.queue + s.de.queue) == r.final + e2 + r.rn.queue + r.de.queue;
    assert [] + (s.final + e) + (s.rn.queue + s.de.queue) == s.final + e + s.rn.queue + s.de.queue;
    assert Shape(r) && Inputs(r) && InOrder(r);
  }

  /**
   * A stage that empties RN into RR and appends to the reorder buffer
   * instructions with RN's sequence numbers keeps the invariant.
   */
  lemma RenameFrame(s: State, r: State, t: seq<Instruction>)
    requires Invariant(s)
    requires r == s.(rob := r.rob, rmt := r.rmt, rn := r.rn, rr := r.rr)
    requires r.rn.size == s.rn.size && r.rn.queue == [] && r.rr.size == s.rr.size && Bounded(r.rr)
    requires Tables(r) && RB.Entries(r.rob) == RB.Entries(s.rob) + t && SeqNums(t) == SeqNums(s.rn.queue)
    ensures Keeps(s, r)
  {
    var e := RB.Entries(s.rob);
    SwapMiddle(s.final + e, t, s.rn.queue, s.de.queue);
    assert s.final + (e + t) + [] + s.de.queue == s.final + e + t + s.de.queue;
    assert Shape(r) && Inputs(r) && InOrder(r);
  }

  /**
   * A stage that moves instructions from DE to RN keeps the invariant if
   * the two latches stay within capacity, their destinations stay mappable
   * and RN followed by DE keeps its sequence numbers.
   */
  lemma DecodeFrame(s: State, r: State)
    requires Invariant(s)
    requires r == s.(de := r.de, rn := r.rn)
    requires r.de.size == s.de.size && r.rn.size == s.rn.size && Bounded(r.de) && Bounded(r.rn)
    requires forall k :: 0 <= k < |r.de.queue| ==> DestMapped(r.de.queue[k])
    requires forall k :: 0 <= k < |r.rn.queue| ==> DestMapped(r.rn.queue[k])
    requires SeqNums(r.rn.queue + r.de.queue) == SeqNums(s.rn.queue + s.de.queue)
    ensures Keeps(s, r)
  {
    var e := RB.Entries(s.rob);
    SwapMiddle(s.final + e, r.rn.queue + r.de.queue, s.rn.queue + s.de.queue, []);
    assert s.final + e + (r.rn.queue + r.de.queue) + [] == r.final + RB.Entries(r.rob) + r.rn.queue + r.de.queue;
    assert s.final + e + (s.rn.queue + s.de.queue) + [] == s.final + e + s.rn.queue + s.de.queue;
    assert Shape(r) && Tables(r) && Inputs(r) && InOrder(r);
  }

  lemma RetireInvariant(s: State)
    requires Invariant(s)
    ensures Keeps(s, Retire(s))
  {
    RetireKeepsOrder(s);
    CommitFrame(s, Retire(s));
  }

  lemma WritebackInvariant(s: State)
    requires Invariant(s)
    ensures Keeps(s, Writeback(s))
  {
    var r := Writeback(s);
    var e, e2 := RB.Entries(s.rob), RB.Entries(r.rob);
    forall k | 0 <= k < |e|
      ensures e2[k].seqNum == e[k].seqNum
    {
      assert WrittenBack(e[k], e2[k], s.wb.queue, s.cycle);
    }
    assert SeqNums(e2) == SeqNums(e);
    SeqNumsAppend(s.final, e2);
    SeqNumsAppend(s.final, e);
    CommitFrame(s, r);
  }

  lemma ExecuteInvariant(s: State)
    requires Invariant(s)
    ensures Keeps(s, Execute(s))
  {
    BackFrame(s, Execute(s));
  }

  /** In every reachable state the execute list is within its 5 x width capacity, so Execute keeps every unfinished entry, in order, one cycle closer. */
  lemma ExecuteKeepsPending(s: State)
    requires Invariant(s)
    ensures Execute(s).ex.queue == Pending(s.ex.queue)
  {
  }

  lemma IssueInvariant(s: State, lat: map<int, int>)
    requires Invariant(s)
    ensures Keeps(s, Issue(s, lat))
  {
    BackFrame(s, Issue(s, lat));
  }

  lemma DispatchInvariant(s: State)
    requires Invariant(s)
    ensures Keeps(s, Dispatch(s))
  {
    BackFrame(s, Dispatch(s));
  }

  lemma ReadRegisterInvariant(s: State)
    requires Invariant(s)
    ensures Keeps(s, ReadRegister(s))
  {
    var r := ReadRegister(s);
    var n := Min(|s.rr.queue|, s.di.size - |s.di.queue|);
    assert r == s.(rr := Table(s.rr.queue[n..], s.rr.size),
                   di := Table(s.di.queue + MapSeq(ReadStep(s.rob, s.cycle), s.rr.queue[..n]), s.di.size));
    assert |r.di.queue| == |s.di.queue| + n;
    BackFrame(s, r);
  }

  lemma RenameInvariant(s: State)
    requires Invariant(s)
    ensures Keeps(s, Rename(s))
  {
    if IsEmpty(s.rn) || !IsEmpty(s.rr) || FreeEntries(s.rob.buffer) < GetSize(s.rn) {
      BackFrame(s, Rename(s));
    } else {
      var e := RB.Entries(s.rob);
      assert FreeEntries(s.rob.buffer) + |e| == s.rob.queueSize;
      assert Fits(s.rob, s.rn, s.rr);
      RB.AllocateAllWindow(s.rob, s.rn.queue);
      var a := RB.AllocateAll(s.rob, s.rn.queue);
      var t := RB.Tagged(s.rn.queue, a.tags);
      assert SeqNums(t) == SeqNums(s.rn.queue);
      var l := RenameLoop(s.rmt, s.rob, s.rn, s.rr, s.cycle);
      assert Rename(s) == s.(rmt := l.rmt, rob := l.rob, rn := l.rn, rr := l.rr);
      RenameFrame(s, Rename(s), t);
    }
  }

  lemma DecodeInvariant(s: State)
    requires Invariant(s)
    ensures Keeps(s, Decode(s))
  {
    var r := Decode(s);
    DecodeKeepsOrder(s);
    DecodeMoves(s);
    var n := Min(|s.de.queue|, s.rn.size - |s.rn.queue|);
    forall k | 0 <= k < |r.rn.queue|
      ensures DestMapped(r.rn.queue[k])
    {
      if k >= |s.rn.queue| {
        assert r.rn.queue[k].dest == s.de.queue[k - |s.rn.queue|].dest;
      } else {
        assert r.rn.queue[k] == s.rn.queue[k];
      }
    }
    forall k | 0 <= k < |r.de.queue|
      ensures DestMapped(r.de.queue[k])
    {
      assert r.de.queue[k] == s.de.queue[n + k];
    }
    DecodeFrame(s, r);
  }

  /**
   * A stage that fills an empty DE with the next `n` records, numbered from
   * the running count, and consumes exactly those records, keeps the invariant.
   */
  lemma FetchFrame(s: State, r: State, n: nat)
    requires Invariant(s) && s.de.queue == [] && n <= |s.trace|
    requires r == s.(de := r.de, trace := r.trace, fetched := r.fetched, eof := r.eof)
    requires r.de.size == s.de.size && |r.de.queue| <= r.de.size
    requires forall k :: 0 <= k < |r.de.queue| ==> DestMapped(r.de.queue[k])
    requires r.trace == s.trace[n..] && r.fetched == s.fetched + n && (r.eof ==> r.trace == [])
    requires SeqNums(r.de.queue) == Range(s.fetched, s.fetched + n)
    ensures Keeps(s, r)
  {
    forall k | 0 <= k < |r.trace|
      ensures RecordOk(r.trace[k])
    {
      assert r.trace[k] == s.trace[n + k];
    }
    var p := s.final + RB.Entries(s.rob) + s.rn.queue;
    assert s.final + RB.Entries(s.rob) + s.rn.queue + s.de.queue == p;
    SeqNumsAppend(p, r.de.queue);
    assert Range(0, s.fetched) + Range(s.fetched, s.fetched + n) == Range(0, s.fetched + n);
    assert r.final + RB.Entries(r.rob) + r.rn.queue + r.de.queue == p + r.de.queue;
    assert Shape(r) && Tables(r) && Inputs(r) && InOrder(r);
  }

  lemma FetchInvariant(s: State)
    requires Invariant(s)
    ensures Keeps(s, Fetch(s))
  {
    if IsEmpty(s.de) {
      var r := Fetch(s);
      var n := Min(|s.trace|, s.width);
      FetchBundle(s);
      forall k | 0 <= k < |r.de.queue|
        ensures DestMapped(r.de.queue[k])
      {
        assert RecordOk(s.trace[k]);
      }
      FetchFrame(s, r, n);
    } else {
      BackFrame(s, Fetch(s));
    }
  }

  /*
   * One cycle, and a run.
   */

  /** The stages that run before Fetch in one cycle. */
  datatype Unit = Retiring | WritingBack | Executing | Issuing | Dispatching | ReadingRegisters | Renaming | Decoding

  /** The order of the driver loop: from the back of the pipeline to the front, so each stage empties its latch before the one before it refills it. */
  const BACK_TO_FRONT: seq<Unit> :=
    [Retiring, WritingBack, Executing, Issuing, Dispatching, ReadingRegisters, Renaming, Decoding]

  /**
   * One iteration of the simulation loop: Retire, Writeback, Execute,
   * Issue, Dispatch, ReadRegister, Rename, Decode and Fetch, in that order,
   * then the cycle counter moves on by one. The invariant holds afterwards,
   * and no record is gained or lost between the trace and the fetched count.
   */
  function Step(s: State, lat: map<int, int>): (r: State)
    requires Invariant(s)
    ensures Invariant(r)
    ensures r.fetched + |r.trace| == s.fetched + |s.trace|
    ensures r.cycle == s.cycle + 1 && r.width == s.width
  {
    NextCycle(FetchStage(AdvanceAll(BACK_TO_FRONT, s, lat)))
  }

  /** The stages `us`, one after the other; none of them fetches. */
  function AdvanceAll(us: seq<Unit>, s: State, lat: map<int, int>): (r: State)
    requires Invariant(s)
    decreases |us|
    ensures Keeps(s, r) && r.fetched == s.fetched
  {
    if us == [] then s
    else AdvanceAll(us[1..], Advance(us[0], s, lat), lat)
  }

  /** One stage before Fetch. */
  function Advance(u: Unit, s: State, lat: map<int, int>): (r: State)
    requires Invariant(s)
    ensures Keeps(s, r) && r.fetched == s.fetched
  {
    match u
    case Retiring => RetireStage(s)
    case WritingBack => WritebackStage(s)
    case Executing => ExecuteStage(s)
    case Issuing => IssueStage(s, lat)
    case Dispatching => DispatchStage(s)
    case ReadingRegisters => ReadRegisterStage(s)
    case Renaming => RenameStage(s)
    case Decoding => DecodeStage(s)
  }

  function RetireStage(s: State): (r: State)
    requires Invariant(s)
    ensures Keeps(s, r) && r.fetched == s.fetched
  {
    RetireInvariant(s);
    Retire(s)
  }

  function WritebackStage(s: State): (r: State)
    requires Invariant(s)
    ensures Keeps(s, r) && r.fetched == s.fetched
  {
    WritebackInvariant(s);
    Writeback(s)
  }

  function ExecuteStage(s: State): (r: State)
    requires Invariant(s)
    ensures Keeps(s, r) && r.fetched == s.fetched
  {
    ExecuteInvariant(s);
    Execute(s)
  }

  function IssueStage(s: State, lat: map<int, int>): (r: State)
    requires Invariant(s)
    ensures Keeps(s, r) && r.fetched == s.fetched
  {
    IssueInvariant(s, lat);
    Issue(s, lat)
  }

  function DispatchStage(s: State): (r: State)
    requires Invariant(s)
    ensures Keeps(s, r) && r.fetched == s.fetched
  {
    DispatchInvariant(s);
    Dispatch(s)
  }

  function ReadRegisterStage(s: State): (r: State)
    requires Invariant(s)
    ensures Keeps(s, r) && r.fetched == s.fetched
  {
    ReadRegisterInvariant(s);
    ReadRegister(s)
  }

  function RenameStage(s: State): (r: State)
    requires Invariant(s)
    ensures Keeps(s, r) && r.fetched == s.fetched
  {
    RenameInvariant(s);
    Rename(s)
  }

  function DecodeStage(s: State): (r: State)
    requires Invariant(s)
    ensures Keeps(s, r) && r.fetched == s.fetched
  {
    DecodeInvariant(s);
    Decode(s)
  }

  function FetchStage(s: State): (r: State)
    requires Invariant(s)
    ensures Keeps(s, r)
  {
    FetchInvariant(s);
    Fetch(s)
  }

  /** The cycle counter moves on by one; nothing else changes. */
  function NextCycle(s: State): (r: State)
    requires Invariant(s)
    ensures Invariant(r) && r.cycle == s.cycle + 1
    ensures r.width == s.width && r.fetched == s.fetched && r.trace == s.trace
  {
    var r := s.(cycle := s.cycle + 1);
    assert Shape(r) && Tables(r) && Inputs(r) && InOrder(r);
    r
  }

  /** The continuation test: as written, or corrected to wait for DE and RN to drain. */
  predicate Continues(s: State, drained: bool)
  {
    if drained then AdvanceToNextCycleDrained(s) else AdvanceToNextCycle(s)
  }

  /**
   * The do-while loop of the driver: a cycle, then the continuation test.
   * At most `fuel` further cycles run after the first, and a run that ends
   * while the test still says go on has used all of them.
   */
  function Run(s: State, lat: map<int, int>, fuel: nat, drained: bool): (r: State)
    requires Invariant(s)
    decreases fuel
    ensures Invariant(r)
    ensures r.fetched + |r.trace| == s.fetched + |s.trace|
    ensures s.cycle < r.cycle <= s.cycle + fuel + 1
    ensures Continues(r, drained) ==> r.cycle == s.cycle + fuel + 1
  {
    var s1 := Step(s, lat);
    if !Continues(s1, drained) || fuel == 0 then s1
    else Run(s1, lat, fuel - 1, drained)
  }

  /** One cycle as a total function value: `Step` wherever the invariant holds. */
  ghost function Cycle(lat: map<int, int>): State -> State
  {
    x => if Invariant(x) then Step(x, lat) else x
  }

  /** The continuation test as a function value. */
  function Test(drained: bool): State -> bool
  {
    x => Continues(x, drained)
  }

  /**
   * `Run` is the do-while loop of one cycle under the continuation test.
   * The bodies of `Step` and `Invariant` play no part in this, so they are
   * hidden from the solver.
   */
  lemma {:induction false} RunIsDoWhile(s: State, lat: map<int, int>, fuel: nat, drained: bool)
    requires Invariant(s)
    decreases fuel
    ensures Run(s, lat, fuel, drained) == DoWhile(Cycle(lat), Test(drained), s, fuel)
  {
    hide Step, Invariant;
    var s1 := Step(s, lat);
    assert Cycle(lat)(s) == s1;
    if Continues(s1, drained) && fuel > 0 {
      RunIsDoWhile(s1, lat, fuel - 1, drained);
    }
  }

  /**
   * The loop stops at the first cycle after which the continuation test
   * says stop. With no fuel to spare the run is one cycle; one more unit of
   * fuel adds one more cycle exactly when the test said go on where the
   * shorter run ended, and changes nothing when it said stop.
   */
  lemma RunExtend(s: State, lat: map<int, int>, fuel: nat, drained: bool)
    requires Invariant(s)
    ensures Run(s, lat, 0, drained) == Step(s, lat)
    ensures var r := Run(s, lat, fuel, drained);
      Run(s, lat, fuel + 1, drained) == if Continues(r, drained) then Step(r, lat) else r
  {
    hide Step, Invariant;
    var r := Run(s, lat, fuel, drained);
    RunIsDoWhile(s, lat, fuel, drained);
    RunIsDoWhile(s, lat, fuel + 1, drained);
    DoWhileExtend(Cycle(lat), Test(drained), s, fuel);
    assert Cycle(lat)(r) == Step(r, lat);
  }

  /** `k` cycles from a state that satisfies the invariant keep it and move the cycle counter on by `k`. */
  lemma {:induction false} IterateCycles(s: State, lat: map<int, int>, k: nat)
    requires Invariant(s)
    decreases k
    ensures Invariant(Iterate(Cycle(lat), s, k)) && Iterate(Cycle(lat), s, k).cycle == s.cycle + k
  {
    hide Step, Invariant;
    if k > 0 {
      var s1 := Step(s, lat);
      assert Cycle(lat)(s) == s1;
      IterateCycles(s1, lat, k - 1);
    }
  }

  /**
   * The same, counted in cycles from the start: the run ends in the state
   * `n` cycles after `s`, the test said go on after every earlier cycle,
   * and it said stop after the last unless the fuel ran out first.
   */
  lemma RunStopsAtFirst(s: State, lat: map<int, int>, fuel: nat, drained: bool) returns (n: nat)
    requires Invariant(s)
    ensures 1 <= n <= fuel + 1 && n == Run(s, lat, fuel, drained).cycle - s.cycle
    ensures Run(s, lat, fuel, drained) == Iterate(Cycle(lat), s, n)
    ensures forall k :: 1 <= k < n ==> Continues(Iterate(Cycle(lat), s, k), drained)
    ensures n <= fuel ==> !Continues(Run(s, lat, fuel, drained), drained)
  {
    hide Step, Invariant;
    RunIsDoWhile(s, lat, fuel, drained);
    n := DoWhileStopsAtFirst(Cycle(lat), Test(drained), s, fuel);
    IterateCycles(s, lat, n);
  }

  /** What the driver needs of its arguments: a positive width, a reorder buffer size the model can index, and destinations the rename map table can index. */
  predicate Admissible(width: nat, robSize: nat, trace: seq<TraceRecord>)
  {
    width >= 1 && robSize < INT_MAX && forall k :: 0 <= k < |trace| ==> RecordOk(trace[k])
  }

  /** The run on a trace from the initial state, and its report, sorted by sequence number. */
  function Simulate(width: nat, robSize: nat, iqSize: nat, trace: seq<TraceRecord>, fuel: nat, drained: bool)
    : (out: seq<Instruction>)
    requires Admissible(width, robSize, trace)
    ensures SortedBySeq(out)
    ensures multiset(out) == multiset(FinalState(width, robSize, iqSize, trace, fuel, drained).final)
  {
    SortBySeq(FinalState(width, robSize, iqSize, trace, fuel, drained).final)
  }

  /** The state the run ends in, with the latency table of the driver. */
  function FinalState(width: nat, robSize: nat, iqSize: nat, trace: seq<TraceRecord>, fuel: nat, drained: bool)
    : (r: State)
    requires Admissible(width, robSize, trace)
    ensures Wf(r, |trace|)
  {
    InitWf(width, robSize, iqSize, trace);
    Run(Init(width, robSize, iqSize, trace), LATENCIES, fuel, drained)
  }

  /**
   * With the corrected continuation test, a run that stops has retired the
   * whole trace: the report lists every sequence number from 0 up, once, in
   * order, and sorting it changes nothing.
   */
  lemma SimulateRetiresAll(width: nat, robSize: nat, iqSize: nat, trace: seq<TraceRecord>, fuel: nat)
    requires Admissible(width, robSize, trace)
    requires !AdvanceToNextCycleDrained(FinalState(width, robSize, iqSize, trace, fuel, true))
    ensures Simulate(width, robSize, iqSize, trace, fuel, true)
         == FinalState(width, robSize, iqSize, trace, fuel, true).final
    ensures SeqNums(Simulate(width, robSize, iqSize, trace, fuel, true)) == Range(0, |trace|)
  {
    var fs := FinalState(width, robSize, iqSize, trace, fuel, true);
    DrainedRunRetiredAll(fs, |trace|);
    InOrderIsSorted(fs.final, |trace|);
  }

  /** A report whose sequence numbers count up from 0 is already sorted, so sorting keeps it. */
  lemma InOrderIsSorted(q: seq<Instruction>, n: nat)
    requires SeqNums(q) == Range(0, n)
    ensures SortBySeq(q) == q
  {
    forall k | 0 <= k < |q|
      ensures q[k].seqNum == k
    {
      assert SeqNums(q)[k] == q[k].seqNum;
    }
    SortSortedIsIdentity(q);
  }

  /**
   * With the test as written, a stopped run accounts for every instruction
   * of the trace only once the ones still waiting in DE and RN are counted.
   */
  lemma AsWrittenStopLeavesFrontEnd(width: nat, robSize: nat, iqSize: nat, trace: seq<TraceRecord>, fuel: nat)
    requires Admissible(width, robSize, trace)
    requires !AdvanceToNextCycle(FinalState(width, robSize, iqSize, trace, fuel, false))
    ensures var fs := FinalState(width, robSize, iqSize, trace, fuel, false);
      SeqNums(fs.final + fs.rn.queue + fs.de.queue) == Range(0, |trace|)
  {
    StoppedRunLeavesFrontEnd(FinalState(width, robSize, iqSize, trace, fuel, false), |trace|);
  }

  /**
   * The first cycle on a trace shorter than the width: Fetch takes all of
   * it into DE and sees the end of the trace, while the reorder buffer and
   * the report are still empty.
   */
  lemma ShortTraceFirstCycle(s: State, lat: map<int, int>)
    requires Invariant(s) && s.fetched == 0 && 0 < |s.trace| < s.width
    ensures var r := Step(s, lat);
      && r.eof && RB.Entries(r.rob) == [] && r.final == [] && |r.de.queue| == |s.trace|
  {
    var s8 := AdvanceAll(BACK_TO_FRONT, s, lat);
    EmptyBeforeFetch(s8);
    PushAllEmpty(s8.de, Records(s8.trace, 0, s8.cycle));
  }

  /** Nothing has been fetched, so nothing can be anywhere in the pipeline. */
  lemma EmptyBeforeFetch(s: State)
    requires Invariant(s) && s.fetched == 0
    ensures s.final == [] && RB.Entries(s.rob) == [] && s.rn.queue == [] && s.de.queue == []
  {
    assert |SeqNums(s.final + RB.Entries(s.rob) + s.rn.queue + s.de.queue)| == 0;
  }

  /**
   * The discrepancy itself: with the test as written, a trace of fewer
   * instructions than the width stops the run after one cycle with an empty
   * report, though the corrected test would go on.
   */
  lemma AsWrittenDropsShortTrace(width: nat, robSize: nat, iqSize: nat, trace: seq<TraceRecord>, fuel: nat)
    requires robSize < INT_MAX
    requires forall k :: 0 <= k < |trace| ==> RecordOk(trace[k])
    requires 0 < |trace| < width
    ensures var s1 := Step(Init(width, robSize, iqSize, trace), LATENCIES);
      !AdvanceToNextCycle(s1) && AdvanceToNextCycleDrained(s1)
    ensures Simulate(width, robSize, iqSize, trace, fuel, false) == []
  {
    InitWf(width, robSize, iqSize, trace);
    var s0 := Init(width, robSize, iqSize, trace);
    ShortTraceFirstCycle(s0, LATENCIES);
    var s1 := Step(s0, LATENCIES);
    assert !Continues(s1, false);
    assert Run(s0, LATENCIES, fuel, false) == s1;
    assert FinalState(width, robSize, iqSize, trace, fuel, false).final == [];
  }

  /** Nothing retired and nothing in the reorder buffer or RN: everything fetched still waits in DE. */
  predicate FrontOnly(s: State)
  {
    s.final == [] && RB.Entries(s.rob) == [] && s.rn.queue == []
  }

  /**
   * A stage other than Decode, while nothing is retired or in the reorder
   * buffer (and, for Rename, RN is empty): the reorder buffer and the
   * retired list stay empty, and DE, RN and the trace are untouched.
   */
  lemma QuietStage(u: Unit, s: State, lat: map<int, int>)
    requires Invariant(s) && s.final == [] && RB.Entries(s.rob) == []
    requires u != Decoding && (u == Renaming ==> s.rn.queue == [])
    ensures var r := Advance(u, s, lat);
      && r.final == [] && RB.Entries(r.rob) == [] && r.de == s.de && r.rn == s.rn
      && r.trace == s.trace && r.eof == s.eof && r.fetched == s.fetched && r.cycle == s.cycle
  {
    if u == Retiring {
      assert RB.Entries(s.rob)[..0] == [] && RetireCopies([], s.cycle) == [];
    }
  }

  /** Decode, with RN empty: DE moves into RN whole, and nothing else changes. */
  lemma QuietDecode(s: State, lat: map<int, int>)
    requires Invariant(s) && FrontOnly(s)
    ensures var r := AdvanceAll([Decoding], s, lat);
      && r.final == [] && RB.Entries(r.rob) == []
      && r.trace == s.trace && r.eof == s.eof && r.fetched == s.fetched && r.cycle == s.cycle
      && r.de.queue == [] && |r.rn.queue| == |s.de.queue|
  {
    var r := DecodeStage(s);
    assert r.de.queue == s.de.queue[|s.de.queue|..];
    assert AdvanceAll([Decoding], s, lat) == AdvanceAll([], r, lat);
  }

  /**
   * The stages `BACK_TO_FRONT[k..]`, while everything fetched still waits
   * in DE: the reorder buffer and the retired list stay empty, and Decode,
   * if it is among them, moves all of DE into RN.
   */
  lemma {:induction false} QuietSuffix(k: nat, s: State, lat: map<int, int>)
    requires k <= |BACK_TO_FRONT| && Invariant(s) && FrontOnly(s)
    decreases |BACK_TO_FRONT| - k
    ensures var r := AdvanceAll(BACK_TO_FRONT[k..], s, lat);
      && r.final == [] && RB.Entries(r.rob) == []
      && r.trace == s.trace && r.eof == s.eof && r.fetched == s.fetched && r.cycle == s.cycle
      && (k < |BACK_TO_FRONT| ==> r.de.queue == [] && |r.rn.queue| == |s.de.queue|)
  {
    var us := BACK_TO_FRONT[k..];
    if k < |BACK_TO_FRONT| - 1 {
      var u := BACK_TO_FRONT[k];
      assert us[0] == u && us[1..] == BACK_TO_FRONT[k + 1..];
      QuietStage(u, s, lat);
      QuietSuffix(k + 1, Advance(u, s, lat), lat);
    } else if k == |BACK_TO_FRONT| - 1 {
      assert us == [Decoding];
      QuietDecode(s, lat);
    } else {
      assert us == [];
    }
  }

  /**
   * One cycle while everything fetched still waits in DE: afterwards the
   * reorder buffer and the retired list are still empty, RN holds what DE
   * held, DE holds the next bundle, and end of file is seen when fewer
   * than `width` records remained.
   */
  lemma QuietCycle(s: State, lat: map<int, int>)
    requires Invariant(s) && FrontOnly(s)
    ensures var r := Step(s, lat);
      && r.final == [] && RB.Entries(r.rob) == [] && |r.rn.queue| == |s.de.queue|
      && |r.de.queue| == Min(|s.trace|, s.width) && |r.trace| == |s.trace| - Min(|s.trace|, s.width)
      && r.eof == (s.eof || |s.trace| < s.width)
  {
    QuietSuffix(0, s, lat);
    assert BACK_TO_FRONT[0..] == BACK_TO_FRONT;
    var s8 := AdvanceAll(BACK_TO_FRONT, s, lat);
    FetchBundle(s8);
  }

  /**
   * From a fresh start on `width` to 2 x width - 1 records: the first cycle
   * fetches a full bundle and has not seen end of file; the second sees it,
   * with that bundle in RN and the reorder buffer still empty.
   */
  lemma TwoQuietCycles(s0: State)
    requires Invariant(s0) && FrontOnly(s0) && s0.de.queue == [] && !s0.eof
    requires 1 <= s0.width <= |s0.trace| < 2 * s0.width
    ensures var s1 := Step(s0, LATENCIES);
      && AdvanceToNextCycle(s1) && s1.final == []
      && !AdvanceToNextCycle(Step(s1, LATENCIES)) && AdvanceToNextCycleDrained(Step(s1, LATENCIES))
      && Step(s1, LATENCIES).final == []
  {
    QuietCycle(s0, LATENCIES);
    var s1 := Step(s0, LATENCIES);
    assert !s1.eof && |s1.de.queue| == s1.width && FrontOnly(s1);
    QuietCycle(s1, LATENCIES);
    var s2 := Step(s1, LATENCIES);
    assert s2.eof && |s2.rn.queue| == s2.width;
  }

  /**
   * The discrepancy reaches one bundle further: with the test as written, a
   * trace of `width` to 2 x width - 1 records stops the run after two
   * cycles, the second fetch having seen end of file while the first bundle
   * still sits in RN; the report is empty, though the corrected test would
   * go on.
   */
  lemma AsWrittenDropsTwoBundles(width: nat, robSize: nat, iqSize: nat, trace: seq<TraceRecord>, fuel: nat)
    requires robSize < INT_MAX
    requires forall k :: 0 <= k < |trace| ==> RecordOk(trace[k])
    requires 1 <= width <= |trace| < 2 * width
    ensures var s1 := Step(Init(width, robSize, iqSize, trace), LATENCIES);
      AdvanceToNextCycle(s1) && !AdvanceToNextCycle(Step(s1, LATENCIES)) && AdvanceToNextCycleDrained(Step(s1, LATENCIES))
    ensures Simulate(width, robSize, iqSize, trace, fuel, false) == []
  {
    InitWf(width, robSize, iqSize, trace);
    var s0 := Init(width, robSize, iqSize, trace);
    assert s0.width == width;
    TwoQuietCycles(s0);
    RunStopsAtSecond(s0, fuel);
    assert FinalState(width, robSize, iqSize, trace, fuel, false) == Run(s0, LATENCIES, fuel, false);
  }

  /** A run whose first cycle continues and whose second stops ends after at most two cycles. */
  lemma RunStopsAtSecond(s0: State, fuel: nat)
    requires Invariant(s0)
    requires AdvanceToNextCycle(Step(s0, LATENCIES)) && !AdvanceToNextCycle(Step(Step(s0, LATENCIES), LATENCIES))
    ensures Run(s0, LATENCIES, fuel, false) == if fuel == 0 then Step(s0, LATENCIES) else Step(Step(s0, LATENCIES), LATENCIES)
  {
    var s1 := Step(s0, LATENCIES);
    assert Continues(s1, false) && !Continues(Step(s1, LATENCIES), false);
    if fuel > 0 {
      assert Run(s1, LATENCIES, fuel - 1, false) == Step(s1, LATENCIES);
    }
  }
}
