/**
 * The in-order front end of the scheduler: Fetch, Decode, Rename and
 * ReadRegister, each a transition of the whole state.
 */
module FrontEnd {
  import opened Wrappers
  import opened Instructions
  import opened StageBuffers
  import opened Pipeline
  import RB = ReorderBuffers
  import RM = RenameMapTables

  /*
   * Fetch.
   */

  /**
   * The instruction built from one trace record: operands from the trace
   * fields, FE opened and closed in the current cycle (a duration of one
   * cycle), DE opened in the next.
   */
  function FetchRecord(t: TraceRecord, seqNum: nat, cycle: nat): (i: Instruction)
    ensures i.seqNum == seqNum && i.pc == t.pc && i.opType == t.opType
    ensures i.dest == FromTrace(t.dest) && i.src1 == FromTrace(t.src1) && i.src2 == FromTrace(t.src2)
    ensures BeginCycle(i, FE) == cycle && EndCycle(i, FE) == 1 && BeginCycle(i, DE) == cycle + 1
    ensures BeginCycle(i, DE) == BeginCycle(i, FE) + EndCycle(i, FE)
    ensures !i.validInIQ && i.latency == -1 && i.robValue == -1
  {
    Instruction(t.pc, t.opType, FromTrace(t.dest), FromTrace(t.src1), FromTrace(t.src2), false, -1, seqNum, -1,
                map[FE := CycleInfo(cycle, 1), DE := CycleInfo(cycle + 1, -1), RN := CycleInfo(-1, -1),
                    RR := CycleInfo(-1, -1), DI := CycleInfo(-1, -1), IS := CycleInfo(-1, -1),
                    EX := CycleInfo(-1, -1), WB := CycleInfo(-1, -1), RT := CycleInfo(-1, -1)])
  }

  /**
   * The record above is what the source's steps produce: the constructor,
   * FE's second field set to the cycle and then to `cycle - begin + 1`, and
   * DE's begin set to the next cycle.
   */
  lemma FetchRecordSteps(t: TraceRecord, seqNum: nat, cycle: nat)
    ensures var i := NewInstruction(t.pc, t.opType, FromTrace(t.dest), FromTrace(t.src1), FromTrace(t.src2), seqNum, cycle);
      var i := SetEnd(i, FE, cycle);
      var i := SetEnd(i, FE, cycle - BeginCycle(i, FE) + 1);
      FetchRecord(t, seqNum, cycle) == SetBegin(i, DE, cycle + 1)
  {
  }

  /** The instructions built from consecutive records, numbered from `base`. */
  function Records(trace: seq<TraceRecord>, base: nat, cycle: nat): (r: seq<Instruction>)
    ensures |r| == |trace|
    ensures forall k :: 0 <= k < |trace| ==> r[k] == FetchRecord(trace[k], base + k, cycle)
  {
    seq(|trace|, k requires 0 <= k < |trace| => FetchRecord(trace[k], base + k, cycle))
  }

  datatype Fetched = Fetched(de: Table, trace: seq<TraceRecord>, fetched: nat, eof: bool)

  /**
   * The read loop of `FetchInstruction`, after `read` records of this
   * bundle. A read at the end of the trace sets the end-of-file indicator;
   * the loop stops early once `width` records have been read. The count is
   * compared for equality only, so with `width` 0 the loop reads the whole
   * trace.
   */
  function FetchLoop(de: Table, trace: seq<TraceRecord>, fetched: nat, read: nat, width: nat, cycle: nat): (r: Fetched)
    requires width == 0 || read < width
    decreases |trace|
    ensures var n := if width == 0 then |trace| else Min(|trace|, width - read);
      && r.trace == trace[n..]
      && r.fetched == fetched + n
      && r.de == PushAll(de, Records(trace[..n], fetched, cycle))
      && r.eof == (width == 0 || |trace| < width - read)
  {
    if |trace| == 0 then Fetched(de, trace, fetched, true)
    else
      var de' := Push(de, FetchRecord(trace[0], fetched, cycle));
      var n := if width == 0 then |trace| else Min(|trace|, width - read);
      assert Records(trace[..n], fetched, cycle)[1..] == Records(trace[1..][..n - 1], fetched + 1, cycle);
      if read + 1 == width then
        assert trace[..n][1..] == [];
        Fetched(de', trace[1..], fetched + 1, false)
      else
        FetchLoop(de', trace[1..], fetched + 1, read + 1, width, cycle)
  }

  /**
   * `FetchInstruction`: nothing while DE holds a bundle; otherwise up to
   * `width` records become instructions numbered from the running count and
   * enter DE. The end-of-file indicator is sticky and is set when fewer than
   * `width` records remained.
   */
  function Fetch(s: State): (r: State)
    ensures !IsEmpty(s.de) ==> r == s
    ensures IsEmpty(s.de) ==>
      var n := if s.width == 0 then |s.trace| else Min(|s.trace|, s.width);
      r == s.(de := PushAll(s.de, Records(s.trace[..n], s.fetched, s.cycle)),
              trace := s.trace[n..], fetched := s.fetched + n,
              eof := s.eof || s.width == 0 || |s.trace| < s.width)
  {
    if !IsEmpty(s.de) then s
    else
      var f := FetchLoop(s.de, s.trace, s.fetched, 0, s.width, s.cycle);
      s.(de := f.de, trace := f.trace, fetched := f.fetched, eof := s.eof || f.eof)
  }

  /** Records are numbered consecutively from `base`. */
  lemma RecordsSeqNums(trace: seq<TraceRecord>, base: nat, cycle: nat)
    ensures SeqNums(Records(trace, base, cycle)) == Range(base, base + |trace|)
  {
    var sn := SeqNums(Records(trace, base, cycle));
    assert forall k :: 0 <= k < |trace| ==> sn[k] == base + k;
  }

  /** On an empty DE with room for `width`, the pushes of a fetch all land. */
  lemma FetchFills(s: State)
    requires s.width >= 1 && s.de.size == s.width && s.de.queue == []
    ensures var n := Min(|s.trace|, s.width);
      && Fetch(s).de.queue == Records(s.trace[..n], s.fetched, s.cycle)
      && Fetch(s).trace == s.trace[n..]
      && Fetch(s).fetched == s.fetched + n
  {
    var n := Min(|s.trace|, s.width);
    PushAllEmpty(s.de, Records(s.trace[..n], s.fetched, s.cycle));
  }

  /**
   * On an empty DE of capacity `width`, Fetch fills DE with the next
   * `min(width, remaining)` records, numbered consecutively from the running
   * count, and consumes exactly those records.
   */
  lemma FetchBundle(s: State)
    requires s.width >= 1 && s.de.size == s.width && s.de.queue == []
    ensures var r, n := Fetch(s), Min(|s.trace|, s.width);
      && |r.de.queue| == n && n <= s.width
      && SeqNums(r.de.queue) == Range(s.fetched, s.fetched + n)
      && (forall k :: 0 <= k < n ==> r.de.queue[k] == FetchRecord(s.trace[k], s.fetched + k, s.cycle))
      && s.trace == s.trace[..n] + r.trace
      && r.fetched == s.fetched + n
  {
    FetchFills(s);
    RecordsPrefix(s.trace, Min(|s.trace|, s.width), s.fetched, s.cycle);
  }

  /** The records of the first `n` entries of a trace, numbered from `base`. */
  lemma RecordsPrefix(trace: seq<TraceRecord>, n: nat, base: nat, cycle: nat)
    requires n <= |trace|
    ensures var q := Records(trace[..n], base, cycle);
      && |q| == n
      && SeqNums(q) == Range(base, base + n)
      && (forall k :: 0 <= k < n ==> q[k] == FetchRecord(trace[k], base + k, cycle))
      && trace == trace[..n] + trace[n..]
  {
    RecordsSeqNums(trace[..n], base, cycle);
  }

  /*
   * Decode.
   */

  /** The stage move DE -> RN. */
  function DecodeStep(cycle: nat): Instruction -> Instruction
  {
    (i: Instruction) => MoveStage(i, DE, RN, cycle)
  }

  /**
   * `DecodeInstruction`: nothing when DE is empty or RN full; otherwise as
   * many instructions as RN has room for move from the head of DE to the
   * tail of RN, in order.
   */
  function Decode(s: State): (r: State)
    ensures IsEmpty(s.de) || IsFull(s.rn) ==> r == s
    ensures Bounded(s.rn) ==>
      var n := Min(|s.de.queue|, s.rn.size - |s.rn.queue|);
      r == s.(de := Table(s.de.queue[n..], s.de.size),
              rn := Table(s.rn.queue + MapSeq(DecodeStep(s.cycle), s.de.queue[..n]), s.rn.size))
  {
    if IsEmpty(s.de) || IsFull(s.rn) then s
    else
      var moved := Transfer(s.de, s.rn, DecodeStep(s.cycle));
      s.(de := moved.0, rn := moved.1)
  }

  /** Decode keeps RN followed by DE in the same program order. */
  lemma DecodeKeepsOrder(s: State)
    requires Bounded(s.rn)
    ensures var r := Decode(s);
      && SeqNums(r.rn.queue + r.de.queue) == SeqNums(s.rn.queue + s.de.queue)
      && Bounded(r.rn) && r.rn.size == s.rn.size && r.de.size == s.de.size
  {
    if !(IsEmpty(s.de) || IsFull(s.rn)) {
      TransferKeepsOrder(s.de, s.rn, DecodeStep(s.cycle));
    }
  }

  /** Each instruction Decode moves into RN is its DE self with DE closed and RN opened at the next cycle. */
  lemma DecodeMoves(s: State)
    requires Bounded(s.rn)
    ensures var r := Decode(s);
      forall k :: 0 <= k < |r.rn.queue| - |s.rn.queue| ==>
        var i, o := s.de.queue[k], r.rn.queue[|s.rn.queue| + k];
        o.(cycles := i.cycles) == i && BeginCycle(o, RN) == s.cycle + 1
        && EndCycle(o, DE) == s.cycle + 1 - BeginCycle(i, DE)
  {
    var r := Decode(s);
    var n := Min(|s.de.queue|, s.rn.size - |s.rn.queue|);
    var moved := MapSeq(DecodeStep(s.cycle), s.de.queue[..n]);
    assert r.rn.queue == s.rn.queue + moved;
    forall k | 0 <= k < |r.rn.queue| - |s.rn.queue|
      ensures r.rn.queue[|s.rn.queue| + k] == MoveStage(s.de.queue[k], DE, RN, s.cycle)
    {
      assert r.rn.queue[|s.rn.queue| + k] == moved[k];
    }
  }

  /*
   * Rename.
   */

  /**
   * `CheckIfSourceOperandsHasRMTValues` for one operand: an existing operand
   * whose register has a valid mapping becomes that mapping's tag, not yet
   * ready; any other operand is kept.
   */
  function ResolveSource(rmt: RM.Rmt, r: Register): (o: Register)
    requires RM.Valid(rmt)
    ensures r.exist && RM.InRange(r.value) && rmt.entries[r.value].valid ==>
      o == Register(rmt.entries[r.value].robIndex, true, true, false)
    ensures !(r.exist && RM.InRange(r.value) && rmt.entries[r.value].valid) ==> o == r
  {
    if r.exist then
      match RM.TryGetElement(rmt, r.value)
      case Some(e) => Register(e.robIndex, true, true, false)
      case None => r
    else r
  }

  datatype RenamedOne = RenamedOne(rmt: RM.Rmt, rob: RB.Rob, inst: Instruction)

  /**
   * How an RR instruction `o` relates to its RN self `i`: the sources are
   * `src1` and `src2` (as resolved against the map), the destination and
   * the instruction's own tag are `tag`, RN closes and RR opens at the
   * next cycle, and nothing else changes.
   */
  predicate RenamedFrom(i: Instruction, o: Instruction, tag: int, src1: Register, src2: Register, cycle: nat)
  {
    && o.src1 == src1 && o.src2 == src2
    && o.dest == Register(tag, true, true, i.dest.isReady)
    && o.robValue == tag
    && o.(src1 := i.src1, src2 := i.src2, dest := i.dest, robValue := i.robValue, cycles := i.cycles) == i
    && EndCycle(o, RN) == cycle + 1 - BeginCycle(i, RN) && BeginCycle(o, RR) == cycle + 1
  }

  /**
   * The body of the rename loop for one instruction: allocate its reorder
   * buffer entry (the buffer keeps the instruction as it is now, tagged),
   * resolve its sources against the map, then map its destination to the
   * tag, and finally make its destination the tag whether or not it had one.
   */
  function RenameOne(rmt: RM.Rmt, rob: RB.Rob, i: Instruction, cycle: nat): (r: RenamedOne)
    requires RM.Valid(rmt) && RB.Valid(rob) && DestMapped(i)
    ensures RM.Valid(r.rmt) && RB.Valid(r.rob)
    ensures r.rob == RB.Allocate(rob, i).rob
    ensures forall reg :: RM.InRange(reg) ==>
      r.rmt.entries[reg] == if Writes(i, reg) then RM.Entry(reg, RB.Allocate(rob, i).tag, true) else rmt.entries[reg]
    ensures RenamedFrom(i, r.inst, RB.Allocate(rob, i).tag, ResolveSource(rmt, i.src1), ResolveSource(rmt, i.src2), cycle)
    ensures r.inst.seqNum == i.seqNum
  {
    var a := RB.Allocate(rob, i);
    var inst := i.(robValue := a.tag);
    var inst := inst.(src1 := ResolveSource(rmt, inst.src1), src2 := ResolveSource(rmt, inst.src2));
    var rmt' := if inst.dest.exist then RM.AddElement(rmt, true, a.tag, inst.dest.value) else rmt;
    var inst := inst.(dest := inst.dest.(value := a.tag, exist := true, hasRobValue := true));
    var inst := MoveStage(inst, RN, RR, cycle);
    RenamedOne(rmt', a.rob, inst)
  }

  datatype Renamed = Renamed(rmt: RM.Rmt, rob: RB.Rob, rn: Table, rr: Table)

  /** The reorder buffer and RR have room for the whole RN bundle, as the stage's gate guarantees. */
  predicate Fits(rob: RB.Rob, rn: Table, rr: Table)
  {
    |RB.Entries(rob)| + |rn.queue| <= rob.queueSize && |rr.queue| + |rn.queue| <= rr.size
  }

  /**
   * The rename loop: while the reorder buffer is not full and RN is not
   * empty, rename RN's head, push it onto RR and pop it. When the bundle
   * fits, RN empties; the reorder buffer receives the bundle as fetched, in
   * order, with consecutive circular tags; every map entry ends as the tag
   * of the youngest bundle instruction writing that register, or as it
   * was; and the k-th new RR instruction is the k-th RN instruction renamed
   * with the k-th tag, its sources resolved against the map as it stood
   * just before it, so that a source written earlier in the same bundle
   * names its youngest earlier writer.
   */
  function RenameLoop(rmt: RM.Rmt, rob: RB.Rob, rn: Table, rr: Table, cycle: nat): (r: Renamed)
    requires RM.Valid(rmt) && RB.Valid(rob)
    requires forall k :: 0 <= k < |rn.queue| ==> DestMapped(rn.queue[k])
    decreases |rn.queue|
    ensures RM.Valid(r.rmt) && RB.Valid(r.rob)
    ensures r.rob.queueSize == rob.queueSize && r.rn.size == rn.size && r.rr.size == rr.size
    ensures Fits(rob, rn, rr) ==>
      && r.rn.queue == []
      && r.rob == RB.AllocateAll(rob, rn.queue).rob
      && |r.rr.queue| == |rr.queue| + |rn.queue| && r.rr.queue[..|rr.queue|] == rr.queue
    ensures Fits(rob, rn, rr) ==> forall reg :: RM.InRange(reg) ==>
      r.rmt.entries[reg] == MapAfter(rmt, rn.queue, RB.AllocateAll(rob, rn.queue).tags, reg, |rn.queue|)
    ensures Fits(rob, rn, rr) ==>
      AllRenamed(rmt, rn.queue, RB.AllocateAll(rob, rn.queue).tags, r.rr.queue, |rr.queue|, cycle)
  {
    if IsFull(rob.buffer) || IsEmpty(rn) then Renamed(rmt, rob, rn, rr)
    else
      var i := Front(rn);
      var one := RenameOne(rmt, rob, i, cycle);
      var rn1, rr1 := Pop(rn), Push(rr, one.inst);
      var r1 := RenameLoop(one.rmt, one.rob, rn1, rr1, cycle);
      MovesStep(rob, rn, rr, one, r1);
      MapStep(rmt, rob, rn, rr, one, r1);
      RenamedStep(rmt, rob, rn, rr, cycle, one, r1);
      r1
  }

  /**
   * `Rename`: nothing when RN is empty, RR is not, or the reorder buffer has
   * fewer free entries than RN holds instructions; otherwise the loop.
   */
  function Rename(s: State): (r: State)
    requires RM.Valid(s.rmt) && RB.Valid(s.rob)
    requires forall k :: 0 <= k < |s.rn.queue| ==> DestMapped(s.rn.queue[k])
    ensures IsEmpty(s.rn) || !IsEmpty(s.rr) || FreeEntries(s.rob.buffer) < GetSize(s.rn) ==> r == s
    ensures RM.Valid(r.rmt) && RB.Valid(r.rob) && r.rob.queueSize == s.rob.queueSize
    ensures r.rn.size == s.rn.size && r.rr.size == s.rr.size
    ensures r.(rmt := s.rmt, rob := s.rob, rn := s.rn, rr := s.rr) == s
  {
    if IsEmpty(s.rn) then s
    else if !IsEmpty(s.rr) || FreeEntries(s.rob.buffer) < GetSize(s.rn) then s
    else
      var l := RenameLoop(s.rmt, s.rob, s.rn, s.rr, s.cycle);
      s.(rmt := l.rmt, rob := l.rob, rn := l.rn, rr := l.rr)
  }

  /*
   * What a rename bundle computes, stated without the loop.
   */

  /** Whether instruction `i` (as fetched) writes architectural register `reg`. */
  predicate Writes(i: Instruction, reg: int)
  {
    i.dest.exist && i.dest.value == reg
  }

  /** The tag of the youngest of the first `k` bundle instructions that writes `reg`, if any. */
  function LastWriter(insts: seq<Instruction>, tags: seq<int>, reg: int, k: nat): (r: Option<int>)
    requires |tags| == |insts| && k <= |insts|
    ensures r.Some? <==> exists j :: 0 <= j < k && Writes(insts[j], reg)
    ensures r.Some? ==> exists j :: 0 <= j < k && Writes(insts[j], reg) && r.value == tags[j]
                          && forall j' :: j < j' < k ==> !Writes(insts[j'], reg)
  {
    if k == 0 then None
    else if Writes(insts[k - 1], reg) then Some(tags[k - 1])
    else LastWriter(insts, tags, reg, k - 1)
  }

  /** Map entry `reg` once the first `k` bundle instructions are renamed: the youngest writer's tag, else the entry before the bundle. */
  function MapAfter(rmt: RM.Rmt, insts: seq<Instruction>, tags: seq<int>, reg: int, k: nat): RM.Entry
    requires |tags| == |insts| && k <= |insts| && |rmt.entries| == RM.RMT_SIZE && RM.InRange(reg)
  {
    match LastWriter(insts, tags, reg, k)
    case Some(t) => RM.Entry(reg, t, true)
    case None => rmt.entries[reg]
  }

  /** A source operand as the k-th bundle instruction sees it: mapped to the youngest earlier producer, if any is mapped. */
  function SourceAfter(rmt: RM.Rmt, insts: seq<Instruction>, tags: seq<int>, k: nat, r: Register): Register
    requires |tags| == |insts| && k <= |insts| && |rmt.entries| == RM.RMT_SIZE
  {
    if r.exist && RM.InRange(r.value) && MapAfter(rmt, insts, tags, r.value, k).valid
    then Register(MapAfter(rmt, insts, tags, r.value, k).robIndex, true, true, false)
    else r
  }

  /** Dropping the first instruction: its write moves from the bundle into the map. */
  lemma {:induction false} LastWriterCons(insts: seq<Instruction>, tags: seq<int>, reg: int, k: nat)
    requires |tags| == |insts| && 1 <= k <= |insts|
    ensures LastWriter(insts, tags, reg, k) ==
      match LastWriter(insts[1..], tags[1..], reg, k - 1)
      case Some(t) => Some(t)
      case None => if Writes(insts[0], reg) then Some(tags[0]) else None
  {
    if k > 1 {
      assert insts[1..][k - 2] == insts[k - 1];
      LastWriterCons(insts, tags, reg, k - 1);
    }
  }

  /** The map after the first instruction, read through the rest of the bundle, is the map read through the whole bundle. */
  lemma MapAfterCons(rmt: RM.Rmt, rmt1: RM.Rmt, insts: seq<Instruction>, tags: seq<int>, reg: int, k: nat)
    requires |tags| == |insts| && 1 <= k <= |insts| && RM.InRange(reg)
    requires |rmt.entries| == RM.RMT_SIZE && |rmt1.entries| == RM.RMT_SIZE
    requires rmt1.entries[reg] == if Writes(insts[0], reg) then RM.Entry(reg, tags[0], true) else rmt.entries[reg]
    ensures MapAfter(rmt1, insts[1..], tags[1..], reg, k - 1) == MapAfter(rmt, insts, tags, reg, k)
  {
    LastWriterCons(insts, tags, reg, k);
  }

  /** The same for a source operand of the k-th instruction, k >= 1. */
  lemma SourceAfterCons(rmt: RM.Rmt, rmt1: RM.Rmt, insts: seq<Instruction>, tags: seq<int>, k: nat, r: Register)
    requires |tags| == |insts| && 1 <= k <= |insts|
    requires |rmt.entries| == RM.RMT_SIZE && |rmt1.entries| == RM.RMT_SIZE
    requires forall reg :: RM.InRange(reg) ==>
      rmt1.entries[reg] == if Writes(insts[0], reg) then RM.Entry(reg, tags[0], true) else rmt.entries[reg]
    ensures SourceAfter(rmt1, insts[1..], tags[1..], k - 1, r) == SourceAfter(rmt, insts, tags, k, r)
  {
    if r.exist && RM.InRange(r.value) {
      MapAfterCons(rmt, rmt1, insts, tags, r.value, k);
    }
  }

  /** Before any bundle instruction is renamed, a source resolves against the map as it stands. */
  lemma SourceAfterStart(rmt: RM.Rmt, insts: seq<Instruction>, tags: seq<int>, r: Register)
    requires |tags| == |insts| && RM.Valid(rmt)
    ensures SourceAfter(rmt, insts, tags, 0, r) == ResolveSource(rmt, r)
  {
  }

  /** One step of the map of `RenameLoop`: the first instruction's write, followed by the rest of the bundle. */
  lemma MapAfterStep(rmt: RM.Rmt, rmt1: RM.Rmt, final: RM.Rmt, insts: seq<Instruction>, tags: seq<int>,
                     rest: seq<Instruction>, tail: seq<int>, tag0: int)
    requires |insts| >= 1 && rest == insts[1..] && tags == [tag0] + tail && |tail| == |rest|
    requires |rmt.entries| == RM.RMT_SIZE && |rmt1.entries| == RM.RMT_SIZE && |final.entries| == RM.RMT_SIZE
    requires forall reg :: RM.InRange(reg) ==>
      rmt1.entries[reg] == if Writes(insts[0], reg) then RM.Entry(reg, tag0, true) else rmt.entries[reg]
    requires forall reg :: RM.InRange(reg) ==> final.entries[reg] == MapAfter(rmt1, rest, tail, reg, |rest|)
    ensures forall reg :: RM.InRange(reg) ==> final.entries[reg] == MapAfter(rmt, insts, tags, reg, |insts|)
  {
    assert tags[1..] == tail;
    forall reg | RM.InRange(reg)
      ensures final.entries[reg] == MapAfter(rmt, insts, tags, reg, |insts|)
    {
      MapAfterCons(rmt, rmt1, insts, tags, reg, |insts|);
    }
  }

  /**
   * The k-th instruction of `outs` from `base` on is the k-th of `insts`
   * renamed with the k-th tag, its sources resolved against the map as it
   * stood just before that instruction.
   */
  predicate AllRenamed(rmt: RM.Rmt, insts: seq<Instruction>, tags: seq<int>, outs: seq<Instruction>, base: nat, cycle: nat)
    requires |tags| == |insts| && |rmt.entries| == RM.RMT_SIZE
  {
    && |outs| == base + |insts|
    && forall k :: 0 <= k < |insts| ==>
         RenamedFrom(insts[k], outs[base + k], tags[k],
                     SourceAfter(rmt, insts, tags, k, insts[k].src1), SourceAfter(rmt, insts, tags, k, insts[k].src2), cycle)
  }

  /** One step of the outputs of `RenameLoop`: the first output, followed by the outputs of the rest of the bundle. */
  lemma OutputsStep(rmt: RM.Rmt, rmt1: RM.Rmt, insts: seq<Instruction>, tags: seq<int>,
                    rest: seq<Instruction>, tail: seq<int>, tag0: int,
                    outs: seq<Instruction>, base: nat, base1: nat, cycle: nat)
    requires |insts| >= 1 && rest == insts[1..] && tags == [tag0] + tail && |tail| == |rest|
    requires RM.Valid(rmt) && |rmt1.entries| == RM.RMT_SIZE
    requires forall reg :: RM.InRange(reg) ==>
      rmt1.entries[reg] == if Writes(insts[0], reg) then RM.Entry(reg, tag0, true) else rmt.entries[reg]
    requires base1 == base + 1 && AllRenamed(rmt1, rest, tail, outs, base1, cycle)
    requires RenamedFrom(insts[0], outs[base], tag0, ResolveSource(rmt, insts[0].src1), ResolveSource(rmt, insts[0].src2), cycle)
    ensures AllRenamed(rmt, insts, tags, outs, base, cycle)
  {
    assert tags[1..] == tail;
    forall k | 0 <= k < |insts|
      ensures RenamedFrom(insts[k], outs[base + k], tags[k],
                          SourceAfter(rmt, insts, tags, k, insts[k].src1), SourceAfter(rmt, insts, tags, k, insts[k].src2), cycle)
    {
      if k == 0 {
        SourceAfterStart(rmt, insts, tags, insts[0].src1);
        SourceAfterStart(rmt, insts, tags, insts[0].src2);
      } else {
        assert insts[k] == rest[k - 1] && base + k == base1 + (k - 1) && tags[k] == tail[k - 1];
        SourceAfterCons(rmt, rmt1, insts, tags, k, insts[k].src1);
        SourceAfterCons(rmt, rmt1, insts, tags, k, insts[k].src2);
      }
    }
  }

  /** Room for the whole bundle leaves room for the rest of it once the head is renamed. */
  lemma FitsStep(rob: RB.Rob, rn: Table, rr: Table, rob1: RB.Rob, inst: Instruction)
    requires RB.Valid(rob) && |rn.queue| > 0 && rob1 == RB.Allocate(rob, rn.queue[0]).rob
    ensures Fits(rob, rn, rr) ==> Fits(rob1, Pop(rn), Push(rr, inst))
  {
    if Fits(rob, rn, rr) {
      RB.AllocateAllCons(rob, rn.queue);
    }
  }

  /** The step of `RenameLoop` for the moves: the head's move, then the rest of the bundle's. */
  lemma MovesStep(rob: RB.Rob, rn: Table, rr: Table, one: RenamedOne, r1: Renamed)
    requires RB.Valid(rob) && |rn.queue| > 0 && one.rob == RB.Allocate(rob, rn.queue[0]).rob
    requires var rn1, rr1 := Pop(rn), Push(rr, one.inst);
      Fits(one.rob, rn1, rr1) ==>
        && r1.rn.queue == [] && r1.rob == RB.AllocateAll(one.rob, rn1.queue).rob
        && |r1.rr.queue| == |rr1.queue| + |rn1.queue| && r1.rr.queue[..|rr1.queue|] == rr1.queue
    ensures Fits(rob, rn, rr) ==>
      && r1.rn.queue == []
      && r1.rob == RB.AllocateAll(rob, rn.queue).rob
      && |r1.rr.queue| == |rr.queue| + |rn.queue| && r1.rr.queue[..|rr.queue|] == rr.queue
  {
    if Fits(rob, rn, rr) {
      FitsStep(rob, rn, rr, one.rob, one.inst);
      AllocateStep(rob, rn.queue, Pop(rn).queue, one.rob);
      QueueStep(rr.queue, Push(rr, one.inst).queue, one.inst, r1.rr.queue);
    }
  }

  /** The step of `RenameLoop` for the outputs. */
  lemma RenamedStep(rmt: RM.Rmt, rob: RB.Rob, rn: Table, rr: Table, cycle: nat, one: RenamedOne, r1: Renamed)
    requires RM.Valid(rmt) && RB.Valid(rob) && |rn.queue| > 0 && one.rob == RB.Allocate(rob, rn.queue[0]).rob
    requires |one.rmt.entries| == RM.RMT_SIZE
    requires forall reg :: RM.InRange(reg) ==>
      one.rmt.entries[reg] == if Writes(rn.queue[0], reg) then RM.Entry(reg, RB.Allocate(rob, rn.queue[0]).tag, true) else rmt.entries[reg]
    requires RenamedFrom(rn.queue[0], one.inst, RB.Allocate(rob, rn.queue[0]).tag,
                         ResolveSource(rmt, rn.queue[0].src1), ResolveSource(rmt, rn.queue[0].src2), cycle)
    requires var rn1, rr1 := Pop(rn), Push(rr, one.inst);
      Fits(one.rob, rn1, rr1) ==>
        && |r1.rr.queue| == |rr1.queue| + |rn1.queue| && r1.rr.queue[..|rr1.queue|] == rr1.queue
        && AllRenamed(one.rmt, rn1.queue, RB.AllocateAll(one.rob, rn1.queue).tags, r1.rr.queue, |rr1.queue|, cycle)
    ensures Fits(rob, rn, rr) ==>
      AllRenamed(rmt, rn.queue, RB.AllocateAll(rob, rn.queue).tags, r1.rr.queue, |rr.queue|, cycle)
  {
    if Fits(rob, rn, rr) {
      var rn1, rr1 := Pop(rn), Push(rr, one.inst);
      FitsStep(rob, rn, rr, one.rob, one.inst);
      RB.AllocateAllCons(rob, rn.queue);
      assert rn1.queue == rn.queue[1..];
      assert r1.rr.queue[|rr.queue|] == r1.rr.queue[..|rr1.queue|][|rr.queue|] == one.inst;
      OutputsStep(rmt, one.rmt, rn.queue, RB.AllocateAll(rob, rn.queue).tags,
                  rn1.queue, RB.AllocateAll(one.rob, rn1.queue).tags, RB.Allocate(rob, rn.queue[0]).tag,
                  r1.rr.queue, |rr.queue|, |rr1.queue|, cycle);
    }
  }

  /** Allocating the head, then the rest, is allocating the whole bundle. */
  lemma AllocateStep(rob: RB.Rob, insts: seq<Instruction>, rest: seq<Instruction>, rob1: RB.Rob)
    requires RB.Valid(rob) && |insts| > 0 && rest == insts[1..] && rob1 == RB.Allocate(rob, insts[0]).rob
    ensures RB.AllocateAll(rob1, rest).rob == RB.AllocateAll(rob, insts).rob
  {
    RB.AllocateAllCons(rob, insts);
  }

  /** A prefix of a prefix: outputs after `q + [x]` keep `q` in front. */
  lemma QueueStep(q: seq<Instruction>, q1: seq<Instruction>, x: Instruction, outs: seq<Instruction>)
    requires q1 == q + [x] && |q1| <= |outs| && outs[..|q1|] == q1
    ensures outs[..|q|] == q
  {
    assert outs[..|q|] == outs[..|q1|][..|q|];
  }

  /** The step of `RenameLoop` for the map. */
  lemma MapStep(rmt: RM.Rmt, rob: RB.Rob, rn: Table, rr: Table, one: RenamedOne, r1: Renamed)
    requires RB.Valid(rob) && |rn.queue| > 0 && one.rob == RB.Allocate(rob, rn.queue[0]).rob
    requires |rmt.entries| == RM.RMT_SIZE && |one.rmt.entries| == RM.RMT_SIZE && |r1.rmt.entries| == RM.RMT_SIZE
    requires forall reg :: RM.InRange(reg) ==>
      one.rmt.entries[reg] == if Writes(rn.queue[0], reg) then RM.Entry(reg, RB.Allocate(rob, rn.queue[0]).tag, true) else rmt.entries[reg]
    requires var rn1 := Pop(rn);
      Fits(one.rob, rn1, Push(rr, one.inst)) ==> forall reg :: RM.InRange(reg) ==>
        r1.rmt.entries[reg] == MapAfter(one.rmt, rn1.queue, RB.AllocateAll(one.rob, rn1.queue).tags, reg, |rn1.queue|)
    ensures Fits(rob, rn, rr) ==> forall reg :: RM.InRange(reg) ==>
      r1.rmt.entries[reg] == MapAfter(rmt, rn.queue, RB.AllocateAll(rob, rn.queue).tags, reg, |rn.queue|)
  {
    if Fits(rob, rn, rr) {
      var rn1 := Pop(rn);
      FitsStep(rob, rn, rr, one.rob, one.inst);
      assert rn1.queue == rn.queue[1..];
      RB.AllocateAllCons(rob, rn.queue);
      MapAfterStep(rmt, one.rmt, r1.rmt, rn.queue, RB.AllocateAll(rob, rn.queue).tags,
                   rn1.queue, RB.AllocateAll(one.rob, rn1.queue).tags, RB.Allocate(rob, rn.queue[0]).tag);
    }
  }

  /*
   * ReadRegister.
   */

  /**
   * `IsRegisterReady`: an operand is ready if its producer's entry is
   * ready, it does not exist, it is already flagged, it names an
   * architectural register, or its tag is no longer in the reorder buffer.
   */
  function IsRegisterReady(rob: RB.Rob, r: Register): (b: bool)
    ensures !b <==>
      (&& r.exist && !r.isReady
       && (|| (r.hasRobValue && RB.HasRobEntry(rob, r.value) && !RB.IsRobEntryReady(rob, r.value))
           || (!r.hasRobValue && r.value == -1)))
  {
    if (r.hasRobValue && RB.IsRobEntryReady(rob, r.value)) || !r.exist || r.isReady then true
    else if !r.hasRobValue && r.value != -1 then true
    else if r.hasRobValue && !RB.HasRobEntry(rob, r.value) then true
    else false
  }

  /** The stage move RR -> DI, refreshing both source ready flags first. */
  function ReadStep(rob: RB.Rob, cycle: nat): Instruction -> Instruction
  {
    (i: Instruction) => MoveStage(i.(src1 := i.src1.(isReady := IsRegisterReady(rob, i.src1)),
                      src2 := i.src2.(isReady := IsRegisterReady(rob, i.src2))), RR, DI, cycle)
  }

  /**
   * `ReadRegister`: nothing when RR is empty or DI full; otherwise as many
   * instructions as DI has room for move, in order, with their source ready
   * flags recomputed.
   */
  function ReadRegister(s: State): (r: State)
    ensures IsEmpty(s.rr) || IsFull(s.di) ==> r == s
    ensures Bounded(s.di) ==>
      var n := Min(|s.rr.queue|, s.di.size - |s.di.queue|);
      r == s.(rr := Table(s.rr.queue[n..], s.rr.size),
              di := Table(s.di.queue + MapSeq(ReadStep(s.rob, s.cycle), s.rr.queue[..n]), s.di.size))
  {
    if IsEmpty(s.rr) || IsFull(s.di) then s
    else
      var moved := Transfer(s.rr, s.di, ReadStep(s.rob, s.cycle));
      s.(rr := moved.0, di := moved.1)
  }

  /**
   * Each instruction ReadRegister moves into DI differs from its RR self
   * only in cycles and in its source ready flags, which now say whether
   * the operand is available (see `IsRegisterReady`).
   */
  lemma ReadRegisterReadiness(s: State)
    requires Bounded(s.di)
    ensures forall k :: 0 <= k < |ReadRegister(s).di.queue| - |s.di.queue| ==>
        var i, o := s.rr.queue[k], ReadRegister(s).di.queue[|s.di.queue| + k];
        && o.(src1 := i.src1, src2 := i.src2, cycles := i.cycles) == i
        && o.src1 == i.src1.(isReady := o.src1.isReady) && o.src2 == i.src2.(isReady := o.src2.isReady)
        && o.src1.isReady == IsRegisterReady(s.rob, i.src1)
        && o.src2.isReady == IsRegisterReady(s.rob, i.src2)
        && BeginCycle(o, DI) == s.cycle + 1
  {
    var n := Min(|s.rr.queue|, s.di.size - |s.di.queue|);
    var moved := MapSeq(ReadStep(s.rob, s.cycle), s.rr.queue[..n]);
    assert ReadRegister(s).di.queue == s.di.queue + moved;
    forall k | 0 <= k < |ReadRegister(s).di.queue| - |s.di.queue|
      ensures var i, o := s.rr.queue[k], ReadRegister(s).di.queue[|s.di.queue| + k];
        && o.(src1 := i.src1, src2 := i.src2, cycles := i.cycles) == i
        && o.src1 == i.src1.(isReady := o.src1.isReady) && o.src2 == i.src2.(isReady := o.src2.isReady)
        && o.src1.isReady == IsRegisterReady(s.rob, i.src1)
        && o.src2.isReady == IsRegisterReady(s.rob, i.src2)
        && BeginCycle(o, DI) == s.cycle + 1
    {
      assert ReadRegister(s).di.queue[|s.di.queue| + k] == moved[k];
      ReadOne(s.rob, s.cycle, s.rr.queue[k]);
    }
  }

  /** One instruction through `ReadStep`. */
  lemma ReadOne(rob: RB.Rob, cycle: nat, i: Instruction)
    ensures var o := ReadStep(rob, cycle)(i);
      && o.(src1 := i.src1, src2 := i.src2, cycles := i.cycles) == i
      && o.src1 == i.src1.(isReady := o.src1.isReady) && o.src2 == i.src2.(isReady := o.src2.isReady)
      && o.src1.isReady == IsRegisterReady(rob, i.src1)
      && o.src2.isReady == IsRegisterReady(rob, i.src2)
      && BeginCycle(o, DI) == cycle + 1
  {
  }
}
