/**
 * The instruction record that travels through the pipeline latches: the
 * trace fields, three operand descriptors, the scheduling metadata and one
 * cycle record per pipeline stage.
 */
module Instructions {
  import opened Wrappers

  /** 2^64, the modulus of the source's `unsigned long` and `uint64_t` arithmetic. */
  const WORD: int := 0x1_0000_0000_0000_0000

  /** Largest value of the source's 32-bit `int`. */
  const INT_MAX: int := 0x7fff_ffff

  /** What an `unsigned long` holds after `-1` has been assigned to it. */
  const UNSIGNED_MINUS_ONE: nat := WORD - 1

  /** The value a 32-bit `int` takes when it is converted to `unsigned long`. */
  function AsUnsigned(x: int): (r: nat)
    requires -INT_MAX - 1 <= x <= INT_MAX
    ensures r < WORD
    ensures (r - x) % WORD == 0
    ensures x >= 0 ==> r == x
  {
    if x < 0 then x + WORD else x
  }

  /** The nine pipeline stages, in pipeline order. */
  datatype Stage = FE | DE | RN | RR | DI | IS | EX | WB | RT

  const ALL_STAGES: set<Stage> := {FE, DE, RN, RR, DI, IS, EX, WB, RT}

  /**
   * One stage's cycle record. `begin` is the cycle the stage was entered.
   * Although the source calls the second field the end cycle, every stage
   * move stores the number of cycles spent in the stage there.
   */
  datatype CycleInfo = CycleInfo(begin: int, end: int)

  /**
   * An operand descriptor. `value` is an architectural register id (-1 when
   * the trace field is absent) until rename sets `hasRobValue`, after which
   * it is a reorder-buffer tag.
   */
  datatype Register = Register(value: int, hasRobValue: bool, exist: bool, isReady: bool)

  /** A default-constructed operand; the source leaves `Value` and `HasRobValue` uninitialised and the model fixes them to -1 and false. */
  const NO_REGISTER: Register := Register(-1, false, false, false)

  datatype Instruction = Instruction(
    pc: nat,
    opType: int,
    dest: Register,
    src1: Register,
    src2: Register,
    validInIQ: bool,
    robValue: int,
    seqNum: nat,
    latency: int,
    cycles: map<Stage, CycleInfo>)

  /**
   * A default-constructed instruction, as found in a fresh issue-queue slot:
   * the unsigned sequence number holds -1, the tag (uninitialised in the
   * source) is fixed to -1, and no stage has a cycle record yet.
   */
  const BLANK: Instruction :=
    Instruction(0, -1, NO_REGISTER, NO_REGISTER, NO_REGISTER, false, -1, UNSIGNED_MINUS_ONE, -1, map[])

  /** The operand fetch builds from one trace field. */
  function FromTrace(id: int): Register
  {
    Register(id, false, id != -1, false)
  }

  /** Reading a stage's begin cycle; a missing map key reads as 0, as `std::map::operator[]` does. */
  function BeginCycle(i: Instruction, s: Stage): int
  {
    if s in i.cycles then i.cycles[s].begin else 0
  }

  function EndCycle(i: Instruction, s: Stage): int
  {
    if s in i.cycles then i.cycles[s].end else 0
  }

  /** The constructor: FE opens at `initialCycle`, every other field of every stage holds -1. */
  function NewInstruction(pc: nat, opType: int, dest: Register, src1: Register, src2: Register,
                          seqNum: nat, initialCycle: int): (r: Instruction)
    ensures r.cycles.Keys == ALL_STAGES
    ensures BeginCycle(r, FE) == initialCycle && EndCycle(r, FE) == -1
    ensures forall s: Stage :: s != FE ==> BeginCycle(r, s) == -1 && EndCycle(r, s) == -1
    ensures r.pc == pc && r.opType == opType && r.seqNum == seqNum
    ensures r.dest == dest && r.src1 == src1 && r.src2 == src2
    ensures !r.validInIQ && r.latency == -1
  {
    var cycles := map s: Stage | s in ALL_STAGES :: if s == FE then CycleInfo(initialCycle, -1) else CycleInfo(-1, -1);
    Instruction(pc, opType, dest, src1, src2, false, -1, seqNum, -1, cycles)
  }

  /** `SetBeginCycleForRegister`: changes the begin field of stage `s` and nothing else. */
  function SetBegin(i: Instruction, s: Stage, v: int): (r: Instruction)
    ensures BeginCycle(r, s) == v && EndCycle(r, s) == EndCycle(i, s)
    ensures forall t: Stage :: t != s ==> BeginCycle(r, t) == BeginCycle(i, t) && EndCycle(r, t) == EndCycle(i, t)
    ensures r.cycles.Keys == i.cycles.Keys + {s}
    ensures r.(cycles := i.cycles) == i
  {
    i.(cycles := i.cycles[s := CycleInfo(v, EndCycle(i, s))])
  }

  /** `SetEndCycleForRegister`: changes the second field of stage `s` and nothing else. */
  function SetEnd(i: Instruction, s: Stage, v: int): (r: Instruction)
    ensures EndCycle(r, s) == v && BeginCycle(r, s) == BeginCycle(i, s)
    ensures forall t: Stage :: t != s ==> BeginCycle(r, t) == BeginCycle(i, t) && EndCycle(r, t) == EndCycle(i, t)
    ensures r.cycles.Keys == i.cycles.Keys + {s}
    ensures r.(cycles := i.cycles) == i
  {
    i.(cycles := i.cycles[s := CycleInfo(BeginCycle(i, s), v)])
  }

  /** A later Set of the same field overrides an earlier one, and Sets of different stages commute. */
  lemma SetOverrides(i: Instruction, s: Stage, t: Stage, v: int, w: int)
    ensures SetBegin(SetBegin(i, s, v), s, w) == SetBegin(i, s, w)
    ensures SetEnd(SetEnd(i, s, v), s, w) == SetEnd(i, s, w)
    ensures s != t ==> SetBegin(SetEnd(i, s, v), t, w) == SetEnd(SetBegin(i, t, w), s, v)
  {
  }

  /**
   * Moving an instruction from stage `from` to stage `to` during cycle `cur`:
   * `from`'s second field becomes the time spent there, `cur + 1 - begin`,
   * and `to` opens at `cur + 1`, so the next stage begins exactly where the
   * previous one's duration ends.
   */
  function MoveStage(i: Instruction, from: Stage, to: Stage, cur: int): (r: Instruction)
    requires from != to
    ensures EndCycle(r, from) == cur + 1 - BeginCycle(i, from)
    ensures BeginCycle(r, to) == cur + 1
    ensures BeginCycle(r, to) == BeginCycle(r, from) + EndCycle(r, from)
    ensures BeginCycle(r, from) == BeginCycle(i, from) && EndCycle(r, to) == EndCycle(i, to)
    ensures forall t: Stage :: t != from && t != to ==> BeginCycle(r, t) == BeginCycle(i, t) && EndCycle(r, t) == EndCycle(i, t)
    ensures r.(cycles := i.cycles) == i
  {
    SetBegin(SetEnd(i, from, cur + 1 - BeginCycle(i, from)), to, cur + 1)
  }

  /** `TryGetDestinationRegisterRobValue`: the destination's tag, when it holds one. */
  function TryGetDestinationRobValue(i: Instruction): (r: Option<int>)
    ensures r.Some? <==> i.dest.hasRobValue
    ensures r.Some? ==> r.value == i.dest.value
  {
    if i.dest.hasRobValue then Some(i.dest.value) else None
  }

  /** The sequence numbers of a list of instructions, in list order. */
  function SeqNums(q: seq<Instruction>): (r: seq<nat>)
    ensures |r| == |q|
    ensures forall k :: 0 <= k < |q| ==> r[k] == q[k].seqNum
  {
    seq(|q|, k requires 0 <= k < |q| => q[k].seqNum)
  }

  lemma SeqNumsAppend(a: seq<Instruction>, b: seq<Instruction>)
    ensures SeqNums(a + b) == SeqNums(a) + SeqNums(b)
  {
  }
}
