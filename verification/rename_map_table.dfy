/**
 * The rename map table: one entry per architectural register, holding the
 * tag of the register's most recent in-flight producer and a valid bit.
 */
module RenameMapTables {
  import opened Wrappers

  /** The number of architectural registers the table covers. */
  const RMT_SIZE: nat := 67

  datatype Entry = Entry(registerIndex: int, robIndex: int, valid: bool)

  datatype Rmt = Rmt(entries: seq<Entry>)

  /** The table's invariant: 67 entries, and a valid entry sits at its own register's index. */
  ghost predicate Valid(m: Rmt)
  {
    && |m.entries| == RMT_SIZE
    && forall i :: 0 <= i < |m.entries| && m.entries[i].valid ==> m.entries[i].registerIndex == i
  }

  /** A register id the table can be indexed with (the source does not check the bounds). */
  predicate InRange(reg: int)
  {
    0 <= reg < RMT_SIZE
  }

  /**
   * The constructor: 67 invalid entries. The source leaves the index and
   * tag fields uninitialised; the model fills them with -1, and nothing
   * reads them while the entry is invalid.
   */
  function NewRmt(): (m: Rmt)
    ensures |m.entries| == RMT_SIZE
    ensures forall i :: 0 <= i < RMT_SIZE ==> !m.entries[i].valid
    ensures Valid(m) && IsEmpty(m)
  {
    Rmt(seq(RMT_SIZE, i => Entry(-1, -1, false)))
  }

  /**
   * `AddElement(isValid, robIndex, registerIndex)`: overwrites entry
   * `reg` only, so a later mapping of a register supersedes an earlier one.
   */
  function AddElement(m: Rmt, isValid: bool, robIndex: int, reg: int): (r: Rmt)
    requires |m.entries| == RMT_SIZE && InRange(reg)
    ensures |r.entries| == RMT_SIZE
    ensures r.entries[reg] == Entry(reg, robIndex, isValid)
    ensures forall i :: 0 <= i < RMT_SIZE && i != reg ==> r.entries[i] == m.entries[i]
    ensures Valid(m) ==> Valid(r)
  {
    Rmt(m.entries[reg := Entry(reg, robIndex, isValid)])
  }

  /** The second draft's `AddElement(robValue, registerIndex)`: always maps the register as valid. */
  function MapRegister(m: Rmt, robValue: int, reg: int): (r: Rmt)
    requires |m.entries| == RMT_SIZE && InRange(reg)
    ensures r == AddElement(m, true, robValue, reg)
    ensures r.entries[reg].valid && r.entries[reg].robIndex == robValue
  {
    Rmt(m.entries[reg := Entry(reg, robValue, true)])
  }

  /** Adding twice for the same register leaves only the second mapping. */
  lemma AddSupersedes(m: Rmt, v1: bool, t1: int, v2: bool, t2: int, reg: int)
    requires |m.entries| == RMT_SIZE && InRange(reg)
    ensures AddElement(AddElement(m, v1, t1, reg), v2, t2, reg) == AddElement(m, v2, t2, reg)
  {
  }

  /** `RemoveElement` (`RemoveElementAtIndex` in the second draft): clears the valid bit of entry `reg` only. */
  function RemoveElement(m: Rmt, reg: int): (r: Rmt)
    requires |m.entries| == RMT_SIZE && InRange(reg)
    ensures |r.entries| == RMT_SIZE
    ensures r.entries[reg] == m.entries[reg].(valid := false)
    ensures forall i :: 0 <= i < RMT_SIZE && i != reg ==> r.entries[i] == m.entries[i]
    ensures Valid(m) ==> Valid(r)
  {
    Rmt(m.entries[reg := m.entries[reg].(valid := false)])
  }

  /** The scan of `IsEmpty`: is any entry valid? */
  function AnyValid(es: seq<Entry>): (b: bool)
    ensures b <==> exists i :: 0 <= i < |es| && es[i].valid
  {
    if |es| == 0 then false
    else if es[0].valid then true
    else
      var b := AnyValid(es[1..]);
      assert forall i :: 1 <= i < |es| ==> es[i] == es[1..][i - 1];
      b
  }

  /** `IsEmpty`: no entry is valid. */
  predicate IsEmpty(m: Rmt)
  {
    !AnyValid(m.entries)
  }

  lemma IsEmptyMeaning(m: Rmt)
    ensures IsEmpty(m) <==> forall i :: 0 <= i < |m.entries| ==> !m.entries[i].valid
  {
  }

  /** The scan of `TryGetElement`: the first index whose entry is valid and names `reg`. */
  function FindRegister(es: seq<Entry>, reg: int, from: nat): (r: Option<nat>)
    requires from <= |es|
    decreases |es| - from
    ensures r.Some? ==> from <= r.value < |es| && es[r.value].valid && es[r.value].registerIndex == reg
    ensures r.None? ==> forall i :: from <= i < |es| ==> !(es[i].valid && es[i].registerIndex == reg)
  {
    if from == |es| then None
    else if es[from].valid && es[from].registerIndex == reg then Some(from)
    else FindRegister(es, reg, from + 1)
  }

  /**
   * `TryGetElement`: returns false on an empty table; otherwise scans for a
   * valid entry naming `reg` and, when one is found, yields the entry at
   * index `reg`. Under the invariant that is exactly "entry `reg` is
   * valid", and an out-of-range register is never found.
   */
  function TryGetElement(m: Rmt, reg: int): (r: Option<Entry>)
    requires Valid(m)
    ensures r.Some? <==> InRange(reg) && m.entries[reg].valid
    ensures r.Some? ==> r.value == m.entries[reg]
  {
    if IsEmpty(m) then None
    else
      match FindRegister(m.entries, reg, 0)
      case Some(i) => assert i == reg; Some(m.entries[reg])
      case None => None
  }

  /** A mapping just added is found, and a register just removed is not. */
  lemma TryGetAfterUpdate(m: Rmt, robIndex: int, reg: int, other: int)
    requires Valid(m) && InRange(reg)
    ensures TryGetElement(AddElement(m, true, robIndex, reg), reg) == Some(Entry(reg, robIndex, true))
    ensures TryGetElement(RemoveElement(m, reg), reg).None?
    ensures other != reg ==>
      TryGetElement(AddElement(m, true, robIndex, reg), other) == TryGetElement(m, other) &&
      TryGetElement(RemoveElement(m, reg), other) == TryGetElement(m, other)
  {
  }
}
