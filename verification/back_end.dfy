/**
 * The back half of the pipeline: Dispatch, Issue, Execute, Writeback and
 * Retire, each a function from the scheduler state to the next.
 */
module BackEnd {
  import opened Wrappers
  import opened Instructions
  import opened StageBuffers
  import opened Pipeline
  import opened Ordering
  import IQ = IssueQueues
  import RB = ReorderBuffers
  import RM = RenameMapTables

  /*
   * Dispatch.
   */

  /** An instruction entering the issue queue: DI closes, IS opens, and the slot becomes valid. */
  function Place(i: Instruction, cycle: nat): (o: Instruction)
    ensures o.validInIQ && o.seqNum == i.seqNum
    ensures o.(validInIQ := i.validInIQ, cycles := i.cycles) == i
    ensures EndCycle(o, DI) == cycle + 1 - BeginCycle(i, DI) && BeginCycle(o, IS) == cycle + 1
  {
    MoveStage(i, DI, IS, cycle).(validInIQ := true)
  }

  datatype Filled = Filled(slots: seq<Instruction>, rest: seq<Instruction>)

  /**
   * The dispatch scan: every invalid slot, in index order, takes the head of
   * the bundle while the bundle lasts. The free slot with `j` free slots
   * before it receives the j-th bundle instruction; valid slots, and free
   * slots beyond the bundle, are untouched; the bundle's unplaced tail is
   * what is left.
   */
  function Fill(slots: seq<Instruction>, bundle: seq<Instruction>, cycle: nat): (r: Filled)
    decreases |slots|
    ensures |r.slots| == |slots|
    ensures forall k :: 0 <= k < |slots| ==>
      r.slots[k] == if !slots[k].validInIQ && IQ.CountFree(slots[..k]) < |bundle|
                    then Place(bundle[IQ.CountFree(slots[..k])], cycle) else slots[k]
    ensures r.rest == bundle[Min(|bundle|, IQ.CountFree(slots))..]
    ensures IQ.CountFree(r.slots) == IQ.CountFree(slots) - Min(|bundle|, IQ.CountFree(slots))
  {
    if |slots| == 0 then Filled([], bundle)
    else
      var x := slots[0];
      var take := !x.validInIQ && |bundle| > 0;
      var f := Fill(slots[1..], if take then bundle[1..] else bundle, cycle);
      var rs := [if take then Place(bundle[0], cycle) else x] + f.slots;
      FillSlots(slots, bundle, if take then bundle[1..] else bundle, take, f.slots, rs, cycle);
      FillCounts(slots, bundle, if take then bundle[1..] else bundle, take, f.slots, f.rest, rs, cycle);
      Filled(rs, f.rest)
  }

  /** The free count of a prefix, read from the front. */
  lemma CountFreePrefixCons(slots: seq<Instruction>, k: nat)
    requires 0 < k <= |slots|
    ensures IQ.CountFree(slots[..k]) == (if slots[0].validInIQ then 0 else 1) + IQ.CountFree(slots[1..][..k - 1])
  {
    assert slots[..k] == [slots[0]] + slots[1..][..k - 1];
    IQ.CountFreeCons(slots[0], slots[1..][..k - 1]);
  }

  /** One later slot of the scan: its place in the remaining bundle is its place in the whole bundle, shifted by the first slot. */
  lemma FillAt(x: Instruction, bundle: seq<Instruction>, b: seq<Instruction>, take: bool,
               cf1: nat, cf: nat, sk: Instruction, out: Instruction, cycle: nat)
    requires take == (!x.validInIQ && |bundle| > 0) && b == if take then bundle[1..] else bundle
    requires cf == (if x.validInIQ then 0 else 1) + cf1
    requires out == if !sk.validInIQ && cf1 < |b| then Place(b[cf1], cycle) else sk
    ensures out == if !sk.validInIQ && cf < |bundle| then Place(bundle[cf], cycle) else sk
  {
  }

  /** The slot-by-slot result of `Fill`, from that of the scan of the remaining slots. */
  lemma FillSlots(slots: seq<Instruction>, bundle: seq<Instruction>, b: seq<Instruction>, take: bool,
                  fs: seq<Instruction>, rs: seq<Instruction>, cycle: nat)
    requires |slots| > 0 && take == (!slots[0].validInIQ && |bundle| > 0) && b == if take then bundle[1..] else bundle
    requires |fs| == |slots| - 1
    requires forall k :: 0 <= k < |slots| - 1 ==>
      fs[k] == if !slots[1..][k].validInIQ && IQ.CountFree(slots[1..][..k]) < |b|
               then Place(b[IQ.CountFree(slots[1..][..k])], cycle) else slots[1..][k]
    requires rs == [if take then Place(bundle[0], cycle) else slots[0]] + fs
    ensures forall k :: 0 <= k < |slots| ==>
      rs[k] == if !slots[k].validInIQ && IQ.CountFree(slots[..k]) < |bundle|
               then Place(bundle[IQ.CountFree(slots[..k])], cycle) else slots[k]
  {
    forall k | 0 <= k < |slots|
      ensures rs[k] == if !slots[k].validInIQ && IQ.CountFree(slots[..k]) < |bundle|
                       then Place(bundle[IQ.CountFree(slots[..k])], cycle) else slots[k]
    {
      if k == 0 {
        assert slots[..0] == [];
      } else {
        CountFreePrefixCons(slots, k);
        assert rs[k] == fs[k - 1] && slots[1..][k - 1] == slots[k];
        FillAt(slots[0], bundle, b, take, IQ.CountFree(slots[1..][..k - 1]), IQ.CountFree(slots[..k]),
               slots[k], fs[k - 1], cycle);
      }
    }
  }

  /** The unplaced tail and the free count after `Fill`, from those of the scan of the remaining slots. */
  lemma FillCounts(slots: seq<Instruction>, bundle: seq<Instruction>, b: seq<Instruction>, take: bool,
                   fs: seq<Instruction>, rest: seq<Instruction>, rs: seq<Instruction>, cycle: nat)
    requires |slots| > 0 && take == (!slots[0].validInIQ && |bundle| > 0) && b == if take then bundle[1..] else bundle
    requires rest == b[Min(|b|, IQ.CountFree(slots[1..]))..]
    requires IQ.CountFree(fs) == IQ.CountFree(slots[1..]) - Min(|b|, IQ.CountFree(slots[1..]))
    requires rs == [if take then Place(bundle[0], cycle) else slots[0]] + fs
    ensures rest == bundle[Min(|bundle|, IQ.CountFree(slots))..]
    ensures IQ.CountFree(rs) == IQ.CountFree(slots) - Min(|bundle|, IQ.CountFree(slots))
  {
    IQ.CountFreeCons(slots[0], slots[1..]);
    assert slots == [slots[0]] + slots[1..];
    IQ.CountFreeCons(rs[0], fs);
    assert rs == [rs[0]] + fs;
  }

  /**
   * `DispatchInstruction`: nothing when DI is empty or the issue queue has
   * fewer free slots than DI holds; otherwise the whole bundle is placed
   * into free slots in order and DI empties.
   */
  function Dispatch(s: State): (r: State)
    ensures IsEmpty(s.di) || IQ.FreeEntries(s.iq) < GetSize(s.di) ==> r == s
    ensures !(IsEmpty(s.di) || IQ.FreeEntries(s.iq) < GetSize(s.di)) ==>
      && r.di == Table([], s.di.size)
      && IQ.FreeEntries(r.iq) == IQ.FreeEntries(s.iq) - |s.di.queue|
      && |r.iq.slots| == |s.iq.slots|
      && forall k :: 0 <= k < |s.iq.slots| ==>
           r.iq.slots[k] == if !s.iq.slots[k].validInIQ && IQ.CountFree(s.iq.slots[..k]) < |s.di.queue|
                            then Place(s.di.queue[IQ.CountFree(s.iq.slots[..k])], s.cycle) else s.iq.slots[k]
    ensures r == s.(iq := r.iq, di := r.di)
  {
    if IsEmpty(s.di) || IQ.FreeEntries(s.iq) < GetSize(s.di) then s
    else
      var f := Fill(s.iq.slots, s.di.queue, s.cycle);
      s.(iq := IQ.IssueQueue(f.slots), di := Table(f.rest, s.di.size))
  }

  /*
   * Issue.
   */

  /** A slot that may issue: it holds a valid instruction whose two sources are ready. */
  predicate Issuable(i: Instruction)
  {
    i.validInIQ && i.src1.isReady && i.src2.isReady
  }

  /** The issuable slots, in slot order. */
  function ReadySlots(q: seq<Instruction>): (r: seq<Instruction>)
    ensures |r| <= |q|
    ensures forall k :: 0 <= k < |r| ==> Issuable(r[k])
  {
    if |q| == 0 then [] else (if Issuable(q[0]) then [q[0]] else []) + ReadySlots(q[1..])
  }

  /** The issuable slots of a prefix, read from the front. */
  lemma ReadySlotsPrefixCons(q: seq<Instruction>, k: nat)
    requires 0 < k <= |q|
    ensures ReadySlots(q[..k]) == (if Issuable(q[0]) then [q[0]] else []) + ReadySlots(q[1..][..k - 1])
  {
    assert q[..k][1..] == q[1..][..k - 1];
  }

  /** Growing the prefix by one slot adds that slot if it is issuable. */
  lemma {:induction false} ReadySlotsSnoc(q: seq<Instruction>, x: Instruction)
    ensures ReadySlots(q + [x]) == ReadySlots(q) + (if Issuable(x) then [x] else [])
  {
    if |q| > 0 {
      assert (q + [x])[1..] == q[1..] + [x];
      ReadySlotsSnoc(q[1..], x);
    } else {
      assert [] + [x] == [x];
    }
  }

  /** The issuable count of a prefix never shrinks as the prefix grows. */
  lemma {:induction false} ReadyCountMono(q: seq<Instruction>, j: nat, k: nat)
    requires j <= k <= |q|
    ensures |ReadySlots(q[..j])| <= |ReadySlots(q[..k])|
    decreases k - j
  {
    if j < k {
      ReadyCountMono(q, j, k - 1);
      assert q[..k] == q[..k - 1] + [q[k - 1]];
      ReadySlotsSnoc(q[..k - 1], q[k - 1]);
    }
  }

  /** The t-th issuable slot sits at an index with exactly t issuable slots before it. */
  lemma {:induction false} ReadySlotIndex(q: seq<Instruction>, t: nat)
    requires t < |ReadySlots(q)|
    ensures exists j :: 0 <= j < |q| && q[j] == ReadySlots(q)[t] && Issuable(q[j]) && |ReadySlots(q[..j])| == t
  {
    if Issuable(q[0]) && t == 0 {
      assert q[..0] == [];
    } else {
      var t1 := if Issuable(q[0]) then t - 1 else t;
      assert ReadySlots(q)[t] == ReadySlots(q[1..])[t1];
      ReadySlotIndex(q[1..], t1);
      var j1 :| 0 <= j1 < |q[1..]| && q[1..][j1] == ReadySlots(q[1..])[t1] && Issuable(q[1..][j1])
                && |ReadySlots(q[1..][..j1])| == t1;
      ReadySlotsPrefixCons(q, j1 + 1);
      assert q[j1 + 1] == q[1..][j1];
    }
  }

  /** The op-class latencies of the simulator: 1 cycle for class 0, 2 for class 1, 5 for class 2. */
  const LATENCIES: map<int, int> := map[0 := 1, 1 := 2, 2 := 5]

  /**
   * `opTypeByLatency[opType]` on the by-value copy of the table: a class the
   * table lacks reads as 0 (the insertion is lost with the copy).
   */
  function LatencyOf(lat: map<int, int>, op: int): int
  {
    if op in lat then lat[op] else 0
  }

  /** The issue copy of a slot: IS closes, EX opens, and the latency timer is set from the op class. */
  function ExecCopy(i: Instruction, cycle: nat, lat: map<int, int>): (o: Instruction)
    ensures o.(latency := i.latency, cycles := i.cycles) == i && o.latency == LatencyOf(lat, i.opType)
    ensures EndCycle(o, IS) == cycle + 1 - BeginCycle(i, IS) && BeginCycle(o, EX) == cycle + 1
  {
    MoveStage(i, IS, EX, cycle).(latency := LatencyOf(lat, i.opType))
  }

  /** The issue copies of a list of slots, in order. */
  function ExecCopies(q: seq<Instruction>, cycle: nat, lat: map<int, int>): (r: seq<Instruction>)
    ensures |r| == |q| && forall k :: 0 <= k < |q| ==> r[k] == ExecCopy(q[k], cycle, lat)
  {
    seq(|q|, k requires 0 <= k < |q| => ExecCopy(q[k], cycle, lat))
  }

  datatype Selected = Selected(slots: seq<Instruction>, issued: seq<Instruction>)

  /**
   * The issue scan over the (sorted) slots: stop once `budget` are issued,
   * skip slots that are not issuable, and issue the others, invalidating
   * the slot in place. Exactly the first `budget` issuable slots issue, in
   * slot order.
   */
  function Select(slots: seq<Instruction>, budget: nat, cycle: nat, lat: map<int, int>): (r: Selected)
    decreases |slots|
    ensures |r.slots| == |slots| && |r.issued| <= budget
    ensures forall k :: 0 <= k < |slots| ==>
      r.slots[k] == if Issuable(slots[k]) && |ReadySlots(slots[..k])| < budget
                    then slots[k].(validInIQ := false) else slots[k]
    ensures r.issued == ExecCopies(ReadySlots(slots)[..Min(budget, |ReadySlots(slots)|)], cycle, lat)
  {
    if |slots| == 0 || budget == 0 then
      Selected(slots, [])
    else
      var x := slots[0];
      var b1 := if Issuable(x) then budget - 1 else budget;
      var f := Select(slots[1..], b1, cycle, lat);
      var rs := [if Issuable(x) then x.(validInIQ := false) else x] + f.slots;
      var ri := (if Issuable(x) then [ExecCopy(x, cycle, lat)] else []) + f.issued;
      SelectSlots(slots, budget, b1, f.slots, rs);
      SelectIssued(slots, budget, b1, f.issued, ri, cycle, lat);
      Selected(rs, ri)
  }

  /** The slot-by-slot result of `Select`, from that of the scan of the remaining slots. */
  lemma SelectSlots(slots: seq<Instruction>, budget: nat, b1: nat, fs: seq<Instruction>, rs: seq<Instruction>)
    requires |slots| > 0 && budget > 0 && b1 == if Issuable(slots[0]) then budget - 1 else budget
    requires |fs| == |slots| - 1
    requires forall k :: 0 <= k < |slots| - 1 ==>
      fs[k] == if Issuable(slots[1..][k]) && |ReadySlots(slots[1..][..k])| < b1
               then slots[1..][k].(validInIQ := false) else slots[1..][k]
    requires rs == [if Issuable(slots[0]) then slots[0].(validInIQ := false) else slots[0]] + fs
    ensures forall k :: 0 <= k < |slots| ==>
      rs[k] == if Issuable(slots[k]) && |ReadySlots(slots[..k])| < budget
               then slots[k].(validInIQ := false) else slots[k]
  {
    forall k | 0 <= k < |slots|
      ensures rs[k] == if Issuable(slots[k]) && |ReadySlots(slots[..k])| < budget
                       then slots[k].(validInIQ := false) else slots[k]
    {
      if k == 0 {
        assert slots[..0] == [];
      } else {
        ReadySlotsPrefixCons(slots, k);
        assert rs[k] == fs[k - 1] && slots[1..][k - 1] == slots[k];
      }
    }
  }

  /** The issued list of `Select`, from that of the scan of the remaining slots. */
  lemma SelectIssued(slots: seq<Instruction>, budget: nat, b1: nat, fi: seq<Instruction>, ri: seq<Instruction>,
                     cycle: nat, lat: map<int, int>)
    requires |slots| > 0 && budget > 0 && b1 == if Issuable(slots[0]) then budget - 1 else budget
    requires fi == ExecCopies(ReadySlots(slots[1..])[..Min(b1, |ReadySlots(slots[1..])|)], cycle, lat)
    requires ri == (if Issuable(slots[0]) then [ExecCopy(slots[0], cycle, lat)] else []) + fi
    ensures ri == ExecCopies(ReadySlots(slots)[..Min(budget, |ReadySlots(slots)|)], cycle, lat)
  {
    var rest := ReadySlots(slots[1..]);
    if Issuable(slots[0]) {
      var taken := rest[..Min(b1, |rest|)];
      assert ReadySlots(slots) == [slots[0]] + rest;
      assert ReadySlots(slots)[..Min(budget, |ReadySlots(slots)|)] == [slots[0]] + taken;
      ExecCopiesCons(slots[0], taken, cycle, lat);
    } else {
      assert ReadySlots(slots) == rest;
    }
  }

  lemma ExecCopiesCons(x: Instruction, q: seq<Instruction>, cycle: nat, lat: map<int, int>)
    ensures ExecCopies([x] + q, cycle, lat) == [ExecCopy(x, cycle, lat)] + ExecCopies(q, cycle, lat)
  {
    var a, b := ExecCopies([x] + q, cycle, lat), [ExecCopy(x, cycle, lat)] + ExecCopies(q, cycle, lat);
    forall k | 0 <= k < |a|
      ensures a[k] == b[k]
    {
      if k > 0 {
        assert ([x] + q)[k] == q[k - 1];
      }
    }
  }

  /** When no slot holds a valid instruction, the scan changes nothing and issues nothing. */
  lemma SelectNone(slots: seq<Instruction>, budget: nat, cycle: nat, lat: map<int, int>)
    requires forall k :: 0 <= k < |slots| ==> !slots[k].validInIQ
    ensures Select(slots, budget, cycle, lat) == Selected(slots, [])
  {
    var r := Select(slots, budget, cycle, lat);
    NoneReady(slots);
    assert r.slots == slots;
  }

  lemma {:induction false} NoneReady(q: seq<Instruction>)
    requires forall k :: 0 <= k < |q| ==> !q[k].validInIQ
    ensures ReadySlots(q) == []
  {
    if |q| > 0 {
      NoneReady(q[1..]);
    }
  }

  /**
   * `IssueInstruction`: the slots are sorted by sequence number (in place,
   * even when nothing issues), then the scan issues the oldest issuable
   * instructions onto the execute list: at most `width` of them, in
   * ascending sequence-number order, each at least as old as every
   * issuable instruction left behind, and one is left behind only when
   * `width` issued. Nothing but the issue queue and the execute list
   * changes. The early return on an empty issue queue gives the same
   * result as the scan would.
   */
  function Issue(s: State, lat: map<int, int>): (r: State)
    ensures var sel := Select(SortBySeq(s.iq.slots), s.width, s.cycle, lat);
      r.iq.slots == sel.slots && r.ex == PushAll(s.ex, sel.issued)
    ensures r.(iq := s.iq, ex := s.ex) == s
    ensures var sel := Select(SortBySeq(s.iq.slots), s.width, s.cycle, lat);
      && |sel.issued| <= s.width
      && SortedBySeq(sel.issued)
      && (forall t, k :: 0 <= t < |sel.issued| && 0 <= k < |sel.slots| && Issuable(sel.slots[k]) ==>
            sel.issued[t].seqNum <= sel.slots[k].seqNum)
      && ((exists k :: 0 <= k < |sel.slots| && Issuable(sel.slots[k])) ==> |sel.issued| == s.width)
  {
    var sorted := SortBySeq(s.iq.slots);
    SelectOldestFirst(sorted, s.width, s.cycle, lat);
    SelectFullBudget(sorted, s.width, s.cycle, lat);
    SelectSorted(sorted, s.width, s.cycle, lat);
    if IQ.IsEmpty(IQ.IssueQueue(sorted)) then
      SelectNone(sorted, s.width, s.cycle, lat);
      assert PushAll(s.ex, []) == s.ex;
      s.(iq := IQ.IssueQueue(sorted))
    else
      var sel := Select(sorted, s.width, s.cycle, lat);
      s.(iq := IQ.IssueQueue(sel.slots), ex := PushAll(s.ex, sel.issued))
  }

  /** Over sorted slots, the issuable ones are sorted too. */
  lemma {:induction false} ReadySlotsSorted(q: seq<Instruction>)
    requires SortedBySeq(q)
    ensures SortedBySeq(ReadySlots(q))
    ensures forall k :: 0 <= k < |ReadySlots(q)| ==> ReadySlots(q)[k] in q
  {
    if |q| > 0 {
      var rest := ReadySlots(q[1..]);
      ReadySlotsSorted(q[1..]);
      assert forall k :: 0 <= k < |rest| ==> q[0].seqNum <= rest[k].seqNum;
      assert ReadySlots(q) == (if Issuable(q[0]) then [q[0]] else []) + rest;
    }
  }

  /** Over sorted slots, the scan issues in ascending sequence-number order. */
  lemma SelectSorted(slots: seq<Instruction>, budget: nat, cycle: nat, lat: map<int, int>)
    requires SortedBySeq(slots)
    ensures SortedBySeq(Select(slots, budget, cycle, lat).issued)
  {
    var ready := ReadySlots(slots);
    ReadySlotsSorted(slots);
    var taken := ready[..Min(budget, |ready|)];
    var issued := ExecCopies(taken, cycle, lat);
    assert forall k :: 0 <= k < |issued| ==> issued[k].seqNum == ready[k].seqNum;
  }

  /**
   * Oldest first: over sorted slots, every issued instruction is at least
   * as old as every issuable instruction left behind.
   */
  lemma SelectOldestFirst(slots: seq<Instruction>, budget: nat, cycle: nat, lat: map<int, int>)
    requires SortedBySeq(slots)
    ensures var r := Select(slots, budget, cycle, lat);
      forall t, k :: 0 <= t < |r.issued| && 0 <= k < |slots| && Issuable(r.slots[k]) ==>
        r.issued[t].seqNum <= r.slots[k].seqNum
  {
    var r := Select(slots, budget, cycle, lat);
    var ready := ReadySlots(slots);
    forall t, k | 0 <= t < |r.issued| && 0 <= k < |slots| && Issuable(r.slots[k])
      ensures r.issued[t].seqNum <= r.slots[k].seqNum
    {
      ReadySlotIndex(slots, t);
      var j :| 0 <= j < |slots| && slots[j] == ready[t] && Issuable(slots[j]) && |ReadySlots(slots[..j])| == t;
      assert r.slots[k] == slots[k];
      if k <= j {
        ReadyCountMono(slots, k, j);
      }
    }
  }

  /** An issuable slot with `c` issuable slots before it means more than `c` issuable slots in all. */
  lemma ReadyBeyond(slots: seq<Instruction>, k: nat)
    requires k < |slots| && Issuable(slots[k])
    ensures |ReadySlots(slots[..k])| < |ReadySlots(slots)|
  {
    assert slots[..k + 1] == slots[..k] + [slots[k]];
    ReadySlotsSnoc(slots[..k], slots[k]);
    ReadyCountMono(slots, k + 1, |slots|);
    assert slots[..|slots|] == slots;
  }

  /** An issuable instruction is left behind only when the whole budget issued. */
  lemma SelectFullBudget(slots: seq<Instruction>, budget: nat, cycle: nat, lat: map<int, int>)
    ensures var r := Select(slots, budget, cycle, lat);
      (exists k :: 0 <= k < |slots| && Issuable(r.slots[k])) ==> |r.issued| == budget
  {
    var r := Select(slots, budget, cycle, lat);
    if k :| 0 <= k < |slots| && Issuable(r.slots[k]) {
      assert r.slots[k] == slots[k];
      assert budget <= |ReadySlots(slots[..k])|;
      ReadyBeyond(slots, k);
    }
  }

  /*
   * Execute.
   */

  /** The execute-list entries whose timer reads 1, which finish this cycle, in order. */
  function Finishing(q: seq<Instruction>): (r: seq<Instruction>)
    ensures |r| <= |q| && forall k :: 0 <= k < |r| ==> r[k].latency == 1 && r[k] in q
    ensures forall k :: 0 <= k < |q| && q[k].latency == 1 ==> q[k] in r
  {
    if |q| == 0 then [] else (if q[0].latency == 1 then [q[0]] else []) + Finishing(q[1..])
  }

  /**
   * The other entries, in order, each with its timer one lower: with the
   * finishing entries they account for the whole list, and an instruction
   * is pending exactly when it is a non-finishing entry, decremented.
   */
  function Pending(q: seq<Instruction>): (r: seq<Instruction>)
    ensures |r| <= |q|
    ensures Decremented(q, r)
  {
    if |q| == 0 then [] else (if q[0].latency == 1 then [] else [q[0].(latency := q[0].latency - 1)]) + Pending(q[1..])
  }

  /** Every entry of `q` that does not finish is in `r`, with its timer one lower. */
  ghost predicate Decremented(q: seq<Instruction>, r: seq<Instruction>)
  {
    forall k :: 0 <= k < |q| && q[k].latency != 1 ==> q[k].(latency := q[k].latency - 1) in r
  }

  /** Every entry of `p` has a timer left and, one tick earlier, was an entry of `q`. */
  ghost predicate Incremented(p: seq<Instruction>, q: seq<Instruction>)
  {
    forall k :: 0 <= k < |p| ==> p[k].latency != 0 && p[k].(latency := p[k].latency + 1) in q
  }

  /** Every pending entry is a non-finishing entry of the list, decremented. */
  lemma {:induction false} PendingMembers(q: seq<Instruction>)
    ensures Incremented(Pending(q), q)
  {
    if |q| > 0 {
      PendingMembers(q[1..]);
      IncrementedWiden(Pending(q[1..]), q);
      if q[0].latency == 1 {
        FinishingHead(q);
      } else {
        var d := q[0].(latency := q[0].latency - 1);
        assert d.(latency := d.latency + 1) == q[0];
        PendingHead(q);
        IncrementedAppend([d], Pending(q[1..]), q);
      }
    } else {
      assert Pending(q) == [];
    }
  }

  /** What came from the tail of a list came from the list. */
  lemma IncrementedWiden(p: seq<Instruction>, q: seq<Instruction>)
    requires |q| > 0 && Incremented(p, q[1..])
    ensures Incremented(p, q)
  {
    forall k | 0 <= k < |p|
      ensures p[k].(latency := p[k].latency + 1) in q
    {
      var x := p[k].(latency := p[k].latency + 1);
      var j :| 0 <= j < |q[1..]| && q[1..][j] == x;
      assert q[j + 1] == x;
    }
  }

  lemma IncrementedAppend(a: seq<Instruction>, b: seq<Instruction>, q: seq<Instruction>)
    requires Incremented(a, q) && Incremented(b, q)
    ensures Incremented(a + b, q)
  {
    forall k | 0 <= k < |a + b|
      ensures (a + b)[k].latency != 0 && (a + b)[k].(latency := (a + b)[k].latency + 1) in q
    {
      if k >= |a| {
        assert (a + b)[k] == b[k - |a|];
      }
    }
  }

  /** Every entry either finishes or stays pending. */
  lemma {:induction false} PendingCount(q: seq<Instruction>)
    ensures |Pending(q)| + |Finishing(q)| == |q|
  {
    if |q| > 0 {
      PendingCount(q[1..]);
    }
  }

  /** Pending distributes over concatenation, so it keeps the list's order. */
  lemma {:induction false} PendingAppend(a: seq<Instruction>, b: seq<Instruction>)
    ensures Pending(a + b) == Pending(a) + Pending(b)
  {
    if |a| > 0 {
      assert (a + b)[1..] == a[1..] + b;
      PendingAppend(a[1..], b);
    } else {
      assert a + b == b;
    }
  }

  /** The tags the finishing entries broadcast. */
  function FinishTags(q: seq<Instruction>): (r: set<int>)
    ensures forall k :: 0 <= k < |q| && q[k].latency == 1 ==> q[k].robValue in r
    ensures forall t :: t in r ==> exists k :: 0 <= k < |q| && q[k].latency == 1 && q[k].robValue == t
  {
    if |q| == 0 then {} else (if q[0].latency == 1 then {q[0].robValue} else {}) + FinishTags(q[1..])
  }

  /** The move EX -> WB. */
  function ToWriteback(i: Instruction, cycle: nat): (o: Instruction)
    ensures o.(cycles := i.cycles) == i
    ensures EndCycle(o, EX) == cycle + 1 - BeginCycle(i, EX) && BeginCycle(o, WB) == cycle + 1
  {
    MoveStage(i, EX, WB, cycle)
  }

  function ToWritebacks(q: seq<Instruction>, cycle: nat): (r: seq<Instruction>)
    ensures |r| == |q| && forall k :: 0 <= k < |q| ==> r[k] == ToWriteback(q[k], cycle)
  {
    seq(|q|, k requires 0 <= k < |q| => ToWriteback(q[k], cycle))
  }

  datatype Executed = Executed(rr: Table, di: Table, iq: IQ.IssueQueue, wb: Table, ex: Table)

  /**
   * The execute loop over the list: a finishing entry wakes RR, DI and the
   * issue queue with its tag and moves to WB; any other entry goes, with
   * its timer decremented, to the list that replaces the execute list.
   * Overall, WB receives the finishing entries in order, the new list the
   * others in order, and every waiting operand naming a finishing tag
   * becomes ready.
   */
  function ExecuteLoop(ex: seq<Instruction>, rr: Table, di: Table, iq: IQ.IssueQueue, wb: Table, temp: Table,
                       cycle: nat): (r: Executed)
    decreases |ex|
    ensures r.wb == PushAll(wb, ToWritebacks(Finishing(ex), cycle))
    ensures r.ex == PushAll(temp, Pending(ex))
    ensures r.rr.size == rr.size && |r.rr.queue| == |rr.queue|
    ensures forall k :: 0 <= k < |rr.queue| ==> Woken(rr.queue[k], r.rr.queue[k], FinishTags(ex))
    ensures r.di.size == di.size && |r.di.queue| == |di.queue|
    ensures forall k :: 0 <= k < |di.queue| ==> Woken(di.queue[k], r.di.queue[k], FinishTags(ex))
    ensures |r.iq.slots| == |iq.slots|
    ensures forall k :: 0 <= k < |iq.slots| ==> Woken(iq.slots[k], r.iq.slots[k], FinishTags(ex))
  {
    if |ex| == 0 then
      Executed(rr, di, iq, wb, temp)
    else
      var i := ex[0];
      if i.latency == 1 then
        var r := ExecuteLoop(ex[1..], Wakeup(rr, i.robValue), Wakeup(di, i.robValue), IQ.Wakeup(iq, i.robValue),
                             Push(wb, ToWriteback(i, cycle)), temp, cycle);
        ExecuteFinishStep(ex, wb, temp, cycle, r);
        WokenAll(rr.queue, Wakeup(rr, i.robValue).queue, r.rr.queue, {i.robValue}, FinishTags(ex[1..]));
        WokenAll(di.queue, Wakeup(di, i.robValue).queue, r.di.queue, {i.robValue}, FinishTags(ex[1..]));
        WokenAll(iq.slots, IQ.Wakeup(iq, i.robValue).slots, r.iq.slots, {i.robValue}, FinishTags(ex[1..]));
        r
      else
        var r := ExecuteLoop(ex[1..], rr, di, iq, wb, Push(temp, i.(latency := i.latency - 1)), cycle);
        ExecutePendingStep(ex, wb, temp, cycle, r);
        r
  }

  /** `Woken` by a set, then by a second set, is `Woken` by their union, slot by slot. */
  lemma WokenAll(a: seq<Instruction>, m: seq<Instruction>, b: seq<Instruction>, t1: set<int>, t2: set<int>)
    requires |a| == |m| == |b|
    requires forall k :: 0 <= k < |a| ==> Woken(a[k], m[k], t1)
    requires forall k :: 0 <= k < |a| ==> Woken(m[k], b[k], t2)
    ensures forall k :: 0 <= k < |a| ==> Woken(a[k], b[k], t1 + t2)
  {
    forall k | 0 <= k < |a|
      ensures Woken(a[k], b[k], t1 + t2)
    {
      WokenCompose(a[k], m[k], b[k], t1, t2);
    }
  }

  /** The step of `ExecuteLoop` for a finishing head: the two lists. */
  lemma ExecuteFinishStep(ex: seq<Instruction>, wb: Table, temp: Table, cycle: nat, r: Executed)
    requires |ex| > 0 && ex[0].latency == 1
    requires r.wb == PushAll(Push(wb, ToWriteback(ex[0], cycle)), ToWritebacks(Finishing(ex[1..]), cycle))
    requires r.ex == PushAll(temp, Pending(ex[1..]))
    ensures r.wb == PushAll(wb, ToWritebacks(Finishing(ex), cycle))
    ensures r.ex == PushAll(temp, Pending(ex))
    ensures FinishTags(ex) == {ex[0].robValue} + FinishTags(ex[1..])
  {
    var i, rest := ex[0], ex[1..];
    FinishingHead(ex);
    PushAllCons(wb, ToWriteback(i, cycle), ToWritebacks(Finishing(rest), cycle));
    ToWritebacksCons(i, Finishing(rest), cycle);
  }

  /** Moving a list to WB moves its head, then its tail. */
  lemma ToWritebacksCons(i: Instruction, q: seq<Instruction>, cycle: nat)
    ensures ToWritebacks([i] + q, cycle) == [ToWriteback(i, cycle)] + ToWritebacks(q, cycle)
  {
    var a, b := ToWritebacks([i] + q, cycle), [ToWriteback(i, cycle)] + ToWritebacks(q, cycle);
    assert |a| == |b|;
    forall k | 0 <= k < |a|
      ensures a[k] == b[k]
    {
      if k > 0 {
        assert ([i] + q)[k] == q[k - 1];
      }
    }
  }

  /** A finishing head goes to the finishing entries, and its tag to the broadcast tags. */
  lemma FinishingHead(ex: seq<Instruction>)
    requires |ex| > 0 && ex[0].latency == 1
    ensures Finishing(ex) == [ex[0]] + Finishing(ex[1..])
    ensures Pending(ex) == Pending(ex[1..])
    ensures FinishTags(ex) == {ex[0].robValue} + FinishTags(ex[1..])
  {
  }

  /** A head that keeps running goes to the pending entries only. */
  lemma PendingHead(ex: seq<Instruction>)
    requires |ex| > 0 && ex[0].latency != 1
    ensures Finishing(ex) == Finishing(ex[1..])
    ensures Pending(ex) == [ex[0].(latency := ex[0].latency - 1)] + Pending(ex[1..])
    ensures FinishTags(ex) == FinishTags(ex[1..])
  {
    assert Finishing(ex) == [] + Finishing(ex[1..]);
  }

  /** The step of `ExecuteLoop` for a head that keeps running. */
  lemma ExecutePendingStep(ex: seq<Instruction>, wb: Table, temp: Table, cycle: nat, r: Executed)
    requires |ex| > 0 && ex[0].latency != 1
    requires r.wb == PushAll(wb, ToWritebacks(Finishing(ex[1..]), cycle))
    requires r.ex == PushAll(Push(temp, ex[0].(latency := ex[0].latency - 1)), Pending(ex[1..]))
    ensures r.wb == PushAll(wb, ToWritebacks(Finishing(ex), cycle))
    ensures r.ex == PushAll(temp, Pending(ex))
    ensures FinishTags(ex) == FinishTags(ex[1..])
  {
    PendingHead(ex);
    PushAllCons(temp, ex[0].(latency := ex[0].latency - 1), Pending(ex[1..]));
  }

  /**
   * `Execute`: the loop over the whole execute list, with a fresh list of
   * capacity 5 x width replacing it. The finishing entries move to WB in
   * order (all of them when WB has room), every other entry stays on the
   * execute list in order with its timer one lower, every operand in RR,
   * DI and the issue queue naming a finishing tag becomes ready, and
   * nothing else changes.
   */
  function Execute(s: State): (r: State)
    ensures r.(rr := s.rr, di := s.di, iq := s.iq, wb := s.wb, ex := s.ex) == s
    ensures r.ex.size == 5 * s.width
    ensures Bounded(s.ex) && s.ex.size <= 5 * s.width ==> r.ex.queue == Pending(s.ex.queue)
    ensures r.wb.size == s.wb.size
    ensures Bounded(s.wb) && |s.wb.queue| + |Finishing(s.ex.queue)| <= s.wb.size ==>
      r.wb.queue == s.wb.queue + ToWritebacks(Finishing(s.ex.queue), s.cycle)
    ensures r.rr.size == s.rr.size && |r.rr.queue| == |s.rr.queue|
    ensures forall k :: 0 <= k < |s.rr.queue| ==> Woken(s.rr.queue[k], r.rr.queue[k], FinishTags(s.ex.queue))
    ensures r.di.size == s.di.size && |r.di.queue| == |s.di.queue|
    ensures forall k :: 0 <= k < |s.di.queue| ==> Woken(s.di.queue[k], r.di.queue[k], FinishTags(s.ex.queue))
    ensures |r.iq.slots| == |s.iq.slots|
    ensures forall k :: 0 <= k < |s.iq.slots| ==> Woken(s.iq.slots[k], r.iq.slots[k], FinishTags(s.ex.queue))
  {
    var e := ExecuteLoop(s.ex.queue, s.rr, s.di, s.iq, s.wb, NewTable(5 * s.width), s.cycle);
    var fin := ToWritebacks(Finishing(s.ex.queue), s.cycle);
    assert Bounded(s.wb) && |s.wb.queue| + |fin| <= s.wb.size ==> fin[..Min(|fin|, s.wb.size - |s.wb.queue|)] == fin;
    ExecuteRoom(s);
    s.(rr := e.rr, di := e.di, iq := e.iq, wb := e.wb, ex := e.ex)
  }

  /** The fresh execute list has room for every entry that keeps running. */
  lemma ExecuteRoom(s: State)
    ensures Bounded(s.ex) && s.ex.size <= 5 * s.width ==>
      PushAll(NewTable(5 * s.width), Pending(s.ex.queue)).queue == Pending(s.ex.queue)
  {
    if Bounded(s.ex) && s.ex.size <= 5 * s.width {
      PushAllEmpty(NewTable(5 * s.width), Pending(s.ex.queue));
    }
  }
}
