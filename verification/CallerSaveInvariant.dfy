/** The bookkeeping invariant of the caller-save scan, and that every step keeps it. */
module CallerSaveInvariant {
  import opened FiniteSets
  import opened CallerSaveSpec

  /** N is a subset of S, S of L, every saved register has a slot, and the lazily kept counter
      never falls below |N|. */
  ghost predicate Kept(m: Machine, mem: SaveMem, p: Pass) {
    && p.need <= p.saved <= p.live
    && (forall r | r in p.saved :: r < m.nregs && (r, 1) in mem && r in m.callUsed && r !in m.callFixed)
    && |p.need| <= p.count
  }

  /** Live, call-used, not fixed and not set by the call: such a register must survive the call. */
  predicate Endangered(m: Machine, live: set<nat>, sets: set<nat>, r: nat) {
    r in live && r in m.callUsed && r !in m.callFixed && r !in sets
  }

  /** Every register a call must save has a slot; without one the source aborts. */
  ghost predicate CallHasSlots(m: Machine, mem: SaveMem, p: Pass, sets: set<nat>) {
    forall r: nat | Endangered(m, p.live, sets, r) :: r < m.nregs && (r, 1) in mem
  }

  ghost predicate InsnHasSlots(m: Machine, mem: SaveMem, p: Pass, insn: Insn) {
    insn.code.Call? ==> CallHasSlots(m, mem, BeforeInsn(m, mem, p, insn), StoresOf(insn.pattern))
  }

  ghost predicate BlockHasSlots(m: Machine, mem: SaveMem, live: set<nat>, block: seq<Insn>) {
    forall k | 0 <= k < |block| :: HasSlotsAt(m, mem, live, block, k)
  }

  ghost predicate HasSlotsAt(m: Machine, mem: SaveMem, live: set<nat>, block: seq<Insn>, k: nat)
    requires k < |block|
  {
    InsnHasSlots(m, mem, Scan(m, mem, live, block, k), block[k])
  }

  // ----- Counting -----

  lemma {:induction false} RangeSize(regno: nat, n: nat)
    ensures |Range(regno, n)| == n
  {
    if n > 0 {
      RangeSize(regno, n - 1);
    }
  }

  lemma {:induction false} AddRangeSize(s: set<nat>, regno: nat, n: nat)
    requires s !! Range(regno, n)
    ensures |s + Range(regno, n)| == |s| + n
  {
    RangeSize(regno, n);
  }

  lemma {:induction false} RemoveRangeSize(s: set<nat>, regno: nat, n: nat)
    requires Range(regno, n) <= s
    ensures |s - Range(regno, n)| == |s| - n
  {
    RangeSize(regno, n);
  }

  lemma {:induction false} CountIsSize(s: set<nat>, n: nat)
    ensures CountBelow(s, n) == |set r | r in s && r < n|
  {
    if n == 0 {
      assert (set r | r in s && r < 0) == {};
    } else {
      CountIsSize(s, n - 1);
      var below := set r | r in s && r < n - 1;
      assert (set r | r in s && r < n) == if n - 1 in s then below + {n - 1} else below;
    }
  }

  // ----- Groups -----

  /** A group saved is the largest there is at its first register. */
  lemma {:induction false} SaveSizeLargest(m: Machine, mem: SaveMem, p: Pass, regno: nat, most: nat, k: nat)
    requires (regno, k) in mem && k <= most && forall r | regno <= r < regno + k :: Savable(m, p, r)
    ensures k <= SaveSize(m, mem, p, regno, most)
  {
    if k < most {
      SaveSizeLargest(m, mem, p, regno, most - 1, k);
    }
  }

  /** And so is a group restored. */
  lemma {:induction false} RestoreSizeLargest(mem: SaveMem, need: set<nat>, regno: nat, most: nat, k: nat)
    requires (regno, k) in mem && k <= most && forall r | regno <= r < regno + k :: r in need
    ensures k <= RestoreSize(mem, need, regno, most)
  {
    if k < most {
      RestoreSizeLargest(mem, need, regno, most - 1, k);
    }
  }

  // ----- Restores -----

  /** What a run of restores does: only the need set, the counter and the chain change. */
  ghost predicate Restored(p: Pass, q: Pass) {
    q.live == p.live && q.saved == p.saved && q.need <= p.need && p.count - q.count == |p.need| - |q.need|
  }

  lemma {:induction false} RestoreSizePositive(mem: SaveMem, need: set<nat>, regno: nat, i: nat)
    requires regno in need && (regno, 1) in mem && i >= 1
    ensures RestoreSize(mem, need, regno, i) >= 1
  {
    if i > 1 {
      RestoreSizePositive(mem, need, regno, i - 1);
    }
  }

  lemma {:induction false} RestoreOnce(mem: SaveMem, p: Pass, i: nat, most: nat) returns (j: nat, q: Pass)
    requires i in p.need && (i, 1) in mem && most >= 1
    ensures 1 <= j == RestoreSize(mem, p.need, i, most) && (i, j) in mem
    ensures q == InsertRestore(p, i, j, mem[(i, j)]) && Restored(p, q)
    ensures forall r: nat :: r in q.need <==> r in p.need && !(i <= r < i + j)
  {
    RestoreSizePositive(mem, p.need, i, most);
    j := RestoreSize(mem, p.need, i, most);
    q := InsertRestore(p, i, j, mem[(i, j)]);
    RemoveRangeSize(p.need, i, j);
  }

  lemma {:induction false} RestoreRangeRestores(mem: SaveMem, p: Pass, i: nat, end: nat, most: nat)
    requires forall r | r in p.need :: (r, 1) in mem
    requires most >= 1 || i >= end
    ensures Restored(p, RestoreRange(mem, p, i, end, most))
    ensures forall r | i <= r < end :: r !in RestoreRange(mem, p, i, end, most).need
    decreases end - i
  {
    if i >= end {
    } else if i in p.need {
      var j, q := RestoreOnce(mem, p, i, most);
      assert RestoreRange(mem, p, i, end, most) == RestoreRange(mem, q, i + j, end, most);
      hide RestoreSize, InsertRestore, RestoreRange;
      RestoreRangeRestores(mem, q, i + j, end, most);
    } else {
      RestoreRangeRestores(mem, p, i + 1, end, most);
    }
  }

  /** The hard registers restore_referenced_regs looks at. */
  function Walked(x: Rtx): set<nat>
    decreases x, 0
  {
    match x
    case Clobber(_) => {}
    case Reg(r, n) => Range(r, n)
    case Pseudo(home) => Walked(home)
    case Leaf => {}
    case Subreg(inner, _, _) => Walked(inner)
    case Extract(inner, args) => WalkedSeq(args) + Walked(inner)
    case Set(d, s) => Walked(s) + Walked(d)
    case Parallel(vec) => WalkedSeq(vec)
    case Op(args) => WalkedSeq(args)
  }

  function WalkedSeq(xs: seq<Rtx>): set<nat>
    decreases xs, 0
  {
    if |xs| == 0 then {} else Walked(xs[|xs| - 1]) + WalkedSeq(xs[..|xs| - 1])
  }

  lemma {:induction false} WalkRestores(m: Machine, mem: SaveMem, p: Pass, x: Rtx)
    requires forall r | r in p.need :: (r, 1) in mem
    requires m.groupMax >= 1
    ensures Restored(p, Walk(m, mem, p, x))
    ensures Walk(m, mem, p, x).need !! Walked(x)
    decreases x, 0
  {
    match x
    case Clobber(_) =>
    case Reg(r, n) => RestoreRangeRestores(mem, p, r, r + n, Min(n, m.groupMax));
    case Pseudo(home) => WalkRestores(m, mem, p, home);
    case Leaf =>
    case Subreg(inner, _, _) => WalkRestores(m, mem, p, inner);
    case Extract(inner, args) =>
      WalkSeqRestores(m, mem, p, args);
      WalkRestores(m, mem, WalkSeq(m, mem, p, args), inner);
    case Set(d, s) =>
      WalkRestores(m, mem, p, s);
      WalkRestores(m, mem, Walk(m, mem, p, s), d);
    case Parallel(vec) => WalkSeqRestores(m, mem, p, vec);
    case Op(args) => WalkSeqRestores(m, mem, p, args);
  }

  lemma {:induction false} WalkSeqRestores(m: Machine, mem: SaveMem, p: Pass, xs: seq<Rtx>)
    requires forall r | r in p.need :: (r, 1) in mem
    requires m.groupMax >= 1
    ensures Restored(p, WalkSeq(m, mem, p, xs))
    ensures WalkSeq(m, mem, p, xs).need !! WalkedSeq(xs)
    decreases xs, 0
  {
    if |xs| > 0 {
      var last := |xs| - 1;
      WalkRestores(m, mem, p, xs[last]);
      WalkSeqRestores(m, mem, Walk(m, mem, p, xs[last]), xs[..last]);
    }
  }

  lemma {:induction false} RestoredKeeps(m: Machine, mem: SaveMem, p: Pass, q: Pass)
    requires Kept(m, mem, p) && Restored(p, q)
    ensures Kept(m, mem, q)
  {
  }

  // ----- Notes and stores -----

  lemma {:induction false} RemovingKeeps(m: Machine, mem: SaveMem, p: Pass, q: Pass, regs: set<nat>)
    requires Kept(m, mem, p)
    requires q.live >= p.live - regs && q.saved == p.saved - regs && q.need == p.need - regs && q.count == p.count
    ensures Kept(m, mem, q)
  {
    SubsetSize(q.need, p.need);
  }

  /** The registers named by the dead (or unused) notes. */
  function DeadRegs(notes: seq<Note>): set<nat> {
    if |notes| == 0 then {}
    else (if notes[0].Dead? && notes[0].x.Reg? then Range(notes[0].x.regno, notes[0].x.nregs) else {}) + DeadRegs(notes[1..])
  }

  function UnusedRegs(notes: seq<Note>): set<nat> {
    if |notes| == 0 then {}
    else (if notes[0].Unused? && notes[0].x.Reg? then Range(notes[0].x.regno, notes[0].x.nregs) else {}) + UnusedRegs(notes[1..])
  }

  function Drop(p: Pass, regs: set<nat>): Pass {
    p.(live := p.live - regs, saved := p.saved - regs, need := p.need - regs)
  }

  lemma {:induction false} ClearDeadDrops(p: Pass, notes: seq<Note>)
    ensures ClearDead(p, notes) == Drop(p, DeadRegs(notes))
    decreases |notes|
  {
    if |notes| > 0 {
      ClearDeadDrops(if notes[0].Dead? then ClearLive(p, notes[0].x) else p, notes[1..]);
    }
  }

  lemma {:induction false} ClearUnusedDrops(p: Pass, notes: seq<Note>)
    ensures ClearUnused(p, notes) == Drop(p, UnusedRegs(notes))
    decreases |notes|
  {
    if |notes| > 0 {
      ClearUnusedDrops(if notes[0].Unused? then ClearLive(p, notes[0].x) else p, notes[1..]);
    }
  }

  // ----- Saves -----

  lemma {:induction false} SaveSizePositive(m: Machine, mem: SaveMem, p: Pass, regno: nat, i: nat)
    requires Savable(m, p, regno) && (regno, 1) in mem && i >= 1
    ensures SaveSize(m, mem, p, regno, i) >= 1
  {
    if i > 1 {
      SaveSizePositive(m, mem, p, regno, i - 1);
    }
  }

  lemma {:induction false} InsertSaveKeeps(m: Machine, mem: SaveMem, p: Pass, regno: nat, j: nat)
    requires Kept(m, mem, p) && Layout(m, mem) && (regno, j) in mem
    requires forall r | regno <= r < regno + j :: Savable(m, p, r)
    ensures Kept(m, mem, InsertSave(p, regno, j, mem[(regno, j)]))
  {
    forall r | r in Range(regno, j) ensures Savable(m, p, r) && r < m.nregs && (r, 1) in mem {
      MemberHasSlot(mem, regno, j, r);
    }
    AddRangeSize(p.need, regno, j);
  }

  lemma {:induction false} SaveGroupKeeps(m: Machine, mem: SaveMem, p: Pass, sets: set<nat>, regno: nat) returns (j: nat, q: Pass)
    requires Kept(m, mem, p) && Layout(m, mem) && m.groupMax >= 1
    requires regno < m.nregs && MustSave(m, p, sets, regno) && (regno, 1) in mem
    ensures 1 <= j == SaveSize(m, mem, p, regno, m.groupMax)
    ensures (regno, j) in mem && q == InsertSave(p, regno, j, mem[(regno, j)]) && Kept(m, mem, q)
    ensures SaveScan(m, mem, q, sets, regno + j) == SaveScan(m, mem, p, sets, regno)
  {
    SaveSizePositive(m, mem, p, regno, m.groupMax);
    j := SaveSize(m, mem, p, regno, m.groupMax);
    q := InsertSave(p, regno, j, mem[(regno, j)]);
    InsertSaveKeeps(m, mem, p, regno, j);
  }

  /** q is p after the registers from regno on have been considered for saving. */
  ghost predicate Scanned(m: Machine, p: Pass, sets: set<nat>, regno: nat, q: Pass) {
    && q.live == p.live && p.saved <= q.saved <= p.saved + p.live
    && (forall r: nat | Endangered(m, p.live, sets, r) && regno <= r :: r in q.saved)
  }

  lemma {:induction false} ScannedGroup(m: Machine, p: Pass, sets: set<nat>, regno: nat, j: nat, addr: nat, q: Pass)
    requires Scanned(m, InsertSave(p, regno, j, addr), sets, regno + j, q)
    requires forall r | regno <= r < regno + j :: Savable(m, p, r)
    ensures Scanned(m, p, sets, regno, q)
  {
    forall r | r in Range(regno, j) ensures r in p.live {
      assert Savable(m, p, r);
    }
  }

  /** The scan before a call saves every endangered register and only live ones. */
  lemma {:induction false} SaveScanSaves(m: Machine, mem: SaveMem, p: Pass, sets: set<nat>, regno: nat)
    requires Kept(m, mem, p) && Layout(m, mem) && m.groupMax >= 1 && CallHasSlots(m, mem, p, sets)
    ensures Kept(m, mem, SaveScan(m, mem, p, sets, regno))
    ensures Scanned(m, p, sets, regno, SaveScan(m, mem, p, sets, regno))
    decreases m.nregs - regno
  {
    if regno >= m.nregs {
    } else if MustSave(m, p, sets, regno) {
      assert Endangered(m, p.live, sets, regno);
      var j, q := SaveGroupKeeps(m, mem, p, sets, regno);
      SaveScanSaves(m, mem, q, sets, regno + j);
      ScannedGroup(m, p, sets, regno, j, mem[(regno, j)], SaveScan(m, mem, q, sets, regno + j));
    } else {
      SaveScanSaves(m, mem, p, sets, regno + 1);
    }
  }

  // ----- One insn -----

  lemma {:induction false} BeforeInsnKeeps(m: Machine, mem: SaveMem, p: Pass, insn: Insn)
    requires Kept(m, mem, p) && m.groupMax >= 1
    ensures Kept(m, mem, BeforeInsn(m, mem, p, insn))
    ensures BeforeInsn(m, mem, p, insn).need !! Walked(insn.pattern)
    ensures BeforeInsn(m, mem, p, insn).live == p.live - DeadRegs(insn.notes)
    ensures BeforeInsn(m, mem, p, insn).saved == p.saved - DeadRegs(insn.notes)
    ensures p.count == 0 ==> p.need == {}
  {
    WalkRestores(m, mem, p, insn.pattern);
    var q := if p.count != 0 then Walk(m, mem, p, insn.pattern) else p;
    ClearDeadDrops(q, insn.notes);
    RestoredKeeps(m, mem, p, q);
    RemovingKeeps(m, mem, q, Drop(q, DeadRegs(insn.notes)), DeadRegs(insn.notes));
  }

  /** Right after a call the counter is exact, everything saved needs restoring, and every live,
      call-used, non-fixed register the call did not set is saved. */
  lemma {:induction false} CallSavesExactly(m: Machine, mem: SaveMem, p: Pass, sets: set<nat>)
    requires Kept(m, mem, p) && Layout(m, mem) && m.groupMax >= 1 && CallHasSlots(m, mem, p, sets)
    ensures var q := CallSaves(m, mem, p, sets);
      && Kept(m, mem, q) && q.live == p.live && p.saved - sets <= q.saved
    ensures var q := AfterCall(m, CallSaves(m, mem, p, sets), sets);
      && Kept(m, mem, q) && q.count == |q.saved| == |q.need|
      && (forall r: nat | Endangered(m, p.live, sets, r) :: r in q.need)
  {
    var p0 := Store(p, sets).(live := p.live);
    RemovingKeeps(m, mem, p, p0, sets);
    SaveScanSaves(m, mem, p0, sets, 0);
    var s := SaveScan(m, mem, p0, sets, 0);
    CountIsSize(s.saved, m.nregs);
    assert (set r | r in s.saved && r < m.nregs) == s.saved;
  }

  lemma {:induction false} StepKeeps(m: Machine, mem: SaveMem, p: Pass, insn: Insn, index: nat)
    requires Kept(m, mem, p) && Layout(m, mem) && m.groupMax >= 1 && InsnHasSlots(m, mem, p, insn)
    ensures Kept(m, mem, Step(m, mem, p, insn, index))
  {
    BeforeInsnKeeps(m, mem, p, insn);
    var p1 := BeforeInsn(m, mem, p, insn);
    var sets := StoresOf(insn.pattern);
    var p2 := if insn.code.Call? then AfterCall(m, CallSaves(m, mem, p1, sets), sets) else Store(p1, sets);
    hide BeforeInsn, CallSaves, StoresOf, UnusedRegs, Layout;
    assert Kept(m, mem, p2) by {
      if insn.code.Call? {
        CallSavesExactly(m, mem, p1, sets);
      } else {
        RemovingKeeps(m, mem, p1, p2, sets);
      }
    }
    ClearUnusedDrops(p2, insn.notes);
    var q := Drop(p2, UnusedRegs(insn.notes));
    RemovingKeeps(m, mem, p2, q, UnusedRegs(insn.notes));
    assert insn.code.Marker? || Step(m, mem, p, insn, index) == q.(out := p2.out + [Orig(index)]);
    hide Step, AfterCall, Store;
  }

  /** The bookkeeping invariant holds at every point of every block scan. */
  lemma {:induction false} ScanKeeps(m: Machine, mem: SaveMem, live: set<nat>, block: seq<Insn>, k: nat)
    requires Layout(m, mem) && m.groupMax >= 1 && BlockHasSlots(m, mem, live, block) && k <= |block|
    ensures Kept(m, mem, Scan(m, mem, live, block, k))
  {
    if k > 0 {
      ScanKeeps(m, mem, live, block, k - 1);
      assert HasSlotsAt(m, mem, live, block, k - 1);
      StepKeeps(m, mem, Scan(m, mem, live, block, k - 1), block[k - 1], k - 1);
    }
  }
}
