/** When caller-save insertion is right: exactly when no call of the block has one of its own
    results saved along with a group.  The scan tests only the first register of a group against
    the registers the call sets. */
module CallerSaveExact {
  import opened CallerSaveSpec
  import opened CallerSaveInvariant
  import opened CallerSaveSimulation
  import opened CallerSaveTheorem

  // ----- The original insns in the rewritten chain -----

  function Origs(out: seq<Out>): seq<nat> {
    if |out| == 0 then []
    else Origs(out[..|out| - 1]) + (if out[|out| - 1].Orig? then [out[|out| - 1].index] else [])
  }

  function Upto(n: nat): seq<nat> {
    if n == 0 then [] else Upto(n - 1) + [n - 1]
  }

  lemma {:induction false} OrigsOneMore(out: seq<Out>, item: Out)
    ensures Origs(out + [item]) == Origs(out) + (if item.Orig? then [item.index] else [])
  {
    assert (out + [item])[..|out + [item]| - 1] == out;
  }

  lemma {:induction false} RestoreRangeOrigs(mem: SaveMem, p: Pass, i: nat, end: nat, most: nat)
    ensures Origs(RestoreRange(mem, p, i, end, most).out) == Origs(p.out)
    decreases end - i
  {
    if i >= end {
    } else if i in p.need {
      var j := RestoreSize(mem, p.need, i, most);
      if j > 0 {
        OrigsOneMore(p.out, Restore(i, j, mem[(i, j)]));
        RestoreRangeOrigs(mem, InsertRestore(p, i, j, mem[(i, j)]), i + j, end, most);
      }
    } else {
      RestoreRangeOrigs(mem, p, i + 1, end, most);
    }
  }

  lemma {:induction false} WalkOrigs(m: Machine, mem: SaveMem, p: Pass, x: Rtx)
    ensures Origs(Walk(m, mem, p, x).out) == Origs(p.out)
    decreases x, 0
  {
    match x
    case Clobber(_) =>
    case Reg(r, n) => RestoreRangeOrigs(mem, p, r, r + n, Min(n, m.groupMax));
    case Pseudo(home) => WalkOrigs(m, mem, p, home);
    case Leaf =>
    case Subreg(inner, _, _) => WalkOrigs(m, mem, p, inner);
    case Extract(inner, args) =>
      WalkSeqOrigs(m, mem, p, args);
      WalkOrigs(m, mem, WalkSeq(m, mem, p, args), inner);
    case Set(d, s) =>
      WalkOrigs(m, mem, p, s);
      WalkOrigs(m, mem, Walk(m, mem, p, s), d);
    case Parallel(vec) => WalkSeqOrigs(m, mem, p, vec);
    case Op(args) => WalkSeqOrigs(m, mem, p, args);
  }

  lemma {:induction false} WalkSeqOrigs(m: Machine, mem: SaveMem, p: Pass, xs: seq<Rtx>)
    ensures Origs(WalkSeq(m, mem, p, xs).out) == Origs(p.out)
    decreases xs, 0
  {
    if |xs| > 0 {
      WalkOrigs(m, mem, p, xs[|xs| - 1]);
      WalkSeqOrigs(m, mem, Walk(m, mem, p, xs[|xs| - 1]), xs[..|xs| - 1]);
    }
  }

  lemma {:induction false} SaveScanOrigs(m: Machine, mem: SaveMem, p: Pass, sets: set<nat>, regno: nat)
    ensures Origs(SaveScan(m, mem, p, sets, regno).out) == Origs(p.out)
    decreases m.nregs - regno
  {
    if regno >= m.nregs {
    } else if MustSave(m, p, sets, regno) {
      var j := SaveSize(m, mem, p, regno, m.groupMax);
      if j > 0 {
        OrigsOneMore(p.out, Save(regno, j, mem[(regno, j)]));
        SaveScanOrigs(m, mem, InsertSave(p, regno, j, mem[(regno, j)]), sets, regno + j);
      }
    } else {
      SaveScanOrigs(m, mem, p, sets, regno + 1);
    }
  }

  lemma {:induction false} AtExecOrigs(m: Machine, mem: SaveMem, p: Pass, insn: Insn)
    ensures Origs(AtExec(m, mem, p, insn).out) == Origs(p.out)
  {
    WalkOrigs(m, mem, p, insn.pattern);
    ClearDeadDrops(if p.count != 0 then Walk(m, mem, p, insn.pattern) else p, insn.notes);
    var p1 := BeforeInsn(m, mem, p, insn);
    SaveScanOrigs(m, mem, Store(p1, Sets(insn)).(live := p1.live), Sets(insn), 0);
  }

  lemma {:induction false} StepOrigs(m: Machine, mem: SaveMem, p: Pass, insn: Insn, index: nat)
    ensures Origs(Step(m, mem, p, insn, index).out) == Origs(p.out) + [index]
    ensures !insn.code.Marker? ==> Step(m, mem, p, insn, index).out == AtExec(m, mem, p, insn).out + [Orig(index)]
  {
    AtExecOrigs(m, mem, p, insn);
    OrigsOneMore(p.out, Orig(index));
    OrigsOneMore(AtExec(m, mem, p, insn).out, Orig(index));
  }

  lemma {:induction false} ScanOrigs(m: Machine, mem: SaveMem, live: set<nat>, block: seq<Insn>, k: nat)
    requires k <= |block|
    ensures Origs(Scan(m, mem, live, block, k).out) == Upto(k)
  {
    hide Step;
    if k > 0 {
      ScanOrigs(m, mem, live, block, k - 1);
      StepOrigs(m, mem, Scan(m, mem, live, block, k - 1), block[k - 1], k - 1);
    }
  }

  lemma {:induction false} FinishOrigs(m: Machine, mem: SaveMem, p: Pass, last: Insn)
    ensures Origs(Finish(m, mem, p, last).out) == Origs(p.out)
  {
    if p.count == 0 {
    } else if last.code.Jump? && |p.out| > 0 {
      var front := p.(out := p.out[..|p.out| - 1]);
      RestoreRangeOrigs(mem, front, 0, m.nregs, m.groupMax);
      OrigsOneMore(RestoreRange(mem, front, 0, m.nregs, m.groupMax).out, p.out[|p.out| - 1]);
    } else {
      RestoreRangeOrigs(mem, p, 0, m.nregs, m.groupMax);
    }
  }

  /** The rewritten block holds every original insn once, in its original order. */
  lemma {:induction false} BlockKeepsInsns(m: Machine, mem: SaveMem, live: set<nat>, block: seq<Insn>)
    requires |block| > 0
    ensures Origs(Block(m, mem, live, block).out) == Upto(|block|)
  {
    ScanOrigs(m, mem, live, block, |block|);
    FinishOrigs(m, mem, Scan(m, mem, live, block, |block|), block[|block| - 1]);
  }

  // ----- A machine that shows staleness -----

  /** Every stored register receives the number of the insn that stores it, plus one; destroyed
      registers, and everything at the start, hold 0. */
  function Tagging(block: seq<Insn>): Env {
    Env((index: nat, args: map<nat, int>, w: int) =>
          (if index < |block| then map r | r in Sets(block[index]) :: index + 1 else map[], w),
        (index: nat, r: nat, w: int) => 0)
  }

  function ZeroIdeal(): Ideal { Ideal((r: nat) => 0, 0, []) }

  function ZeroReal(): Real { Real((r: nat) => 0, (a: nat) => 0, 0, []) }

  ghost predicate Bounded(s: Real, b: int) {
    (forall r: nat :: s.regs(r) <= b) && (forall a: nat :: s.slots(a) <= b)
  }

  lemma {:induction false} UptoBelow(n: nat)
    ensures forall x | x in Upto(n) :: x < n
  {
    if n > 0 {
      UptoBelow(n - 1);
    }
  }

  lemma {:induction false} RunBounded(m: Machine, block: seq<Insn>, out: seq<Out>, b: nat)
    requires forall x | x in Origs(out) :: x < b
    ensures Bounded(RealRun(Tagging(block), m, block, ZeroReal(), out), b)
  {
    if |out| > 0 {
      var front := out[..|out| - 1];
      assert forall x | x in Origs(front) :: x in Origs(out);
      RunBounded(m, block, front, b);
      if out[|out| - 1].Orig? {
        assert out[|out| - 1].index in Origs(out);
      }
    }
  }

  // ----- Exact notes -----

  function ReadsOf(insn: Insn): set<nat> {
    if insn.code.Marker? then {} else Reads(insn.pattern)
  }

  function Dropped(insn: Insn): set<nat> {
    if insn.code.Marker? then {} else DeadRegs(insn.notes) + UnusedRegs(insn.notes)
  }

  /** From insn k on, r is read, or reaches the end of the block, before it is stored or dropped. */
  predicate Awaited(block: seq<Insn>, k: nat, r: nat)
    requires k <= |block|
    decreases |block| - k
  {
    k == |block| || r in ReadsOf(block[k]) ||
    (r !in Sets(block[k]) && r !in Dropped(block[k]) && Awaited(block, k + 1, r))
  }

  /** The notes mark every death: a register the scan takes to be live is really waited for. */
  ghost predicate ExactNotes(live: set<nat>, block: seq<Insn>) {
    forall k: nat, r: nat | k <= |block| && LiveAt(live, block, k, r) :: Awaited(block, k, r)
  }

  predicate LiveAt(live: set<nat>, block: seq<Insn>, k: nat, r: nat)
    requires k <= |block|
  {
    r in LiveAfter(live, block, k)
  }

  lemma {:induction false} LiveAtIs(m: Machine, mem: SaveMem, live: set<nat>, block: seq<Insn>, k: nat, r: nat)
    requires k <= |block|
    ensures LiveAt(live, block, k, r) <==> r in Scan(m, mem, live, block, k).live
  {
    ScanLive(m, mem, live, block, k);
    hide Scan, LiveAfter;
  }

  // ----- Following a stale register -----

  /** q's slot, and q itself once restored, hold at most v, below its ideal value. */
  ghost predicate Wrong(mem: SaveMem, p: Pass, q: nat, v: int, i: Ideal, s: Real) {
    && q in p.saved && q in p.live && (q, 1) in mem
    && s.slots(mem[(q, 1)]) <= v < i.regs(q)
    && (q !in p.need ==> s.regs(q) <= v)
  }

  ghost predicate Bad(mem: SaveMem, p: Pass, q: nat, v: int, i: Ideal, s: Real) {
    |i.trace| == |s.trace| && (i.trace != s.trace || Wrong(mem, p, q, v, i, s))
  }

  function SlotValues(mem: SaveMem, s: Real): nat -> int {
    (r: nat) => if (r, 1) in mem then s.slots(mem[(r, 1)]) else 0
  }

  lemma {:induction false} SaveScanKeepsSlot(env: Env, m: Machine, mem: SaveMem, block: seq<Insn>, s: Real, p: Pass, sets: set<nat>,
                                             regno: nat, q: nat, done: Pass)
    requires Layout(m, mem) && done == SaveScan(m, mem, p, sets, regno)
    ensures var x, y := RealRun(env, m, block, s, p.out), RealRun(env, m, block, s, done.out);
      && y.trace == x.trace && y.world == x.world && SameRegs(x, y)
      && (q in p.saved && (q, 1) in mem ==> y.slots(mem[(q, 1)]) == x.slots(mem[(q, 1)]))
    decreases m.nregs - regno
  {
    if regno >= m.nregs {
    } else if MustSave(m, p, sets, regno) {
      var j := SaveSize(m, mem, p, regno, m.groupMax);
      if j > 0 {
        RunOneMore(env, m, block, s, p.out, Save(regno, j, mem[(regno, j)]));
        if q in p.saved && (q, 1) in mem {
          assert !Savable(m, p, q);
          SlotOutside(m, mem, regno, j, q);
        }
        SaveScanKeepsSlot(env, m, mem, block, s, InsertSave(p, regno, j, mem[(regno, j)]), sets, regno + j, q, done);
      }
    } else {
      SaveScanKeepsSlot(env, m, mem, block, s, p, sets, regno + 1, q, done);
    }
  }

  /** Up to its execution an insn moves a wrong register at most from its slot back to itself. */
  lemma {:induction false} AtExecWrong(env: Env, m: Machine, mem: SaveMem, block: seq<Insn>, r0: Real, p: Pass, insn: Insn, q: nat, v: int, i: Ideal)
    requires Kept(m, mem, p) && Layout(m, mem) && m.groupMax >= 1 && !insn.code.Marker?
    requires Wrong(mem, p, q, v, i, RealRun(env, m, block, r0, p.out))
    requires q !in Sets(insn) || q in Reads(insn.pattern)
    ensures var e := AtExec(m, mem, p, insn);
      var p1 := BeforeInsn(m, mem, p, insn);
      var s, x := RealRun(env, m, block, r0, p.out), RealRun(env, m, block, r0, e.out);
      && x.trace == s.trace
      && (q in Reads(insn.pattern) ==> x.regs(q) <= v)
      && (q !in p1.need && q !in DeadRegs(insn.notes) ==> x.regs(q) <= v)
      && (q !in Sets(insn) && q !in DeadRegs(insn.notes) ==> x.slots(mem[(q, 1)]) <= v)
  {
    var s := RealRun(env, m, block, r0, p.out);
    var w := if p.count != 0 then Walk(m, mem, p, insn.pattern) else p;
    WalkBrings(env, m, mem, block, r0, p, insn.pattern, SlotValues(mem, s));
    WalkRestores(m, mem, p, insn.pattern);
    ClearDeadDrops(w, insn.notes);
    ReadsWalked(insn.pattern);
    BeforeInsnKeeps(m, mem, p, insn);
    if insn.code.Call? {
      var p1 := BeforeInsn(m, mem, p, insn);
      var p0 := Store(p1, Sets(insn)).(live := p1.live);
      SaveScanKeepsSlot(env, m, mem, block, r0, p0, Sets(insn), 0, q, AtExec(m, mem, p, insn));
    }
  }

  lemma {:induction false} AtExecTrace(env: Env, m: Machine, mem: SaveMem, block: seq<Insn>, r0: Real, p: Pass, insn: Insn)
    requires Kept(m, mem, p) && Layout(m, mem) && m.groupMax >= 1 && !insn.code.Marker?
    ensures RealRun(env, m, block, r0, AtExec(m, mem, p, insn).out).trace == RealRun(env, m, block, r0, p.out).trace
  {
    var s := RealRun(env, m, block, r0, p.out);
    var w := if p.count != 0 then Walk(m, mem, p, insn.pattern) else p;
    WalkBrings(env, m, mem, block, r0, p, insn.pattern, SlotValues(mem, s));
    ClearDeadDrops(w, insn.notes);
    if insn.code.Call? {
      var p1 := BeforeInsn(m, mem, p, insn);
      var p0 := Store(p1, Sets(insn)).(live := p1.live);
      SaveScanKeepsSlot(env, m, mem, block, r0, p0, Sets(insn), 0, 0, AtExec(m, mem, p, insn));
    }
  }

  /** A wrong register that is read shows; one that is not stays wrong. */
  lemma {:induction false} StepWrong(m: Machine, mem: SaveMem, block: seq<Insn>, p: Pass, k: nat, q: nat, v: int, i: Ideal, r0: Real)
    requires k < |block| && v >= 0 && !block[k].code.Marker? && Awaited(block, k, q)
    requires Kept(m, mem, p) && Layout(m, mem) && m.groupMax >= 1 && InsnHasSlots(m, mem, p, block[k])
    requires var s := RealRun(Tagging(block), m, block, r0, p.out);
      i.trace == s.trace && Wrong(mem, p, q, v, i, s)
    ensures var x := RealRun(Tagging(block), m, block, r0, AtExec(m, mem, p, block[k]).out);
      Bad(mem, Step(m, mem, p, block[k], k), q, v, IdealStep(Tagging(block), block[k], k, i), RealInsn(Tagging(block), m, block[k], k, x))
  {
    var insn := block[k];
    var env := Tagging(block);
    var x := RealRun(env, m, block, r0, AtExec(m, mem, p, insn).out);
    AtExecWrong(env, m, mem, block, r0, p, insn, q, v, i);
    if q in Reads(insn.pattern) {
      assert Args(insn, x.regs)[q] != Args(insn, i.regs)[q];
      TraceDiffers(i.trace, x.trace, Args(insn, i.regs), Args(insn, x.regs));
    } else {
      StepOf(m, mem, p, insn, k);
      BeforeInsnKeeps(m, mem, p, insn);
      ExecWrong(m, mem, block, p, k, q, v, i, x);
    }
  }

  lemma {:induction false} TraceDiffers(a: seq<map<nat, int>>, b: seq<map<nat, int>>, x: map<nat, int>, y: map<nat, int>)
    requires |a| == |b| && (a != b || x != y)
    ensures a + [x] != b + [y]
  {
    if x != y {
      assert (a + [x])[|a|] != (b + [y])[|b|];
    } else {
      assert (a + [x])[..|a|] != (b + [y])[..|b|];
    }
  }

  lemma {:induction false} ExecWrong(m: Machine, mem: SaveMem, block: seq<Insn>, p: Pass, k: nat, q: nat, v: int, i: Ideal, x: Real)
    requires k < |block| && v >= 0 && !block[k].code.Marker? && |i.trace| == |x.trace|
    requires q !in Sets(block[k]) && (q, 1) in mem && x.slots(mem[(q, 1)]) <= v < i.regs(q)
    requires var t := Step(m, mem, p, block[k], k);
      q in t.saved && q in t.live && (q !in t.need ==> x.regs(q) <= v)
    ensures Bad(mem, Step(m, mem, p, block[k], k), q, v, IdealStep(Tagging(block), block[k], k, i), RealInsn(Tagging(block), m, block[k], k, x))
  {
  }

  /** The pass state after an insn, through sets alone. */
  lemma {:induction false} StepOf(m: Machine, mem: SaveMem, p: Pass, insn: Insn, index: nat)
    requires Kept(m, mem, p) && Layout(m, mem) && m.groupMax >= 1 && InsnHasSlots(m, mem, p, insn) && !insn.code.Marker?
    ensures var t := Step(m, mem, p, insn, index);
      var p1 := BeforeInsn(m, mem, p, insn);
      && t.saved >= p.saved - DeadRegs(insn.notes) - Sets(insn) - UnusedRegs(insn.notes)
      && t.live >= p.live - DeadRegs(insn.notes) - UnusedRegs(insn.notes)
      && t.need == (if insn.code.Call? then t.saved else p1.need - Sets(insn) - UnusedRegs(insn.notes))
  {
    BeforeInsnKeeps(m, mem, p, insn);
    var p1 := BeforeInsn(m, mem, p, insn);
    var sets := Sets(insn);
    if insn.code.Call? {
      CallSavesExactly(m, mem, p1, sets);
      ClearUnusedDrops(AfterCall(m, CallSaves(m, mem, p1, sets), sets), insn.notes);
    } else {
      ClearUnusedDrops(Store(p1, sets), insn.notes);
    }
  }

  /** One more insn keeps a stale register stale, or has already shown the difference. */
  lemma {:induction false} InsnBad(m: Machine, mem: SaveMem, block: seq<Insn>, p: Pass, k: nat, q: nat, v: int, i: Ideal, r0: Real)
    requires k < |block| && v >= 0 && Kept(m, mem, p) && Layout(m, mem) && m.groupMax >= 1 && InsnHasSlots(m, mem, p, block[k])
    requires !block[k].code.Marker? && (q in p.live ==> Awaited(block, k, q))
    requires Bad(mem, p, q, v, i, RealRun(Tagging(block), m, block, r0, p.out))
    ensures var t := Step(m, mem, p, block[k], k);
      Bad(mem, t, q, v, IdealStep(Tagging(block), block[k], k, i), RealRun(Tagging(block), m, block, r0, t.out))
  {
    var env := Tagging(block);
    var insn := block[k];
    var s := RealRun(env, m, block, r0, p.out);
    StepOrigs(m, mem, p, insn, k);
    RunOneMore(env, m, block, r0, AtExec(m, mem, p, insn).out, Orig(k));
    if i.trace != s.trace {
      AtExecTrace(env, m, mem, block, r0, p, insn);
      TraceDiffers(i.trace, s.trace, Args(insn, i.regs), Args(insn, RealRun(env, m, block, r0, AtExec(m, mem, p, insn).out).regs));
    } else {
      StepWrong(m, mem, block, p, k, q, v, i, r0);
    }
  }

  lemma {:induction false} MarkerBad(m: Machine, mem: SaveMem, block: seq<Insn>, p: Pass, k: nat, q: nat, v: int, i: Ideal, r0: Real)
    requires k < |block| && block[k].code.Marker?
    requires Bad(mem, p, q, v, i, RealRun(Tagging(block), m, block, r0, p.out))
    ensures var t := Step(m, mem, p, block[k], k);
      Bad(mem, t, q, v, IdealStep(Tagging(block), block[k], k, i), RealRun(Tagging(block), m, block, r0, t.out))
  {
    RunOneMore(Tagging(block), m, block, r0, p.out, Orig(k));
    var s := RealRun(Tagging(block), m, block, r0, p.out);
    if i.trace != s.trace {
      TraceDiffers(i.trace, s.trace, map[], map[]);
    }
  }

  ghost predicate BadAt(m: Machine, mem: SaveMem, live: set<nat>, block: seq<Insn>, k: nat, q: nat, v: int)
    requires k <= |block|
  {
    Bad(mem, Scan(m, mem, live, block, k), q, v, IdealRun(Tagging(block), block, ZeroIdeal(), k),
        RealRun(Tagging(block), m, block, ZeroReal(), Scan(m, mem, live, block, k).out))
  }

  lemma {:induction false} NextBad(m: Machine, mem: SaveMem, live: set<nat>, block: seq<Insn>, k: nat, q: nat, v: int)
    requires WellNoted(m, mem, live, block) && ExactNotes(live, block) && k < |block| && v >= 0
    requires BadAt(m, mem, live, block, k, q, v)
    ensures BadAt(m, mem, live, block, k + 1, q, v)
  {
    ScanKeeps(m, mem, live, block, k);
    assert HasSlotsAt(m, mem, live, block, k);
    assert LiveAt(live, block, k, q) ==> Awaited(block, k, q);
    LiveAtIs(m, mem, live, block, k, q);
    hide Kept, Layout, InsnHasSlots, Step, RealRun, IdealRun, Awaited, LiveAt, Tagging, WellNoted, ExactNotes;
    var p := Scan(m, mem, live, block, k);
    var i := IdealRun(Tagging(block), block, ZeroIdeal(), k);
    if block[k].code.Marker? {
      MarkerBad(m, mem, block, p, k, q, v, i, ZeroReal());
    } else {
      InsnBad(m, mem, block, p, k, q, v, i, ZeroReal());
    }
  }

  lemma {:induction false} StaysBad(m: Machine, mem: SaveMem, live: set<nat>, block: seq<Insn>, from: nat, k: nat, q: nat, v: int)
    requires WellNoted(m, mem, live, block) && ExactNotes(live, block) && from <= k <= |block| && v >= 0
    requires BadAt(m, mem, live, block, from, q, v)
    ensures BadAt(m, mem, live, block, k, q, v)
    decreases k
  {
    hide *;
    if k > from {
      StaysBad(m, mem, live, block, from, k - 1, q, v);
      NextBad(m, mem, live, block, k - 1, q, v);
    }
  }

  // ----- Where staleness starts, and where it ends -----

  lemma {:induction false} IdealTraceLength(env: Env, block: seq<Insn>, i: Ideal, k: nat)
    requires k <= |block|
    ensures |IdealRun(env, block, i, k).trace| == |i.trace| + k
  {
    if k > 0 {
      IdealTraceLength(env, block, i, k - 1);
    }
  }

  lemma {:induction false} RealTraceLength(env: Env, m: Machine, block: seq<Insn>, s: Real, out: seq<Out>)
    requires forall x | x in Origs(out) :: x < |block|
    ensures |RealRun(env, m, block, s, out).trace| == |s.trace| + |Origs(out)|
  {
    if |out| > 0 {
      var front := out[..|out| - 1];
      assert forall x | x in Origs(front) :: x in Origs(out);
      RealTraceLength(env, m, block, s, front);
      if out[|out| - 1].Orig? {
        assert out[|out| - 1].index in Origs(out);
      }
    }
  }

  lemma {:induction false} UptoSize(n: nat)
    ensures |Upto(n)| == n
  {
    if n > 0 {
      UptoSize(n - 1);
    }
  }

  /** When insn k is about to run, everything holds at most k, and both traces have length k. */
  lemma {:induction false} BeforeTag(m: Machine, mem: SaveMem, live: set<nat>, block: seq<Insn>, k: nat)
    requires k < |block|
    ensures var x := RealRun(Tagging(block), m, block, ZeroReal(), AtExec(m, mem, Scan(m, mem, live, block, k), block[k]).out);
      Bounded(x, k) && |x.trace| == k == |IdealRun(Tagging(block), block, ZeroIdeal(), k).trace|
  {
    hide Step, BeforeInsn, CallSaves, RealRun, IdealRun, AtExec, Origs;
    var p := Scan(m, mem, live, block, k);
    ScanOrigs(m, mem, live, block, k);
    AtExecOrigs(m, mem, p, block[k]);
    UptoBelow(k);
    UptoSize(k);
    RunBounded(m, block, AtExec(m, mem, p, block[k]).out, k);
    IdealTraceLength(Tagging(block), block, ZeroIdeal(), k);
    RealTraceLength(Tagging(block), m, block, ZeroReal(), AtExec(m, mem, p, block[k]).out);
  }

  /** A call that saves one of its own results leaves it stale. */
  lemma {:induction false} StaleStarts(m: Machine, mem: SaveMem, live: set<nat>, block: seq<Insn>, k: nat, q: nat)
    requires WellNoted(m, mem, live, block) && k < |block| && block[k].code.Call?
    requires q in Sets(block[k]) && q !in UnusedRegs(block[k].notes)
    requires q in AtExec(m, mem, Scan(m, mem, live, block, k), block[k]).saved
    ensures BadAt(m, mem, live, block, k + 1, q, k)
  {
    var env := Tagging(block);
    var p := Scan(m, mem, live, block, k);
    var e := AtExec(m, mem, p, block[k]);
    ScanKeeps(m, mem, live, block, k);
    assert HasSlotsAt(m, mem, live, block, k);
    BeforeTag(m, mem, live, block, k);
    StepOrigs(m, mem, p, block[k], k);
    RunOneMore(env, m, block, ZeroReal(), e.out, Orig(k));
    ScanNext(env, m, mem, live, block, ZeroIdeal(), k);
    CallStep(m, mem, p, block[k], k);
    hide Scan, Step, BeforeInsn, CallSaves, AtExec, IdealRun, RealRun, WellNoted;
  }

  lemma {:induction false} CallStep(m: Machine, mem: SaveMem, p: Pass, insn: Insn, k: nat)
    requires Kept(m, mem, p) && Layout(m, mem) && m.groupMax >= 1 && InsnHasSlots(m, mem, p, insn) && insn.code.Call?
    ensures var e := AtExec(m, mem, p, insn);
      var t := Step(m, mem, p, insn, k);
      && t.saved == e.saved - UnusedRegs(insn.notes) && t.need == t.saved && t.saved <= t.live
      && (forall r | r in e.saved :: (r, 1) in mem)
  {
    BeforeInsnKeeps(m, mem, p, insn);
    CallSavesExactly(m, mem, BeforeInsn(m, mem, p, insn), Sets(insn));
    ClearUnusedDrops(AfterCall(m, AtExec(m, mem, p, insn), Sets(insn)), insn.notes);
  }

  /** At the end of the scan the restores bring a stale value back. */
  lemma {:induction false} EndBad(env: Env, m: Machine, mem: SaveMem, block: seq<Insn>, p: Pass, q: nat, v: int, i: Ideal, r0: Real)
    requires Kept(m, mem, p) && Layout(m, mem) && m.groupMax >= 1
    requires Bad(mem, p, q, v, i, RealRun(env, m, block, r0, p.out))
    ensures !Agree(p.live, i, RealRun(env, m, block, r0, RestoreRange(mem, p, 0, m.nregs, m.groupMax).out))
    ensures p.count == 0 ==> !Agree(p.live, i, RealRun(env, m, block, r0, p.out))
  {
    var s := RealRun(env, m, block, r0, p.out);
    RestoreRangeRestores(mem, p, 0, m.nregs, m.groupMax);
    RestoreRangeBrings(env, m, mem, block, r0, p, 0, m.nregs, m.groupMax, SlotValues(mem, s));
  }

  /** The same when the last restores go in front of a final jump. */
  lemma {:induction false} JumpBad(m: Machine, mem: SaveMem, block: seq<Insn>, p: Pass, k: nat, q: nat, v: int, i: Ideal, r0: Real)
    requires k < |block| && v >= 0 && Kept(m, mem, p) && Layout(m, mem) && m.groupMax >= 1 && InsnHasSlots(m, mem, p, block[k])
    requires block[k].code.Jump? && (q in p.live ==> Awaited(block, k, q))
    requires Bad(mem, p, q, v, i, RealRun(Tagging(block), m, block, r0, p.out))
    requires Step(m, mem, p, block[k], k).count != 0
    ensures var f := Finish(m, mem, Step(m, mem, p, block[k], k), block[k]);
      !Agree(f.live, IdealStep(Tagging(block), block[k], k, i), RealRun(Tagging(block), m, block, r0, f.out))
  {
    var env := Tagging(block);
    var insn := block[k];
    var s := RealRun(env, m, block, r0, p.out);
    var u := JumpFinish(env, m, mem, block, p, k, r0);
    RunOneMore(env, m, block, r0, u.out, Orig(k));
    var x := RealRun(env, m, block, r0, u.out);
    AtExecTrace(env, m, mem, block, r0, p, insn);
    if i.trace != s.trace {
      TraceDiffers(i.trace, x.trace, Args(insn, i.regs), Args(insn, x.regs));
    } else {
      JumpWrong(m, mem, block, p, k, q, v, i, r0, x);
    }
  }

  lemma {:induction false} JumpWrong(m: Machine, mem: SaveMem, block: seq<Insn>, p: Pass, k: nat, q: nat, v: int, i: Ideal, r0: Real, x: Real)
    requires k < |block| && v >= 0 && Kept(m, mem, p) && Layout(m, mem) && m.groupMax >= 1 && InsnHasSlots(m, mem, p, block[k])
    requires block[k].code.Jump? && Awaited(block, k, q)
    requires Wrong(mem, p, q, v, i, RealRun(Tagging(block), m, block, r0, p.out))
    requires var y := RealRun(Tagging(block), m, block, r0, AtExec(m, mem, p, block[k]).out);
      var t := Step(m, mem, p, block[k], k);
      y.trace == i.trace && Brought(y, x, t.need, SlotValues(mem, y)) && t.need !! Walked(block[k].pattern)
    ensures var t := Step(m, mem, p, block[k], k);
      !Agree(t.live, IdealStep(Tagging(block), block[k], k, i), RealInsn(Tagging(block), m, block[k], k, x))
  {
    var insn := block[k];
    AtExecWrong(Tagging(block), m, mem, block, r0, p, insn, q, v, i);
    if q in Reads(insn.pattern) {
      ReadsWalked(insn.pattern);
      assert Args(insn, x.regs)[q] != Args(insn, i.regs)[q];
      TraceDiffers(i.trace, x.trace, Args(insn, i.regs), Args(insn, x.regs));
    } else {
      StepOf(m, mem, p, insn, k);
      BeforeInsnKeeps(m, mem, p, insn);
      assert x.regs(q) <= v;
      UnreadShows(m, block, k, q, v, i, x, Step(m, mem, p, insn, k).live);
    }
  }

  lemma {:induction false} UnreadShows(m: Machine, block: seq<Insn>, k: nat, q: nat, v: int, i: Ideal, x: Real, live: set<nat>)
    requires k < |block| && !block[k].code.Marker? && v >= 0 && q in live
    requires q !in Sets(block[k]) && x.regs(q) <= v < i.regs(q)
    ensures !Agree(live, IdealStep(Tagging(block), block[k], k, i), RealInsn(Tagging(block), m, block[k], k, x))
  {
    assert RealInsn(Tagging(block), m, block[k], k, x).regs(q) <= v;
  }

  /** The machine state in front of a final jump. */
  lemma {:induction false} JumpFinish(env: Env, m: Machine, mem: SaveMem, block: seq<Insn>, p: Pass, k: nat, r0: Real) returns (u: Pass)
    requires k < |block| && Kept(m, mem, p) && Layout(m, mem) && m.groupMax >= 1 && InsnHasSlots(m, mem, p, block[k])
    requires block[k].code.Jump? && Step(m, mem, p, block[k], k).count != 0
    ensures var t := Step(m, mem, p, block[k], k);
      var y, x := RealRun(env, m, block, r0, AtExec(m, mem, p, block[k]).out), RealRun(env, m, block, r0, u.out);
      && Finish(m, mem, t, block[k]) == u.(out := u.out + [Orig(k)]) && u.live == t.live
      && Brought(y, x, t.need, SlotValues(mem, y))
      && t.need !! Walked(block[k].pattern)
  {
    var insn := block[k];
    var e := AtExec(m, mem, p, insn);
    var t := Step(m, mem, p, insn, k);
    var y := RealRun(env, m, block, r0, e.out);
    var front := t.(out := e.out);
    u := RestoreRange(mem, front, 0, m.nregs, m.groupMax);
    JumpFront(m, mem, p, insn, k, y);
    hide *;
    LayoutOverlays(m, mem);
    RestoreRangeRestores(mem, front, 0, m.nregs, m.groupMax);
    FrontRestored(m, mem, t, front, u);
    RestoreRangeBrings(env, m, mem, block, r0, front, 0, m.nregs, m.groupMax, SlotValues(mem, y));
    assert t.need - {} == t.need;
  }

  lemma {:induction false} LayoutOverlays(m: Machine, mem: SaveMem)
    requires Layout(m, mem)
    ensures Overlays(mem)
  {
  }

  lemma {:induction false} FrontRestored(m: Machine, mem: SaveMem, t: Pass, front: Pass, u: Pass)
    requires Kept(m, mem, t) && m.groupMax >= 1 && front.need == t.need && front.live == t.live && front.saved == t.saved && front.count == t.count
    requires u == RestoreRange(mem, front, 0, m.nregs, m.groupMax)
    ensures u.need == {} && u.live == t.live
  {
    RestoreRangeRestores(mem, front, 0, m.nregs, m.groupMax);
    hide RestoreRange;
  }

  /** What a final jump leaves to be restored in front of it. */
  lemma {:induction false} JumpFront(m: Machine, mem: SaveMem, p: Pass, insn: Insn, k: nat, y: Real)
    requires Kept(m, mem, p) && Layout(m, mem) && m.groupMax >= 1 && InsnHasSlots(m, mem, p, insn)
    requires insn.code.Jump? && Step(m, mem, p, insn, k).count != 0
    ensures var e, t := AtExec(m, mem, p, insn), Step(m, mem, p, insn, k);
      && Kept(m, mem, t) && t.need !! Walked(insn.pattern) && SlotsHold(mem, t.need, SlotValues(mem, y), y)
      && Finish(m, mem, t, insn) ==
           var u := RestoreRange(mem, t.(out := e.out), 0, m.nregs, m.groupMax); u.(out := u.out + [Orig(k)])
  {
    var e, t := AtExec(m, mem, p, insn), Step(m, mem, p, insn, k);
    StepOrigs(m, mem, p, insn, k);
    StepKeeps(m, mem, p, insn, k);
    StepOf(m, mem, p, insn, k);
    BeforeInsnKeeps(m, mem, p, insn);
    assert t.out[..|t.out| - 1] == e.out;
    hide Step, AtExec, RestoreRange, Walked, BeforeInsn;
  }

  lemma {:induction false} BadBlock(m: Machine, mem: SaveMem, live: set<nat>, block: seq<Insn>, q: nat, v: int)
    requires WellNoted(m, mem, live, block) && v >= 0 && BadAt(m, mem, live, block, |block|, q, v)
    requires var p := Scan(m, mem, live, block, |block|);
      p.count == 0 || !block[|block| - 1].code.Jump?
    ensures !Simulates(Tagging(block), m, mem, live, block, ZeroIdeal(), ZeroReal())
  {
    var p := Scan(m, mem, live, block, |block|);
    ScanKeeps(m, mem, live, block, |block|);
    EndBad(Tagging(block), m, mem, block, p, q, v, IdealRun(Tagging(block), block, ZeroIdeal(), |block|), ZeroReal());
    RestoreRangeRestores(mem, p, 0, m.nregs, m.groupMax);
    BlockLive(m, mem, live, block);
    hide LiveAfter, Scan;
  }

  lemma {:induction false} BadJumpBlock(m: Machine, mem: SaveMem, live: set<nat>, block: seq<Insn>, q: nat, v: int)
    requires WellNoted(m, mem, live, block) && ExactNotes(live, block) && v >= 0
    requires BadAt(m, mem, live, block, |block| - 1, q, v)
    requires Scan(m, mem, live, block, |block|).count != 0 && block[|block| - 1].code.Jump?
    ensures !Simulates(Tagging(block), m, mem, live, block, ZeroIdeal(), ZeroReal())
  {
    var k := |block| - 1;
    ScanKeeps(m, mem, live, block, k);
    assert HasSlotsAt(m, mem, live, block, k);
    assert LiveAt(live, block, k, q) ==> Awaited(block, k, q);
    LiveAtIs(m, mem, live, block, k, q);
    BlockLive(m, mem, live, block);
    hide LiveAt, LiveAfter, WellNoted, ExactNotes;
    ScanNext(Tagging(block), m, mem, live, block, ZeroIdeal(), k);
    hide Step, Finish, Scan, RealRun, IdealRun, Kept, Layout, Tagging, Bad, Agree, Awaited;
    JumpBad(m, mem, block, Scan(m, mem, live, block, k), k, q, v, IdealRun(Tagging(block), block, ZeroIdeal(), k), ZeroReal());
  }

  /** A stale register makes the rewritten block differ from the original. */
  lemma {:induction false} StaleBreaks(m: Machine, mem: SaveMem, live: set<nat>, block: seq<Insn>, k: nat)
    requires WellNoted(m, mem, live, block) && ExactNotes(live, block)
    requires k < |block| && !NothingStaleAt(m, mem, live, block, k)
    ensures !Simulates(Tagging(block), m, mem, live, block, ZeroIdeal(), ZeroReal())
  {
    hide Step, BeforeInsn, CallSaves, BadAt, WellNoted, ExactNotes;
    var q :| q in AtExec(m, mem, Scan(m, mem, live, block, k), block[k]).saved && q in Sets(block[k]) - UnusedRegs(block[k].notes);
    StaleStarts(m, mem, live, block, k, q);
    if Scan(m, mem, live, block, |block|).count != 0 && block[|block| - 1].code.Jump? {
      StaysBad(m, mem, live, block, k + 1, |block| - 1, q, k);
      BadJumpBlock(m, mem, live, block, q, k);
    } else {
      StaysBad(m, mem, live, block, k + 1, |block|, q, k);
      BadBlock(m, mem, live, block, q, k);
    }
  }

  // ----- The groups that make a result stale -----

  /** What the scan before a call starts from. */
  function BeforeSaves(m: Machine, mem: SaveMem, p: Pass, insn: Insn): Pass {
    var q := BeforeInsn(m, mem, p, insn);
    Store(q, Sets(insn)).(live := q.live)
  }

  /** A group that can be saved, though the call sets one of its registers and uses it: only the
      first register is tested against those the call sets. */
  predicate OverResult(m: Machine, p: Pass, insn: Insn, i: nat, j: nat) {
    && i !in Sets(insn) && AllSavable(m, p, i, j)
    && exists r: nat :: i <= r < i + j && r in Sets(insn) - UnusedRegs(insn.notes)
  }

  ghost predicate ResultInGroup(m: Machine, mem: SaveMem, p: Pass, insn: Insn) {
    insn.code.Call? && exists i: nat, j: nat :: (i, j) in mem && OverResult(m, BeforeSaves(m, mem, p, insn), insn, i, j)
  }

  ghost predicate Scannable(m: Machine, mem: SaveMem, p: Pass, sets: set<nat>) {
    Kept(m, mem, p) && Layout(m, mem) && m.groupMax >= 1 && CallHasSlots(m, mem, p, sets)
  }

  predicate AllSavable(m: Machine, p: Pass, i: nat, j: nat) {
    forall r: nat | i <= r < i + j :: Savable(m, p, r)
  }

  /** One group of the scan. */
  lemma {:induction false} ScanGroup(m: Machine, mem: SaveMem, p: Pass, sets: set<nat>, regno: nat) returns (l: nat, p': Pass)
    requires Scannable(m, mem, p, sets) && MustSave(m, p, sets, regno)
    ensures 1 <= l == SaveSize(m, mem, p, regno, m.groupMax) && (regno, l) in mem && AllSavable(m, p, regno, l)
    ensures Scannable(m, mem, p', sets) && SaveScan(m, mem, p, sets, regno) == SaveScan(m, mem, p', sets, regno + l)
    ensures p'.live == p.live && forall r: nat :: r in p'.saved <==> r in p.saved || regno <= r < regno + l
  {
    assert Endangered(m, p.live, sets, regno);
    l, p' := SaveGroupKeeps(m, mem, p, sets, regno);
    hide SaveScan, Layout;
  }

  lemma {:induction false} ScanPast(m: Machine, mem: SaveMem, p: Pass, sets: set<nat>, regno: nat)
    requires !MustSave(m, p, sets, regno)
    ensures SaveScan(m, mem, p, sets, regno) == if regno < m.nregs then SaveScan(m, mem, p, sets, regno + 1) else p
  {
  }

  /** Whatever the scan saves it saves in a group that could be saved from the start. */
  lemma {:induction false} SavedInGroup(m: Machine, mem: SaveMem, p: Pass, sets: set<nat>, regno: nat, q: nat) returns (i: nat, j: nat)
    requires Scannable(m, mem, p, sets) && q in SaveScan(m, mem, p, sets, regno).saved && q !in p.saved
    ensures (i, j) in mem && i <= q < i + j && i !in sets && AllSavable(m, p, i, j)
    decreases if regno <= m.nregs then m.nregs - regno else 0
  {
    hide SaveScan, Scannable;
    if MustSave(m, p, sets, regno) {
      var l, p' := ScanGroup(m, mem, p, sets, regno);
      InBoundsAt(m, mem, p, sets, regno, l);
      if regno <= q < regno + l {
        i, j := regno, l;
      } else {
        i, j := SavedInGroup(m, mem, p', sets, regno + l, q);
        forall r: nat | i <= r < i + j ensures Savable(m, p, r) {
          assert Savable(m, p', r);
        }
      }
    } else {
      ScanPast(m, mem, p, sets, regno);
      i, j := SavedInGroup(m, mem, p, sets, regno + 1, q);
    }
  }

  lemma {:induction false} InBoundsAt(m: Machine, mem: SaveMem, p: Pass, sets: set<nat>, i: nat, j: nat)
    requires Scannable(m, mem, p, sets) && (i, j) in mem
    ensures 1 <= j <= m.groupMax && i + j <= m.nregs
  {
    assert InBounds(m, mem);
  }

  lemma {:induction false} GroupsApart(mem: SaveMem, i: nat, j: nat, k: nat, l: nat)
    requires Apart(mem) && (i, j) in mem && (k, l) in mem && j > 1 && k < i && l >= 1
    ensures k + l <= i
  {
  }

  /** A group that can be saved, whose first register the call does not set, is saved whole. */
  lemma {:induction false} GroupSaved(m: Machine, mem: SaveMem, p: Pass, sets: set<nat>, regno: nat, i: nat, j: nat)
    requires Scannable(m, mem, p, sets) && Apart(mem)
    requires (i, j) in mem && j > 1 && regno <= i && i !in sets && AllSavable(m, p, i, j)
    ensures forall r: nat | i <= r < i + j :: r in SaveScan(m, mem, p, sets, regno).saved
    decreases i - regno
  {
    hide SaveScan, Scannable, Apart, SaveSize;
    InBoundsAt(m, mem, p, sets, i, j);
    if MustSave(m, p, sets, regno) {
      var l, p' := ScanGroup(m, mem, p, sets, regno);
      if regno == i {
        SaveSizeLargest(m, mem, p, i, m.groupMax, j);
        ScanAdds(m, mem, p', sets, regno + l);
      } else {
        GroupsApart(mem, i, j, regno, l);
        assert AllSavable(m, p', i, j) by {
          forall r: nat | i <= r < i + j ensures Savable(m, p', r) {
            assert Savable(m, p, r);
          }
        }
        GroupSaved(m, mem, p', sets, regno + l, i, j);
      }
    } else {
      assert Savable(m, p, i);
      ScanPast(m, mem, p, sets, regno);
      GroupSaved(m, mem, p, sets, regno + 1, i, j);
    }
  }

  lemma {:induction false} ScanAdds(m: Machine, mem: SaveMem, p: Pass, sets: set<nat>, regno: nat)
    requires Scannable(m, mem, p, sets)
    ensures p.saved <= SaveScan(m, mem, p, sets, regno).saved
  {
    SaveScanSaves(m, mem, p, sets, regno);
  }

  /** A result is saved along with a group exactly when some group over it can be saved. */
  lemma {:induction false} StaleIffGroup(m: Machine, mem: SaveMem, p: Pass, insn: Insn)
    requires Kept(m, mem, p) && Layout(m, mem) && Apart(mem) && m.groupMax >= 1 && InsnHasSlots(m, mem, p, insn)
    ensures NothingStale(m, mem, p, insn) <==> !ResultInGroup(m, mem, p, insn)
  {
    if insn.code.Call? {
      var sets, p0 := ScanFrom(m, mem, p, insn);
      hide *;
      if i: nat, j: nat :| (i, j) in mem && OverResult(m, p0, insn, i, j) {
        GroupTaken(m, mem, p0, insn, i, j);
      }
      StaleByGroup(m, mem, p, p0, insn);
    }
  }

  /** The state the scan before a call starts from, and what it decides. */
  lemma {:induction false} ScanFrom(m: Machine, mem: SaveMem, p: Pass, insn: Insn) returns (sets: set<nat>, p0: Pass)
    requires Kept(m, mem, p) && Layout(m, mem) && m.groupMax >= 1 && InsnHasSlots(m, mem, p, insn) && insn.code.Call?
    ensures sets == Sets(insn) && p0 == BeforeSaves(m, mem, p, insn) && Scannable(m, mem, p0, sets) && p0.saved !! sets
    ensures NothingStale(m, mem, p, insn) <==> SaveScan(m, mem, p0, sets, 0).saved !! sets - UnusedRegs(insn.notes)
    ensures ResultInGroup(m, mem, p, insn) <==> exists i: nat, j: nat :: (i, j) in mem && OverResult(m, p0, insn, i, j)
  {
    var p1 := BeforeInsn(m, mem, p, insn);
    sets, p0 := Sets(insn), BeforeSaves(m, mem, p, insn);
    BeforeInsnKeeps(m, mem, p, insn);
    RemovingKeeps(m, mem, p1, p0, sets);
    assert sets == StoresOf(insn.pattern);
    hide BeforeInsn, SaveScan, StoresOf, UnusedRegs, OverResult;
  }

  lemma {:induction false} GroupTaken(m: Machine, mem: SaveMem, p0: Pass, insn: Insn, i: nat, j: nat)
    requires Scannable(m, mem, p0, Sets(insn)) && Apart(mem) && (i, j) in mem && OverResult(m, p0, insn, i, j)
    ensures !(SaveScan(m, mem, p0, Sets(insn), 0).saved !! Sets(insn) - UnusedRegs(insn.notes))
  {
    hide SaveScan, Scannable, Apart, Sets, UnusedRegs, AllSavable;
    GroupSaved(m, mem, p0, Sets(insn), 0, i, j);
  }

  lemma {:induction false} StaleByGroup(m: Machine, mem: SaveMem, p: Pass, p0: Pass, insn: Insn)
    requires Scannable(m, mem, p0, Sets(insn)) && p0.saved !! Sets(insn)
    ensures !(SaveScan(m, mem, p0, Sets(insn), 0).saved !! Sets(insn) - UnusedRegs(insn.notes)) ==>
      exists i: nat, j: nat :: (i, j) in mem && OverResult(m, p0, insn, i, j)
  {
    hide SaveScan, Scannable, Sets, UnusedRegs, AllSavable;
    if q: nat :| q in SaveScan(m, mem, p0, Sets(insn), 0).saved && q in Sets(insn) - UnusedRegs(insn.notes) {
      var i, j := SavedInGroup(m, mem, p0, Sets(insn), 0, q);
      assert OverResult(m, p0, insn, i, j);
    }
  }

  /** Caller-save insertion is right for a block, whatever its insns compute, exactly when no call
      of the block has one of its own results saved along with a group. */
  lemma {:induction false} RightIffNeverStale(m: Machine, mem: SaveMem, live: set<nat>, block: seq<Insn>)
    requires WellNoted(m, mem, live, block) && ExactNotes(live, block)
    ensures (forall env: Env, i: Ideal, s: Real | Agree(live, i, s) :: Simulates(env, m, mem, live, block, i, s))
            <==> NeverStale(m, mem, live, block)
  {
    if NeverStale(m, mem, live, block) {
      forall env: Env, i: Ideal, s: Real | Agree(live, i, s) ensures Simulates(env, m, mem, live, block, i, s) {
        BlockSimulates(env, m, mem, live, block, i, s);
      }
    } else {
      var k :| 0 <= k < |block| && !NothingStaleAt(m, mem, live, block, k);
      StaleBreaks(m, mem, live, block, k);
      assert Agree(live, ZeroIdeal(), ZeroReal());
    }
  }

  ghost predicate ResultInGroupAt(m: Machine, mem: SaveMem, live: set<nat>, block: seq<Insn>, k: nat)
    requires k < |block|
  {
    ResultInGroup(m, mem, Scan(m, mem, live, block, k), block[k])
  }

  lemma {:induction false} StaleIffGroupAt(m: Machine, mem: SaveMem, live: set<nat>, block: seq<Insn>, k: nat)
    requires WellNoted(m, mem, live, block) && Apart(mem) && k < |block|
    ensures NothingStaleAt(m, mem, live, block, k) <==> !ResultInGroupAt(m, mem, live, block, k)
  {
    ScanKeeps(m, mem, live, block, k);
    assert HasSlotsAt(m, mem, live, block, k);
    hide Scan, TruthfulAt, Kept;
    StaleIffGroup(m, mem, Scan(m, mem, live, block, k), block[k]);
  }

  /** Insertion is right for a block, whatever its insns compute, exactly when at no call there is a
      group of savable registers whose first the call does not set and another of which it sets and uses. */
  lemma {:induction false} InsertionRightIff(m: Machine, mem: SaveMem, live: set<nat>, block: seq<Insn>)
    requires WellNoted(m, mem, live, block) && ExactNotes(live, block) && Apart(mem)
    ensures (forall env: Env, i: Ideal, s: Real | Agree(live, i, s) :: Simulates(env, m, mem, live, block, i, s))
            <==> forall k | 0 <= k < |block| :: !ResultInGroupAt(m, mem, live, block, k)
  {
    RightIffNeverStale(m, mem, live, block);
    forall k | 0 <= k < |block| ensures NothingStaleAt(m, mem, live, block, k) <==> !ResultInGroupAt(m, mem, live, block, k) {
      StaleIffGroupAt(m, mem, live, block, k);
    }
    hide WellNoted, ExactNotes, NothingStaleAt, ResultInGroupAt, Simulates, Agree;
  }

  // ----- A concrete block that insertion breaks -----

  const TWO_REGS := Machine(2, 2, {0, 1}, {}, {})
  const PAIR_SLOT: SaveMem := map[(0, 2) := 0, (0, 1) := 0, (1, 1) := 1]

  /** A call that takes its argument in register 1 and returns its result there, while register 0
      is live across it: f(x) in `y + f(x)`. */
  const CALL_BLOCK := [Insn(Call, Set(Reg(1, 1), Op([Reg(1, 1)])), [])]

  lemma {:induction false} PairSaved()
    ensures Layout(TWO_REGS, PAIR_SLOT)
    ensures var p := BeforeInsn(TWO_REGS, PAIR_SLOT, Start({0, 1}), CALL_BLOCK[0]);
      p == Start({0, 1}) && 1 in CallSaves(TWO_REGS, PAIR_SLOT, p, {1}).saved
  {
    var m, mem, p := TWO_REGS, PAIR_SLOT, Start({0, 1});
    assert Layout(m, mem);
    assert BeforeInsn(m, mem, p, CALL_BLOCK[0]) == p;
    var p0 := Store(p, {1}).(live := p.live);
    assert MustSave(m, p0, {1}, 0) && forall r | 0 <= r < 2 :: Savable(m, p0, r);
    assert SaveSize(m, mem, p0, 0, 2) == 2;
    var p1 := InsertSave(p0, 0, 2, 0);
    assert SaveScan(m, mem, p0, {1}, 0) == SaveScan(m, mem, p1, {1}, 2) == p1;
  }

  lemma {:induction false} PairNotes()
    ensures Reads(CALL_BLOCK[0].pattern) == {1} && Sets(CALL_BLOCK[0]) == {1}
    ensures forall r: nat | r < 2 :: Awaited(CALL_BLOCK, 0, r) && Awaited(CALL_BLOCK, 1, r)
  {
    assert CALL_BLOCK[0].pattern.src.args[..0] == [];
    assert Reads(CALL_BLOCK[0].pattern) == {1};
  }

  lemma {:induction false} PairStart()
    ensures Scan(TWO_REGS, PAIR_SLOT, {0, 1}, CALL_BLOCK, 0) == Start({0, 1})
    ensures !NothingStaleAt(TWO_REGS, PAIR_SLOT, {0, 1}, CALL_BLOCK, 0)
    ensures HasSlotsAt(TWO_REGS, PAIR_SLOT, {0, 1}, CALL_BLOCK, 0) && TruthfulAt(TWO_REGS, {0, 1}, CALL_BLOCK, 0)
  {
    PairSaved();
    PairNotes();
    assert Scan(TWO_REGS, PAIR_SLOT, {0, 1}, CALL_BLOCK, 0) == Start({0, 1});
    hide CallSaves, BeforeInsn, Scan, Sets, Reads, Awaited, Layout;
  }

  lemma {:induction false} PairHypotheses()
    ensures WellNoted(TWO_REGS, PAIR_SLOT, {0, 1}, CALL_BLOCK)
    ensures ExactNotes({0, 1}, CALL_BLOCK)
    ensures !NothingStaleAt(TWO_REGS, PAIR_SLOT, {0, 1}, CALL_BLOCK, 0)
  {
    PairSaved();
    PairNotes();
    PairStart();
    hide CallSaves, BeforeInsn, Scan, Reads, Sets, LiveAt, HasSlotsAt, TruthfulAt, NothingStaleAt, Awaited, Layout;
    forall k: nat, r: nat | k <= |CALL_BLOCK| && LiveAt({0, 1}, CALL_BLOCK, k, r) ensures Awaited(CALL_BLOCK, k, r) {
      assert k == 0 || k == 1;
      PairLive(k, r);
    }
  }

  lemma {:induction false} PairLive(k: nat, r: nat)
    requires k <= 1 && LiveAt({0, 1}, CALL_BLOCK, k, r)
    ensures r < 2
  {
    if k == 1 {
      PairNotes();
      assert LiveAfter({0, 1}, CALL_BLOCK, 0) == {0, 1} && Changed(CALL_BLOCK[0].pattern) == {1};
      hide Gone, Changed;
    }
  }

  /** All the hypotheses hold, and yet the rewritten block is wrong. */
  lemma {:induction false} PairSavedAroundResult()
    ensures WellNoted(TWO_REGS, PAIR_SLOT, {0, 1}, CALL_BLOCK) && ExactNotes({0, 1}, CALL_BLOCK)
    ensures !NeverStale(TWO_REGS, PAIR_SLOT, {0, 1}, CALL_BLOCK)
    ensures !Simulates(Tagging(CALL_BLOCK), TWO_REGS, PAIR_SLOT, {0, 1}, CALL_BLOCK, ZeroIdeal(), ZeroReal())
  {
    hide WellNoted, ExactNotes, NothingStaleAt, Simulates, Tagging;
    PairHypotheses();
    StaleBreaks(TWO_REGS, PAIR_SLOT, {0, 1}, CALL_BLOCK, 0);
  }
}
