/** The main results about caller-save insertion: simulation of a block, simulation of whole runs
    over a flow graph, and the exact condition under which insertion is right. */
module CallerSaveTheorem {
  import opened CallerSaveSpec
  import opened CallerSaveInvariant
  import opened CallerSaveSimulation

  /** The slot table is laid out, slots exist where a call needs them, and the notes are truthful. */
  ghost predicate WellNoted(m: Machine, mem: SaveMem, live: set<nat>, block: seq<Insn>) {
    && Layout(m, mem) && m.groupMax >= 1 && |block| > 0 && BlockHasSlots(m, mem, live, block)
    && forall k | 0 <= k < |block| :: TruthfulAt(m, live, block, k)
  }

  /** An insn reads only registers that are live, and what a call destroys of those that stay so is not fixed. */
  ghost predicate TruthfulAt(m: Machine, live: set<nat>, block: seq<Insn>, k: nat)
    requires k < |block|
  {
    var insn, before := block[k], LiveAfter(live, block, k);
    && (!insn.code.Marker? ==> Reads(insn.pattern) <= before)
    && (insn.code.Call? ==> forall r: nat | r in before - Gone(insn.notes, true) && Destroyed(m, insn, r) :: r !in m.callFixed)
  }

  lemma {:induction false} TruthfulIs(m: Machine, mem: SaveMem, live: set<nat>, block: seq<Insn>, k: nat)
    requires k < |block|
    ensures TruthfulAt(m, live, block, k) <==> Truthful(m, mem, Scan(m, mem, live, block, k), block[k])
  {
    ScanLive(m, mem, live, block, k);
    BeforeInsnLive(m, mem, Scan(m, mem, live, block, k), block[k]);
    hide Scan, BeforeInsn, LiveAfter, Gone, Reads, Destroyed;
  }

  /** No call of the block has one of its own results saved along with a group. */
  ghost predicate NeverStale(m: Machine, mem: SaveMem, live: set<nat>, block: seq<Insn>) {
    forall k | 0 <= k < |block| :: NothingStaleAt(m, mem, live, block, k)
  }

  ghost predicate NothingStaleAt(m: Machine, mem: SaveMem, live: set<nat>, block: seq<Insn>, k: nat)
    requires k < |block|
  {
    NothingStale(m, mem, Scan(m, mem, live, block, k), block[k])
  }

  ghost predicate Agree(live: set<nat>, i: Ideal, s: Real) {
    s.world == i.world && s.trace == i.trace && forall r: nat | r in live :: s.regs(r) == i.regs(r)
  }

  /** The rewritten block gives every insn the register values it reads in the original, the same
      world, and the same live registers at the end. */
  ghost predicate Simulates(env: Env, m: Machine, mem: SaveMem, live: set<nat>, block: seq<Insn>, i: Ideal, s: Real)
    requires |block| > 0
  {
    var p := Block(m, mem, live, block);
    Agree(LiveAfter(live, block, |block|), IdealRun(env, block, i, |block|), RealRun(env, m, block, s, p.out))
  }

  lemma {:induction false} ScanNext(env: Env, m: Machine, mem: SaveMem, live: set<nat>, block: seq<Insn>, i: Ideal, k: nat)
    requires k < |block|
    ensures Scan(m, mem, live, block, k + 1) == Step(m, mem, Scan(m, mem, live, block, k), block[k], k)
    ensures IdealRun(env, block, i, k + 1) == IdealStep(env, block[k], k, IdealRun(env, block, i, k))
  {
    hide Step, IdealStep;
  }

  ghost predicate SimAt(env: Env, m: Machine, mem: SaveMem, live: set<nat>, block: seq<Insn>, i: Ideal, s: Real, k: nat)
    requires k <= |block|
  {
    Sim(mem, Scan(m, mem, live, block, k), IdealRun(env, block, i, k), RealRun(env, m, block, s, Scan(m, mem, live, block, k).out))
  }

  lemma {:induction false} ScanSim(env: Env, m: Machine, mem: SaveMem, live: set<nat>, block: seq<Insn>, i: Ideal, s: Real, k: nat)
    requires WellNoted(m, mem, live, block) && k <= |block|
    requires forall j | 0 <= j < k :: NothingStaleAt(m, mem, live, block, j)
    requires Agree(live, i, s)
    ensures SimAt(env, m, mem, live, block, i, s, k)
  {
    hide *;
    if k == 0 {
      StartSim(env, m, mem, live, block, i, s);
    } else {
      ScanSim(env, m, mem, live, block, i, s, k - 1);
      ScanStepSim(env, m, mem, live, block, i, s, k - 1);
    }
  }

  lemma {:induction false} StartSim(env: Env, m: Machine, mem: SaveMem, live: set<nat>, block: seq<Insn>, i: Ideal, s: Real)
    requires Agree(live, i, s)
    ensures SimAt(env, m, mem, live, block, i, s, 0)
  {
    assert Scan(m, mem, live, block, 0) == Start(live);
    hide Scan;
  }

  lemma {:induction false} ScanStepSim(env: Env, m: Machine, mem: SaveMem, live: set<nat>, block: seq<Insn>, i: Ideal, s: Real, k: nat)
    requires WellNoted(m, mem, live, block) && k < |block| && NothingStaleAt(m, mem, live, block, k)
    requires SimAt(env, m, mem, live, block, i, s, k)
    ensures SimAt(env, m, mem, live, block, i, s, k + 1)
  {
    ScanKeeps(m, mem, live, block, k);
    assert HasSlotsAt(m, mem, live, block, k) && TruthfulAt(m, live, block, k);
    TruthfulIs(m, mem, live, block, k);
    ScanNext(env, m, mem, live, block, i, k);
    hide Step, IdealStep, Scan, RealRun, IdealRun;
    StepSim(env, m, mem, block, s, Scan(m, mem, live, block, k), k, IdealRun(env, block, i, k));
  }

  /** After the scan a kept pass state finishes with nothing left to restore. */
  lemma {:induction false} FinalRestores(m: Machine, mem: SaveMem, p: Pass, out: seq<Out>)
    requires Kept(m, mem, p) && m.groupMax >= 1
    ensures RestoreRange(mem, p.(out := out), 0, m.nregs, m.groupMax).need == {}
    ensures p.count == 0 ==> p.need == {}
  {
    RestoreRangeRestores(mem, p.(out := out), 0, m.nregs, m.groupMax);
  }

  /** The pass state after a jump, and its chain. */
  lemma {:induction false} JumpStep(m: Machine, mem: SaveMem, p: Pass, insn: Insn, index: nat)
    requires insn.code.Jump? && Kept(m, mem, p) && m.groupMax >= 1
    ensures var e := BeforeInsn(m, mem, p, insn);
      var t := Step(m, mem, p, insn, index);
      && t.out == e.out + [Orig(index)] && t.out[..|t.out| - 1] == e.out
      && t.need == e.need - Sets(insn) - UnusedRegs(insn.notes) && t.need <= e.saved
      && t.live == e.live + Sets(insn) - UnusedRegs(insn.notes)
      && e.need !! Walked(insn.pattern)
      && (forall r | r in t.need :: r < m.nregs && (r, 1) in mem)
  {
    BeforeInsnKeeps(m, mem, p, insn);
    ClearUnusedDrops(Store(BeforeInsn(m, mem, p, insn), Sets(insn)), insn.notes);
    assert (BeforeInsn(m, mem, p, insn).out + [Orig(index)])[..|BeforeInsn(m, mem, p, insn).out|] == BeforeInsn(m, mem, p, insn).out;
  }

  /** What the restores in front of a final jump leave for the jump to run on. */
  lemma {:induction false} JumpRestores(env: Env, m: Machine, mem: SaveMem, block: seq<Insn>, s: Real, p: Pass, insn: Insn, index: nat, i: Ideal) returns (u: Pass)
    requires insn.code.Jump?
    requires Kept(m, mem, p) && Layout(m, mem) && m.groupMax >= 1 && InsnHasSlots(m, mem, p, insn) && Truthful(m, mem, p, insn)
    requires Sim(mem, p, i, RealRun(env, m, block, s, p.out))
    ensures var t := Step(m, mem, p, insn, index);
      && |t.out| > 0 && t.out[|t.out| - 1] == Orig(index)
      && u == RestoreRange(mem, t.(out := t.out[..|t.out| - 1]), 0, m.nregs, m.groupMax) && u.live == t.live
    ensures var x := RealRun(env, m, block, s, u.out);
      && x.world == i.world && x.trace == i.trace
      && (forall r: nat | r in Reads(insn.pattern) :: x.regs(r) == i.regs(r))
      && (forall r: nat | r in u.live && r !in Sets(insn) :: x.regs(r) == i.regs(r))
  {
    var e := BeforeInsn(m, mem, p, insn);
    var t := Step(m, mem, p, insn, index);
    JumpStep(m, mem, p, insn, index);
    AtExecSim(env, m, mem, block, s, p, insn, i);
    BeforeInsnSim(env, m, mem, block, s, p, insn, i);
    hide Step, BeforeInsn, RestoreRange, RealRun, Walked, Reads, StoresOf;
    var front := t.(out := e.out);
    RestoreRangeRestores(mem, front, 0, m.nregs, m.groupMax);
    RestoreRangeBrings(env, m, mem, block, s, front, 0, m.nregs, m.groupMax, i.regs);
    u := RestoreRange(mem, front, 0, m.nregs, m.groupMax);
    assert t.need - u.need == t.need;
  }

  /** A final jump runs after the last restores. */
  lemma {:induction false} JumpSim(env: Env, m: Machine, mem: SaveMem, block: seq<Insn>, s: Real, p: Pass, index: nat, i: Ideal)
    requires index < |block| && block[index].code.Jump?
    requires Kept(m, mem, p) && Layout(m, mem) && m.groupMax >= 1 && InsnHasSlots(m, mem, p, block[index])
    requires Truthful(m, mem, p, block[index])
    requires Sim(mem, p, i, RealRun(env, m, block, s, p.out))
    requires Step(m, mem, p, block[index], index).count != 0
    ensures var q := Finish(m, mem, Step(m, mem, p, block[index], index), block[index]);
      Agree(q.live, IdealStep(env, block[index], index, i), RealRun(env, m, block, s, q.out))
  {
    var u := JumpRestores(env, m, mem, block, s, p, block[index], index, i);
    RunOneMore(env, m, block, s, u.out, Orig(index));
    ExecAgrees(env, m, block[index], index, i, RealRun(env, m, block, s, u.out));
  }

  /** Caller-save insertion preserves the meaning of a block, whatever the insns compute, whatever
      calls destroy, and whatever the registers and slots held at the start. */
  lemma {:induction false} BlockSimulates(env: Env, m: Machine, mem: SaveMem, live: set<nat>, block: seq<Insn>, i: Ideal, s: Real)
    requires WellNoted(m, mem, live, block) && NeverStale(m, mem, live, block)
    requires Agree(live, i, s)
    ensures Simulates(env, m, mem, live, block, i, s)
  {
    var n := |block|;
    ScanKeeps(m, mem, live, block, n);
    assert Layout(m, mem) && m.groupMax >= 1;
    hide *;
    ScanSim(env, m, mem, live, block, i, s, n);
    if Scan(m, mem, live, block, n).count != 0 && block[n - 1].code.Jump? {
      JumpAtEnd(env, m, mem, live, block, i, s);
    } else {
      OtherAtEnd(env, m, mem, live, block, i, s);
    }
  }

  lemma {:induction false} JumpAtEnd(env: Env, m: Machine, mem: SaveMem, live: set<nat>, block: seq<Insn>, i: Ideal, s: Real)
    requires WellNoted(m, mem, live, block) && NeverStale(m, mem, live, block) && Agree(live, i, s)
    requires block[|block| - 1].code.Jump? && Scan(m, mem, live, block, |block|).count != 0
    ensures Simulates(env, m, mem, live, block, i, s)
  {
    hide Scan, InsnHasSlots, Truthful, NothingStale, Kept, Layout, Agree, Simulates, HasSlotsAt, TruthfulAt, NothingStaleAt, SimAt;
    var n := |block|;
    ScanKeeps(m, mem, live, block, n - 1);
    assert HasSlotsAt(m, mem, live, block, n - 1) && TruthfulAt(m, live, block, n - 1);
    ScanSim(env, m, mem, live, block, i, s, n - 1);
    JumpLast(env, m, mem, live, block, i, s);
  }

  lemma {:induction false} BlockLive(m: Machine, mem: SaveMem, live: set<nat>, block: seq<Insn>)
    requires |block| > 0
    ensures Block(m, mem, live, block).live == LiveAfter(live, block, |block|)
  {
    ScanLive(m, mem, live, block, |block|);
    FinishLive(m, mem, Scan(m, mem, live, block, |block|), block[|block| - 1]);
    hide Scan, Finish, LiveAfter;
  }

  lemma {:induction false} JumpLast(env: Env, m: Machine, mem: SaveMem, live: set<nat>, block: seq<Insn>, i: Ideal, s: Real)
    requires |block| > 0 && block[|block| - 1].code.Jump? && Scan(m, mem, live, block, |block|).count != 0
    requires Layout(m, mem) && m.groupMax >= 1 && Kept(m, mem, Scan(m, mem, live, block, |block| - 1))
    requires HasSlotsAt(m, mem, live, block, |block| - 1) && TruthfulAt(m, live, block, |block| - 1)
    requires SimAt(env, m, mem, live, block, i, s, |block| - 1)
    ensures Simulates(env, m, mem, live, block, i, s)
  {
    var n := |block|;
    hide Kept, Truthful, Layout, InsnHasSlots, Scan, Step, RealRun, IdealRun, IdealStep, Sim, Finish, Agree;
    ScanNext(env, m, mem, live, block, i, n - 1);
    TruthfulIs(m, mem, live, block, n - 1);
    BlockLive(m, mem, live, block);
    JumpSim(env, m, mem, block, s, Scan(m, mem, live, block, n - 1), n - 1, IdealRun(env, block, i, n - 1));
  }

  lemma {:induction false} OtherAtEnd(env: Env, m: Machine, mem: SaveMem, live: set<nat>, block: seq<Insn>, i: Ideal, s: Real)
    requires |block| > 0 && Layout(m, mem) && m.groupMax >= 1 && Kept(m, mem, Scan(m, mem, live, block, |block|))
    requires !block[|block| - 1].code.Jump? || Scan(m, mem, live, block, |block|).count == 0
    requires SimAt(env, m, mem, live, block, i, s, |block|)
    ensures Simulates(env, m, mem, live, block, i, s)
  {
    hide Scan, Step, RealRun, IdealRun, RestoreRange, Walk;
    var p := Scan(m, mem, live, block, |block|);
    BlockLive(m, mem, live, block);
    FinalRestores(m, mem, p, p.out);
    assert p.(out := p.out) == p;
    if p.count != 0 {
      RestoreRangeRestores(mem, p, 0, m.nregs, m.groupMax);
      RestoreRangeBrings(env, m, mem, block, s, p, 0, m.nregs, m.groupMax, IdealRun(env, block, i, |block|).regs);
    }
  }

  /** When only single words can be moved (MOVE_MAX == UNITS_PER_WORD) nothing can be stale. */
  lemma {:induction false} SingleWordNeverStale(m: Machine, mem: SaveMem, live: set<nat>, block: seq<Insn>)
    requires m.groupMax == 1
    ensures NeverStale(m, mem, live, block)
  {
    forall k | 0 <= k < |block| ensures NothingStaleAt(m, mem, live, block, k) {
      var p := BeforeInsn(m, mem, Scan(m, mem, live, block, k), block[k]);
      SingleWordScan(m, mem, Store(p, Sets(block[k])).(live := p.live), Sets(block[k]), 0);
    }
  }

  lemma {:induction false} SingleWordScan(m: Machine, mem: SaveMem, p: Pass, sets: set<nat>, regno: nat)
    requires m.groupMax == 1 && p.saved !! sets
    ensures SaveScan(m, mem, p, sets, regno).saved !! sets
    decreases m.nregs - regno
  {
    if regno >= m.nregs {
    } else if MustSave(m, p, sets, regno) {
      var j := SaveSize(m, mem, p, regno, m.groupMax);
      if j == 1 {
        SingleWordScan(m, mem, InsertSave(p, regno, 1, mem[(regno, 1)]), sets, regno + 1);
      }
    } else {
      SingleWordScan(m, mem, p, sets, regno + 1);
    }
  }

  // ----- Whole runs -----

  datatype BasicBlock = BasicBlock(live: set<nat>, insns: seq<Insn>)

  /** Control leaves a block for next(block, world). */
  datatype Program = Program(blocks: seq<BasicBlock>, envs: nat -> Env, next: (nat, int) -> nat)

  ghost predicate ProgramOk(m: Machine, mem: SaveMem, g: Program) {
    && (forall b | 0 <= b < |g.blocks| ::
          WellNoted(m, mem, g.blocks[b].live, g.blocks[b].insns) && NeverStale(m, mem, g.blocks[b].live, g.blocks[b].insns))
    && (forall b, w: int | 0 <= b < |g.blocks| && g.next(b, w) < |g.blocks| ::
          g.blocks[g.next(b, w)].live <= LiveAfter(g.blocks[b].live, g.blocks[b].insns, |g.blocks[b].insns|))
  }

  /** The block reached and the state there after t blocks; a block number outside the graph ends the run. */
  function IdealBlocks(g: Program, b: nat, s: Ideal, t: nat): (nat, Ideal)
    decreases t
  {
    if t == 0 || b >= |g.blocks| then (b, s)
    else
      var s' := IdealRun(g.envs(b), g.blocks[b].insns, s, |g.blocks[b].insns|);
      IdealBlocks(g, g.next(b, s'.world), s', t - 1)
  }

  function RealBlocks(m: Machine, mem: SaveMem, g: Program, b: nat, s: Real, t: nat): (nat, Real)
    requires forall k | 0 <= k < |g.blocks| :: |g.blocks[k].insns| > 0
    decreases t
  {
    if t == 0 || b >= |g.blocks| then (b, s)
    else
      var s' := RealRun(g.envs(b), m, g.blocks[b].insns, s, Block(m, mem, g.blocks[b].live, g.blocks[b].insns).out);
      RealBlocks(m, mem, g, g.next(b, s'.world), s', t - 1)
  }

  /** Every run of a function with saves and restores inserted follows the original run block for
      block, with the same values read, the same world and the same live registers. */
  lemma {:induction false} RunSimulates(m: Machine, mem: SaveMem, g: Program, b: nat, i: Ideal, s: Real, t: nat)
    requires ProgramOk(m, mem, g)
    requires b < |g.blocks| ==> Agree(g.blocks[b].live, i, s)
    requires s.world == i.world && s.trace == i.trace
    ensures var x := IdealBlocks(g, b, i, t);
      var y := RealBlocks(m, mem, g, b, s, t);
      && x.0 == y.0 && x.1.world == y.1.world && x.1.trace == y.1.trace
      && (x.0 < |g.blocks| ==> Agree(g.blocks[x.0].live, x.1, y.1))
    decreases t
  {
    hide Block, IdealRun, RealRun, NeverStale;
    if t > 0 && b < |g.blocks| {
      var blk := g.blocks[b];
      BlockSimulates(g.envs(b), m, mem, blk.live, blk.insns, i, s);
      var i' := IdealRun(g.envs(b), blk.insns, i, |blk.insns|);
      var s' := RealRun(g.envs(b), m, blk.insns, s, Block(m, mem, blk.live, blk.insns).out);
      RunSimulates(m, mem, g, g.next(b, i'.world), i', s', t - 1);
    }
  }
}
