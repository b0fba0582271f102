/** What caller-save insertion is for: a block with the inserted saves and restores, run on a
    machine whose calls destroy call-used registers, behaves like the original block run on a
    machine whose calls preserve them. */
module CallerSaveSimulation {
  import opened CallerSaveSpec
  import opened CallerSaveInvariant

  /** `effect` gives, for the insn at an index, the values it stores and the new state of the rest
      of the world (memory, condition codes, control flow) from the registers it reads and the
      world; `junk` is what a call, in the world it meets, leaves in the registers it destroys. */
  datatype Env = Env(effect: (nat, map<nat, int>, int) -> (map<nat, int>, int), junk: (nat, nat, int) -> int)

  /** `trace` records the register values each insn has read. */
  datatype Ideal = Ideal(regs: nat -> int, world: int, trace: seq<map<nat, int>>)
  datatype Real = Real(regs: nat -> int, slots: nat -> int, world: int, trace: seq<map<nat, int>>)

  /** The hard registers whose values an insn pattern uses.  Storing a whole register, or a
      subregister of one, does not use it; storing a bit-field of one does. */
  function Reads(x: Rtx): set<nat>
    decreases x, 0
  {
    match x
    case Clobber(_) => {}
    case Reg(r, n) => Range(r, n)
    case Pseudo(home) => Reads(home)
    case Leaf => {}
    case Subreg(inner, _, _) => Reads(inner)
    case Extract(inner, args) => ReadsSeq(args) + Reads(inner)
    case Set(d, s) => Reads(s) + (if d.Reg? || (d.Subreg? && d.inner.Reg?) then {} else Reads(d))
    case Parallel(vec) => ReadsSeq(vec)
    case Op(args) => ReadsSeq(args)
  }

  function ReadsSeq(xs: seq<Rtx>): set<nat>
    decreases xs, 0
  {
    if |xs| == 0 then {} else Reads(xs[|xs| - 1]) + ReadsSeq(xs[..|xs| - 1])
  }

  lemma {:induction false} ReadsWalked(x: Rtx)
    ensures Reads(x) <= Walked(x)
    decreases x, 0
  {
    match x
    case Clobber(_) =>
    case Reg(_, _) =>
    case Pseudo(home) => ReadsWalked(home);
    case Leaf =>
    case Subreg(inner, _, _) => ReadsWalked(inner);
    case Extract(inner, args) => ReadsSeqWalked(args); ReadsWalked(inner);
    case Set(d, s) => ReadsWalked(s); ReadsWalked(d);
    case Parallel(vec) => ReadsSeqWalked(vec);
    case Op(args) => ReadsSeqWalked(args);
  }

  lemma {:induction false} ReadsSeqWalked(xs: seq<Rtx>)
    ensures ReadsSeq(xs) <= WalkedSeq(xs)
    decreases xs, 0
  {
    if |xs| > 0 {
      ReadsWalked(xs[|xs| - 1]);
      ReadsSeqWalked(xs[..|xs| - 1]);
    }
  }

  /** The hard registers a store into `dest` changes: those of a register; in a subregister those of
      the register from the word it selects on; in a part of something those of the whole. */
  function ChangedAt(dest: Rtx): set<nat> {
    match dest
    case Reg(regno, n) => Range(regno, n)
    case Subreg(inner, word, n) =>
      if inner.Reg? then Range(inner.regno, word + n) - Range(inner.regno, word) else ChangedAt(inner)
    case Extract(inner, _) => ChangedAt(inner)
    case _ => {}
  }

  function ChangedBy(x: Rtx): set<nat> {
    if x.Set? || x.Clobber? then ChangedAt(x.dest) else {}
  }

  function Changed(x: Rtx): set<nat> {
    if x.Parallel? then set k, r | 0 <= k < |x.vec| && r in ChangedBy(x.vec[k]) :: r else ChangedBy(x)
  }

  lemma {:induction false} StoredAre(dest: Rtx)
    ensures StoredBy(dest) == ChangedAt(dest)
  {
    match dest
    case Subreg(inner, _, _) =>
      if !inner.Reg? {
        StoredAre(inner);
      }
    case Extract(inner, _) => StoredAre(inner);
    case _ =>
  }

  lemma {:induction false} StoresOfVecAre(vec: seq<Rtx>)
    ensures StoresOfVec(vec) == set k, r | 0 <= k < |vec| && r in ChangedBy(vec[k]) :: r
  {
    if |vec| > 0 {
      var y, rest := vec[|vec| - 1], vec[..|vec| - 1];
      StoresOfVecAre(rest);
      if y.Set? || y.Clobber? {
        StoredAre(y.dest);
      }
      var all := set k, r | 0 <= k < |vec| && r in ChangedBy(vec[k]) :: r;
      var some := set k, r | 0 <= k < |rest| && r in ChangedBy(rest[k]) :: r;
      assert StoresOfVec(vec) == ChangedBy(y) + some;
      forall r ensures r in all <==> r in ChangedBy(y) + some {
        if k :| 0 <= k < |vec| && r in ChangedBy(vec[k]) {
          assert k < |rest| ==> rest[k] == vec[k];
        }
        if k :| 0 <= k < |rest| && r in ChangedBy(rest[k]) {
          assert vec[k] == rest[k];
        }
        if r in ChangedBy(y) {
          assert vec[|vec| - 1] == y;
        }
      }
    }
  }

  /** What the pass takes to be stored is what is. */
  lemma {:induction false} StoresAre(x: Rtx)
    ensures StoresOf(x) == Changed(x)
  {
    match x
    case Set(d, _) => StoredAre(d);
    case Clobber(d) => StoredAre(d);
    case Parallel(vec) => StoresOfVecAre(vec);
    case _ =>
  }

  // ----- The two machines -----

  function Args(insn: Insn, regs: nat -> int): map<nat, int> {
    if insn.code.Marker? then map[] else map r | r in Reads(insn.pattern) :: regs(r)
  }

  /** The hard registers an insn stores into. */
  function Sets(insn: Insn): (s: set<nat>)
    ensures s == if insn.code.Marker? then {} else StoresOf(insn.pattern)
  {
    StoresAre(insn.pattern);
    if insn.code.Marker? then {} else Changed(insn.pattern)
  }

  function Value(results: map<nat, int>, r: nat): int {
    if r in results then results[r] else 0
  }

  function IdealStep(env: Env, insn: Insn, index: nat, s: Ideal): Ideal {
    if insn.code.Marker? then s.(trace := s.trace + [map[]])
    else
      var args := Args(insn, s.regs);
      var (results, world) := env.effect(index, args, s.world);
      Ideal((r: nat) => if r in Sets(insn) then Value(results, r) else s.regs(r), world, s.trace + [args])
  }

  function IdealRun(env: Env, block: seq<Insn>, s: Ideal, k: nat): Ideal
    requires k <= |block|
  {
    if k == 0 then s else IdealStep(env, block[k - 1], k - 1, IdealRun(env, block, s, k - 1))
  }

  predicate Destroyed(m: Machine, insn: Insn, r: nat) {
    insn.code.Call? && r in m.callUsed && r !in m.callKept && r !in Sets(insn)
  }

  function RealInsn(env: Env, m: Machine, insn: Insn, index: nat, s: Real): Real {
    if insn.code.Marker? then s.(trace := s.trace + [map[]])
    else
      var args := Args(insn, s.regs);
      var (results, world) := env.effect(index, args, s.world);
      Real((r: nat) =>
             if r in Sets(insn) then Value(results, r)
             else if Destroyed(m, insn, r) then env.junk(index, r, s.world)
             else s.regs(r),
           s.slots, world, s.trace + [args])
  }

  function RealStep(env: Env, m: Machine, block: seq<Insn>, item: Out, s: Real): Real {
    match item
    case Orig(i) => if i < |block| then RealInsn(env, m, block[i], i, s) else s
    case Save(regno, n, addr) =>
      s.(slots := (a: nat) => if addr <= a < addr + n then s.regs(regno + (a - addr)) else s.slots(a))
    case Restore(regno, n, addr) =>
      s.(regs := (r: nat) => if regno <= r < regno + n then s.slots(addr + (r - regno)) else s.regs(r))
  }

  function RealRun(env: Env, m: Machine, block: seq<Insn>, s: Real, out: seq<Out>): Real {
    if |out| == 0 then s
    else RealStep(env, m, block, out[|out| - 1], RealRun(env, m, block, s, out[..|out| - 1]))
  }

  lemma {:induction false} RunOneMore(env: Env, m: Machine, block: seq<Insn>, s: Real, out: seq<Out>, item: Out)
    ensures RealRun(env, m, block, s, out + [item]) == RealStep(env, m, block, item, RealRun(env, m, block, s, out))
  {
    assert (out + [item])[..|out + [item]| - 1] == out;
  }

  // ----- The simulation relation -----

  /** A saved register's slot holds its ideal value; a live register that does not need
      restoring holds its ideal value itself. */
  ghost predicate Sim(mem: SaveMem, p: Pass, i: Ideal, s: Real) {
    SimExcept(mem, p, {}, i, s)
  }

  /** The same relation, saying nothing about the registers in `except`. */
  ghost predicate SimExcept(mem: SaveMem, p: Pass, except: set<nat>, i: Ideal, s: Real) {
    && s.world == i.world && s.trace == i.trace
    && (forall r: nat | r in p.live && r !in p.need && r !in except :: s.regs(r) == i.regs(r))
    && SlotsHold(mem, p.saved - except, i.regs, s)
  }

  ghost predicate SlotsHold(mem: SaveMem, saved: set<nat>, regs: nat -> int, s: Real) {
    forall r: nat | r in saved :: (r, 1) in mem && s.slots(mem[(r, 1)]) == regs(r)
  }

  /** t is s with the registers `back` returned to their values in `regs`. */
  ghost predicate Brought(s: Real, t: Real, back: set<nat>, regs: nat -> int) {
    && t.world == s.world && t.trace == s.trace
    && (forall a: nat :: t.slots(a) == s.slots(a))
    && (forall r: nat :: t.regs(r) == if r in back then regs(r) else s.regs(r))
  }

  lemma {:induction false} InsertRestoreBrings(env: Env, m: Machine, mem: SaveMem, block: seq<Insn>, r0: Real, p: Pass, regno: nat, j: nat, regs: nat -> int)
    requires Overlays(mem) && (regno, j) in mem && Range(regno, j) <= p.need
    requires SlotsHold(mem, p.need, regs, RealRun(env, m, block, r0, p.out))
    ensures Brought(RealRun(env, m, block, r0, p.out),
                    RealRun(env, m, block, r0, InsertRestore(p, regno, j, mem[(regno, j)]).out), Range(regno, j), regs)
  {
    RunOneMore(env, m, block, r0, p.out, Restore(regno, j, mem[(regno, j)]));
    hide RealRun, Overlays;
    RestoreStep(env, m, mem, block, RealRun(env, m, block, r0, p.out), regno, j, p.need, regs);
  }

  lemma {:induction false} RestoreStep(env: Env, m: Machine, mem: SaveMem, block: seq<Insn>, s: Real, regno: nat, j: nat, need: set<nat>, regs: nat -> int)
    requires Overlays(mem) && (regno, j) in mem && Range(regno, j) <= need && SlotsHold(mem, need, regs, s)
    ensures Brought(s, RealStep(env, m, block, Restore(regno, j, mem[(regno, j)]), s), Range(regno, j), regs)
  {
    hide Overlays;
    forall r: nat | regno <= r < regno + j ensures s.slots(mem[(regno, j)] + (r - regno)) == regs(r) {
      assert r in Range(regno, j);
      MemberHasSlot(mem, regno, j, r);
    }
  }

  lemma {:induction false} BroughtTwice(mem: SaveMem, s: Real, t: Real, u: Real, first: set<nat>, second: set<nat>, both: set<nat>, regs: nat -> int)
    requires Brought(s, t, first, regs) && Brought(t, u, second, regs) && both == first + second
    ensures Brought(s, u, both, regs)
  {
  }

  lemma {:induction false} BroughtHolds(mem: SaveMem, s: Real, t: Real, back: set<nat>, saved: set<nat>, fewer: set<nat>, regs: nat -> int)
    requires Brought(s, t, back, regs) && SlotsHold(mem, saved, regs, s) && fewer <= saved
    ensures SlotsHold(mem, fewer, regs, t)
  {
  }

  lemma {:induction false} BroughtNone(s: Real, regs: nat -> int)
    ensures Brought(s, s, {}, regs)
  {
  }

  lemma {:induction false} RestoreRangeNext(mem: SaveMem, p: Pass, i: nat, end: nat, most: nat)
    ensures i >= end ==> RestoreRange(mem, p, i, end, most) == p
    ensures i < end && i !in p.need ==> RestoreRange(mem, p, i, end, most) == RestoreRange(mem, p, i + 1, end, most)
    ensures i < end && i in p.need ==>
      var j := RestoreSize(mem, p.need, i, most);
      && (j == 0 ==> RestoreRange(mem, p, i, end, most) == p)
      && (j > 0 ==>
            (i, j) in mem && Range(i, j) <= p.need &&
            RestoreRange(mem, p, i, end, most) == RestoreRange(mem, InsertRestore(p, i, j, mem[(i, j)]), i + j, end, most))
  {
    hide InsertRestore;
  }

  lemma {:induction false} RestoreRangeBrings(env: Env, m: Machine, mem: SaveMem, block: seq<Insn>, r0: Real, p: Pass,
                                               i: nat, end: nat, most: nat, regs: nat -> int)
    requires Overlays(mem) && SlotsHold(mem, p.need, regs, RealRun(env, m, block, r0, p.out))
    ensures var q := RestoreRange(mem, p, i, end, most);
      && q.need <= p.need
      && Brought(RealRun(env, m, block, r0, p.out), RealRun(env, m, block, r0, q.out), p.need - q.need, regs)
    decreases end - i
  {
    RestoreRangeNext(mem, p, i, end, most);
    BroughtNone(RealRun(env, m, block, r0, p.out), regs);
    hide Overlays, SlotsHold, RealRun, Brought, RestoreRange, RestoreSize;
    assert p.need - p.need == {};
    if i < end && i in p.need {
      var j := RestoreSize(mem, p.need, i, most);
      if j > 0 {
        InsertRestoreBrings(env, m, mem, block, r0, p, i, j, regs);
        var q := InsertRestore(p, i, j, mem[(i, j)]);
        var s, t := RealRun(env, m, block, r0, p.out), RealRun(env, m, block, r0, q.out);
        BroughtHolds(mem, s, t, Range(i, j), p.need, q.need, regs);
        RestoreRangeBrings(env, m, mem, block, r0, q, i + j, end, most, regs);
        var last := RestoreRange(mem, q, i + j, end, most);
        BroughtTwice(mem, s, t, RealRun(env, m, block, r0, last.out), Range(i, j), q.need - last.need, p.need - last.need, regs);
      }
    } else if i < end {
      RestoreRangeBrings(env, m, mem, block, r0, p, i + 1, end, most, regs);
    }
  }

  lemma {:induction false} WalkBrings(env: Env, m: Machine, mem: SaveMem, block: seq<Insn>, r0: Real, p: Pass, x: Rtx, regs: nat -> int)
    requires Overlays(mem) && SlotsHold(mem, p.need, regs, RealRun(env, m, block, r0, p.out))
    ensures var q := Walk(m, mem, p, x);
      && q.need <= p.need
      && Brought(RealRun(env, m, block, r0, p.out), RealRun(env, m, block, r0, q.out), p.need - q.need, regs)
    decreases x, 0
  {
    match x
    case Clobber(_) =>
    case Reg(r, n) => RestoreRangeBrings(env, m, mem, block, r0, p, r, r + n, Min(n, m.groupMax), regs);
    case Pseudo(home) => WalkBrings(env, m, mem, block, r0, p, home, regs);
    case Leaf =>
    case Subreg(inner, _, _) => WalkBrings(env, m, mem, block, r0, p, inner, regs);
    case Extract(inner, args) =>
      WalkSeqBrings(env, m, mem, block, r0, p, args, regs);
      WalkBrings(env, m, mem, block, r0, WalkSeq(m, mem, p, args), inner, regs);
    case Set(d, s) =>
      WalkBrings(env, m, mem, block, r0, p, s, regs);
      WalkBrings(env, m, mem, block, r0, Walk(m, mem, p, s), d, regs);
    case Parallel(vec) => WalkSeqBrings(env, m, mem, block, r0, p, vec, regs);
    case Op(args) => WalkSeqBrings(env, m, mem, block, r0, p, args, regs);
  }

  lemma {:induction false} WalkSeqBrings(env: Env, m: Machine, mem: SaveMem, block: seq<Insn>, r0: Real, p: Pass, xs: seq<Rtx>, regs: nat -> int)
    requires Overlays(mem) && SlotsHold(mem, p.need, regs, RealRun(env, m, block, r0, p.out))
    ensures var q := WalkSeq(m, mem, p, xs);
      && q.need <= p.need
      && Brought(RealRun(env, m, block, r0, p.out), RealRun(env, m, block, r0, q.out), p.need - q.need, regs)
    decreases xs, 0
  {
    if |xs| > 0 {
      var last := |xs| - 1;
      WalkBrings(env, m, mem, block, r0, p, xs[last], regs);
      WalkSeqBrings(env, m, mem, block, r0, Walk(m, mem, p, xs[last]), xs[..last], regs);
    }
  }

  /** Restoring the references of an insn and dropping what dies in it keeps the relation. */
  lemma {:induction false} BeforeInsnSim(env: Env, m: Machine, mem: SaveMem, block: seq<Insn>, r0: Real, p: Pass, insn: Insn, i: Ideal)
    requires Kept(m, mem, p) && Layout(m, mem) && m.groupMax >= 1
    requires Sim(mem, p, i, RealRun(env, m, block, r0, p.out))
    ensures var q := BeforeInsn(m, mem, p, insn);
      && Sim(mem, q, i, RealRun(env, m, block, r0, q.out))
      && (forall r: nat | r in p.live && r in Walked(insn.pattern) :: RealRun(env, m, block, r0, q.out).regs(r) == i.regs(r))
  {
    var q := if p.count != 0 then Walk(m, mem, p, insn.pattern) else p;
    BeforeInsnKeeps(m, mem, p, insn);
    WalkRestores(m, mem, p, insn.pattern);
    WalkBrings(env, m, mem, block, r0, p, insn.pattern, i.regs);
    ClearDeadDrops(q, insn.notes);
  }

  // ----- Saves -----

  ghost predicate SameRegs(s: Real, t: Real) {
    forall r: nat :: t.regs(r) == s.regs(r)
  }

  lemma {:induction false} InsertSaveSim(env: Env, m: Machine, mem: SaveMem, block: seq<Insn>, r0: Real, p: Pass, regno: nat, j: nat,
                      except: set<nat>, i: Ideal)
    requires Layout(m, mem) && (regno, j) in mem && p.need <= p.saved
    requires forall r | regno <= r < regno + j :: Savable(m, p, r)
    requires SimExcept(mem, p, except, i, RealRun(env, m, block, r0, p.out))
    ensures var q := InsertSave(p, regno, j, mem[(regno, j)]);
      SimExcept(mem, q, except, i, RealRun(env, m, block, r0, q.out)) &&
      SameRegs(RealRun(env, m, block, r0, p.out), RealRun(env, m, block, r0, q.out))
  {
    var s := RealRun(env, m, block, r0, p.out);
    var addr := mem[(regno, j)];
    RunOneMore(env, m, block, r0, p.out, Save(regno, j, addr));
    var t := RealStep(env, m, block, Save(regno, j, addr), s);
    forall r: nat | r in p.saved + Range(regno, j) - except ensures (r, 1) in mem && t.slots(mem[(r, 1)]) == i.regs(r) {
      if regno <= r < regno + j {
        assert Savable(m, p, r);
        MemberHasSlot(mem, regno, j, r);
      } else {
        SlotOutside(m, mem, regno, j, r);
      }
    }
  }

  lemma {:induction false} SlotOutside(m: Machine, mem: SaveMem, regno: nat, j: nat, r: nat)
    requires Layout(m, mem) && (regno, j) in mem && (r, 1) in mem && !(regno <= r < regno + j)
    ensures !(mem[(regno, j)] <= mem[(r, 1)] < mem[(regno, j)] + j)
  {
    if mem[(regno, j)] <= mem[(r, 1)] < mem[(regno, j)] + j {
      MemberHasSlot(mem, regno, j, regno + (mem[(r, 1)] - mem[(regno, j)]));
    }
  }

  /** One group of the scan before a call. */
  lemma {:induction false} SaveGroupSim(env: Env, m: Machine, mem: SaveMem, block: seq<Insn>, r0: Real, p: Pass, sets: set<nat>, regno: nat, i: Ideal)
    returns (j: nat, q: Pass)
    requires Kept(m, mem, p) && Layout(m, mem) && m.groupMax >= 1 && CallHasSlots(m, mem, p, sets)
    requires regno < m.nregs && MustSave(m, p, sets, regno)
    requires SimExcept(mem, p, sets, i, RealRun(env, m, block, r0, p.out))
    ensures j >= 1 && Kept(m, mem, q) && q.live == p.live
    ensures SaveScan(m, mem, q, sets, regno + j) == SaveScan(m, mem, p, sets, regno)
    ensures SimExcept(mem, q, sets, i, RealRun(env, m, block, r0, q.out))
    ensures SameRegs(RealRun(env, m, block, r0, p.out), RealRun(env, m, block, r0, q.out))
  {
    assert Endangered(m, p.live, sets, regno);
    j, q := SaveGroupKeeps(m, mem, p, sets, regno);
    InsertSaveSim(env, m, mem, block, r0, p, regno, j, sets, i);
  }

  lemma {:induction false} SaveScanSim(env: Env, m: Machine, mem: SaveMem, block: seq<Insn>, r0: Real, p: Pass, sets: set<nat>,
                                       regno: nat, i: Ideal, done: Pass)
    requires Kept(m, mem, p) && Layout(m, mem) && m.groupMax >= 1 && CallHasSlots(m, mem, p, sets)
    requires SimExcept(mem, p, sets, i, RealRun(env, m, block, r0, p.out))
    requires done == SaveScan(m, mem, p, sets, regno)
    ensures SimExcept(mem, done, sets, i, RealRun(env, m, block, r0, done.out))
    ensures SameRegs(RealRun(env, m, block, r0, p.out), RealRun(env, m, block, r0, done.out))
    decreases m.nregs - regno
  {
    SaveScanNext(m, mem, p, sets, regno);
    hide SaveScan, RealRun, SimExcept, SameRegs, Kept, Layout;
    if regno >= m.nregs {
      SameRegsRefl(RealRun(env, m, block, r0, p.out));
    } else if MustSave(m, p, sets, regno) {
      var j, q := SaveGroupSim(env, m, mem, block, r0, p, sets, regno, i);
      SaveScanSim(env, m, mem, block, r0, q, sets, regno + j, i, done);
      SameRegsTwice(RealRun(env, m, block, r0, p.out), RealRun(env, m, block, r0, q.out), RealRun(env, m, block, r0, done.out));
    } else {
      SaveScanSim(env, m, mem, block, r0, p, sets, regno + 1, i, done);
    }
  }

  lemma {:induction false} SaveScanNext(m: Machine, mem: SaveMem, p: Pass, sets: set<nat>, regno: nat)
    ensures regno >= m.nregs ==> SaveScan(m, mem, p, sets, regno) == p
    ensures regno < m.nregs && !MustSave(m, p, sets, regno) ==> SaveScan(m, mem, p, sets, regno) == SaveScan(m, mem, p, sets, regno + 1)
  {
  }

  lemma {:induction false} SameRegsRefl(s: Real)
    ensures SameRegs(s, s)
  {
  }

  lemma {:induction false} SameRegsTwice(s: Real, t: Real, u: Real)
    requires SameRegs(s, t) && SameRegs(t, u)
    ensures SameRegs(s, u)
  {
  }

  // ----- One insn -----

  /** The notes are truthful for this insn: what it reads is live, and a call-used register that
      is live across a call and not kept by it can be saved. */
  ghost predicate Truthful(m: Machine, mem: SaveMem, p: Pass, insn: Insn) {
    && (!insn.code.Marker? ==> Reads(insn.pattern) <= p.live)
    && (insn.code.Call? ==>
          forall r: nat | r in BeforeInsn(m, mem, p, insn).live && Destroyed(m, insn, r) :: r !in m.callFixed)
  }

  /** No register that the call stores, and whose new value is used, was saved along with a group. */
  ghost predicate NothingStale(m: Machine, mem: SaveMem, p: Pass, insn: Insn) {
    insn.code.Call? ==>
      CallSaves(m, mem, BeforeInsn(m, mem, p, insn), Sets(insn)).saved !! Sets(insn) - UnusedRegs(insn.notes)
  }

  /** Executing an insn whose reads are in place: the stored registers and everything not
      destroyed still agree afterwards. */
  lemma {:induction false} ExecAgrees(env: Env, m: Machine, insn: Insn, index: nat, i: Ideal, s: Real)
    requires !insn.code.Marker? && s.world == i.world && s.trace == i.trace
    requires forall r: nat | r in Reads(insn.pattern) :: s.regs(r) == i.regs(r)
    ensures var i' := IdealStep(env, insn, index, i);
      var s' := RealInsn(env, m, insn, index, s);
      && s'.world == i'.world && s'.trace == i'.trace
      && (forall a: nat :: s'.slots(a) == s.slots(a))
      && (forall r: nat | r in Sets(insn) :: s'.regs(r) == i'.regs(r))
      && (forall r: nat | r !in Sets(insn) :: i'.regs(r) == i.regs(r))
      && (forall r: nat | r !in Sets(insn) && !Destroyed(m, insn, r) :: s'.regs(r) == s.regs(r))
  {
    assert Args(insn, s.regs) == Args(insn, i.regs);
  }

  /** The pass state from which an insn is executed: after its restores, deaths and saves. */
  function AtExec(m: Machine, mem: SaveMem, p: Pass, insn: Insn): Pass {
    if insn.code.Call? then CallSaves(m, mem, BeforeInsn(m, mem, p, insn), Sets(insn)) else BeforeInsn(m, mem, p, insn)
  }

  lemma {:induction false} AtExecSim(env: Env, m: Machine, mem: SaveMem, block: seq<Insn>, r0: Real, p: Pass, insn: Insn, i: Ideal)
    requires Kept(m, mem, p) && Layout(m, mem) && m.groupMax >= 1 && InsnHasSlots(m, mem, p, insn) && !insn.code.Marker?
    requires Sim(mem, p, i, RealRun(env, m, block, r0, p.out)) && Truthful(m, mem, p, insn)
    ensures var s := RealRun(env, m, block, r0, AtExec(m, mem, p, insn).out);
      && SimExcept(mem, AtExec(m, mem, p, insn), Sets(insn), i, s)
      && (forall r: nat | r in Reads(insn.pattern) :: s.regs(r) == i.regs(r))
  {
    var p1, sets := BeforeInsn(m, mem, p, insn), Sets(insn);
    var s1 := RealRun(env, m, block, r0, p1.out);
    BeforeReads(env, m, mem, block, r0, p, insn, i);
    BeforeInsnKeeps(m, mem, p, insn);
    SimWeaker(mem, p1, sets, i, s1);
    if insn.code.Call? {
      var p0 := Store(p1, sets).(live := p1.live);
      RemovingKeeps(m, mem, p1, p0, sets);
      assert CallHasSlots(m, mem, p0, sets) && AtExec(m, mem, p, insn) == SaveScan(m, mem, p0, sets, 0);
      StoredSim(mem, p1, sets, i, s1);
      hide BeforeInsn, SaveScan, RealRun, SimExcept, Sim, Kept, Layout, Reads, AtExec, InsnHasSlots, Truthful;
      SaveScanSim(env, m, mem, block, r0, p0, sets, 0, i, AtExec(m, mem, p, insn));
    }
  }

  /** In front of an insn the registers it reads hold their ideal values. */
  lemma {:induction false} BeforeReads(env: Env, m: Machine, mem: SaveMem, block: seq<Insn>, r0: Real, p: Pass, insn: Insn, i: Ideal)
    requires Kept(m, mem, p) && Layout(m, mem) && m.groupMax >= 1 && !insn.code.Marker?
    requires Sim(mem, p, i, RealRun(env, m, block, r0, p.out)) && Truthful(m, mem, p, insn)
    ensures var s := RealRun(env, m, block, r0, BeforeInsn(m, mem, p, insn).out);
      Sim(mem, BeforeInsn(m, mem, p, insn), i, s) && forall r: nat | r in Reads(insn.pattern) :: s.regs(r) == i.regs(r)
  {
    BeforeInsnSim(env, m, mem, block, r0, p, insn, i);
    ReadsWalked(insn.pattern);
    hide BeforeInsn, RealRun, Sim, Kept, Layout, Reads, Walked;
  }

  lemma {:induction false} SimWeaker(mem: SaveMem, p: Pass, except: set<nat>, i: Ideal, s: Real)
    requires Sim(mem, p, i, s)
    ensures SimExcept(mem, p, except, i, s)
  {
  }

  lemma {:induction false} StoredSim(mem: SaveMem, p: Pass, sets: set<nat>, i: Ideal, s: Real)
    requires SimExcept(mem, p, sets, i, s)
    ensures SimExcept(mem, Store(p, sets).(live := p.live), sets, i, s)
  {
  }

  /** One insn of the scan keeps the simulation relation. */
  lemma {:induction false} StepSim(env: Env, m: Machine, mem: SaveMem, block: seq<Insn>, r0: Real, p: Pass, index: nat, i: Ideal)
    requires index < |block|
    requires Kept(m, mem, p) && Layout(m, mem) && m.groupMax >= 1 && InsnHasSlots(m, mem, p, block[index])
    requires Truthful(m, mem, p, block[index]) && NothingStale(m, mem, p, block[index])
    requires Sim(mem, p, i, RealRun(env, m, block, r0, p.out))
    ensures var q := Step(m, mem, p, block[index], index);
      Sim(mem, q, IdealStep(env, block[index], index, i), RealRun(env, m, block, r0, q.out))
  {
    var insn := block[index];
    var e := AtExec(m, mem, p, insn);
    var q := Step(m, mem, p, insn, index);
    if insn.code.Marker? {
      RunOneMore(env, m, block, r0, p.out, Orig(index));
    } else {
      AtExecSim(env, m, mem, block, r0, p, insn, i);
      RunOneMore(env, m, block, r0, e.out, Orig(index));
      ExecAgrees(env, m, insn, index, i, RealRun(env, m, block, r0, e.out));
      BeforeInsnKeeps(m, mem, p, insn);
      var p1 := BeforeInsn(m, mem, p, insn);
      if insn.code.Call? {
        CallSavesExactly(m, mem, p1, Sets(insn));
        ClearUnusedDrops(AfterCall(m, e, Sets(insn)), insn.notes);
        assert q.out == e.out + [Orig(index)];
        forall r: nat | r in q.live && r !in q.need && r !in Sets(insn) ensures !Destroyed(m, insn, r) {
          assert Endangered(m, p1.live, Sets(insn), r) ==> r in AfterCall(m, e, Sets(insn)).need;
        }
      } else {
        ClearUnusedDrops(Store(p1, Sets(insn)), insn.notes);
        assert q.out == e.out + [Orig(index)];
      }
    }
  }

  // ----- What is live -----

  /** The registers the notes of an insn say are dead before it, or not used after it. */
  function Gone(notes: seq<Note>, dead: bool): set<nat> {
    set n, r | n in notes && NamesReg(n, dead) && r in Range(n.x.regno, n.x.nregs) :: r
  }

  predicate NamesReg(n: Note, dead: bool) {
    (if dead then n.Dead? else n.Unused?) && n.x.Reg?
  }

  /** The registers live after the first k insns, by the notes and what the insns store. */
  function LiveAfter(live: set<nat>, block: seq<Insn>, k: nat): set<nat>
    requires k <= |block|
  {
    if k == 0 then live
    else
      var before, insn := LiveAfter(live, block, k - 1), block[k - 1];
      if insn.code.Marker? then before
      else before - Gone(insn.notes, true) + Changed(insn.pattern) - Gone(insn.notes, false)
  }

  lemma {:induction false} GoneAre(notes: seq<Note>)
    ensures DeadRegs(notes) == Gone(notes, true) && UnusedRegs(notes) == Gone(notes, false)
  {
    if |notes| > 0 {
      var rest := notes[1..];
      GoneAre(rest);
      forall n ensures n in notes <==> n == notes[0] || n in rest {
      }
    }
  }

  lemma {:induction false} RestoreRangeLive(mem: SaveMem, p: Pass, i: nat, end: nat, most: nat)
    ensures RestoreRange(mem, p, i, end, most).live == p.live
    decreases end - i
  {
    RestoreRangeNext(mem, p, i, end, most);
    hide RestoreRange, RestoreSize;
    if i < end && i in p.need {
      var j := RestoreSize(mem, p.need, i, most);
      if j > 0 {
        RestoreRangeLive(mem, InsertRestore(p, i, j, mem[(i, j)]), i + j, end, most);
      }
    } else if i < end {
      RestoreRangeLive(mem, p, i + 1, end, most);
    }
  }

  lemma {:induction false} WalkLive(m: Machine, mem: SaveMem, p: Pass, x: Rtx)
    ensures Walk(m, mem, p, x).live == p.live
    decreases x, 0
  {
    match x
    case Clobber(_) =>
    case Reg(r, n) => RestoreRangeLive(mem, p, r, r + n, Min(n, m.groupMax));
    case Pseudo(home) => WalkLive(m, mem, p, home);
    case Leaf =>
    case Subreg(inner, _, _) => WalkLive(m, mem, p, inner);
    case Extract(inner, args) =>
      WalkSeqLive(m, mem, p, args);
      WalkLive(m, mem, WalkSeq(m, mem, p, args), inner);
    case Set(d, s) =>
      WalkLive(m, mem, p, s);
      WalkLive(m, mem, Walk(m, mem, p, s), d);
    case Parallel(vec) => WalkSeqLive(m, mem, p, vec);
    case Op(args) => WalkSeqLive(m, mem, p, args);
  }

  lemma {:induction false} WalkSeqLive(m: Machine, mem: SaveMem, p: Pass, xs: seq<Rtx>)
    ensures WalkSeq(m, mem, p, xs).live == p.live
    decreases xs, 0
  {
    if |xs| > 0 {
      WalkLive(m, mem, p, xs[|xs| - 1]);
      WalkSeqLive(m, mem, Walk(m, mem, p, xs[|xs| - 1]), xs[..|xs| - 1]);
    }
  }

  lemma {:induction false} SaveScanLive(m: Machine, mem: SaveMem, p: Pass, sets: set<nat>, regno: nat)
    ensures SaveScan(m, mem, p, sets, regno).live == p.live
    decreases m.nregs - regno
  {
    if regno < m.nregs {
      if MustSave(m, p, sets, regno) {
        var j := SaveSize(m, mem, p, regno, m.groupMax);
        if j > 0 {
          hide SaveSize;
          SaveScanLive(m, mem, InsertSave(p, regno, j, mem[(regno, j)]), sets, regno + j);
        }
      } else {
        SaveScanLive(m, mem, p, sets, regno + 1);
      }
    }
  }

  lemma {:induction false} BeforeInsnLive(m: Machine, mem: SaveMem, p: Pass, insn: Insn)
    ensures BeforeInsn(m, mem, p, insn).live == p.live - Gone(insn.notes, true)
  {
    WalkLive(m, mem, p, insn.pattern);
    ClearDeadDrops(if p.count != 0 then Walk(m, mem, p, insn.pattern) else p, insn.notes);
    GoneAre(insn.notes);
    hide Walk, ClearDead, Gone;
  }

  lemma {:induction false} StepLive(m: Machine, mem: SaveMem, p: Pass, insn: Insn, index: nat)
    requires !insn.code.Marker?
    ensures Step(m, mem, p, insn, index).live == p.live - Gone(insn.notes, true) + Changed(insn.pattern) - Gone(insn.notes, false)
  {
    var p1, sets := BeforeInsn(m, mem, p, insn), StoresOf(insn.pattern);
    BeforeInsnLive(m, mem, p, insn);
    StoresAre(insn.pattern);
    SaveScanLive(m, mem, Store(p1, sets).(live := p1.live), sets, 0);
    var p2 := if insn.code.Call? then AfterCall(m, CallSaves(m, mem, p1, sets), sets) else Store(p1, sets);
    ClearUnusedDrops(p2, insn.notes);
    GoneAre(insn.notes);
    hide BeforeInsn, StoresOf, SaveScan, ClearUnused, Gone, Changed;
  }

  /** hard_regs_live is what is live. */
  lemma {:induction false} ScanLive(m: Machine, mem: SaveMem, live: set<nat>, block: seq<Insn>, k: nat)
    requires k <= |block|
    ensures Scan(m, mem, live, block, k).live == LiveAfter(live, block, k)
  {
    if k > 0 {
      ScanLive(m, mem, live, block, k - 1);
      hide Step, Gone, Changed;
      var p, insn := Scan(m, mem, live, block, k - 1), block[k - 1];
      if insn.code.Marker? {
        assert Step(m, mem, p, insn, k - 1).live == p.live by { MarkerLive(m, mem, p, insn, k - 1); }
      } else {
        StepLive(m, mem, p, insn, k - 1);
      }
    }
  }

  lemma {:induction false} MarkerLive(m: Machine, mem: SaveMem, p: Pass, insn: Insn, index: nat)
    requires insn.code.Marker?
    ensures Step(m, mem, p, insn, index).live == p.live
  {
  }

  lemma {:induction false} FinishLive(m: Machine, mem: SaveMem, p: Pass, last: Insn)
    ensures Finish(m, mem, p, last).live == p.live
  {
    RestoreRangeLive(mem, p, 0, m.nregs, m.groupMax);
    if |p.out| > 0 {
      RestoreRangeLive(mem, p.(out := p.out[..|p.out| - 1]), 0, m.nregs, m.groupMax);
    }
    hide RestoreRange;
  }
}
