/** Value-level account of the caller-save pass (caller-save.c): insn patterns, the
    register sets the scan maintains, and what each piece of the scan does to them.
    CallerSavePass proves that the imperative pass computes these functions;
    CallerSaveSimulation proves what they mean. */
module CallerSaveSpec {

  /** The machine parameters. `groupMax` is MOVE_MAX / UNITS_PER_WORD.  The pass consults the first
      four; `callKept` are the call-used registers (such as the stack pointer) that a call preserves. */
  datatype Machine = Machine(nregs: nat, groupMax: nat, callUsed: set<nat>, callFixed: set<nat>, callKept: set<nat>)

  /** regno_save_mem: (i, j) is the stack word where registers i .. i+j-1 are saved together. */
  type SaveMem = map<(nat, nat), nat>

  /** The part of an insn pattern that the pass can see.  `nregs` is HARD_REGNO_NREGS.
      `Pseudo` is a pseudo register with a stack home; `Extract` stands for ZERO_EXTRACT,
      SIGN_EXTRACT and STRICT_LOW_PART. */
  datatype Rtx =
    | Reg(regno: nat, nregs: nat)
    | Pseudo(home: Rtx)
    | Leaf
    | Subreg(inner: Rtx, word: nat, nregs: nat)
    | Extract(inner: Rtx, args: seq<Rtx>)
    | Clobber(dest: Rtx)
    | Set(dest: Rtx, src: Rtx)
    | Parallel(vec: seq<Rtx>)
    | Op(args: seq<Rtx>)

  datatype Note = Dead(x: Rtx) | Unused(x: Rtx) | OtherNote

  /** `Marker` is any chain element that is not an insn (a NOTE or a CODE_LABEL). */
  datatype InsnCode = Marker | Plain | Jump | Call

  datatype Insn = Insn(code: InsnCode, pattern: Rtx, notes: seq<Note>)

  /** One element of the rewritten chain: an original insn, or an inserted save or restore of
      registers regno .. regno+n-1 at stack word addr. */
  datatype Out = Orig(index: nat) | Save(regno: nat, n: nat, addr: nat) | Restore(regno: nat, n: nat, addr: nat)

  /** hard_regs_live, hard_regs_saved, hard_regs_need_restore, n_regs_saved and the chain so far. */
  datatype Pass = Pass(live: set<nat>, saved: set<nat>, need: set<nat>, count: int, out: seq<Out>)

  /** The registers regno .. regno+n-1. */
  function Range(regno: nat, n: nat): (s: set<nat>)
    ensures forall r: nat :: r in s <==> regno <= r < regno + n
  {
    if n == 0 then {} else Range(regno, n - 1) + {regno + n - 1}
  }

  // ----- Save slots -----

  /** Every group slot overlays the single-word slots of its members, in order. */
  ghost predicate Overlays(mem: SaveMem) {
    forall i: nat, j: nat, r: nat | (i, j) in mem && i <= r < i + j :: WordInGroup(mem, i, j, r)
  }

  predicate WordInGroup(mem: SaveMem, i: nat, j: nat, r: nat)
    requires (i, j) in mem && i <= r
  {
    (r, 1) in mem && mem[(r, 1)] == mem[(i, j)] + (r - i)
  }

  /** Distinct registers have distinct words. */
  ghost predicate Disjoint(mem: SaveMem) {
    forall r: nat, q: nat | (r, 1) in mem && (q, 1) in mem && r != q :: mem[(r, 1)] != mem[(q, 1)]
  }

  ghost predicate InBounds(m: Machine, mem: SaveMem) {
    forall i: nat, j: nat | (i, j) in mem :: 1 <= j <= m.groupMax && i + j <= m.nregs
  }

  /** No register belongs to two multi-word groups. */
  ghost predicate Apart(mem: SaveMem) {
    forall i: nat, j: nat, q: nat, l: nat | (i, j) in mem && (q, l) in mem && j > 1 && l > 1 ::
      (i, j) == (q, l) || i + j <= q || q + l <= i
  }

  ghost predicate Layout(m: Machine, mem: SaveMem) {
    InBounds(m, mem) && Overlays(mem) && Disjoint(mem)
  }

  lemma {:induction false} MemberHasSlot(mem: SaveMem, i: nat, j: nat, r: nat)
    requires Overlays(mem) && (i, j) in mem && i <= r < i + j
    ensures (r, 1) in mem && mem[(r, 1)] == mem[(i, j)] + (r - i)
  {
    assert WordInGroup(mem, i, j, r);
  }

  // ----- set_reg_live and clear_reg_live -----

  function SetLive(p: Pass, regno: nat, n: nat): Pass {
    p.(live := p.live + Range(regno, n), saved := p.saved - Range(regno, n), need := p.need - Range(regno, n))
  }

  function ClearLive(p: Pass, x: Rtx): Pass {
    if x.Reg? then
      p.(live := p.live - Range(x.regno, x.nregs),
         saved := p.saved - Range(x.regno, x.nregs),
         need := p.need - Range(x.regno, x.nregs))
    else p
  }

  function ClearDead(p: Pass, notes: seq<Note>): Pass
    decreases |notes|
  {
    if |notes| == 0 then p
    else ClearDead(if notes[0].Dead? then ClearLive(p, notes[0].x) else p, notes[1..])
  }

  function ClearUnused(p: Pass, notes: seq<Note>): Pass
    decreases |notes|
  {
    if |notes| == 0 then p
    else ClearUnused(if notes[0].Unused? then ClearLive(p, notes[0].x) else p, notes[1..])
  }

  // ----- note_stores -----

  /** The registers a store to `dest` makes live, as note_stores and set_reg_live find them. */
  function StoredBy(dest: Rtx): set<nat> {
    match dest
    case Reg(r, n) => Range(r, n)
    case Subreg(inner, word, n) => if inner.Reg? then Range(inner.regno + word, n) else StoredBy(inner)
    case Extract(inner, _) => StoredBy(inner)
    case _ => {}
  }

  function StoresOf(x: Rtx): set<nat> {
    match x
    case Set(d, _) => StoredBy(d)
    case Clobber(d) => StoredBy(d)
    case Parallel(vec) => StoresOfVec(vec)
    case _ => {}
  }

  function StoresOfVec(vec: seq<Rtx>): set<nat> {
    if |vec| == 0 then {}
    else
      var y := vec[|vec| - 1];
      (if y.Set? || y.Clobber? then StoredBy(y.dest) else {}) + StoresOfVec(vec[..|vec| - 1])
  }

  function Store(p: Pass, regs: set<nat>): Pass {
    p.(live := p.live + regs, saved := p.saved - regs, need := p.need - regs)
  }

  // ----- insert_save_restore -----

  predicate Savable(m: Machine, p: Pass, r: nat) {
    r in m.callUsed && r !in m.callFixed && r in p.live && r !in p.saved
  }

  /** How many registers one save insn starting at regno covers, trying at most i. */
  function SaveSize(m: Machine, mem: SaveMem, p: Pass, regno: nat, i: nat): (j: nat)
    ensures j <= i
    ensures j > 0 ==> (regno, j) in mem && forall r | regno <= r < regno + j :: Savable(m, p, r)
  {
    if i == 0 then 0
    else if (regno, i) in mem && forall r | regno <= r < regno + i :: Savable(m, p, r) then i
    else SaveSize(m, mem, p, regno, i - 1)
  }

  function RestoreSize(mem: SaveMem, need: set<nat>, regno: nat, i: nat): (j: nat)
    ensures j <= i
    ensures j > 0 ==> (regno, j) in mem && forall r | regno <= r < regno + j :: r in need
  {
    if i == 0 then 0
    else if (regno, i) in mem && forall r | regno <= r < regno + i :: r in need then i
    else RestoreSize(mem, need, regno, i - 1)
  }

  function InsertSave(p: Pass, regno: nat, j: nat, addr: nat): Pass {
    p.(saved := p.saved + Range(regno, j), need := p.need + Range(regno, j), count := p.count + j,
       out := p.out + [Save(regno, j, addr)])
  }

  function InsertRestore(p: Pass, regno: nat, j: nat, addr: nat): Pass {
    p.(need := p.need - Range(regno, j), count := p.count - j, out := p.out + [Restore(regno, j, addr)])
  }

  // ----- restore_referenced_regs -----

  function Min(a: nat, b: nat): nat { if a < b then a else b }

  function RestoreRange(mem: SaveMem, p: Pass, i: nat, end: nat, most: nat): Pass
    decreases end - i
  {
    if i >= end then p
    else if i in p.need then
      var j := RestoreSize(mem, p.need, i, most);
      if j == 0 then p else RestoreRange(mem, InsertRestore(p, i, j, mem[(i, j)]), i + j, end, most)
    else RestoreRange(mem, p, i + 1, end, most)
  }

  function Walk(m: Machine, mem: SaveMem, p: Pass, x: Rtx): Pass
    decreases x, 0
  {
    match x
    case Clobber(_) => p
    case Reg(r, n) => RestoreRange(mem, p, r, r + n, Min(n, m.groupMax))
    case Pseudo(home) => Walk(m, mem, p, home)
    case Leaf => p
    case Subreg(inner, _, _) => Walk(m, mem, p, inner)
    case Extract(inner, args) => Walk(m, mem, WalkSeq(m, mem, p, args), inner)
    case Set(d, s) => Walk(m, mem, Walk(m, mem, p, s), d)
    case Parallel(vec) => WalkSeq(m, mem, p, vec)
    case Op(args) => WalkSeq(m, mem, p, args)
  }

  /** Operands are visited from the last to the first. */
  function WalkSeq(m: Machine, mem: SaveMem, p: Pass, xs: seq<Rtx>): Pass
    decreases xs, 0
  {
    if |xs| == 0 then p
    else WalkSeq(m, mem, Walk(m, mem, p, xs[|xs| - 1]), xs[..|xs| - 1])
  }

  // ----- save_call_clobbered_regs -----

  predicate MustSave(m: Machine, p: Pass, sets: set<nat>, r: nat) {
    Savable(m, p, r) && r !in sets
  }

  function SaveScan(m: Machine, mem: SaveMem, p: Pass, sets: set<nat>, regno: nat): Pass
    decreases m.nregs - regno
  {
    if regno >= m.nregs then p
    else if MustSave(m, p, sets, regno) then
      var j := SaveSize(m, mem, p, regno, m.groupMax);
      if j == 0 then p else SaveScan(m, mem, InsertSave(p, regno, j, mem[(regno, j)]), sets, regno + j)
    else SaveScan(m, mem, p, sets, regno + 1)
  }

  function CountBelow(s: set<nat>, n: nat): nat {
    if n == 0 then 0 else CountBelow(s, n - 1) + (if n - 1 in s then 1 else 0)
  }

  /** The references of the insn are restored, then the registers that die in it are dropped. */
  function BeforeInsn(m: Machine, mem: SaveMem, p: Pass, insn: Insn): Pass {
    ClearDead(if p.count != 0 then Walk(m, mem, p, insn.pattern) else p, insn.notes)
  }

  /** What a call saves.  Storing first removes the call's own results from the saved set. */
  function CallSaves(m: Machine, mem: SaveMem, p: Pass, sets: set<nat>): Pass {
    SaveScan(m, mem, Store(p, sets).(live := p.live), sets, 0)
  }

  function AfterCall(m: Machine, p: Pass, sets: set<nat>): Pass {
    p.(live := p.live + sets, need := p.saved, count := CountBelow(p.saved, m.nregs))
  }

  /** One insn of the scan; `p.out` ends with the insn itself. */
  function Step(m: Machine, mem: SaveMem, p: Pass, insn: Insn, index: nat): Pass {
    if insn.code.Marker? then p.(out := p.out + [Orig(index)])
    else
      var p1 := BeforeInsn(m, mem, p, insn);
      var sets := StoresOf(insn.pattern);
      var p2 := if insn.code.Call? then AfterCall(m, CallSaves(m, mem, p1, sets), sets) else Store(p1, sets);
      ClearUnused(p2, insn.notes).(out := p2.out + [Orig(index)])
  }

  function Start(live: set<nat>): Pass {
    Pass(live, {}, {}, 0, [])
  }

  function Scan(m: Machine, mem: SaveMem, live: set<nat>, block: seq<Insn>, k: nat): Pass
    requires k <= |block|
  {
    if k == 0 then Start(live) else Step(m, mem, Scan(m, mem, live, block, k - 1), block[k - 1], k - 1)
  }

  /** Whatever still needs restoring is restored before a final jump, or after any other final insn. */
  function Finish(m: Machine, mem: SaveMem, p: Pass, last: Insn): Pass {
    if p.count == 0 then p
    else if last.code.Jump? && |p.out| > 0 then
      var q := RestoreRange(mem, p.(out := p.out[..|p.out| - 1]), 0, m.nregs, m.groupMax);
      q.(out := q.out + [p.out[|p.out| - 1]])
    else RestoreRange(mem, p, 0, m.nregs, m.groupMax)
  }

  function Block(m: Machine, mem: SaveMem, live: set<nat>, block: seq<Insn>): Pass
    requires |block| > 0
  {
    Finish(m, mem, Scan(m, mem, live, block, |block|), block[|block| - 1])
  }
}
