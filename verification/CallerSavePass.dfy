/** The caller-save pass itself: globals updated in place by nested loops over registers,
    insn patterns and the insn chain. */
module CallerSavePass {
  import opened CallerSaveSpec
  import opened CallerSaveInvariant

  /** A pseudo register after allocation: its hard register (or -1), its width and how many calls it crosses. */
  datatype Allocated = Allocated(renumber: int, nregs: nat, callsCrossed: nat)

  /** The call-used hard registers that setup_save_areas finds in use across calls. */
  function UsedAcrossCalls(m: Machine, pseudos: seq<Allocated>): set<nat> {
    if |pseudos| == 0 then {}
    else
      var a := pseudos[|pseudos| - 1];
      UsedAcrossCalls(m, pseudos[..|pseudos| - 1]) +
      (if a.renumber >= 0 && a.callsCrossed > 0 then Range(a.renumber, a.nregs) * m.callUsed else {})
  }

  class CallerSave {
    const m: Machine
    /** regno_save_mode: the (register, width) pairs that have a mode. */
    const saveModes: set<(nat, nat)>

    var mem: SaveMem
    /** First stack word not yet handed out by assign_stack_local. */
    var frame: nat

    var live: set<nat>
    var saved: set<nat>
    var need: set<nat>
    var count: int
    var out: seq<Out>

    constructor (m: Machine, saveModes: set<(nat, nat)>)
      requires forall i: nat, j: nat | (i, j) in saveModes :: 1 <= j <= m.groupMax && i + j <= m.nregs
      ensures this.m == m && this.saveModes == saveModes && mem == map[] && frame == 0
      ensures ModesOk() && FrameOk() && State() == Start({})
    {
      this.m := m;
      this.saveModes := saveModes;
      mem, frame := map[], 0;
      live, saved, need, count, out := {}, {}, {}, 0, [];
    }

    function State(): Pass
      reads this
    {
      Pass(live, saved, need, count, out)
    }

    ghost predicate ModesOk() {
      forall i: nat, j: nat | (i, j) in saveModes :: 1 <= j <= m.groupMax && i + j <= m.nregs
    }

    ghost predicate FrameOk()
      reads this
    {
      Layout(m, mem) &&
      (forall r: nat | (r, 1) in mem :: mem[(r, 1)] < frame) &&
      Apart(mem)
    }

    /** setup_save_areas may run several times; slots, once assigned, never move. */
    method SetupSaveAreas(pseudos: seq<Allocated>) returns (changed: bool)
      requires ModesOk() && FrameOk()
      modifies this`mem, this`frame
      ensures FrameOk()
      ensures forall s | s in old(mem) :: s in mem && mem[s] == old(mem)[s]
      ensures forall r: nat | r in UsedAcrossCalls(m, pseudos) && (r, 1) in saveModes :: (r, 1) in mem
      ensures forall r: nat | (r, 1) in mem && (r, 1) !in old(mem) :: r in UsedAcrossCalls(m, pseudos)
      ensures Placement(saveModes, UsedAcrossCalls(m, pseudos), old(mem), mem)
      ensures changed <==> mem != old(mem)
    {
      var used: set<nat> := {};
      for p := 0 to |pseudos|
        invariant used == UsedAcrossCalls(m, pseudos[..p])
      {
        assert pseudos[..p + 1][..p] == pseudos[..p];
        if pseudos[p].renumber >= 0 && pseudos[p].callsCrossed > 0 {
          var regno: nat := pseudos[p].renumber;
          ghost var before := used;
          for j := 0 to pseudos[p].nregs
            invariant used == before + Range(regno, j) * m.callUsed
          {
            if regno + j in m.callUsed {
              used := used + {regno + j};
            }
          }
        }
      }
      assert pseudos[..|pseudos|] == pseudos;

      changed := false;
      for i := 0 to m.nregs
        invariant FrameOk()
        invariant forall s | s in old(mem) :: s in mem && mem[s] == old(mem)[s]
        invariant PlacedBelow(saveModes, used, old(mem), mem, i)
        invariant changed <==> mem != old(mem)
      {
        changed := PlaceAt(used, i, changed, old(mem));
      }
      AllPlaced(saveModes, used, old(mem), mem, m.nregs);
    }

    /** The group that starts at register i: the largest that has a mode, if its registers are all in
        use and none of them has a slot. */
    method PlaceAt(used: set<nat>, i: nat, changedBefore: bool, ghost before: SaveMem) returns (changed: bool)
      requires ModesOk() && FrameOk() && (forall s | s in before :: s in mem && mem[s] == before[s])
      requires PlacedBelow(saveModes, used, before, mem, i) && (changedBefore <==> mem != before)
      modifies this`mem, this`frame
      ensures FrameOk() && forall s | s in before :: s in mem && mem[s] == before[s]
      ensures PlacedBelow(saveModes, used, before, mem, i + 1) && (changed <==> mem != before)
    {
      changed := changedBefore;
      var j := m.groupMax;
      while j > 0
        invariant 0 <= j <= m.groupMax && FrameOk()
        invariant forall s | s in before :: s in mem && mem[s] == before[s]
        invariant changed <==> mem != before
        invariant if (i, 1) in mem then PlacedBelow(saveModes, used, before, mem, i + 1)
                  else PlacedBelow(saveModes, used, before, mem, i) && forall k: nat :: j < k ==> !Fits(saveModes, used, before, i, k)
      {
        if (i, j) in saveModes && (i, 1) !in mem
           && (forall r | i <= r < i + j :: (r, 1) !in mem)
           && (forall r | i <= r < i + j :: r in used)
        {
          ghost var mid, addr := mem, frame;
          AssignGroup(i, j);
          GroupPlaced(saveModes, used, before, mid, mem, i, j, addr);
          changed := true;
        } else if (i, 1) !in mem {
          NoFit(saveModes, used, before, mem, i, j);
        }
        j := j - 1;
      }
    }

    /** assign_stack_local for a group, then the single-word slots inside it. */
    method AssignGroup(i: nat, j: nat)
      requires FrameOk() && 1 <= j <= m.groupMax && i + j <= m.nregs
      requires forall r | i <= r < i + j :: (r, 1) !in mem
      modifies this`mem, this`frame
      ensures FrameOk()
      ensures GroupAdded(old(mem), mem, i, j, old(frame)) && frame == old(frame) + j
    {
      if (i, j) in mem {
        MemberHasSlot(mem, i, j, i);
      }
      WriteGroup(i, j);
      AddedGroupOverlays(old(mem), mem, i, j, old(frame));
      AddedGroupDisjoint(old(mem), mem, i, j, old(frame));
      AddedGroupApart(old(mem), mem, i, j, old(frame));
    }

    method WriteGroup(i: nat, j: nat)
      requires (i, j) !in mem && j >= 1
      requires forall r: nat | (r, 1) in mem :: mem[(r, 1)] < frame
      requires forall r | i <= r < i + j :: (r, 1) !in mem
      modifies this`mem, this`frame
      ensures GroupAdded(old(mem), mem, i, j, old(frame)) && frame == old(frame) + j
    {
      var addr := frame;
      mem := mem[(i, j) := addr];
      frame := frame + j;
      for k := 0 to j
        invariant frame == addr + j
        invariant forall s | s in old(mem) :: s in mem && mem[s] == old(mem)[s]
        invariant forall s | s in mem :: s in old(mem) || s == (i, j) || (s.1 == 1 && i <= s.0 < i + k)
        invariant (i, j) in mem && mem[(i, j)] == addr
        invariant forall r: nat | i <= r < i + k :: (r, 1) in mem && mem[(r, 1)] == addr + (r - i)
      {
        mem := mem[(i + k, 1) := addr + k];
      }
    }

    method SetRegLive(regno: nat, n: nat)
      modifies this`live, this`saved, this`need
      ensures State() == SetLive(old(State()), regno, n)
    {
      for i := regno to regno + n
        invariant State() == SetLive(old(State()), regno, i - regno)
      {
        live, saved, need := live + {i}, saved - {i}, need - {i};
      }
    }

    method ClearRegLive(x: Rtx)
      modifies this`live, this`saved, this`need
      ensures State() == ClearLive(old(State()), x)
    {
      if x.Reg? {
        for i := x.regno to x.regno + x.nregs
          invariant State() == ClearLive(old(State()), Reg(x.regno, i - x.regno))
        {
          live, need, saved := live - {i}, need - {i}, saved - {i};
        }
      }
    }

    /** The destination part of note_stores, with set_reg_live as the callback. */
    method NoteStore(dest: Rtx)
      modifies this`live, this`saved, this`need
      ensures State() == Store(old(State()), StoredBy(dest))
    {
      var d := dest;
      while d.Extract? || (d.Subreg? && !d.inner.Reg?)
        invariant StoredBy(d) == StoredBy(dest)
        decreases d
      {
        d := d.inner;
      }
      if d.Subreg? {
        SetRegLive(d.inner.regno + d.word, d.nregs);
      } else if d.Reg? {
        SetRegLive(d.regno, d.nregs);
      }
    }

    method NoteStores(x: Rtx)
      modifies this`live, this`saved, this`need
      ensures State() == Store(old(State()), StoresOf(x))
    {
      if x.Set? || x.Clobber? {
        NoteStore(x.dest);
      } else if x.Parallel? {
        var i := |x.vec|;
        assert x.vec[..i] == x.vec;
        while i > 0
          invariant 0 <= i <= |x.vec|
          invariant Store(State(), StoresOfVec(x.vec[..i])) == Store(old(State()), StoresOfVec(x.vec))
        {
          assert x.vec[..i][..i - 1] == x.vec[..i - 1];
          i := i - 1;
          if x.vec[i].Set? || x.vec[i].Clobber? {
            NoteStore(x.vec[i].dest);
          }
        }
      }
    }

    /** Emits one save (or restore) insn at the end of the chain built so far and returns how
        many registers beyond regno it covers.  The abort of the source is the first precondition. */
    method InsertSaveRestore(saveP: bool, regno: nat, maxRestore: nat) returns (extra: nat)
      requires (regno, 1) in mem && m.groupMax >= 1
      requires saveP ==> Savable(m, State(), regno)
      requires !saveP ==> regno in need && maxRestore >= 1
      modifies this`saved, this`need, this`count, this`out
      ensures var j := extra + 1;
        if saveP then
          j == SaveSize(m, mem, old(State()), regno, m.groupMax) &&
          State() == InsertSave(old(State()), regno, j, mem[(regno, j)])
        else
          j == RestoreSize(mem, old(need), regno, maxRestore) &&
          State() == InsertRestore(old(State()), regno, j, mem[(regno, j)])
    {
      extra := 0;
      if saveP {
        var i := m.groupMax;
        while !((regno, i) in mem && forall r | regno <= r < regno + i :: Savable(m, State(), r))
          invariant 1 <= i <= m.groupMax
          invariant SaveSize(m, mem, old(State()), regno, i) == SaveSize(m, mem, old(State()), regno, m.groupMax)
          invariant State() == old(State())
          decreases i
        {
          i := i - 1;
        }
        var addr := mem[(regno, i)];
        for k := 0 to i
          invariant saved == old(saved) + Range(regno, k) && need == old(need) + Range(regno, k) && count == old(count) + k
          invariant live == old(live) && out == old(out)
        {
          saved, need, count := saved + {regno + k}, need + {regno + k}, count + 1;
        }
        out := out + [Save(regno, i, addr)];
        extra := i - 1;
      } else {
        var i := maxRestore;
        while !((regno, i) in mem && forall r | regno <= r < regno + i :: r in need)
          invariant 1 <= i <= maxRestore
          invariant RestoreSize(mem, old(need), regno, i) == RestoreSize(mem, old(need), regno, maxRestore)
          invariant State() == old(State())
          decreases i
        {
          i := i - 1;
        }
        var addr := mem[(regno, i)];
        for k := 0 to i
          invariant State() == old(State()).(need := old(need) - Range(regno, k), count := old(count) - k)
        {
          need, count := need - {regno + k}, count - 1;
        }
        out := out + [Restore(regno, i, addr)];
        extra := i - 1;
      }
    }

    ghost predicate NeedHasSlots()
      reads this
    {
      forall r | r in need :: (r, 1) in mem
    }

    method RestoreRegs(from: nat, end: nat, most: nat)
      requires NeedHasSlots() && m.groupMax >= 1 && (most >= 1 || from >= end)
      modifies this`saved, this`need, this`count, this`out
      ensures State() == RestoreRange(mem, old(State()), from, end, most)
      ensures NeedHasSlots()
    {
      var i := from;
      while i < end
        invariant RestoreRange(mem, State(), i, end, most) == RestoreRange(mem, old(State()), from, end, most)
        invariant NeedHasSlots()
        decreases end - i
      {
        if i in need {
          var extra := InsertSaveRestore(false, i, most);
          i := i + extra;
        }
        i := i + 1;
      }
    }

    method RestoreReferencedRegs(x: Rtx)
      requires NeedHasSlots() && m.groupMax >= 1
      modifies this`saved, this`need, this`count, this`out
      ensures State() == Walk(m, mem, old(State()), x)
      ensures NeedHasSlots()
      decreases x, 0
    {
      match x
      case Clobber(_) =>
      case Reg(r, n) => RestoreRegs(r, r + n, Min(n, m.groupMax));
      case Pseudo(home) => RestoreReferencedRegs(home);
      case Leaf =>
      case Subreg(inner, _, _) => RestoreReferencedRegs(inner);
      case Extract(inner, args) => RestoreReferencedVec(args); RestoreReferencedRegs(inner);
      case Set(d, s) => RestoreReferencedRegs(s); RestoreReferencedRegs(d);
      case Parallel(vec) => RestoreReferencedVec(vec);
      case Op(args) => RestoreReferencedVec(args);
    }

    method RestoreReferencedVec(xs: seq<Rtx>)
      requires NeedHasSlots() && m.groupMax >= 1
      modifies this`saved, this`need, this`count, this`out
      ensures State() == WalkSeq(m, mem, old(State()), xs)
      ensures NeedHasSlots()
      decreases xs, 0
    {
      var j := |xs|;
      assert xs[..j] == xs;
      while j > 0
        invariant 0 <= j <= |xs|
        invariant WalkSeq(m, mem, State(), xs[..j]) == WalkSeq(m, mem, old(State()), xs)
        invariant NeedHasSlots()
      {
        assert xs[..j][..j - 1] == xs[..j - 1];
        j := j - 1;
        RestoreReferencedRegs(xs[j]);
      }
    }

    /** One save insn of the scan before a call. */
    method SaveGroup(ghost sets: set<nat>, regno: nat) returns (extra: nat)
      requires Kept(m, mem, State()) && Layout(m, mem) && m.groupMax >= 1
      requires regno < m.nregs && MustSave(m, State(), sets, regno) && (regno, 1) in mem
      modifies this`saved, this`need, this`count, this`out
      ensures Kept(m, mem, State())
      ensures SaveScan(m, mem, State(), sets, regno + extra + 1) == SaveScan(m, mem, old(State()), sets, regno)
    {
      extra := InsertSaveRestore(true, regno, 0);
      ghost var j, q := SaveGroupKeeps(m, mem, old(State()), sets, regno);
    }

    /** Saves what must survive a call that stores into `sets`; the abort is unreachable. */
    method SaveAcrossCall(sets: set<nat>)
      requires Kept(m, mem, State()) && Layout(m, mem) && m.groupMax >= 1
      requires CallHasSlots(m, mem, State(), sets)
      modifies this`saved, this`need, this`count, this`out
      ensures State() == SaveScan(m, mem, old(State()), sets, 0)
      ensures Kept(m, mem, State())
    {
      var regno: nat := 0;
      while regno < m.nregs
        invariant SaveScan(m, mem, State(), sets, regno) == SaveScan(m, mem, old(State()), sets, 0)
        invariant Kept(m, mem, State()) && live == old(live)
        decreases m.nregs - regno
      {
        if regno in m.callUsed && regno !in m.callFixed && regno in live && regno !in sets && regno !in saved {
          assert Endangered(m, live, sets, regno);
          var extra := SaveGroup(sets, regno);
          regno := regno + extra;
        }
        regno := regno + 1;
      }
    }

    /** The CALL_INSN branch of the scan. */
    method ScanCall(pattern: Rtx)
      requires Kept(m, mem, State()) && Layout(m, mem) && m.groupMax >= 1
      requires CallHasSlots(m, mem, State(), StoresOf(pattern))
      modifies this`live, this`saved, this`need, this`count, this`out
      ensures State() == AfterCall(m, CallSaves(m, mem, old(State()), StoresOf(pattern)), StoresOf(pattern))
    {
      hide StoresOf, SaveScan;
      var oldLive := live;
      live := {};
      NoteStores(pattern);
      var sets := live;
      live := oldLive;
      RemovingKeeps(m, mem, old(State()), State(), sets);
      SaveAcrossCall(sets);
      live := live + sets;
      need := saved;
      count := 0;
      ghost var uncounted := State();
      for r := 0 to m.nregs
        invariant State() == uncounted.(count := CountBelow(saved, r))
      {
        if r in saved {
          count := count + 1;
        }
      }
    }

    method ClearNotes(notes: seq<Note>, dead: bool)
      modifies this`live, this`saved, this`need
      ensures State() == if dead then ClearDead(old(State()), notes) else ClearUnused(old(State()), notes)
    {
      assert notes[0..] == notes;
      for i := 0 to |notes|
        invariant dead ==> ClearDead(State(), notes[i..]) == ClearDead(old(State()), notes)
        invariant !dead ==> ClearUnused(State(), notes[i..]) == ClearUnused(old(State()), notes)
      {
        assert notes[i..][1..] == notes[i + 1..];
        if (dead && notes[i].Dead?) || (!dead && notes[i].Unused?) {
          ClearRegLive(notes[i].x);
        }
      }
    }

    /** One element of the insn chain. */
    method ScanInsn(insn: Insn, index: nat)
      requires Kept(m, mem, State()) && Layout(m, mem) && m.groupMax >= 1
      requires InsnHasSlots(m, mem, State(), insn)
      modifies this`live, this`saved, this`need, this`count, this`out
      ensures State() == Step(m, mem, old(State()), insn, index)
    {
      if !insn.code.Marker? {
        if count != 0 {
          RestoreReferencedRegs(insn.pattern);
        }
        ClearNotes(insn.notes, true);
        assert State() == BeforeInsn(m, mem, old(State()), insn);
        BeforeInsnKeeps(m, mem, old(State()), insn);
        if insn.code.Call? {
          ScanCall(insn.pattern);
        } else {
          NoteStores(insn.pattern);
        }
        ClearNotes(insn.notes, false);
      }
      out := out + [Orig(index)];
    }

    /** save_call_clobbered_regs on one basic block. */
    method SaveCallClobberedRegs(liveAtStart: set<nat>, block: seq<Insn>)
      requires Layout(m, mem) && m.groupMax >= 1 && |block| > 0
      requires BlockHasSlots(m, mem, liveAtStart, block)
      modifies this`live, this`saved, this`need, this`count, this`out
      ensures State() == Block(m, mem, liveAtStart, block)
      ensures need == {}
    {
      live, saved, need, count, out := liveAtStart, {}, {}, 0, [];
      for k := 0 to |block|
        invariant State() == Scan(m, mem, liveAtStart, block, k)
      {
        ScanKeeps(m, mem, liveAtStart, block, k);
        assert HasSlotsAt(m, mem, liveAtStart, block, k);
        ScanInsn(block[k], k);
      }
      ScanKeeps(m, mem, liveAtStart, block, |block|);
      ghost var scanned := State();
      if count != 0 {
        var last := block[|block| - 1];
        if last.code.Jump? {
          var jump := out[|out| - 1];
          out := out[..|out| - 1];
          RestoreRangeRestores(mem, State(), 0, m.nregs, m.groupMax);
          RestoreRegs(0, m.nregs, m.groupMax);
          out := out + [jump];
        } else {
          RestoreRangeRestores(mem, State(), 0, m.nregs, m.groupMax);
          RestoreRegs(0, m.nregs, m.groupMax);
        }
      }
    }
  }

  /** A group of j registers can be placed at i: it has a mode, all of it is in use and none of it has a slot. */
  ghost predicate Fits(saveModes: set<(nat, nat)>, used: set<nat>, before: SaveMem, i: nat, j: nat) {
    (i, j) in saveModes && forall r: nat | i <= r < i + j :: r in used && (r, 1) !in before
  }

  ghost predicate LargestFit(saveModes: set<(nat, nat)>, used: set<nat>, before: SaveMem, i: nat, j: nat) {
    Fits(saveModes, used, before, i, j) && forall k: nat | k > j :: !Fits(saveModes, used, before, i, k)
  }

  ghost predicate NewGroup(before: SaveMem, after: SaveMem, i: nat, j: nat) {
    j > 1 && (i, j) in after && (i, j) !in before
  }

  ghost predicate InNewGroup(before: SaveMem, after: SaveMem, r: nat) {
    exists q: nat, l: nat :: NewGroup(before, after, q, l) && q <= r < q + l
  }

  /** Every new group is the largest that fits at its first register, every new word belongs to one or
      is such a group itself, and every register at which some group fits has got a word. */
  ghost predicate Placement(saveModes: set<(nat, nat)>, used: set<nat>, before: SaveMem, after: SaveMem) {
    && (forall i: nat, j: nat | NewGroup(before, after, i, j) :: LargestFit(saveModes, used, before, i, j))
    && (forall r: nat | (r, 1) in after && (r, 1) !in before :: InNewGroup(before, after, r) || LargestFit(saveModes, used, before, r, 1))
    && (forall i: nat, j: nat | Fits(saveModes, used, before, i, j) :: (i, 1) in after)
  }

  /** So far, for groups that start below n. */
  ghost predicate PlacedBelow(saveModes: set<(nat, nat)>, used: set<nat>, before: SaveMem, after: SaveMem, n: nat) {
    && (forall i: nat, j: nat | NewGroup(before, after, i, j) :: i < n && LargestFit(saveModes, used, before, i, j))
    && (forall r: nat | (r, 1) in after && (r, 1) !in before ::
          InNewGroup(before, after, r) || (r < n && LargestFit(saveModes, used, before, r, 1)))
    && (forall i: nat, j: nat | i < n && Fits(saveModes, used, before, i, j) :: (i, 1) in after)
  }

  lemma {:induction false} AllPlaced(saveModes: set<(nat, nat)>, used: set<nat>, before: SaveMem, after: SaveMem, n: nat)
    requires PlacedBelow(saveModes, used, before, after, n)
    requires forall i: nat, j: nat | (i, j) in saveModes :: 1 <= j && i + j <= n
    ensures Placement(saveModes, used, before, after)
    ensures forall r: nat | r in used && (r, 1) in saveModes && (r, 1) !in before :: (r, 1) in after
    ensures forall r: nat | (r, 1) in after && (r, 1) !in before :: r in used
  {
    forall r: nat | r in used && (r, 1) in saveModes && (r, 1) !in before ensures (r, 1) in after {
      assert Fits(saveModes, used, before, r, 1);
    }
  }

  lemma {:induction false} GroupPlaced(saveModes: set<(nat, nat)>, used: set<nat>, before: SaveMem, mid: SaveMem, after: SaveMem, i: nat, j: nat, addr: nat)
    requires PlacedBelow(saveModes, used, before, mid, i) && Overlays(mid) && GroupAdded(mid, after, i, j, addr) && j >= 1
    requires (forall s | s in before :: s in mid) && (i, j) in saveModes && forall r | i <= r < i + j :: r in used
    requires forall k: nat :: j < k ==> !Fits(saveModes, used, before, i, k)
    ensures PlacedBelow(saveModes, used, before, after, i + 1)
  {
    assert LargestFit(saveModes, used, before, i, j);
    if (i, j) in mid {
      MemberHasSlot(mid, i, j, i);
    }
    hide Fits, LargestFit, Overlays;
    forall r: nat | (r, 1) in after && (r, 1) !in before
      ensures InNewGroup(before, after, r) || (r < i + 1 && LargestFit(saveModes, used, before, r, 1))
    {
      if (r, 1) in mid {
        if q: nat, l: nat :| NewGroup(before, mid, q, l) && q <= r < q + l {
          assert NewGroup(before, after, q, l);
        }
      } else if j > 1 {
        assert NewGroup(before, after, i, j);
      }
    }
    forall q: nat, l: nat | NewGroup(before, after, q, l) ensures q < i + 1 && LargestFit(saveModes, used, before, q, l) {
      assert (q, l) == (i, j) || NewGroup(before, mid, q, l);
    }
    forall q: nat, l: nat | q < i + 1 && Fits(saveModes, used, before, q, l) ensures (q, 1) in after {
      assert q < i ==> (q, 1) in mid;
    }
  }

  /** Where the test fails no group of the size fits. */
  lemma {:induction false} NoFit(saveModes: set<(nat, nat)>, used: set<nat>, before: SaveMem, mid: SaveMem, i: nat, j: nat)
    requires PlacedBelow(saveModes, used, before, mid, i) && Overlays(mid) && (i, 1) !in mid
    requires !((i, j) in saveModes && (forall r | i <= r < i + j :: (r, 1) !in mid) && forall r | i <= r < i + j :: r in used)
    ensures !Fits(saveModes, used, before, i, j)
  {
    if Fits(saveModes, used, before, i, j) {
      var r: nat :| i <= r < i + j && (r, 1) in mid;
      assert InNewGroup(before, mid, r);
      var q: nat, l: nat :| NewGroup(before, mid, q, l) && q <= r < q + l;
      MemberHasSlot(mid, q, l, i);
    }
  }

  /** The registers found in use are the call-used ones of pseudos that cross calls. */
  lemma {:induction false} UsedIff(m: Machine, pseudos: seq<Allocated>, r: nat)
    ensures r in UsedAcrossCalls(m, pseudos) <==>
      exists k :: 0 <= k < |pseudos| && InUse(m, pseudos[k], r)
  {
    if |pseudos| > 0 {
      var rest := pseudos[..|pseudos| - 1];
      var a := pseudos[|pseudos| - 1];
      UsedIff(m, rest, r);
      assert r in UsedAcrossCalls(m, pseudos) <==> r in UsedAcrossCalls(m, rest) || InUse(m, a, r);
      if k :| 0 <= k < |pseudos| && InUse(m, pseudos[k], r) {
        assert k < |rest| ==> InUse(m, rest[k], r);
      }
      if k :| 0 <= k < |rest| && InUse(m, rest[k], r) {
        assert InUse(m, pseudos[k], r);
      }
    }
  }

  /** A pseudo that crosses a call holds the register, which calls may destroy. */
  predicate InUse(m: Machine, a: Allocated, r: nat) {
    a.callsCrossed > 0 && 0 <= a.renumber <= r < a.renumber + a.nregs && r in m.callUsed
  }

  /** `after` is `before` with the group (i, j) placed at the fresh words addr .. addr+j-1. */
  ghost predicate GroupAdded(before: SaveMem, after: SaveMem, i: nat, j: nat, addr: nat) {
    && (forall r: nat | (r, 1) in before :: before[(r, 1)] < addr)
    && (forall r: nat | i <= r < i + j :: (r, 1) !in before)
    && (forall s | s in before :: s in after && after[s] == before[s])
    && (forall s | s in after :: s in before || s == (i, j) || (s.1 == 1 && i <= s.0 < i + j))
    && (i, j) in after && after[(i, j)] == addr
    && (forall r: nat | i <= r < i + j :: (r, 1) in after && after[(r, 1)] == addr + (r - i))
  }

  lemma {:induction false} AddedGroupApart(before: SaveMem, after: SaveMem, i: nat, j: nat, addr: nat)
    requires Overlays(before) && Apart(before) && GroupAdded(before, after, i, j, addr) && j >= 1
    ensures Apart(after)
  {
    forall q: nat, l: nat | (q, l) in before && l > 1 ensures i + j <= q || q + l <= i {
      MemberHasSlot(before, q, l, q);
      if q <= i < q + l {
        MemberHasSlot(before, q, l, i);
      }
    }
  }

  lemma {:induction false} AddedGroupOverlays(before: SaveMem, after: SaveMem, i: nat, j: nat, addr: nat)
    requires Overlays(before) && GroupAdded(before, after, i, j, addr)
    ensures Overlays(after)
  {
    forall q: nat, l: nat, r: nat | (q, l) in after && q <= r < q + l
      ensures WordInGroup(after, q, l, r)
    {
      if (q, l) in before {
        MemberHasSlot(before, q, l, r);
      }
    }
  }

  lemma {:induction false} AddedGroupDisjoint(before: SaveMem, after: SaveMem, i: nat, j: nat, addr: nat)
    requires Disjoint(before) && GroupAdded(before, after, i, j, addr) && j >= 1
    ensures Disjoint(after)
    ensures forall r: nat :: (r, 1) in after <==> (r, 1) in before || i <= r < i + j
    ensures forall r: nat | (r, 1) in after :: after[(r, 1)] < addr + j
  {
  }

  /** With slots set up for every register in use across calls, the abort of insert_save_restore is
      never reached: a register endangered by a call was found by setup_save_areas, and
      init_caller_save gives every call-used register that is not fixed a one-word mode. */
  lemma {:induction false} SetupSuffices(m: Machine, saveModes: set<(nat, nat)>, mem: SaveMem, pseudos: seq<Allocated>, live: set<nat>, block: seq<Insn>)
    requires Layout(m, mem)
    requires forall r: nat | r in UsedAcrossCalls(m, pseudos) && (r, 1) in saveModes :: (r, 1) in mem
    requires forall r: nat | r in m.callUsed && r !in m.callFixed :: (r, 1) in saveModes
    requires forall k: nat, r: nat | k < |block| && EndangeredAt(m, mem, live, block, k, r) :: r in UsedAcrossCalls(m, pseudos)
    ensures BlockHasSlots(m, mem, live, block)
  {
    forall k | 0 <= k < |block| ensures HasSlotsAt(m, mem, live, block, k) {
      if block[k].code.Call? {
        forall r: nat | Endangered(m, BeforeInsn(m, mem, Scan(m, mem, live, block, k), block[k]).live, StoresOf(block[k].pattern), r)
          ensures r < m.nregs && (r, 1) in mem
        {
          assert EndangeredAt(m, mem, live, block, k, r);
        }
      }
    }
  }

  predicate EndangeredAt(m: Machine, mem: SaveMem, live: set<nat>, block: seq<Insn>, k: nat, r: nat)
    requires k < |block|
  {
    block[k].code.Call? &&
    Endangered(m, BeforeInsn(m, mem, Scan(m, mem, live, block, k), block[k]).live, StoresOf(block[k].pattern), r)
  }
}
