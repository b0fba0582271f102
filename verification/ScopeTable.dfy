/** The binding levels and identifier slots as c-decl.c keeps them, updated in place. */
module ScopeTable {
  import opened ScopeSpec

  class Scopes {
    var local: map<nat, Decl>
    var global: map<nat, Decl>
    var levels: seq<Level>
    var nodes: seq<Node>
    var roots: seq<nat>
    ghost var loose: multiset<nat>
    var keepNext: bool
    var keepNextIfSubblocks: bool

    ghost function View(): State
      reads this
    {
      State(local, global, levels, nodes, roots, loose, keepNext, keepNextIfSubblocks)
    }

    /** There is a global level, and the blocks of each level have been made. */
    ghost predicate Valid()
      reads this
    {
      |levels| >= 1 && BlocksInRange(View())
    }

    constructor ()
      ensures Valid() && View() == Initial()
    {
      local, global, levels, nodes, roots := map[], map[], [EMPTY_LEVEL], [], [];
      loose := multiset{};
      keepNext, keepNextIfSubblocks := false, false;
    }

    method PushLevel()
      requires Valid()
      modifies this
      ensures Valid() && View() == Push(old(View()))
    {
      var level := EMPTY_LEVEL;
      levels := [level] + levels;
      levels := levels[0 := levels[0].(keep := keepNext)];
      keepNext := false;
      levels := levels[0 := levels[0].(keepIfSubblocks := keepNextIfSubblocks)];
      keepNextIfSubblocks := false;
      assert levels == Push(old(View())).levels;
      assert forall k :: 1 <= k < |levels| ==> levels[k] == old(levels)[k - 1];
    }

    method LookupName(name: nat) returns (val: Option<Decl>)
      requires Valid()
      ensures val == ScopeSpec.LookupName(View(), name)
    {
      if |levels| != 1 && name in local {
        val := Some(local[name]);
      } else {
        val := if name in global then Some(global[name]) else None;
      }
    }

    /** The walk down the names of the current level. */
    method Walk(name: nat) returns (t: Option<Decl>)
      requires Valid()
      ensures t == First(levels[0].names, name)
    {
      var rest := levels[0].names;
      while rest != [] && rest[0].name != Some(name)
        invariant First(rest, name) == First(levels[0].names, name)
        decreases |rest|
      {
        rest := rest[1..];
      }
      t := if rest == [] then None else Some(rest[0]);
    }

    method LookupNameCurrentLevel(name: nat) returns (t: Option<Decl>)
      requires Valid()
      ensures t == LookupCurrent(View(), name)
    {
      if |levels| == 1 {
        return if name in global then Some(global[name]) else None;
      }
      if name !in local {
        return None;
      }
      t := Walk(name);
    }

    method LookupNameCurrentLevelGlobal(name: nat) returns (t: Option<Decl>)
      requires Valid()
      ensures t == LookupCurrentGlobal(View(), name)
    {
      if |levels| == 1 {
        return if name in global then Some(global[name]) else None;
      }
      t := None;
      if name in local {
        t := Walk(name);
      }
      if t.None? {
        t := if name in global then Some(global[name]) else None;
      }
    }

    /** The declaration that one of this name in the current level would repeat. */
    method FindRepeated(x: Decl) returns (t: Option<Decl>)
      requires Valid()
      ensures t == Repeated(View(), x)
    {
      t := None;
      if x.name.Some? {
        if x.external && x.public {
          t := LookupNameCurrentLevelGlobal(x.name.value);
        } else {
          t := LookupNameCurrentLevel(x.name.value);
        }
      }
    }

    /** Gives the name its new local meaning; the level notes the one it had, if any. */
    method Shadow(name: nat, x: Decl, b: Level) returns (level: Level)
      modifies this`local
      ensures local == old(local)[name := x]
      ensures level == b.(shadowed := if name in old(local) then [(name, old(local)[name])] + b.shadowed else b.shadowed)
    {
      level := b;
      if name in local {
        level := level.(shadowed := [(name, local[name])] + level.shadowed);
      }
      local := local[name := x];
    }

    method Record(x: Decl)
      requires Valid()
      modifies this
      ensures Valid() && View() == Install(old(View()), x)
    {
      InstallInRange(View(), x);
      hide BlocksInRange;
      var b := levels[0];
      if x.name.Some? {
        if |levels| == 1 {
          global := global[x.name.value := x];
        } else {
          b := Shadow(x.name.value, x, b);
        }
      }
      b := b.(names := [x] + b.names);
      levels := [b] + levels[1..];
    }

    /** Returns the declaration now standing for the name: x, or the one it repeats. */
    method PushDecl(x: Decl, accepts: bool) returns (d: Decl)
      requires Valid()
      modifies this
      ensures Valid() && View() == Declare(old(View()), x, accepts)
      ensures d == if Reuses(old(View()), x, accepts) then Repeated(old(View()), x).value else x
    {
      hide Install, BlocksInRange;
      var t := FindRepeated(x);
      var declaredGlobal := x.public || x.external;
      if t.Some? && accepts {
        if t.value.parm {
          return t.value;
        }
        var current := LookupName(x.name.value);
        if !declaredGlobal || current == t {
          return t.value;
        }
      }
      Record(x);
      d := x;
    }

    method PushDeclTopLevel(x: Decl, accepts: bool) returns (d: Decl)
      requires Valid()
      modifies this
      ensures Valid() && View() == DeclareTopLevel(old(View()), x, accepts)
    {
      TopLevelInRange(View(), x, accepts);
      var b := levels[..|levels| - 1];
      levels := levels[|levels| - 1..];
      hide BlocksInRange, Declare;
      d := PushDecl(x, accepts);
      levels := b + levels;
    }

    method NoteSuperior(subblocks: seq<nat>, block: Option<nat>)
      requires forall k :: 0 <= k < |subblocks| ==> subblocks[k] < |nodes|
      modifies this`nodes
      ensures nodes == WithContext(old(nodes), subblocks, block)
    {
      var link: seq<nat> := subblocks;
      while link != []
        invariant forall k :: 0 <= k < |link| ==> link[k] < |nodes|
        invariant WithContext(nodes, link, block) == WithContext(old(nodes), subblocks, block)
        decreases |link|
      {
        nodes := nodes[link[0] := nodes[link[0]].(context := block)];
        link := link[1..];
      }
    }

    method ClearMeanings(decls: seq<Decl>)
      modifies this`local
      ensures local == Cleared(old(local), decls)
    {
      var link := decls;
      while link != []
        invariant Cleared(local, link) == Cleared(old(local), decls)
        decreases |link|
      {
        if link[0].name.Some? {
          local := local - {link[0].name.value};
        }
        link := link[1..];
      }
    }

    method RestoreMeanings(shadowed: seq<(nat, Decl)>)
      modifies this`local
      ensures local == Restored(old(local), shadowed)
    {
      var link := shadowed;
      while link != []
        invariant Restored(local, link) == Restored(old(local), shadowed)
        decreases |link|
      {
        local := local[link[0].0 := link[0].1];
        link := link[1..];
      }
    }

    method MakeNode() returns (block: nat)
      modifies this`nodes
      ensures block == |old(nodes)| && nodes == old(nodes) + [Node([], [], None)]
    {
      block := |nodes|;
      nodes := nodes + [Node([], [], None)];
    }

    /** Makes the block of a level if it is to have one, and tells the blocks below. */
    method Enclose(level: Level, decls: seq<Decl>, makes: bool) returns (block: Option<nat>)
      requires forall k :: 0 <= k < |level.blocks| ==> level.blocks[k] < |nodes|
      modifies this`nodes
      ensures nodes == LeaveBlocks(old(nodes), level, decls, makes)
      ensures block == if makes then Some(|old(nodes)|) else None
    {
      block := None;
      if makes {
        var made := MakeNode();
        nodes := nodes[made := Node(decls, level.blocks, None)];
        block := Some(made);
      }
      NoteSuperior(level.blocks, block);
    }

    /** Disposes of the block made for the level just left, or of the blocks it held. */
    method Dispose(block: Option<nat>, subblocks: seq<nat>, functionBody: bool)
      requires |levels| >= 2 && (functionBody ==> block.Some?)
      modifies this`levels, this`roots
      ensures roots == if functionBody then old(roots) + [block.value] else old(roots)
      ensures var out := if functionBody then [] else if block.Some? then [block.value] else subblocks;
        levels == [AddBlocks(old(levels[1]), out)] + old(levels)[2..]
    {
      levels := levels[1..];
      assert levels == [levels[0]] + old(levels)[2..];
      if functionBody {
        roots := roots + [block.value];
        assert levels[0].blocks + [] == levels[0].blocks;
      } else if block.Some? {
        levels := levels[0 := levels[0].(blocks := levels[0].blocks + [block.value])];
      } else {
        levels := levels[0 := levels[0].(blocks := levels[0].blocks + subblocks)];
      }
    }

    /** Takes the current level off: its block, the meanings it gave, and what it held. */
    method TakeOff(decls: seq<Decl>, makes: bool, functionBody: bool) returns (block: Option<nat>)
      requires |levels| >= 2 && (functionBody ==> makes) && forall k :: 0 <= k < |levels[0].blocks| ==> levels[0].blocks[k] < |nodes|
      modifies this`nodes, this`local, this`levels, this`roots
      ensures nodes == LeaveBlocks(old(nodes), old(levels[0]), if functionBody then [] else decls, makes)
      ensures local == Restored(Cleared(old(local), decls), old(levels[0]).shadowed)
      ensures roots == if functionBody then old(roots) + [|old(nodes)|] else old(roots)
      ensures levels == [AddBlocks(old(levels[1]), if functionBody then [] else if makes then [|old(nodes)|] else old(levels[0]).blocks)] + old(levels)[2..]
      ensures block == if makes then Some(|old(nodes)|) else None
    {
      hide LeaveBlocks, Cleared, Restored, AddBlocks;
      var level := levels[0];
      block := Enclose(level, if functionBody then [] else decls, makes);
      ClearMeanings(decls);
      RestoreMeanings(level.shadowed);
      Dispose(block, level.blocks, functionBody);
    }

    /** Returns the block made, if any. */
    method PopLevel(keep: bool, reverse: bool, functionBody: bool) returns (block: Option<nat>)
      requires Valid() && |levels| >= 2
      modifies this
      ensures Valid() && View() == Pop(old(View()), keep, reverse, functionBody)
      ensures block == if MakesBlock(old(levels[0]), keep, functionBody) then Some(|old(nodes)|) else None
    {
      var level := levels[0];
      var kept := keep || level.keep;
      var decls := if reverse then Reversed(level.names) else level.names;
      var makes := kept || functionBody || (level.keepIfSubblocks && level.blocks != []);
      Outward(View(), keep, reverse, functionBody);
      PopIs(View(), keep, reverse, functionBody);
      hide BlocksInRange, LeaveBlocks, Cleared, Restored, Reversed, MakesBlock, Pop, AddBlocks;
      block := TakeOff(decls, makes, functionBody);
    }

    /** The chain without one block. */
    method Unlink(blocks: seq<nat>, block: nat) returns (done: seq<nat>)
      ensures done == Without(blocks, block)
    {
      var rest: seq<nat> := blocks;
      done := [];
      while rest != []
        invariant Without(blocks, block) == done + Without(rest, block)
        decreases |rest|
      {
        Regroup(done, rest[0], Without(rest[1..], block));
        if rest[0] != block {
          done := done + [rest[0]];
        }
        rest := rest[1..];
      }
    }

    /** Unlinks a block from the current level, to be put back elsewhere. */
    method DeleteBlock(block: nat)
      requires Valid()
      modifies this
      ensures Valid() && View() == Delete(old(View()), block)
    {
      DeleteInRange(View(), block);
      var done := Unlink(levels[0].blocks, block);
      levels := [levels[0].(blocks := done)] + levels[1..];
      loose := loose + multiset{block};
    }

    method InsertBlock(block: nat)
      requires Valid() && block < |nodes|
      modifies this
      ensures Valid() && View() == Insert(old(View()), block)
      ensures levels[0].blocks == old(levels[0].blocks) + [block] && levels[1..] == old(levels[1..])
    {
      InsertInRange(View(), block);
      levels := [levels[0].(blocks := levels[0].blocks + [block])] + levels[1..];
      loose := loose - multiset{block};
    }
  }

  lemma {:induction false} Regroup(a: seq<nat>, x: nat, b: seq<nat>)
    ensures a + ([x] + b) == a + [x] + b
  {
  }

  // ----- The blocks of each level have been made -----

  lemma {:induction false} InstallInRange(st: State, x: Decl)
    requires BlocksInRange(st) && |st.levels| >= 1
    ensures BlocksInRange(Install(st, x))
  {
    var r := Install(st, x);
    assert r.levels[1..] == st.levels[1..];
    hide Install, Get;
    TailInRange(st, r);
  }

  lemma {:induction false} TailInRange(st: State, r: State)
    requires BlocksInRange(st) && |st.levels| >= 1 && |r.levels| >= 1 && |r.nodes| >= |st.nodes|
    requires r.levels[1..] == st.levels[1..]
    requires forall j :: 0 <= j < |r.levels[0].blocks| ==> r.levels[0].blocks[j] < |r.nodes|
    ensures BlocksInRange(r)
  {
    assert forall k :: 1 <= k < |r.levels| ==> r.levels[k] == r.levels[1..][k - 1];
    assert forall k :: 1 <= k < |st.levels| ==> st.levels[k] == st.levels[1..][k - 1];
  }

  lemma {:induction false} TopLevelInRange(st: State, x: Decl, accepts: bool)
    requires BlocksInRange(st) && |st.levels| >= 1
    ensures BlocksInRange(st.(levels := st.levels[|st.levels| - 1..]))
    ensures BlocksInRange(DeclareTopLevel(st, x, accepts))
  {
    var base := st.(levels := st.levels[|st.levels| - 1..]);
    InstallInRange(base, x);
    hide Install, Reuses;
    assert forall k :: 0 <= k < |st.levels| - 1 ==> DeclareTopLevel(st, x, accepts).levels[k] == st.levels[k];
  }

  lemma {:induction false} DeleteInRange(st: State, b: nat)
    requires BlocksInRange(st) && |st.levels| >= 1
    ensures BlocksInRange(Delete(st, b))
  {
    var r := Delete(st, b);
    assert r.levels[1..] == st.levels[1..];
    forall j | 0 <= j < |r.levels[0].blocks| ensures r.levels[0].blocks[j] < |r.nodes| {
      assert r.levels[0].blocks[j] in st.levels[0].blocks;
    }
    TailInRange(st, r);
  }

  lemma {:induction false} InsertInRange(st: State, b: nat)
    requires BlocksInRange(st) && |st.levels| >= 1 && b < |st.nodes|
    ensures BlocksInRange(Insert(st, b))
  {
    assert Insert(st, b).levels[1..] == st.levels[1..];
    TailInRange(st, Insert(st, b));
  }

  lemma {:induction false} Outward(st: State, keep: bool, reverse: bool, body: bool)
    requires |st.levels| >= 2 && BlocksInRange(st)
    ensures BlocksInRange(Pop(st, keep, reverse, body))
  {
    var r := Pop(st, keep, reverse, body);
    hide Cleared, Restored, Reversed;
    assert r.levels[1..] == st.levels[1..][1..];
    assert |r.nodes| >= |st.nodes|;
    var rest := st.(levels := st.levels[1..]);
    assert BlocksInRange(rest);
    TailInRange(rest, r);
  }

  /** What leaving a level does to each part of the state. */
  lemma {:induction false} PopIs(st: State, keep: bool, reverse: bool, body: bool)
    requires |st.levels| >= 2 && BlocksInRange(st)
    ensures var level, r := st.levels[0], Pop(st, keep, reverse, body);
      var decls := if reverse then Reversed(level.names) else level.names;
      var makes := keep || level.keep || body || (level.keepIfSubblocks && level.blocks != []);
      && makes == MakesBlock(level, keep, body) && (forall k :: 0 <= k < |level.blocks| ==> level.blocks[k] < |st.nodes|)
      && r.nodes == LeaveBlocks(st.nodes, level, if body then [] else decls, makes)
      && r.local == Restored(Cleared(st.local, decls), level.shadowed) && r.global == st.global && r.loose == st.loose
      && r.roots == (if body then st.roots + [|st.nodes|] else st.roots)
      && r.levels == [AddBlocks(st.levels[1], if body then [] else if makes then [|st.nodes|] else level.blocks)] + st.levels[2..]
      && r.keepNext == st.keepNext && r.keepNextIfSubblocks == st.keepNextIfSubblocks
  {
    hide LeaveBlocks, Cleared, Restored, Reversed, AddBlocks;
  }
}
