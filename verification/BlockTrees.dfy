/** The BLOCK nodes made while levels are left form the tree of the scopes of the function. */
module BlockTrees {
  import opened ScopeSpec

  // ----- No block is lost or shared -----

  function LevelRefs(levels: seq<Level>): multiset<nat> {
    if levels == [] then multiset{} else multiset(levels[0].blocks) + LevelRefs(levels[1..])
  }

  function NodeRefs(nodes: seq<Node>): multiset<nat> {
    if nodes == [] then multiset{}
    else NodeRefs(nodes[..|nodes| - 1]) + multiset(nodes[|nodes| - 1].subblocks)
  }

  /** Every place a block hangs from: a level, a block around it, a function, or a statement expression. */
  function References(st: State): multiset<nat> {
    LevelRefs(st.levels) + NodeRefs(st.nodes) + multiset(st.roots) + st.loose
  }

  ghost predicate Once(st: State) {
    forall b: nat :: References(st)[b] == if b < |st.nodes| then 1 else 0
  }

  predicate ChildOf(nodes: seq<Node>, p: nat, k: nat)
    requires p < |nodes| && k < |nodes[p].subblocks|
  {
    var c := nodes[p].subblocks[k];
    c < p && nodes[c].context == Some(p)
  }

  /** A block's recorded context is the block it is a subblock of, which was made later. */
  ghost predicate Parents(nodes: seq<Node>) {
    forall p: nat, k: nat | p < |nodes| && k < |nodes[p].subblocks| :: ChildOf(nodes, p, k)
  }

  ghost predicate Forest(st: State) {
    |st.levels| >= 1 && Once(st) && Parents(st.nodes)
  }

  lemma {:induction false} InLevelRefs(levels: seq<Level>, k: nat, j: nat)
    requires k < |levels| && j < |levels[k].blocks|
    ensures LevelRefs(levels)[levels[k].blocks[j]] >= 1
  {
    if k > 0 {
      InLevelRefs(levels[1..], k - 1, j);
    }
  }

  lemma {:induction false} InNodeRefs(nodes: seq<Node>, p: nat, k: nat)
    requires p < |nodes| && k < |nodes[p].subblocks|
    ensures NodeRefs(nodes)[nodes[p].subblocks[k]] >= 1
  {
    if p < |nodes| - 1 {
      InNodeRefs(nodes[..|nodes| - 1], p, k);
    }
  }

  predicate SameSubblocks(a: seq<Node>, b: seq<Node>) {
    |a| == |b| && forall k :: 0 <= k < |a| ==> a[k].subblocks == b[k].subblocks
  }

  lemma {:induction false} NodeRefsSame(a: seq<Node>, b: seq<Node>)
    requires SameSubblocks(a, b)
    ensures NodeRefs(a) == NodeRefs(b)
  {
    if a != [] {
      NodeRefsSame(a[..|a| - 1], b[..|b| - 1]);
    }
  }

  lemma {:induction false} NodeRefsAdd(a: seq<Node>, x: Node)
    ensures NodeRefs(a + [x]) == NodeRefs(a) + multiset(x.subblocks)
  {
    assert (a + [x])[..|a|] == a;
  }

  function Grown(nodes: seq<Node>, level: Level, decls: seq<Decl>, makes: bool): seq<Node> {
    if makes then nodes + [Node(decls, level.blocks, None)] else nodes
  }

  lemma {:induction false} LeftShape(nodes: seq<Node>, level: Level, decls: seq<Decl>, makes: bool)
    requires forall j :: 0 <= j < |level.blocks| ==> level.blocks[j] < |nodes|
    ensures var r, g := LeaveBlocks(nodes, level, decls, makes), Grown(nodes, level, decls, makes);
      && |r| == |g|
      && forall b :: 0 <= b < |g| ==>
           r[b] == if b in level.blocks then g[b].(context := if makes then Some(|nodes|) else None) else g[b]
  {
  }

  lemma {:induction false} LeftSubblocks(nodes: seq<Node>, level: Level, decls: seq<Decl>, makes: bool)
    requires forall j :: 0 <= j < |level.blocks| ==> level.blocks[j] < |nodes|
    ensures SameSubblocks(Grown(nodes, level, decls, makes), LeaveBlocks(nodes, level, decls, makes))
  {
    LeftShape(nodes, level, decls, makes);
    hide LeaveBlocks;
  }

  lemma {:induction false} LeftNodes(nodes: seq<Node>, level: Level, decls: seq<Decl>, makes: bool)
    requires forall j :: 0 <= j < |level.blocks| ==> level.blocks[j] < |nodes|
    ensures NodeRefs(LeaveBlocks(nodes, level, decls, makes)) == NodeRefs(nodes) + if makes then multiset(level.blocks) else multiset{}
  {
    NodeRefsAdd(nodes, Node(decls, level.blocks, None));
    LeftSubblocks(nodes, level, decls, makes);
    hide LeaveBlocks, NodeRefs, SameSubblocks;
    NodeRefsSame(Grown(nodes, level, decls, makes), LeaveBlocks(nodes, level, decls, makes));
  }

  lemma {:induction false} AddedRefs(levels: seq<Level>, out: seq<nat>)
    requires |levels| >= 1
    ensures LevelRefs([AddBlocks(levels[0], out)] + levels[1..]) == LevelRefs(levels) + multiset(out)
  {
    var r := [AddBlocks(levels[0], out)] + levels[1..];
    assert r[1..] == levels[1..];
    assert multiset(levels[0].blocks + out) == multiset(levels[0].blocks) + multiset(out);
  }

  lemma {:induction false} PopParts(st: State, keep: bool, reverse: bool, body: bool)
    requires |st.levels| >= 2 && BlocksInRange(st)
    ensures forall j :: 0 <= j < |st.levels[0].blocks| ==> st.levels[0].blocks[j] < |st.nodes|
    ensures var level, r := st.levels[0], Pop(st, keep, reverse, body);
      var decls := if body then [] else if reverse then Reversed(level.names) else level.names;
      var makes := MakesBlock(level, keep, body);
      && r.nodes == LeaveBlocks(st.nodes, level, decls, makes)
      && r.roots == (if body then st.roots + [|st.nodes|] else st.roots) && r.loose == st.loose
      && r.levels[0].blocks == st.levels[1].blocks + (if body then [] else if makes then [|st.nodes|] else level.blocks)
      && r.levels[1..] == st.levels[2..]
      && r.levels[0].keep == st.levels[1].keep && r.levels[0].keepIfSubblocks == st.levels[1].keepIfSubblocks
      && r.keepNext == st.keepNext && r.keepNextIfSubblocks == st.keepNextIfSubblocks
  {
    hide LeaveBlocks, Cleared, Restored, Reversed, MakesBlock;
  }

  lemma {:induction false} LevelRefsUnfold(levels: seq<Level>)
    requires |levels| >= 1
    ensures LevelRefs(levels) == multiset(levels[0].blocks) + LevelRefs(levels[1..])
  {
  }

  lemma {:induction false} MultisetAppend(a: seq<nat>, b: seq<nat>)
    ensures multiset(a + b) == multiset(a) + multiset(b)
  {
  }

  /** Leaving a level moves its blocks under the block made for it, or outward, and adds the block made. */
  lemma {:induction false} PopReferences(st: State, keep: bool, reverse: bool, body: bool)
    requires |st.levels| >= 2 && BlocksInRange(st)
    ensures var r: State, made: nat := Pop(st, keep, reverse, body), |st.nodes|;
      && made <= |r.nodes| <= made + 1
      && References(r) == References(st) + (if |r.nodes| > made then multiset{made} else multiset{})
  {
    var r: State, made: nat := Pop(st, keep, reverse, body), |st.nodes|;
    var level, makes := st.levels[0], MakesBlock(st.levels[0], keep, body);
    assert body ==> makes;
    hide *;
    PopNodeRefs(st, keep, reverse, body);
    PopOuterRefs(st, keep, reverse, body);
    MultisetAppend(st.roots, [made]);
    UnfoldReferences(r);
    UnfoldReferences(st);
    var out := if body then [] else if makes then [made] else level.blocks;
    Balance(LevelRefs(st.levels), LevelRefs(r.levels), multiset(level.blocks), multiset(out),
            NodeRefs(st.nodes), NodeRefs(r.nodes), multiset(st.roots), multiset(r.roots), st.loose, made, makes, body);
  }

  /** The counts of what hangs where, before and after. */
  lemma {:induction false} Balance(a: multiset<nat>, a': multiset<nat>, b: multiset<nat>, out: multiset<nat>, n: multiset<nat>, n': multiset<nat>,
                                   r: multiset<nat>, r': multiset<nat>, l: multiset<nat>, made: nat, makes: bool, body: bool)
    requires a' + b == a + out && (body ==> makes)
    requires out == if body then multiset{} else if makes then multiset{made} else b
    requires n' == n + (if makes then b else multiset{}) && r' == r + (if body then multiset{made} else multiset{})
    ensures a' + n' + r' + l == a + n + r + l + (if makes then multiset{made} else multiset{})
  {
    forall x: nat ensures (a' + n' + r' + l)[x] == (a + n + r + l + (if makes then multiset{made} else multiset{}))[x] {
      assert (a' + b)[x] == (a + out)[x];
    }
  }

  lemma {:induction false} PopNodeRefs(st: State, keep: bool, reverse: bool, body: bool)
    requires |st.levels| >= 2 && BlocksInRange(st)
    ensures var level, makes := st.levels[0], MakesBlock(st.levels[0], keep, body);
      var r := Pop(st, keep, reverse, body);
      && |r.nodes| == |st.nodes| + (if makes then 1 else 0)
      && NodeRefs(r.nodes) == NodeRefs(st.nodes) + (if makes then multiset(level.blocks) else multiset{})
  {
    var level := st.levels[0];
    var decls := if body then [] else if reverse then Reversed(level.names) else level.names;
    PopParts(st, keep, reverse, body);
    LeftNodes(st.nodes, level, decls, MakesBlock(level, keep, body));
    hide Pop, NodeRefs, Reversed;
  }

  lemma {:induction false} PopOuterRefs(st: State, keep: bool, reverse: bool, body: bool)
    requires |st.levels| >= 2 && BlocksInRange(st)
    ensures var level, r, made: nat := st.levels[0], Pop(st, keep, reverse, body), |st.nodes|;
      var out := if body then [] else if MakesBlock(level, keep, body) then [made] else level.blocks;
      && LevelRefs(r.levels) + multiset(level.blocks) == LevelRefs(st.levels) + multiset(out)
      && r.roots == (if body then st.roots + [made] else st.roots) && r.loose == st.loose
  {
    var level, r, made: nat := st.levels[0], Pop(st, keep, reverse, body), |st.nodes|;
    PopParts(st, keep, reverse, body);
    hide Pop, LeaveBlocks, LevelRefs, MakesBlock, Reversed;
    PopLevelRefs(st.levels, r.levels, if body then [] else if MakesBlock(level, keep, body) then [made] else level.blocks);
  }

  lemma {:induction false} UnfoldReferences(st: State)
    ensures References(st) == LevelRefs(st.levels) + NodeRefs(st.nodes) + multiset(st.roots) + st.loose
  {
    hide LevelRefs, NodeRefs;
  }

  lemma {:induction false} PopLevelRefs(a: seq<Level>, b: seq<Level>, out: seq<nat>)
    requires |a| >= 2 && |b| >= 1 && b[1..] == a[2..] && b[0].blocks == a[1].blocks + out
    ensures LevelRefs(b) + multiset(a[0].blocks) == LevelRefs(a) + multiset(out)
  {
    assert a[1..][1..] == a[2..];
    MultisetAppend(a[1].blocks, out);
    LevelRefsUnfold(a);
    LevelRefsUnfold(a[1..]);
    LevelRefsUnfold(b);
    hide LevelRefs;
  }

  lemma {:induction false} Unshared(st: State, p: nat, k: nat)
    requires Once(st) && p < |st.nodes| && k < |st.nodes[p].subblocks| && |st.levels| >= 1
    ensures st.nodes[p].subblocks[k] !in st.levels[0].blocks
  {
    var c := st.nodes[p].subblocks[k];
    InNodeRefs(st.nodes, p, k);
    LevelRefsUnfold(st.levels);
    assert References(st)[c] <= 1;
    assert multiset(st.levels[0].blocks)[c] == 0;
  }

  /** The context of a block already below another is not touched. */
  lemma {:induction false} PopParents(st: State, keep: bool, reverse: bool, body: bool)
    requires |st.levels| >= 2 && Forest(st) && BlocksInRange(st)
    ensures Parents(Pop(st, keep, reverse, body).nodes)
  {
    var level := st.levels[0];
    var r := Pop(st, keep, reverse, body).nodes;
    PopParts(st, keep, reverse, body);
    LeftShape(st.nodes, level, if body then [] else if reverse then Reversed(level.names) else level.names, MakesBlock(level, keep, body));
    hide LeaveBlocks, Pop, Once, Reversed;
    forall p: nat, k: nat | p < |r| && k < |r[p].subblocks| ensures ChildOf(r, p, k) {
      if p < |st.nodes| {
        assert ChildOf(st.nodes, p, k);
        Unshared(st, p, k);
      }
    }
  }

  lemma {:induction false} ForestSame(st: State, r: State)
    requires Forest(st) && References(r) == References(st) && r.nodes == st.nodes && |r.levels| >= 1
    ensures Forest(r)
  {
    hide References, Parents;
  }

  lemma {:induction false} PopForest(st: State, keep: bool, reverse: bool, body: bool)
    requires Forest(st) && |st.levels| >= 2 && BlocksInRange(st)
    ensures Forest(Pop(st, keep, reverse, body))
  {
    var r := Pop(st, keep, reverse, body);
    PopReferences(st, keep, reverse, body);
    PopParents(st, keep, reverse, body);
    assert Once(st) && |r.levels| >= 1;
    hide References, Parents, Pop, BlocksInRange, Forest;
    OneMore(st, r);
    ForestIntro(r);
  }

  lemma {:induction false} OneMore(st: State, r: State)
    requires Once(st) && |st.nodes| <= |r.nodes| <= |st.nodes| + 1
    requires var made: nat := |st.nodes|; References(r) == References(st) + (if |r.nodes| > made then multiset{made} else multiset{})
    ensures Once(r)
  {
    hide References;
  }

  lemma {:induction false} ForestIntro(r: State)
    requires Once(r) && Parents(r.nodes) && |r.levels| >= 1
    ensures Forest(r)
  {
    hide Once, Parents;
  }

  lemma {:induction false} FlagRefs(st: State, r: State)
    requires r.levels == st.levels && r.nodes == st.nodes && r.roots == st.roots && r.loose == st.loose
    ensures References(r) == References(st)
  {
  }

  /** Every step but leaving a level keeps the nodes and what they hang from. */
  lemma {:induction false} StepReferences(st: State, e: Event)
    requires Forest(st) && Possible(st, e) && !e.Leave?
    ensures Step(st, e).nodes == st.nodes && References(Step(st, e)) == References(st)
  {
    StepCases(st, e);
    ForestOnce(st);
    hide *;
    if e.Enter? {
      PushRefs(st);
    } else if e.Declaring? {
      DeclareRefs(st, e.x, e.accepts);
    } else if e.DeclaringTopLevel? {
      TopLevelRefs(st, e.x, e.accepts);
    } else if e.Deleting? {
      DeleteRefs(st, e.block);
    } else if e.Inserting? {
      InsertRefs(st, e.block);
    } else {
      FlagRefs(st, Step(st, e));
    }
  }

  lemma {:induction false} StepForest(st: State, e: Event)
    requires Forest(st) && Possible(st, e)
    ensures Forest(Step(st, e))
  {
    StepCases(st, e);
    hide *;
    if e.Leave? {
      PopForest(st, e.keep, e.reverse, e.body);
    } else {
      StepReferences(st, e);
      ForestSame(st, Step(st, e));
    }
  }

  lemma {:induction false} ForestOnce(st: State)
    requires Forest(st)
    ensures Once(st)
  {
  }

  lemma {:induction false} StepCases(st: State, e: Event)
    requires Possible(st, e)
    ensures |st.levels| >= 1 && BlocksInRange(st)
    ensures e.Enter? ==> Step(st, e) == Push(st)
    ensures e.Leave? ==> |st.levels| >= 2 && Step(st, e) == Pop(st, e.keep, e.reverse, e.body)
    ensures e.Declaring? ==> Step(st, e) == Declare(st, e.x, e.accepts)
    ensures e.DeclaringTopLevel? ==> Step(st, e) == DeclareTopLevel(st, e.x, e.accepts)
    ensures e.Deleting? ==> e.block in st.levels[0].blocks && Step(st, e) == Delete(st, e.block)
    ensures e.Inserting? ==> st.loose[e.block] >= 1 && Step(st, e) == Insert(st, e.block)
    ensures e.KeepNext? || e.KeepNextIfSubblocks? ==>
      var r := Step(st, e); r.levels == st.levels && r.nodes == st.nodes && r.roots == st.roots && r.loose == st.loose
  {
    hide BlocksInRange, Push, Pop, Declare, DeclareTopLevel, Delete, Insert;
  }

  lemma {:induction false} PushRefs(st: State)
    ensures References(Push(st)) == References(st) && Push(st).nodes == st.nodes
  {
    assert Push(st).levels[1..] == st.levels;
  }

  lemma {:induction false} InsertRefs(st: State, b: nat)
    requires |st.levels| >= 1 && st.loose[b] >= 1
    ensures References(Insert(st, b)) == References(st) && Insert(st, b).nodes == st.nodes
  {
    AddedRefs(st.levels, [b]);
    hide NodeRefs, LevelRefs;
  }

  predicate SameBlocks(a: seq<Level>, b: seq<Level>) {
    |a| == |b| && forall k :: 0 <= k < |a| ==> a[k].blocks == b[k].blocks
  }

  lemma {:induction false} LevelRefsSame(a: seq<Level>, b: seq<Level>)
    requires SameBlocks(a, b)
    ensures LevelRefs(a) == LevelRefs(b)
  {
    if a != [] {
      LevelRefsSame(a[1..], b[1..]);
    }
  }

  /** The states differ at most in names and meanings. */
  predicate SameButNames(a: State, b: State) {
    && SameBlocks(a.levels, b.levels) && a.nodes == b.nodes && a.roots == b.roots && a.loose == b.loose
    && a.keepNext == b.keepNext && a.keepNextIfSubblocks == b.keepNextIfSubblocks
  }

  lemma {:induction false} InstallBlocks(st: State, x: Decl)
    requires |st.levels| >= 1
    ensures SameButNames(Install(st, x), st)
    ensures Install(st, x).levels[0].keep == st.levels[0].keep && Install(st, x).levels[0].keepIfSubblocks == st.levels[0].keepIfSubblocks
    ensures Install(st, x).levels[1..] == st.levels[1..]
  {
    var r := Install(st, x);
    hide SameBlocks, Get;
    assert r.levels[1..] == st.levels[1..] && r.levels[0].blocks == st.levels[0].blocks;
    HeadBlocks(r.levels, st.levels);
  }

  lemma {:induction false} HeadBlocks(a: seq<Level>, b: seq<Level>)
    requires |a| >= 1 && |b| >= 1 && a[1..] == b[1..] && a[0].blocks == b[0].blocks
    ensures SameBlocks(a, b)
  {
    assert forall k :: 1 <= k < |a| ==> a[k] == a[1..][k - 1];
    assert forall k :: 1 <= k < |b| ==> b[k] == b[1..][k - 1];
  }

  lemma {:induction false} DeclareBlocks(st: State, x: Decl, accepts: bool)
    requires |st.levels| >= 1
    ensures var r := Declare(st, x, accepts);
      && SameButNames(r, st) && r.levels[1..] == st.levels[1..]
      && r.levels[0].keep == st.levels[0].keep && r.levels[0].keepIfSubblocks == st.levels[0].keepIfSubblocks
  {
    InstallBlocks(st, x);
    hide Install, Reuses;
  }

  lemma {:induction false} SameRefs(a: State, b: State)
    requires SameButNames(a, b)
    ensures References(a) == References(b)
  {
    LevelRefsSame(a.levels, b.levels);
    hide LevelRefs, NodeRefs, SameBlocks;
  }

  lemma {:induction false} DeclareRefs(st: State, x: Decl, accepts: bool)
    requires |st.levels| >= 1
    ensures var r := Declare(st, x, accepts); References(r) == References(st) && r.nodes == st.nodes
  {
    DeclareBlocks(st, x, accepts);
    SameRefs(Declare(st, x, accepts), st);
  }

  lemma {:induction false} TopLevelBlocks(st: State, x: Decl, accepts: bool)
    requires |st.levels| >= 1
    ensures SameButNames(DeclareTopLevel(st, x, accepts), st)
  {
    var k := |st.levels| - 1;
    DeclareBlocks(st.(levels := st.levels[k..]), x, accepts);
    hide Declare;
  }

  lemma {:induction false} TopLevelRefs(st: State, x: Decl, accepts: bool)
    requires |st.levels| >= 1
    ensures var r := DeclareTopLevel(st, x, accepts); References(r) == References(st) && r.nodes == st.nodes
  {
    TopLevelBlocks(st, x, accepts);
    SameRefs(DeclareTopLevel(st, x, accepts), st);
  }

  lemma {:induction false} DeleteRefs(st: State, b: nat)
    requires |st.levels| >= 1 && Once(st) && b in st.levels[0].blocks
    ensures References(Delete(st, b)) == References(st) && Delete(st, b).nodes == st.nodes
  {
    var r := Delete(st, b);
    var blocks := st.levels[0].blocks;
    var j: nat :| j < |blocks| && blocks[j] == b;
    assert r.levels[1..] == st.levels[1..];
    assert multiset(blocks)[b] == 1 by {
      InLevelRefs(st.levels, 0, j);
      assert References(st)[b] <= 1;
      assert multiset(blocks)[b] >= 1 && multiset(blocks)[b] <= LevelRefs(st.levels)[b];
    }
    assert multiset(Without(blocks, b)) + multiset{b} == multiset(blocks);
  }

  /** In every state reached, each block made hangs from exactly one place, and if that is another
      block then that one is its recorded context. */
  lemma {:induction false} RunForest(st: State, es: seq<Event>)
    requires Forest(st) && Runs(st, es)
    ensures Forest(Run(st, es))
    decreases |es|
  {
    if es != [] {
      hide Forest, Step, Possible;
      StepForest(st, es[0]);
      RunForest(Step(st, es[0]), es[1..]);
    }
  }

  lemma {:induction false} InitialForest()
    ensures Forest(Initial())
  {
  }

  /** So in every state the front end reaches. */
  lemma {:induction false} ReachedForest(es: seq<Event>)
    requires Runs(Initial(), es)
    ensures Forest(Run(Initial(), es))
  {
    InitialForest();
    RunForest(Initial(), es);
  }

  /** A block taken out of a chain leaves the others in their order. */
  lemma {:induction false} WithoutKeeps(a: seq<nat>, b: nat, c: seq<nat>)
    requires b !in a && b !in c
    ensures Without(a + [b] + c, b) == a + c
  {
    var all := a + [b] + c;
    hide Without;
    if a != [] {
      assert all[1..] == a[1..] + [b] + c && all[0] == a[0];
      WithoutUnfold(all, b);
      WithoutKeeps(a[1..], b, c);
      assert [a[0]] + (a[1..] + c) == a + c;
    } else {
      assert all[1..] == c && all[0] == b;
      WithoutUnfold(all, b);
      WithoutNone(c, b);
      assert [] + c == a + c;
    }
  }

  lemma {:induction false} WithoutUnfold(s: seq<nat>, b: nat)
    requires s != []
    ensures Without(s, b) == (if s[0] == b then [] else [s[0]]) + Without(s[1..], b)
  {
  }

  lemma {:induction false} WithoutNone(c: seq<nat>, b: nat)
    requires b !in c
    ensures Without(c, b) == c
  {
    if c != [] {
      WithoutNone(c[1..], b);
    }
  }

  // ----- The tree of blocks is the tree of scopes -----

  /** The text of a scope: declarations, and scopes inside it with the flags set before they are
      entered and those given when they are left. */
  datatype Body =
    | Done
    | Declared(x: Decl, accepts: bool, rest: Body)
    | Nested(keepNext: bool, keepNextIfSubblocks: bool, inner: Body, keep: bool, reverse: bool, rest: Body)

  datatype BlockTree = BlockTree(vars: seq<Decl>, inner: seq<BlockTree>)

  /** Only blocks made earlier are below a block. */
  ghost predicate Downward(nodes: seq<Node>) {
    forall p: nat, k: nat | p < |nodes| && k < |nodes[p].subblocks| :: nodes[p].subblocks[k] < p
  }

  predicate Below(ids: seq<nat>, n: nat) {
    forall k :: 0 <= k < |ids| ==> ids[k] < n
  }

  ghost predicate Sound(st: State) {
    |st.levels| >= 1 && BlocksInRange(st) && Downward(st.nodes)
  }

  ghost function TreesAt(nodes: seq<Node>, ids: seq<nat>, n: nat): seq<BlockTree>
    requires Downward(nodes) && Below(ids, n) && n <= |nodes|
    decreases n, |ids|
  {
    if ids == [] then []
    else [BlockTree(nodes[ids[0]].vars, TreesAt(nodes, nodes[ids[0]].subblocks, ids[0]))] + TreesAt(nodes, ids[1..], n)
  }

  function Flagged(st: State, keepNext: bool, keepNextIfSubblocks: bool): State {
    st.(keepNext := st.keepNext || keepNext, keepNextIfSubblocks := st.keepNextIfSubblocks || keepNextIfSubblocks)
  }

  /** The front end working through a scope (the guards always hold: see BodyAdds). */
  ghost function RunBody(st: State, body: Body): State
    decreases body
  {
    match body
    case Done => st
    case Declared(x, accepts, rest) => if |st.levels| >= 1 then RunBody(Declare(st, x, accepts), rest) else st
    case Nested(f, g, inner, keep, reverse, rest) =>
      var s2 := RunBody(Push(Flagged(st, f, g)), inner);
      if |s2.levels| >= 2 && BlocksInRange(s2) then RunBody(Pop(s2, keep, reverse, false), rest) else s2
  }

  /** The declarations a scope itself makes, in the order of the text. */
  ghost function Made(st: State, body: Body): seq<Decl>
    decreases body
  {
    match body
    case Done => []
    case Declared(x, accepts, rest) =>
      if |st.levels| >= 1 then (if Reuses(st, x, accepts) then [] else [x]) + Made(Declare(st, x, accepts), rest) else []
    case Nested(f, g, inner, keep, reverse, rest) =>
      var s2 := RunBody(Push(Flagged(st, f, g)), inner);
      if |s2.levels| >= 2 && BlocksInRange(s2) then Made(Pop(s2, keep, reverse, false), rest) else []
  }

  /** The last declaration first. */
  function Latest(made: seq<Decl>): seq<Decl> {
    seq(|made|, k requires 0 <= k < |made| => made[|made| - 1 - k])
  }

  /** What a scope contributes: a block around its inner blocks if it is to be kept, or to be kept for
      their sake and there are any; else those blocks. */
  function Contribution(keep: bool, ifSubblocks: bool, vars: seq<Decl>, inner: seq<BlockTree>): seq<BlockTree> {
    if keep || (ifSubblocks && inner != []) then [BlockTree(vars, inner)] else inner
  }

  /** The blocks of a scope, in the order its inner scopes are left. A scope is kept if it was asked for
      before it was entered or when it was left. */
  ghost function BlocksOf(st: State, body: Body): seq<BlockTree>
    decreases body
  {
    match body
    case Done => []
    case Declared(x, accepts, rest) => if |st.levels| >= 1 then BlocksOf(Declare(st, x, accepts), rest) else []
    case Nested(f, g, inner, keep, reverse, rest) =>
      var s1 := Push(Flagged(st, f, g));
      var s2 := RunBody(s1, inner);
      if |s2.levels| >= 2 && BlocksInRange(s2) then
        Contribution(keep || f, g, InOrder(Made(s1, inner), reverse), BlocksOf(s1, inner)) + BlocksOf(Pop(s2, keep, reverse, false), rest)
      else []
  }

  /** The order of a block's declarations: that of the text if asked for, else the last one first. */
  function InOrder(made: seq<Decl>, reverse: bool): seq<Decl> {
    if reverse then made else Latest(made)
  }

  /** The blocks a level leaves behind. */
  ghost function LeftTrees(s2: State, keep: bool, reverse: bool, inner: seq<BlockTree>): seq<BlockTree>
    requires |s2.levels| >= 1
  {
    if MakesBlock(s2.levels[0], keep, false)
    then [BlockTree(if reverse then Reversed(s2.levels[0].names) else s2.levels[0].names, inner)] else inner
  }

  /** Blocks already there keep their declarations and their subblocks. */
  predicate Extends(a: seq<Node>, b: seq<Node>) {
    |a| <= |b| && forall k :: 0 <= k < |a| ==> a[k].vars == b[k].vars && a[k].subblocks == b[k].subblocks
  }

  lemma {:induction false} TreesKept(a: seq<Node>, b: seq<Node>, ids: seq<nat>, n: nat, m: nat)
    requires Extends(a, b) && Downward(a) && Downward(b) && Below(ids, n) && n <= |a| && n <= m <= |b|
    ensures TreesAt(a, ids, n) == TreesAt(b, ids, m)
    decreases n, |ids|
  {
    if ids != [] {
      assert Below(a[ids[0]].subblocks, ids[0]);
      TreesKept(a, b, a[ids[0]].subblocks, ids[0], ids[0]);
      TreesKept(a, b, ids[1..], n, m);
    }
  }

  ghost function TreeAt(nodes: seq<Node>, b: nat): BlockTree
    requires Downward(nodes) && b < |nodes|
  {
    BlockTree(nodes[b].vars, TreesAt(nodes, nodes[b].subblocks, b))
  }

  lemma {:induction false} TreesUnfold(nodes: seq<Node>, ids: seq<nat>, n: nat)
    requires Downward(nodes) && Below(ids, n) && n <= |nodes| && ids != []
    ensures Below(ids[1..], n) && TreesAt(nodes, ids, n) == [TreeAt(nodes, ids[0])] + TreesAt(nodes, ids[1..], n)
  {
  }

  lemma {:induction false} TreesAppend(nodes: seq<Node>, x: seq<nat>, y: seq<nat>, n: nat)
    requires Downward(nodes) && Below(x, n) && Below(y, n) && n <= |nodes|
    ensures Below(x + y, n) && TreesAt(nodes, x + y, n) == TreesAt(nodes, x, n) + TreesAt(nodes, y, n)
  {
    if x == [] {
      assert x + y == y;
    } else {
      assert (x + y)[1..] == x[1..] + y;
      TreesUnfold(nodes, x, n);
      TreesUnfold(nodes, x + y, n);
      hide TreesAt, TreeAt, Downward;
      TreesAppend(nodes, x[1..], y, n);
    }
  }

  /** What working through a scope has done to the state: `out` are the blocks it added to the level. */
  ghost predicate Added(st: State, r: State, out: seq<nat>, trees: seq<BlockTree>) {
    && Sound(st) && Sound(r) && Extends(st.nodes, r.nodes)
    && r.levels[1..] == st.levels[1..]
    && r.levels[0].blocks == st.levels[0].blocks + out && Below(out, |r.nodes|)
    && r.levels[0].keep == st.levels[0].keep && r.levels[0].keepIfSubblocks == st.levels[0].keepIfSubblocks
    && !r.keepNext && !r.keepNextIfSubblocks
    && r.roots == st.roots
    && TreesAt(r.nodes, out, |r.nodes|) == trees
  }

  lemma {:induction false} AddedTwice(a: State, b: State, c: State, x: seq<nat>, y: seq<nat>, s: seq<BlockTree>, t: seq<BlockTree>)
    requires Added(a, b, x, s) && Added(b, c, y, t)
    ensures Added(a, c, x + y, s + t)
  {
    TreesKept(b.nodes, c.nodes, x, |b.nodes|, |c.nodes|);
    TreesAppend(c.nodes, x, y, |c.nodes|);
    assert a.levels[0].blocks + x + y == a.levels[0].blocks + (x + y);
    assert SameBlocks(c.levels[1..], a.levels[1..]);
  }

  lemma {:induction false} DeclareAdds(st: State, x: Decl, accepts: bool)
    requires Sound(st) && !st.keepNext && !st.keepNextIfSubblocks
    ensures Added(st, Declare(st, x, accepts), [], [])
  {
    DeclareBlocks(st, x, accepts);
    hide Declare;
  }

  lemma {:induction false} LeaveTrees(nodes: seq<Node>, level: Level, vars: seq<Decl>, makes: bool)
    requires Downward(nodes) && Below(level.blocks, |nodes|)
    ensures var r, out := LeaveBlocks(nodes, level, vars, makes), level.blocks;
      && Extends(nodes, r) && Downward(r) && Below(if makes then [|nodes|] else out, |r|)
      && TreesAt(r, if makes then [|nodes|] else out, |r|) ==
           if makes then [BlockTree(vars, TreesAt(nodes, out, |nodes|))] else TreesAt(nodes, out, |nodes|)
  {
    var r, out := LeaveBlocks(nodes, level, vars, makes), level.blocks;
    LeftShape(nodes, level, vars, makes);
    hide LeaveBlocks;
    assert makes ==> r[|nodes|].vars == vars && r[|nodes|].subblocks == out;
    TreesKept(nodes, r, out, |nodes|, |nodes|);
    if makes {
      assert [|nodes|][1..] == [];
    } else {
      TreesKept(nodes, r, out, |nodes|, |r|);
    }
  }

  /** Leaving a scope whose inner blocks have been added. */
  lemma {:induction false} LeaveAdds(st: State, s1: State, s2: State, out: seq<nat>, inner: seq<BlockTree>, keep: bool, reverse: bool)
    requires Sound(st) && |s1.levels| >= 2 && s1.levels[1..] == st.levels && s1.nodes == st.nodes && s1.roots == st.roots
    requires s1.levels[0].blocks == [] && Added(s1, s2, out, inner)
    ensures Added(st, Pop(s2, keep, reverse, false), if MakesBlock(s2.levels[0], keep, false) then [|s2.nodes|] else out,
                  LeftTrees(s2, keep, reverse, inner))
  {
    LeftBehind(s1, s2, out, inner, keep, reverse);
    AddedUsable(s1, s2, out, inner);
    var level := s2.levels[0];
    var makes := MakesBlock(level, keep, false);
    var vars := if reverse then Reversed(level.names) else level.names;
    var r, here := Pop(s2, keep, reverse, false), if makes then [|s2.nodes|] else out;
    LeaveLevels(s2, keep, reverse);
    LeaveTrees(s2.nodes, level, vars, makes);
    hide *;
    LeaveOuter(st, s1, s2);
    ExtendsTrans(st.nodes, s2.nodes, r.nodes);
    AddedIntro(st, r, here, LeftTrees(s2, keep, reverse, inner));
  }

  lemma {:induction false} LeaveOuter(st: State, s1: State, s2: State)
    requires |s1.levels| >= 2 && |s2.levels| >= 1 && s1.levels[1..] == st.levels && s2.levels[1..] == s1.levels[1..]
    ensures |s2.levels| >= 2 && |st.levels| >= 1 && s2.levels[1] == st.levels[0] && s2.levels[2..] == st.levels[1..]
  {
    assert |s2.levels[1..]| == |s2.levels| - 1;
    assert s2.levels[1..][1..] == s2.levels[2..] && s2.levels[1] == s2.levels[1..][0];
  }

  lemma {:induction false} ExtendsTrans(a: seq<Node>, b: seq<Node>, c: seq<Node>)
    requires Extends(a, b) && Extends(b, c)
    ensures Extends(a, c)
  {
  }

  lemma {:induction false} AddedIntro(st: State, r: State, out: seq<nat>, trees: seq<BlockTree>)
    requires Sound(st) && Downward(r.nodes) && Extends(st.nodes, r.nodes) && |r.levels| >= 1 && r.levels[1..] == st.levels[1..]
    requires r.levels[0].blocks == st.levels[0].blocks + out && Below(out, |r.nodes|)
    requires r.levels[0].keep == st.levels[0].keep && r.levels[0].keepIfSubblocks == st.levels[0].keepIfSubblocks
    requires !r.keepNext && !r.keepNextIfSubblocks && r.roots == st.roots
    requires TreesAt(r.nodes, out, |r.nodes|) == trees
    ensures Added(st, r, out, trees)
  {
    LeaveInRange(st, r, out);
    hide BlocksInRange, Downward, Below, TreesAt;
  }

  lemma {:induction false} LeaveLevels(s2: State, keep: bool, reverse: bool)
    requires |s2.levels| >= 2 && BlocksInRange(s2)
    ensures var r, level := Pop(s2, keep, reverse, false), s2.levels[0];
      var makes, vars := MakesBlock(level, keep, false), if reverse then Reversed(level.names) else level.names;
      && Below(level.blocks, |s2.nodes|) && r.nodes == LeaveBlocks(s2.nodes, level, vars, makes)
      && r.levels[0].blocks == s2.levels[1].blocks + (if makes then [|s2.nodes|] else level.blocks)
      && r.levels[1..] == s2.levels[2..] && r.roots == s2.roots
      && r.levels[0].keep == s2.levels[1].keep && r.levels[0].keepIfSubblocks == s2.levels[1].keepIfSubblocks
      && r.keepNext == s2.keepNext && r.keepNextIfSubblocks == s2.keepNextIfSubblocks
  {
    PopParts(s2, keep, reverse, false);
    hide LeaveBlocks, Pop, Reversed, MakesBlock, BlocksInRange;
  }

  lemma {:induction false} LeftBehind(s1: State, s2: State, out: seq<nat>, inner: seq<BlockTree>, keep: bool, reverse: bool)
    requires |s1.levels| >= 2 && s1.levels[0].blocks == [] && Added(s1, s2, out, inner)
    ensures s2.levels[0].blocks == out && |s2.levels| == |s1.levels|
  {
    assert |s1.levels[1..]| == |s2.levels[1..]|;
  }

  lemma {:induction false} LeaveInRange(st: State, r: State, out: seq<nat>)
    requires BlocksInRange(st) && |st.levels| >= 1 && |r.levels| >= 1 && r.levels[1..] == st.levels[1..] && |st.nodes| <= |r.nodes|
    requires r.levels[0].blocks == st.levels[0].blocks + out && Below(out, |r.nodes|)
    ensures BlocksInRange(r)
  {
    forall k, j | 0 <= k < |r.levels| && 0 <= j < |r.levels[k].blocks| ensures r.levels[k].blocks[j] < |r.nodes| {
      if k >= 1 {
        assert r.levels[k] == r.levels[1..][k - 1] == st.levels[k];
      }
    }
  }

  /** Working through a scope adds to the level the blocks of the scopes inside, as nested trees in
      the order they are left, and disturbs no block made before. */
  lemma {:induction false} BodyAdds(st: State, body: Body) returns (out: seq<nat>)
    requires Sound(st) && !st.keepNext && !st.keepNextIfSubblocks
    ensures Added(st, RunBody(st, body), out, BlocksOf(st, body))
    decreases body
  {
    assert |st.levels| >= 1;
    hide *;
    BodyUnfolds(st, body);
    match body
    case Done =>
      out := [];
      NothingAdded(st);
    case Declared(x, accepts, rest) =>
      var s1 := Declare(st, x, accepts);
      DeclareAdds(st, x, accepts);
      SoundAfter(st, s1, [], []);
      out := BodyAdds(s1, rest);
      AddedTwice(st, s1, RunBody(s1, rest), [], out, [], BlocksOf(s1, rest));
      assert [] + out == out && [] + BlocksOf(s1, rest) == BlocksOf(s1, rest);
    case Nested(f, g, inner, keep, reverse, rest) =>
      var s1 := Push(Flagged(st, f, g));
      Entered(st, f, g);
      var within := BodyAdds(s1, inner);
      var s2 := RunBody(s1, inner);
      AddedUsable(s1, s2, within, BlocksOf(s1, inner));
      var here, trees := NestedAdds(st, s1, s2, within, BlocksOf(s1, inner), keep, reverse);
      BodyNames(s1, inner);
      LeftIs(st, f, g, s1, s2, within, BlocksOf(s1, inner), Made(s1, inner), keep, reverse);
      var s3 := Pop(s2, keep, reverse, false);
      var more := BodyAdds(s3, rest);
      AddedTwice(st, s3, RunBody(s3, rest), here, more, trees, BlocksOf(s3, rest));
      out := here + more;
  }

  lemma {:induction false} DeclareNames(st: State, x: Decl, accepts: bool)
    requires |st.levels| >= 1
    ensures Declare(st, x, accepts).levels[0].names == (if Reuses(st, x, accepts) then [] else [x]) + st.levels[0].names
  {
    assert [] + st.levels[0].names == st.levels[0].names;
    hide Reuses;
  }

  lemma {:induction false} LatestMore(a: seq<Decl>, b: seq<Decl>, names: seq<Decl>)
    requires |a| <= 1
    ensures Latest(a + b) + names == Latest(b) + (a + names)
  {
    var x, y := Latest(a + b) + names, Latest(b) + (a + names);
    forall k | 0 <= k < |x| ensures x[k] == y[k] {
    }
    assert x == y;
  }

  /** The current level has the declarations made, the last one first. */
  lemma {:induction false} BodyNames(st: State, body: Body)
    requires Sound(st) && !st.keepNext && !st.keepNextIfSubblocks
    ensures |RunBody(st, body).levels| >= 1 && RunBody(st, body).levels[0].names == Latest(Made(st, body)) + st.levels[0].names
    decreases body
  {
    assert |st.levels| >= 1;
    hide *;
    BodyUnfolds(st, body);
    match body
    case Done => NoNames(st.levels[0].names);
    case Declared(x, accepts, rest) =>
      var s1 := Declare(st, x, accepts);
      DeclareAdds(st, x, accepts);
      SoundAfter(st, s1, [], []);
      DeclareNames(st, x, accepts);
      BodyNames(s1, rest);
      LatestMore(if Reuses(st, x, accepts) then [] else [x], Made(s1, rest), st.levels[0].names);
    case Nested(f, g, inner, keep, reverse, rest) =>
      var s1 := Push(Flagged(st, f, g));
      Entered(st, f, g);
      var within := BodyAdds(s1, inner);
      var s2 := RunBody(s1, inner);
      AddedUsable(s1, s2, within, BlocksOf(s1, inner));
      var here, trees := NestedAdds(st, s1, s2, within, BlocksOf(s1, inner), keep, reverse);
      OuterNames(st, s1, s2, keep, reverse);
      BodyNames(Pop(s2, keep, reverse, false), rest);
  }

  lemma {:induction false} NoNames(names: seq<Decl>)
    ensures Latest([]) + names == names
  {
  }

  lemma {:induction false} OuterNames(st: State, s1: State, s2: State, keep: bool, reverse: bool)
    requires |s2.levels| >= 2 && BlocksInRange(s2) && |s1.levels| >= 2 && s1.levels[1..] == st.levels && s2.levels[1..] == s1.levels[1..]
    ensures |st.levels| >= 1 && Pop(s2, keep, reverse, false).levels[0].names == st.levels[0].names
  {
    assert s2.levels[1] == s2.levels[1..][0] == st.levels[0];
    hide LeaveBlocks, Cleared, Restored, Reversed, MakesBlock;
  }

  lemma {:induction false} ReversedIs(made: seq<Decl>)
    ensures Reversed(Latest(made)) == made
  {
    if made == [] {
    } else {
      var l, rest := Latest(made), made[..|made| - 1];
      assert l[1..] == Latest(rest) && l[0] == made[|made| - 1];
      ReversedIs(rest);
    }
  }

  /** What is left behind is what the scope contributes by its own flags. */
  lemma {:induction false} LeftIs(st: State, f: bool, g: bool, s1: State, s2: State, out: seq<nat>, inner: seq<BlockTree>, made: seq<Decl>, keep: bool, reverse: bool)
    requires Sound(st) && !st.keepNext && !st.keepNextIfSubblocks && s1 == Push(Flagged(st, f, g)) && Added(s1, s2, out, inner)
    requires s1.levels[0].blocks == [] && s2.levels[0].names == Latest(made) + s1.levels[0].names
    ensures LeftTrees(s2, keep, reverse, inner) == Contribution(keep || f, g, InOrder(made, reverse), inner)
  {
    assert s1.levels[0].names == [] && Latest(made) + [] == Latest(made);
    ReversedIs(made);
    NoTrees(s2, out, inner);
    hide TreesAt, Latest, Sound;
  }

  lemma {:induction false} NoTrees(r: State, out: seq<nat>, trees: seq<BlockTree>)
    requires Downward(r.nodes) && Below(out, |r.nodes|) && TreesAt(r.nodes, out, |r.nodes|) == trees
    ensures out == [] <==> trees == []
  {
  }

  lemma {:induction false} NestedAdds(st: State, s1: State, s2: State, within: seq<nat>, inner: seq<BlockTree>, keep: bool, reverse: bool)
    returns (here: seq<nat>, trees: seq<BlockTree>)
    requires Sound(st) && |s1.levels| >= 2 && s1.levels[1..] == st.levels && s1.nodes == st.nodes && s1.roots == st.roots
    requires s1.levels[0].blocks == [] && Added(s1, s2, within, inner) && |s2.levels| >= 2 && BlocksInRange(s2)
    ensures trees == LeftTrees(s2, keep, reverse, inner)
    ensures var s3 := Pop(s2, keep, reverse, false); Added(st, s3, here, trees) && Sound(s3) && !s3.keepNext && !s3.keepNextIfSubblocks
  {
    hide *;
    LeaveAdds(st, s1, s2, within, inner, keep, reverse);
    here := if MakesBlock(s2.levels[0], keep, false) then [|s2.nodes|] else within;
    trees := LeftTrees(s2, keep, reverse, inner);
    SoundAfter(st, Pop(s2, keep, reverse, false), here, trees);
  }

  lemma {:induction false} BodyUnfolds(st: State, body: Body)
    requires |st.levels| >= 1
    ensures body.Done? ==> RunBody(st, body) == st && BlocksOf(st, body) == [] && Made(st, body) == []
    ensures body.Declared? ==>
      var s1 := Declare(st, body.x, body.accepts);
      && RunBody(st, body) == RunBody(s1, body.rest) && BlocksOf(st, body) == BlocksOf(s1, body.rest)
      && Made(st, body) == (if Reuses(st, body.x, body.accepts) then [] else [body.x]) + Made(s1, body.rest)
    ensures body.Nested? ==>
      var s1 := Push(Flagged(st, body.keepNext, body.keepNextIfSubblocks));
      var s2 := RunBody(s1, body.inner);
      |s1.levels| >= 2 && (|s2.levels| >= 2 && BlocksInRange(s2) ==>
        var s3 := Pop(s2, body.keep, body.reverse, false);
        && RunBody(st, body) == RunBody(s3, body.rest)
        && BlocksOf(st, body) == Contribution(body.keep || body.keepNext, body.keepNextIfSubblocks, InOrder(Made(s1, body.inner), body.reverse),
                                              BlocksOf(s1, body.inner)) + BlocksOf(s3, body.rest)
        && Made(st, body) == Made(s3, body.rest))
  {
    hide BlocksInRange, Declare, Pop, Reversed, Contribution, InOrder;
  }

  lemma {:induction false} AddedUsable(s1: State, s2: State, out: seq<nat>, trees: seq<BlockTree>)
    requires Added(s1, s2, out, trees) && |s1.levels| >= 2
    ensures Sound(s2) && |s2.levels| >= 2 && BlocksInRange(s2) && Downward(s2.nodes) && Extends(s1.nodes, s2.nodes)
    ensures s2.levels[1..] == s1.levels[1..] && !s2.keepNext && !s2.keepNextIfSubblocks && s2.roots == s1.roots
    ensures Below(out, |s2.nodes|) && TreesAt(s2.nodes, out, |s2.nodes|) == trees
  {
    assert |s1.levels[1..]| == |s2.levels[1..]|;
  }

  lemma {:induction false} NothingAdded(st: State)
    requires Sound(st) && !st.keepNext && !st.keepNextIfSubblocks
    ensures Added(st, st, [], [])
  {
  }

  lemma {:induction false} SoundAfter(st: State, r: State, out: seq<nat>, trees: seq<BlockTree>)
    requires Added(st, r, out, trees)
    ensures Sound(r) && !r.keepNext && !r.keepNextIfSubblocks
  {
  }

  lemma {:induction false} Entered(st: State, f: bool, g: bool)
    requires Sound(st)
    ensures var s1 := Push(Flagged(st, f, g));
      && Sound(s1) && !s1.keepNext && !s1.keepNextIfSubblocks && |s1.levels| >= 2
      && s1.levels[1..] == st.levels && s1.levels[0].blocks == [] && s1.nodes == st.nodes && s1.roots == st.roots
  {
    var s1 := Push(Flagged(st, f, g));
    assert s1.levels[1..] == st.levels;
    forall k, j | 0 <= k < |s1.levels| && 0 <= j < |s1.levels[k].blocks| ensures s1.levels[k].blocks[j] < |s1.nodes| {
      assert s1.levels[k] == s1.levels[1..][k - 1];
    }
  }

  /** A function's scope becomes one new tree: its root has no declarations of its own and below it
      the blocks of the scopes inside; the level outside gets none of them. */
  lemma {:induction false} FunctionTree(st: State, f: bool, g: bool, inner: Body, keep: bool, reverse: bool)
    requires Sound(st) && !st.keepNext && !st.keepNextIfSubblocks
    ensures var s1 := Push(Flagged(st, f, g));
      var s2 := RunBody(s1, inner);
      && |s2.levels| >= 2 && BlocksInRange(s2)
      && var r := Pop(s2, keep, reverse, true);
         && r.roots == st.roots + [|s2.nodes|] && |r.nodes| == |s2.nodes| + 1 && Downward(r.nodes)
         && TreesAt(r.nodes, [|s2.nodes|], |r.nodes|) == [BlockTree([], BlocksOf(s1, inner))]
         && SameBlocks(r.levels, st.levels)
  {
    var s1 := Push(Flagged(st, f, g));
    Entered(st, f, g);
    var out := BodyAdds(s1, inner);
    var s2 := RunBody(s1, inner);
    FunctionLeft(st, s1, s2, out, BlocksOf(s1, inner), keep, reverse);
  }

  lemma {:induction false} FunctionLeft(st: State, s1: State, s2: State, out: seq<nat>, inner: seq<BlockTree>, keep: bool, reverse: bool)
    requires Sound(st) && |s1.levels| >= 2 && s1.levels[1..] == st.levels && s1.levels[0].blocks == [] && s1.nodes == st.nodes && s1.roots == st.roots
    requires Added(s1, s2, out, inner)
    ensures |s2.levels| >= 2 && BlocksInRange(s2)
    ensures var r := Pop(s2, keep, reverse, true);
      && r.roots == st.roots + [|s2.nodes|] && |r.nodes| == |s2.nodes| + 1 && Downward(r.nodes)
      && TreesAt(r.nodes, [|s2.nodes|], |r.nodes|) == [BlockTree([], inner)]
      && SameBlocks(r.levels, st.levels)
  {
    PopParts(s2, keep, reverse, true);
    assert s2.levels[0].blocks == out;
    LeaveTrees(s2.nodes, s2.levels[0], [], true);
    assert s2.levels[1..][1..] == s2.levels[2..];
    assert s2.levels[1..] == st.levels;
    hide LeaveBlocks, Pop, TreesAt, Reversed;
    HeadBlocks(Pop(s2, keep, reverse, true).levels, st.levels);
  }

  // ----- The events of a scope -----

  function Flags(keepNext: bool, keepNextIfSubblocks: bool): seq<Event> {
    (if keepNext then [KeepNext] else []) + (if keepNextIfSubblocks then [KeepNextIfSubblocks] else [])
  }

  /** What the front end does for the text of a scope. */
  function EventsOf(body: Body): seq<Event> {
    match body
    case Done => []
    case Declared(x, accepts, rest) => [Declaring(x, accepts)] + EventsOf(rest)
    case Nested(f, g, inner, keep, reverse, rest) =>
      Flags(f, g) + ([Enter] + (EventsOf(inner) + ([Leave(keep, reverse, false)] + EventsOf(rest))))
  }

  lemma {:induction false} RunAppend(st: State, a: seq<Event>, b: seq<Event>)
    requires Runs(st, a) && Runs(Run(st, a), b)
    ensures Runs(st, a + b) && Run(st, a + b) == Run(Run(st, a), b)
    decreases |a|
  {
    hide Step, Possible;
    if a == [] {
      assert a + b == b;
    } else {
      assert (a + b)[1..] == a[1..] + b && (a + b)[0] == a[0];
      RunAppend(Step(st, a[0]), a[1..], b);
    }
  }

  lemma {:induction false} RunOne(st: State, e: Event, rest: seq<Event>)
    requires Possible(st, e) && Runs(Step(st, e), rest)
    ensures Runs(st, [e] + rest) && Run(st, [e] + rest) == Run(Step(st, e), rest)
  {
    assert ([e] + rest)[1..] == rest;
    hide Step, Possible;
  }

  lemma {:induction false} FlagsRun(st: State, f: bool, g: bool)
    requires Sound(st)
    ensures Runs(st, Flags(f, g)) && Run(st, Flags(f, g)) == Flagged(st, f, g)
  {
    var s1 := if f then Step(st, KeepNext) else st;
    assert BlocksInRange(s1) && |s1.levels| >= 1;
    var more: seq<Event> := if g then [KeepNextIfSubblocks] else [];
    if g {
      assert Runs(Step(s1, KeepNextIfSubblocks), []);
      RunOne(s1, KeepNextIfSubblocks, []);
      assert [KeepNextIfSubblocks] + [] == [KeepNextIfSubblocks];
    }
    if f {
      RunOne(st, KeepNext, more);
    } else {
      assert [] + more == more;
    }
  }

  /** Working through the text of a scope is such a run. */
  lemma {:induction false} BodyRuns(st: State, body: Body)
    requires Sound(st) && !st.keepNext && !st.keepNextIfSubblocks
    ensures Runs(st, EventsOf(body)) && Run(st, EventsOf(body)) == RunBody(st, body)
    decreases body
  {
    var out := BodyAdds(st, body);
    match body
    case Done =>
    case Declared(x, accepts, rest) =>
      DeclaredPossible(st, x, accepts);
      hide *;
      var s1 := Declare(st, x, accepts);
      DeclareAdds(st, x, accepts);
      SoundAfter(st, s1, [], []);
      BodyRuns(s1, rest);
      BodyUnfolds(st, body);
      RunOne(st, Declaring(x, accepts), EventsOf(rest));
      EventsUnfold(body);
      LevelsThere(st);
    case Nested(f, g, inner, keep, reverse, rest) =>
      hide *;
      NestedRuns(st, f, g, inner, keep, reverse, rest);
  }

  lemma {:induction false} LevelsThere(st: State)
    requires Sound(st)
    ensures |st.levels| >= 1 && BlocksInRange(st)
  {
  }

  lemma {:induction false} EventsUnfold(body: Body)
    ensures body.Declared? ==> EventsOf(body) == [Declaring(body.x, body.accepts)] + EventsOf(body.rest)
    ensures body.Nested? ==>
      EventsOf(body) == Flags(body.keepNext, body.keepNextIfSubblocks)
        + ([Enter] + (EventsOf(body.inner) + ([Leave(body.keep, body.reverse, false)] + EventsOf(body.rest))))
  {
  }

  lemma {:induction false} DeclaredPossible(st: State, x: Decl, accepts: bool)
    requires Sound(st)
    ensures Possible(st, Declaring(x, accepts)) && Step(st, Declaring(x, accepts)) == Declare(st, x, accepts)
  {
  }

  lemma {:induction false} EnterPossible(st: State, f: bool, g: bool)
    requires Sound(st)
    ensures var s0 := Flagged(st, f, g); Possible(s0, Enter) && Step(s0, Enter) == Push(s0)
  {
    assert BlocksInRange(Flagged(st, f, g));
  }

  lemma {:induction false} LeavePossible(st: State, keep: bool, reverse: bool)
    requires |st.levels| >= 2 && BlocksInRange(st)
    ensures Possible(st, Leave(keep, reverse, false)) && Step(st, Leave(keep, reverse, false)) == Pop(st, keep, reverse, false)
  {
  }

  lemma {:induction false} NestedRuns(st: State, f: bool, g: bool, inner: Body, keep: bool, reverse: bool, rest: Body)
    requires Sound(st) && !st.keepNext && !st.keepNextIfSubblocks
    ensures var body := Nested(f, g, inner, keep, reverse, rest);
      Runs(st, EventsOf(body)) && Run(st, EventsOf(body)) == RunBody(st, body)
    decreases Nested(f, g, inner, keep, reverse, rest), 0
  {
    var body := Nested(f, g, inner, keep, reverse, rest);
    LevelsThere(st);
    hide *;
    var s1 := Push(Flagged(st, f, g));
    Entered(st, f, g);
    var within := BodyAdds(s1, inner);
    var s2 := RunBody(s1, inner);
    AddedUsable(s1, s2, within, BlocksOf(s1, inner));
    var here, trees := NestedAdds(st, s1, s2, within, BlocksOf(s1, inner), keep, reverse);
    var s3 := Pop(s2, keep, reverse, false);
    BodyRuns(s1, inner);
    BodyRuns(s3, rest);
    BodyUnfolds(st, body);
    JoinRuns(st, s2, body);
  }

  /** The runs of the inner scope and of the rest, put together. */
  lemma {:induction false} JoinRuns(st: State, s2: State, body: Body)
    requires body.Nested? && Sound(st) && |s2.levels| >= 2 && BlocksInRange(s2)
    requires var s1 := Push(Flagged(st, body.keepNext, body.keepNextIfSubblocks)); Runs(s1, EventsOf(body.inner)) && Run(s1, EventsOf(body.inner)) == s2
    requires Runs(Pop(s2, body.keep, body.reverse, false), EventsOf(body.rest))
    ensures Runs(st, EventsOf(body)) && Run(st, EventsOf(body)) == Run(Pop(s2, body.keep, body.reverse, false), EventsOf(body.rest))
  {
    var f, g, leave := body.keepNext, body.keepNextIfSubblocks, Leave(body.keep, body.reverse, false);
    hide *;
    LeavePossible(s2, body.keep, body.reverse);
    RunOne(s2, leave, EventsOf(body.rest));
    var a := [leave] + EventsOf(body.rest);
    RunAppend(Push(Flagged(st, f, g)), EventsOf(body.inner), a);
    EnterPossible(st, f, g);
    RunOne(Flagged(st, f, g), Enter, EventsOf(body.inner) + a);
    FlagsRun(st, f, g);
    RunAppend(st, Flags(f, g), [Enter] + (EventsOf(body.inner) + a));
    EventsUnfold(body);
  }
}
