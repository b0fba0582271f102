/** Scopes of the C front end (c-decl.c): binding levels, the meaning cached in each identifier, and
    the BLOCK nodes made when levels are left. */
module ScopeSpec {

  datatype Option<T> = None | Some(value: T)

  /** `name` is None where DECL_NAME is null. */
  datatype Decl = Decl(name: Option<nat>, id: nat, external: bool, public: bool, parm: bool)

  /** `names` and `shadowed` have the most recent entry first. */
  datatype Level = Level(names: seq<Decl>, shadowed: seq<(nat, Decl)>, blocks: seq<nat>, keep: bool, keepIfSubblocks: bool)

  /** A BLOCK: BLOCK_VARS, BLOCK_SUBBLOCKS, BLOCK_SUPERCONTEXT. */
  datatype Node = Node(vars: seq<Decl>, subblocks: seq<nat>, context: Option<nat>)

  /** `levels` has the current level first and the global one last. `roots` are the blocks of the
      functions finished; `loose` those taken out by delete_block and not yet put back. */
  datatype State = State(
    local: map<nat, Decl>, global: map<nat, Decl>, levels: seq<Level>,
    nodes: seq<Node>, roots: seq<nat>, loose: multiset<nat>,
    keepNext: bool, keepNextIfSubblocks: bool)

  const EMPTY_LEVEL := Level([], [], [], false, false)

  function Initial(): State {
    State(map[], map[], [EMPTY_LEVEL], [], [], multiset{}, false, false)
  }

  function Get(m: map<nat, Decl>, n: nat): Option<Decl> {
    if n in m then Some(m[n]) else None
  }

  /** The first declaration of n in a chain. */
  function First(names: seq<Decl>, n: nat): Option<Decl> {
    if names == [] then None
    else if names[0].name == Some(n) then Some(names[0])
    else First(names[1..], n)
  }

  function OrElse(x: Option<Decl>, y: Option<Decl>): Option<Decl> {
    if x.Some? then x else y
  }

  /** What a name means: the search of the levels from the current one out to the global one. */
  function Search(levels: seq<Level>, n: nat): Option<Decl> {
    if levels == [] then None
    else OrElse(First(levels[0].names, n), Search(levels[1..], n))
  }

  // ----- Looking up -----

  predicate AtGlobal(st: State) {
    |st.levels| == 1
  }

  function LookupName(st: State, n: nat): Option<Decl> {
    if !AtGlobal(st) && n in st.local then Some(st.local[n]) else Get(st.global, n)
  }

  function LookupCurrent(st: State, n: nat): Option<Decl>
    requires |st.levels| >= 1
  {
    if AtGlobal(st) then Get(st.global, n)
    else if n !in st.local then None
    else First(st.levels[0].names, n)
  }

  function LookupCurrentGlobal(st: State, n: nat): Option<Decl>
    requires |st.levels| >= 1
  {
    if AtGlobal(st) then Get(st.global, n)
    else OrElse(if n in st.local then First(st.levels[0].names, n) else None, Get(st.global, n))
  }

  // ----- Entering, declaring, leaving -----

  function Push(st: State): (r: State)
    ensures |r.levels| == 1 + |st.levels|
  {
    st.(levels := [EMPTY_LEVEL.(keep := st.keepNext, keepIfSubblocks := st.keepNextIfSubblocks)] + st.levels,
        keepNext := false, keepNextIfSubblocks := false)
  }

  function AddName(level: Level, x: Decl): Level {
    level.(names := [x] + level.names)
  }

  function Install(st: State, x: Decl): (r: State)
    requires |st.levels| >= 1
    ensures |r.levels| == |st.levels|
  {
    var level := st.levels[0];
    if x.name.None? then st.(levels := [AddName(level, x)] + st.levels[1..])
    else
      var n := x.name.value;
      if AtGlobal(st) then st.(global := st.global[n := x], levels := [AddName(level, x)] + st.levels[1..])
      else
        var shadowed := if n in st.local then [(n, st.local[n])] + level.shadowed else level.shadowed;
        st.(local := st.local[n := x], levels := [AddName(level.(shadowed := shadowed), x)] + st.levels[1..])
  }

  /** The declaration that x repeats, if any. */
  function Repeated(st: State, x: Decl): Option<Decl>
    requires |st.levels| >= 1
  {
    if x.name.None? then None
    else if x.external && x.public then LookupCurrentGlobal(st, x.name.value)
    else LookupCurrent(st, x.name.value)
  }

  /** pushdecl; `accepts` is the answer of duplicate_decls. */
  function Reuses(st: State, x: Decl, accepts: bool): bool
    requires |st.levels| >= 1
  {
    var t := Repeated(st, x);
    t.Some? && accepts && (t.value.parm || !(x.public || x.external) || LookupName(st, x.name.value) == t)
  }

  function Declare(st: State, x: Decl, accepts: bool): (r: State)
    requires |st.levels| >= 1
    ensures |r.levels| == |st.levels|
  {
    if Reuses(st, x, accepts) then st else Install(st, x)
  }

  /** pushdecl_top_level: the declaration is made with the global level as the current one. */
  function DeclareTopLevel(st: State, x: Decl, accepts: bool): (r: State)
    requires |st.levels| >= 1
    ensures |r.levels| == |st.levels|
  {
    var k := |st.levels| - 1;
    var r := Declare(st.(levels := st.levels[k..]), x, accepts);
    r.(levels := st.levels[..k] + r.levels)
  }

  function Reversed(s: seq<Decl>): (r: seq<Decl>)
    ensures |r| == |s| && forall x :: x in r <==> x in s
  {
    if s == [] then [] else Reversed(s[1..]) + [s[0]]
  }

  /** Clears the local meaning of every name declared. */
  function Cleared(local: map<nat, Decl>, decls: seq<Decl>): map<nat, Decl> {
    if decls == [] then local
    else Cleared(if decls[0].name.Some? then local - {decls[0].name.value} else local, decls[1..])
  }

  /** Undoes the shadowing, most recent first. */
  function Restored(local: map<nat, Decl>, shadowed: seq<(nat, Decl)>): map<nat, Decl>
    decreases |shadowed|
  {
    if shadowed == [] then local
    else Restored(local[shadowed[0].0 := shadowed[0].1], shadowed[1..])
  }

  function WithContext(nodes: seq<Node>, ids: seq<nat>, context: Option<nat>): (r: seq<Node>)
    requires forall k :: 0 <= k < |ids| ==> ids[k] < |nodes|
    ensures |r| == |nodes|
    ensures forall b :: 0 <= b < |nodes| ==> r[b] == if b in ids then nodes[b].(context := context) else nodes[b]
    decreases |ids|
  {
    if ids == [] then nodes
    else WithContext(nodes[ids[0] := nodes[ids[0]].(context := context)], ids[1..], context)
  }

  /** A BLOCK is made for a level kept, for a function body, and if asked for when there are subblocks. */
  predicate MakesBlock(level: Level, keep: bool, body: bool) {
    keep || level.keep || body || (level.keepIfSubblocks && level.blocks != [])
  }

  ghost predicate BlocksInRange(st: State) {
    forall k, j :: 0 <= k < |st.levels| && 0 <= j < |st.levels[k].blocks| ==> st.levels[k].blocks[j] < |st.nodes|
  }

  function LeaveBlocks(nodes: seq<Node>, level: Level, decls: seq<Decl>, makes: bool): (r: seq<Node>)
    requires forall j :: 0 <= j < |level.blocks| ==> level.blocks[j] < |nodes|
    ensures |r| == |nodes| + if makes then 1 else 0
  {
    if makes then WithContext(nodes + [Node(decls, level.blocks, None)], level.blocks, Some(|nodes|))
    else WithContext(nodes, level.blocks, None)
  }

  function AddBlocks(level: Level, blocks: seq<nat>): Level {
    level.(blocks := level.blocks + blocks)
  }

  function Pop(st: State, keep: bool, reverse: bool, body: bool): (r: State)
    requires |st.levels| >= 2 && BlocksInRange(st)
    ensures |r.levels| == |st.levels| - 1
  {
    var level := st.levels[0];
    var decls := if reverse then Reversed(level.names) else level.names;
    var makes := MakesBlock(level, keep, body);
    var out := if body then [] else if makes then [|st.nodes|] else level.blocks;
    st.(
      nodes := LeaveBlocks(st.nodes, level, if body then [] else decls, makes),
      local := Restored(Cleared(st.local, decls), level.shadowed),
      roots := if body then st.roots + [|st.nodes|] else st.roots,
      levels := [AddBlocks(st.levels[1], out)] + st.levels[2..])
  }

  function Without(s: seq<nat>, b: nat): (r: seq<nat>)
    ensures b !in r && forall x :: x in r <==> x in s && x != b
    ensures multiset(r) == multiset(s)[b := 0]
  {
    if s == [] then []
    else
      assert s == [s[0]] + s[1..];
      if s[0] == b then Without(s[1..], b) else [s[0]] + Without(s[1..], b)
  }

  function Delete(st: State, b: nat): (r: State)
    requires |st.levels| >= 1
    ensures |r.levels| == |st.levels|
  {
    st.(levels := [st.levels[0].(blocks := Without(st.levels[0].blocks, b))] + st.levels[1..],
        loose := st.loose + multiset{b})
  }

  function Insert(st: State, b: nat): (r: State)
    requires |st.levels| >= 1
    ensures |r.levels| == |st.levels|
  {
    st.(levels := [AddBlocks(st.levels[0], [b])] + st.levels[1..], loose := st.loose - multiset{b})
  }

  // ----- Runs -----

  datatype Event =
    | Enter
    | Leave(keep: bool, reverse: bool, body: bool)
    | Declaring(x: Decl, accepts: bool)
    | DeclaringTopLevel(x: Decl, accepts: bool)
    | KeepNext
    | KeepNextIfSubblocks
    | Deleting(block: nat)
    | Inserting(block: nat)

  /** The global level is never left; a block deleted is one of the current level, a block inserted
      one that was deleted. */
  ghost predicate Possible(st: State, e: Event) {
    |st.levels| >= 1 && BlocksInRange(st) &&
    match e
    case Leave(_, _, _) => |st.levels| >= 2
    case Deleting(b) => b in st.levels[0].blocks
    case Inserting(b) => st.loose[b] >= 1 && b < |st.nodes|
    case _ => true
  }

  ghost function Step(st: State, e: Event): (r: State)
    requires Possible(st, e)
    ensures |r.levels| >= 1
  {
    match e
    case Enter => Push(st)
    case Leave(keep, reverse, body) => Pop(st, keep, reverse, body)
    case Declaring(x, accepts) => Declare(st, x, accepts)
    case DeclaringTopLevel(x, accepts) => DeclareTopLevel(st, x, accepts)
    case KeepNext => st.(keepNext := true)
    case KeepNextIfSubblocks => st.(keepNextIfSubblocks := true)
    case Deleting(b) => Delete(st, b)
    case Inserting(b) => Insert(st, b)
  }

  ghost predicate Runs(st: State, es: seq<Event>)
    decreases |es|
  {
    es == [] || (Possible(st, es[0]) && Runs(Step(st, es[0]), es[1..]))
  }

  ghost function Run(st: State, es: seq<Event>): State
    requires Runs(st, es)
    decreases |es|
  {
    if es == [] then st else Run(Step(st, es[0]), es[1..])
  }
}
