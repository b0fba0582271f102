/** The meaning cached in an identifier is the one the search of the levels finds. */
module ScopeMeaning {
  import opened ScopeSpec

  // ----- The invariant -----

  /** Meanings left in identifiers by levels that are gone. */
  type Stale = nat -> Option<Decl>

  /** The innermost local declaration of n, or what is left over from levels that are gone. */
  function LocalMeaning(levels: seq<Level>, stale: Stale, n: nat): Option<Decl> {
    if |levels| <= 1 then stale(n)
    else OrElse(First(levels[0].names, n), LocalMeaning(levels[1..], stale, n))
  }

  /** The entry of a shadowed list that is restored last. */
  function Oldest(shadowed: seq<(nat, Decl)>, n: nat): Option<Decl> {
    if shadowed == [] then None
    else OrElse(Oldest(shadowed[1..], n), if shadowed[0].0 == n then Some(shadowed[0].1) else None)
  }

  function Count(names: seq<Decl>, n: nat): nat {
    if names == [] then 0 else Count(names[1..], n) + if names[0].name == Some(n) then 1 else 0
  }

  /** Leaving the level restores what n meant outside, or uncovers the first of several
      declarations in the level when it meant nothing. */
  predicate Undoes(level: Level, outer: Option<Decl>, n: nat) {
    if Count(level.names, n) == 0 then Oldest(level.shadowed, n).None?
    else if outer.Some? then Oldest(level.shadowed, n) == outer
    else Oldest(level.shadowed, n).Some? <==> Count(level.names, n) >= 2
  }

  predicate AllUndo(levels: seq<Level>, stale: Stale, n: nat) {
    |levels| >= 2 ==> Undoes(levels[0], LocalMeaning(levels[1..], stale, n), n) && AllUndo(levels[1..], stale, n)
  }

  predicate CachedAt(st: State, stale: Stale, n: nat) {
    && |st.levels| >= 1
    && Get(st.local, n) == LocalMeaning(st.levels, stale, n)
    && Get(st.global, n) == First(st.levels[|st.levels| - 1].names, n)
    && AllUndo(st.levels, stale, n)
  }

  ghost predicate Cached(st: State, stale: Stale) {
    forall n: nat :: CachedAt(st, stale, n)
  }

  /** n was declared twice in the level about to be left, and means nothing local outside it. */
  predicate Doubled(st: State, stale: Stale, n: nat) {
    |st.levels| >= 2 && Count(st.levels[0].names, n) >= 2 && LocalMeaning(st.levels[1..], stale, n).None?
  }

  function StaleAfterLeave(st: State, stale: Stale): Stale
    requires |st.levels| >= 2
  {
    (n: nat) => if Doubled(st, stale, n) then Oldest(st.levels[0].shadowed, n) else stale(n)
  }

  function NextStale(st: State, stale: Stale, e: Event): Stale
    requires e.Leave? ==> |st.levels| >= 2
  {
    if e.Leave? then StaleAfterLeave(st, stale) else stale
  }

  ghost function StaleAfter(st: State, stale: Stale, es: seq<Event>): Stale
    requires Runs(st, es)
    decreases |es|
  {
    if es == [] then stale
    else StaleAfter(Step(st, es[0]), NextStale(st, stale, es[0]), es[1..])
  }

  // ----- Each step keeps it -----

  lemma {:induction false} FirstCount(names: seq<Decl>, n: nat)
    ensures First(names, n).Some? <==> Count(names, n) >= 1
  {
    if names != [] {
      FirstCount(names[1..], n);
    }
  }

  lemma {:induction false} PushKeeps(st: State, stale: Stale, n: nat)
    requires CachedAt(st, stale, n)
    ensures CachedAt(Push(st), stale, n)
  {
    var r := Push(st);
    assert r.levels[1..] == st.levels;
  }

  /** The levels outside agree on their declarations and undo lists. */
  predicate SameScope(a: seq<Level>, b: seq<Level>) {
    |a| == |b| && forall k :: 0 <= k < |a| ==> a[k].names == b[k].names && a[k].shadowed == b[k].shadowed
  }

  lemma {:induction false} SameScopeSame(a: seq<Level>, b: seq<Level>, stale: Stale, n: nat)
    requires SameScope(a, b)
    ensures LocalMeaning(a, stale, n) == LocalMeaning(b, stale, n) && (AllUndo(a, stale, n) <==> AllUndo(b, stale, n))
    ensures Search(a, n) == Search(b, n)
  {
    if a != [] {
      SameScopeSame(a[1..], b[1..], stale, n);
    }
  }

  /** Adding to the global level changes no local meaning. */
  lemma {:induction false} GlobalLevelIgnored(a: seq<Level>, b: seq<Level>, stale: Stale, n: nat)
    requires |a| == |b| >= 1 && a[..|a| - 1] == b[..|b| - 1]
    ensures LocalMeaning(a, stale, n) == LocalMeaning(b, stale, n) && (AllUndo(a, stale, n) <==> AllUndo(b, stale, n))
  {
    if |a| >= 2 {
      assert a[0] == a[..|a| - 1][0] == b[..|b| - 1][0] == b[0];
      assert a[1..][..|a| - 2] == a[..|a| - 1][1..] == b[..|b| - 1][1..] == b[1..][..|b| - 2];
      GlobalLevelIgnored(a[1..], b[1..], stale, n);
    }
  }

  /** A declaration added to a level: a meaning found before it is recorded. */
  lemma {:induction false} InstallUndoes(level: Level, level': Level, x: Decl, local: map<nat, Decl>, outer: Option<Decl>, n: nat)
    requires Undoes(level, outer, n) && Get(local, n) == OrElse(First(level.names, n), outer)
    requires level'.names == [x] + level.names
    requires level'.shadowed == if x.name.Some? && x.name.value in local then [(x.name.value, local[x.name.value])] + level.shadowed else level.shadowed
    ensures Undoes(level', outer, n)
    ensures First(level'.names, n) == if x.name == Some(n) then Some(x) else First(level.names, n)
  {
    assert level'.names[1..] == level.names;
    FirstCount(level.names, n);
    if x.name.Some? && x.name.value in local {
      assert level'.shadowed[1..] == level.shadowed;
    }
  }

  lemma {:induction false} GlobalInstall(st: State, x: Decl, n: nat)
    requires AtGlobal(st) && Get(st.global, n) == First(st.levels[0].names, n)
    ensures var r := Install(st, x); r.local == st.local && Get(r.global, n) == First(r.levels[0].names, n)
  {
    assert Install(st, x).levels[0].names == [x] + st.levels[0].names;
    assert ([x] + st.levels[0].names)[1..] == st.levels[0].names;
  }

  lemma {:induction false} LocalInstall(st: State, x: Decl)
    requires |st.levels| >= 2
    ensures var r, level := Install(st, x), st.levels[0];
      && r.levels[1..] == st.levels[1..] && r.levels[0].names == [x] + level.names && r.global == st.global
      && r.local == (if x.name.Some? then st.local[x.name.value := x] else st.local)
      && r.levels[0].shadowed ==
           (if x.name.Some? && x.name.value in st.local then [(x.name.value, st.local[x.name.value])] + level.shadowed else level.shadowed)
  {
  }

  lemma {:induction false} InstallKeeps(st: State, stale: Stale, x: Decl, n: nat)
    requires CachedAt(st, stale, n)
    ensures CachedAt(Install(st, x), stale, n)
  {
    var r := Install(st, x);
    if AtGlobal(st) {
      GlobalInstall(st, x, n);
    } else {
      LocalInstall(st, x);
      hide First, Undoes, Oldest, Count, Install;
      assert r.levels[|r.levels| - 1] == r.levels[1..][|st.levels| - 2] == st.levels[|st.levels| - 1];
      InstallUndoes(st.levels[0], r.levels[0], x, st.local, LocalMeaning(st.levels[1..], stale, n), n);
    }
  }

  lemma {:induction false} TopLevelParts(st: State, x: Decl, accepts: bool, n: nat)
    requires |st.levels| >= 1 && Get(st.global, n) == First(st.levels[|st.levels| - 1].names, n)
    ensures var r, k := DeclareTopLevel(st, x, accepts), |st.levels| - 1;
      && r.levels[..k] == st.levels[..k] && r.local == st.local
      && Get(r.global, n) == First(r.levels[k].names, n)
  {
    var k := |st.levels| - 1;
    var base := st.(levels := st.levels[k..]);
    GlobalInstall(base, x, n);
    hide Reuses, Install, First;
    assert DeclareTopLevel(st, x, accepts).levels[k] == Declare(base, x, accepts).levels[0];
  }

  lemma {:induction false} TopLevelKeeps(st: State, stale: Stale, x: Decl, accepts: bool, n: nat)
    requires CachedAt(st, stale, n)
    ensures CachedAt(DeclareTopLevel(st, x, accepts), stale, n)
  {
    TopLevelParts(st, x, accepts, n);
    hide DeclareTopLevel, First, AllUndo, LocalMeaning;
    GlobalLevelIgnored(st.levels, DeclareTopLevel(st, x, accepts).levels, stale, n);
  }

  lemma {:induction false} ClearedAt(local: map<nat, Decl>, decls: seq<Decl>, n: nat)
    ensures Get(Cleared(local, decls), n) == if Count(decls, n) >= 1 then None else Get(local, n)
  {
    if decls != [] {
      ClearedAt(if decls[0].name.Some? then local - {decls[0].name.value} else local, decls[1..], n);
    }
  }

  lemma {:induction false} RestoredAt(local: map<nat, Decl>, shadowed: seq<(nat, Decl)>, n: nat)
    ensures Get(Restored(local, shadowed), n) == OrElse(Oldest(shadowed, n), Get(local, n))
    decreases |shadowed|
  {
    if shadowed != [] {
      RestoredAt(local[shadowed[0].0 := shadowed[0].1], shadowed[1..], n);
    }
  }

  lemma {:induction false} CountAppend(a: seq<Decl>, b: seq<Decl>, n: nat)
    ensures Count(a + b, n) == Count(a, n) + Count(b, n)
  {
    if a == [] {
      assert a + b == b;
    } else {
      assert (a + b)[1..] == a[1..] + b;
      CountAppend(a[1..], b, n);
    }
  }

  lemma {:induction false} CountReversed(a: seq<Decl>, n: nat)
    ensures Count(Reversed(a), n) == Count(a, n)
  {
    if a != [] {
      CountReversed(a[1..], n);
      CountAppend(Reversed(a[1..]), [a[0]], n);
    }
  }

  /** What a name that no level declares is left with matters to none of them. */
  lemma {:induction false} StaleUnseen(levels: seq<Level>, stale: Stale, stale': Stale, n: nat)
    requires |levels| >= 1
    requires stale(n) == stale'(n) || (LocalMeaning(levels, stale, n).None? && AllUndo(levels, stale, n))
    ensures AllUndo(levels, stale, n) <==> AllUndo(levels, stale', n)
    ensures LocalMeaning(levels, stale', n) == if stale(n) == stale'(n) then LocalMeaning(levels, stale, n) else stale'(n)
    ensures LocalMeaning(levels, stale, n).None? ==> stale(n).None?
  {
    if |levels| >= 2 {
      FirstCount(levels[0].names, n);
      StaleUnseen(levels[1..], stale, stale', n);
    }
  }

  /** Leaving a level gives each name its meaning outside, unless a stale one is uncovered. */
  lemma {:induction false} PopLocal(st: State, stale: Stale, keep: bool, reverse: bool, body: bool, n: nat)
    requires CachedAt(st, stale, n) && |st.levels| >= 2 && BlocksInRange(st)
    ensures Get(Pop(st, keep, reverse, body).local, n) ==
      if Doubled(st, stale, n) then Oldest(st.levels[0].shadowed, n) else LocalMeaning(st.levels[1..], stale, n)
  {
    var level := st.levels[0];
    var decls := if reverse then Reversed(level.names) else level.names;
    CountReversed(level.names, n);
    FirstCount(level.names, n);
    ClearedAt(st.local, decls, n);
    RestoredAt(Cleared(st.local, decls), level.shadowed, n);
    assert Pop(st, keep, reverse, body).local == Restored(Cleared(st.local, decls), level.shadowed) by {
      hide Reversed, LeaveBlocks, CachedAt, BlocksInRange;
    }
    hide Cleared, Restored, Count, First, Pop, Oldest, Reversed;
    assert Undoes(level, LocalMeaning(st.levels[1..], stale, n), n);
  }

  lemma {:induction false} PopLevels(st: State, keep: bool, reverse: bool, body: bool)
    requires |st.levels| >= 2 && BlocksInRange(st)
    ensures var r := Pop(st, keep, reverse, body); SameScope(r.levels, st.levels[1..]) && r.global == st.global
  {
    hide LeaveBlocks, Cleared, Restored, Reversed;
  }

  lemma {:induction false} PopKeeps(st: State, stale: Stale, keep: bool, reverse: bool, body: bool, n: nat)
    requires CachedAt(st, stale, n) && |st.levels| >= 2 && BlocksInRange(st)
    ensures CachedAt(Pop(st, keep, reverse, body), StaleAfterLeave(st, stale), n)
  {
    var r := Pop(st, keep, reverse, body);
    var outer, stale' := st.levels[1..], StaleAfterLeave(st, stale);
    PopLocal(st, stale, keep, reverse, body, n);
    PopLevels(st, keep, reverse, body);
    hide Count, First, Pop, Undoes, Oldest;
    StaleUnseen(outer, stale, stale', n);
    SameScopeSame(r.levels, outer, stale', n);
    assert Get(r.local, n) == LocalMeaning(r.levels, stale', n);
    assert AllUndo(r.levels, stale', n);
    assert r.levels[|r.levels| - 1].names == outer[|outer| - 1].names == st.levels[|st.levels| - 1].names;
  }

  lemma {:induction false} StepKeepsAt(st: State, stale: Stale, e: Event, n: nat)
    requires CachedAt(st, stale, n) && Possible(st, e)
    ensures CachedAt(Step(st, e), NextStale(st, stale, e), n)
  {
    hide CachedAt, AllUndo, LocalMeaning, Pop, Push, Install, Delete, Insert, DeclareTopLevel, StaleAfterLeave, SameScope, BlocksInRange;
    match e
    case Enter => PushKeeps(st, stale, n);
    case Leave(keep, reverse, body) => PopKeeps(st, stale, keep, reverse, body, n);
    case Declaring(x, _) => InstallKeeps(st, stale, x, n);
    case DeclaringTopLevel(x, accepts) => TopLevelKeeps(st, stale, x, accepts, n);
    case _ =>
      BlocksOnly(st, e);
      BlocksIgnored(st, Step(st, e), stale, n);
  }

  lemma {:induction false} BlocksOnly(st: State, e: Event)
    requires Possible(st, e) && (e.KeepNext? || e.KeepNextIfSubblocks? || e.Deleting? || e.Inserting?)
    ensures var r := Step(st, e); r.local == st.local && r.global == st.global && SameScope(r.levels, st.levels)
  {
    hide BlocksInRange, Delete, Insert;
    if e.Deleting? {
      DeleteOnly(st, e.block);
    } else if e.Inserting? {
      InsertOnly(st, e.block);
    }
  }

  lemma {:induction false} DeleteOnly(st: State, b: nat)
    requires |st.levels| >= 1
    ensures var r := Delete(st, b); r.local == st.local && r.global == st.global && SameScope(r.levels, st.levels)
  {
    hide Without;
  }

  lemma {:induction false} InsertOnly(st: State, b: nat)
    requires |st.levels| >= 1
    ensures var r := Insert(st, b); r.local == st.local && r.global == st.global && SameScope(r.levels, st.levels)
  {
  }

  lemma {:induction false} StepKeeps(st: State, stale: Stale, e: Event)
    requires Cached(st, stale) && Possible(st, e)
    ensures Cached(Step(st, e), NextStale(st, stale, e))
  {
    var r, stale' := Step(st, e), NextStale(st, stale, e);
    forall n: nat ensures CachedAt(r, stale', n) {
      assert CachedAt(st, stale, n);
      StepKeepsAt(st, stale, e, n);
    }
  }

  lemma {:induction false} BlocksIgnored(st: State, r: State, stale: Stale, n: nat)
    requires CachedAt(st, stale, n) && r.local == st.local && r.global == st.global && SameScope(r.levels, st.levels)
    ensures CachedAt(r, stale, n)
  {
    SameScopeSame(r.levels, st.levels, stale, n);
  }

  lemma {:induction false} RunKeeps(st: State, stale: Stale, es: seq<Event>)
    requires Cached(st, stale) && Runs(st, es)
    ensures Cached(Run(st, es), StaleAfter(st, stale, es))
    decreases |es|
  {
    if es != [] {
      hide Cached, Step, Possible, StaleAfterLeave;
      StepKeeps(st, stale, es[0]);
      RunKeeps(Step(st, es[0]), NextStale(st, stale, es[0]), es[1..]);
    }
  }

  // ----- Looking up agrees with searching -----

  predicate BoundLocally(levels: seq<Level>, n: nat) {
    |levels| >= 2 && (First(levels[0].names, n).Some? || BoundLocally(levels[1..], n))
  }

  lemma {:induction false} LocalOrGlobal(levels: seq<Level>, stale: Stale, n: nat)
    requires |levels| >= 1
    ensures BoundLocally(levels, n) ==> LocalMeaning(levels, stale, n) == Search(levels, n) && Search(levels, n).Some?
    ensures !BoundLocally(levels, n) ==> LocalMeaning(levels, stale, n) == stale(n) && Search(levels, n) == First(levels[|levels| - 1].names, n)
  {
    if |levels| >= 2 {
      LocalOrGlobal(levels[1..], stale, n);
      assert levels[1..][|levels| - 2] == levels[|levels| - 1];
    }
  }

  /** A name whose cached meaning is a leftover that no level declares. */
  predicate Misread(st: State, stale: Stale, n: nat)
    requires |st.levels| >= 1
  {
    !AtGlobal(st) && !BoundLocally(st.levels, n) && stale(n).Some? && stale(n) != Get(st.global, n)
  }

  /** lookup_name finds what the search of the levels finds, exactly when no leftover is read. */
  lemma {:induction false} LookupIsSearchIff(st: State, stale: Stale, n: nat)
    requires CachedAt(st, stale, n)
    ensures LookupName(st, n) == Search(st.levels, n) <==> !Misread(st, stale, n)
  {
    LocalOrGlobal(st.levels, stale, n);
    if AtGlobal(st) {
      assert st.levels[1..] == [];
    }
  }

  /** The early exit of lookup_name_current_level loses nothing: a name without a local meaning is
      not declared in the current level. */
  lemma {:induction false} EarlyExitLosesNothing(st: State, stale: Stale, n: nat)
    requires CachedAt(st, stale, n)
    ensures LookupCurrent(st, n) == First(st.levels[0].names, n)
    ensures LookupCurrentGlobal(st, n) == OrElse(First(st.levels[0].names, n), First(st.levels[|st.levels| - 1].names, n))
  {
  }

  /** The declaration a new one may repeat is that of its name in the current level, or for a public
      external one that of the global level if the current one has none. */
  lemma {:induction false} RepeatedMeans(st: State, stale: Stale, x: Decl)
    requires |st.levels| >= 1 && x.name.Some? && CachedAt(st, stale, x.name.value)
    ensures var here, outermost := First(st.levels[0].names, x.name.value), First(st.levels[|st.levels| - 1].names, x.name.value);
      Repeated(st, x) == if here.Some? || !(x.public && x.external) then here else outermost
  {
    EarlyExitLosesNothing(st, stale, x.name.value);
    hide LookupCurrent, LookupCurrentGlobal, First, CachedAt;
  }

  /** It stands for both if it is accepted and is a parameter, or nothing global is declared, or it is
      what the name means now. */
  lemma {:induction false} ReusesMeans(st: State, x: Decl, accepts: bool)
    requires |st.levels| >= 1
    ensures Reuses(st, x, accepts) ==> accepts && Repeated(st, x).Some?
    ensures accepts && Repeated(st, x).Some? && Repeated(st, x).value.parm ==> Reuses(st, x, accepts)
    ensures accepts && Repeated(st, x).Some? && !x.public && !x.external ==> Reuses(st, x, accepts)
    ensures accepts && Repeated(st, x).Some? && !Repeated(st, x).value.parm && (x.public || x.external) ==>
      (Reuses(st, x, accepts) <==> LookupName(st, x.name.value) == Repeated(st, x))
  {
    hide LookupCurrent, LookupCurrentGlobal, LookupName;
  }

  // ----- When leftovers arise -----

  /** No level is left in which n was declared twice while it meant nothing outside. */
  ghost predicate NeverDoubled(st: State, stale: Stale, es: seq<Event>, n: nat)
    requires Runs(st, es)
    decreases |es|
  {
    es == [] || (
      (es[0].Leave? ==> !Doubled(st, stale, n)) &&
      NeverDoubled(Step(st, es[0]), NextStale(st, stale, es[0]), es[1..], n))
  }

  lemma {:induction false} StaleIff(st: State, stale: Stale, es: seq<Event>, n: nat)
    requires Cached(st, stale) && Runs(st, es)
    ensures StaleAfter(st, stale, es)(n).None? <==> stale(n).None? && NeverDoubled(st, stale, es, n)
    decreases |es|
  {
    if es != [] {
      assert CachedAt(st, stale, n);
      if es[0].Leave? && Doubled(st, stale, n) {
        assert Undoes(st.levels[0], LocalMeaning(st.levels[1..], stale, n), n);
      }
      hide Cached, Step, Possible, Doubled, CachedAt, Oldest;
      StepKeeps(st, stale, es[0]);
      StaleIff(Step(st, es[0]), NextStale(st, stale, es[0]), es[1..], n);
    }
  }

  /** A leftover is never replaced. */
  lemma {:induction false} LeftoverStays(st: State, stale: Stale, es: seq<Event>, n: nat)
    requires Cached(st, stale) && Runs(st, es)
    ensures stale(n).Some? ==> StaleAfter(st, stale, es)(n) == stale(n)
    decreases |es|
  {
    if es != [] {
      assert CachedAt(st, stale, n);
      if es[0].Leave? {
        StaleUnseen(st.levels[1..], stale, stale, n);
      }
      hide Cached, Step, Possible, CachedAt, Oldest;
      StepKeeps(st, stale, es[0]);
      LeftoverStays(Step(st, es[0]), NextStale(st, stale, es[0]), es[1..], n);
    }
  }

  const NOTHING_STALE: Stale := (n: nat) => None

  lemma {:induction false} InitiallyCached()
    ensures Cached(Initial(), NOTHING_STALE)
  {
    forall n: nat ensures CachedAt(Initial(), NOTHING_STALE, n) {
    }
  }

  /** In every state reached, looking a name up is searching the levels, unless some level was left
      that declared the name twice where it had no local meaning outside. */
  lemma {:induction false} LookupAfterAnyRun(es: seq<Event>, n: nat)
    requires Runs(Initial(), es)
    ensures var st, stale := Run(Initial(), es), StaleAfter(Initial(), NOTHING_STALE, es);
      && (LookupName(st, n) == Search(st.levels, n) <==> !(|st.levels| >= 1 && Misread(st, stale, n)))
      && (stale(n).None? <==> NeverDoubled(Initial(), NOTHING_STALE, es, n))
  {
    InitiallyCached();
    RunKeeps(Initial(), NOTHING_STALE, es);
    StaleIff(Initial(), NOTHING_STALE, es, n);
    var st, stale := Run(Initial(), es), StaleAfter(Initial(), NOTHING_STALE, es);
    assert CachedAt(st, stale, n);
    LookupIsSearchIff(st, stale, n);
  }

  // ----- No rejected redeclaration, no leftover -----

  /** Every redeclaration in a local level is accepted by duplicate_decls. */
  ghost predicate AllAccepted(st: State, es: seq<Event>)
    requires Runs(st, es)
    decreases |es|
  {
    es == [] || (
      (es[0].Declaring? && es[0].x.name.Some? && First(st.levels[0].names, es[0].x.name.value).Some? ==> es[0].accepts) &&
      AllAccepted(Step(st, es[0]), es[1..]))
  }

  /** No local level declares n twice. */
  ghost predicate Single(levels: seq<Level>, n: nat) {
    forall k :: 0 <= k < |levels| - 1 ==> Count(levels[k].names, n) <= 1
  }

  lemma {:induction false} DeclareSingle(st: State, stale: Stale, x: Decl, accepts: bool, n: nat)
    requires CachedAt(st, stale, n) && Single(st.levels, n)
    requires x.name.Some? && First(st.levels[0].names, x.name.value).Some? ==> accepts
    ensures Single(Declare(st, x, accepts).levels, n)
  {
    if |st.levels| >= 2 {
      LocalInstall(st, x);
      FirstCount(st.levels[0].names, n);
      EarlyExitLosesNothing(st, stale, n);
      var r := Install(st, x);
      assert r.levels[0].names[1..] == st.levels[0].names;
      assert forall k :: 1 <= k < |r.levels| ==> r.levels[k] == r.levels[1..][k - 1] == st.levels[k];
      if x.name == Some(n) && First(st.levels[0].names, n).Some? {
        assert Repeated(st, x) == First(st.levels[0].names, n) == LookupName(st, n);
      }
    }
  }

  lemma {:induction false} AcceptedNeverDoubled(st: State, stale: Stale, es: seq<Event>, n: nat)
    requires Cached(st, stale) && Runs(st, es) && AllAccepted(st, es) && Single(st.levels, n)
    ensures NeverDoubled(st, stale, es, n)
    decreases |es|
  {
    if es != [] {
      StepSingle(st, stale, es[0], n);
      StepKeeps(st, stale, es[0]);
      hide Cached, Step, Possible, Single;
      AcceptedNeverDoubled(Step(st, es[0]), NextStale(st, stale, es[0]), es[1..], n);
    }
  }

  /** How far a step moves the levels. */
  function Deeper(e: Event): int {
    if e.Enter? then 1 else if e.Leave? then -1 else 0
  }

  /** Level k after the step is what it was, for the local levels the step does not enter or add to. */
  predicate KeptLevel(a: seq<Level>, b: seq<Level>, k: nat, j: int) {
    k < |b| && 0 <= j < |a| && b[k].names == a[j].names && b[k].shadowed == a[j].shadowed
  }

  lemma {:induction false} StepShape(st: State, e: Event, k: nat)
    requires Possible(st, e) && k < |Step(st, e).levels| - 1 && (e.Enter? || e.Declaring? ==> k >= 1)
    ensures |Step(st, e).levels| == |st.levels| + Deeper(e) && KeptLevel(st.levels, Step(st, e).levels, k, k - Deeper(e))
  {
    hide BlocksInRange, Push, Pop, Declare, DeclareTopLevel, Delete, Insert;
    match e
    case Enter => assert Push(st).levels[k] == st.levels[k - 1] by { PushLevels(st); }
    case Leave(keep, reverse, body) => PopLevels(st, keep, reverse, body);
    case Declaring(x, accepts) => DeclareShape(st, x, accepts);
    case DeclaringTopLevel(x, accepts) => TopLevelShape(st, x, accepts);
    case _ => BlocksOnly(st, e);
  }

  lemma {:induction false} PushLevels(st: State)
    ensures Push(st).levels[1..] == st.levels
  {
  }

  lemma {:induction false} DeclareShape(st: State, x: Decl, accepts: bool)
    requires |st.levels| >= 1
    ensures Declare(st, x, accepts).levels[1..] == st.levels[1..]
  {
    hide Reuses, Get;
  }

  lemma {:induction false} TopLevelShape(st: State, x: Decl, accepts: bool)
    requires |st.levels| >= 1
    ensures var r := DeclareTopLevel(st, x, accepts); r.levels[..|st.levels| - 1] == st.levels[..|st.levels| - 1]
  {
    hide Declare;
  }

  lemma {:induction false} StepSingle(st: State, stale: Stale, e: Event, n: nat)
    requires Cached(st, stale) && Possible(st, e) && Single(st.levels, n)
    requires e.Declaring? && e.x.name.Some? && First(st.levels[0].names, e.x.name.value).Some? ==> e.accepts
    ensures Single(Step(st, e).levels, n)
    ensures e.Leave? ==> !Doubled(st, stale, n)
  {
    assert CachedAt(st, stale, n);
    hide BlocksInRange, Cached, CachedAt, Push, Pop, Declare, DeclareTopLevel, Delete, Insert, LocalMeaning, AllUndo, First;
    if e.Declaring? {
      DeclareSingle(st, stale, e.x, e.accepts, n);
    } else {
      OtherSingle(st, e, n);
    }
  }

  lemma {:induction false} OtherSingle(st: State, e: Event, n: nat)
    requires Possible(st, e) && Single(st.levels, n) && !e.Declaring?
    ensures Single(Step(st, e).levels, n)
  {
    var r := Step(st, e).levels;
    EnteredEmpty(st, e);
    LevelCount(st, e);
    hide Step, Possible;
    forall k | 0 <= k < |r| - 1 ensures Count(r[k].names, n) <= 1 {
      if !(e.Enter? && k == 0) {
        StepShape(st, e, k);
      }
    }
  }

  lemma {:induction false} EnteredEmpty(st: State, e: Event)
    requires Possible(st, e)
    ensures e.Enter? ==> Step(st, e).levels[0].names == []
  {
    hide BlocksInRange;
  }

  /** While every redeclaration in a local level is accepted, looking up is searching. */
  lemma {:induction false} LookupIsSearch(es: seq<Event>, n: nat)
    requires Runs(Initial(), es) && AllAccepted(Initial(), es)
    ensures LookupName(Run(Initial(), es), n) == Search(Run(Initial(), es).levels, n)
  {
    LookupAfterAnyRun(es, n);
    InitiallyCached();
    AcceptedNeverDoubled(Initial(), NOTHING_STALE, es, n);
  }

  // ----- Balanced runs -----

  /** The run stays inside d levels entered by it, and leaves them all. */
  predicate Balanced(es: seq<Event>, d: nat) {
    if es == [] then d == 0
    else if es[0].Enter? then Balanced(es[1..], d + 1)
    else if es[0].Leave? then d >= 1 && Balanced(es[1..], d - 1)
    else if es[0].Declaring? then d >= 1 && Balanced(es[1..], d)
    else Balanced(es[1..], d)
  }

  /** The local declarations and undo lists beyond the first d levels. */
  function Beneath(levels: seq<Level>, d: nat): seq<(seq<Decl>, seq<(nat, Decl)>)>
    requires d < |levels|
  {
    seq(|levels| - 1 - d, k requires 0 <= k < |levels| - 1 - d => (levels[d + k].names, levels[d + k].shadowed))
  }

  lemma {:induction false} StepBeneath(st: State, e: Event, d: nat)
    requires Possible(st, e) && d < |st.levels|
    requires (e.Leave? || e.Declaring?) ==> d >= 1
    ensures d + Deeper(e) < |Step(st, e).levels| && Beneath(Step(st, e).levels, d + Deeper(e)) == Beneath(st.levels, d)
  {
    var r, d' := Step(st, e), d + Deeper(e);
    LevelCount(st, e);
    hide BlocksInRange, Step, Possible;
    var a, b := Beneath(st.levels, d), Beneath(r.levels, d');
    forall k | 0 <= k < |b| ensures b[k] == a[k] {
      StepShape(st, e, d' + k);
    }
  }

  lemma {:induction false} LevelCount(st: State, e: Event)
    requires Possible(st, e)
    ensures |Step(st, e).levels| == |st.levels| + Deeper(e)
  {
    hide BlocksInRange, Push, Pop, Declare, DeclareTopLevel, Delete, Insert;
  }

  lemma {:induction false} RunBeneath(st: State, es: seq<Event>, d: nat)
    requires Runs(st, es) && Balanced(es, d) && d < |st.levels|
    ensures 0 < |Run(st, es).levels| && Beneath(Run(st, es).levels, 0) == Beneath(st.levels, d)
    decreases |es|
  {
    hide *;
    RunUnfolds(st, es);
    BalancedStep(es, d);
    if es != [] {
      StepBeneath(st, es[0], d);
      RunBeneath(Step(st, es[0]), es[1..], d + Deeper(es[0]));
    }
  }

  lemma {:induction false} RunUnfolds(st: State, es: seq<Event>)
    requires Runs(st, es)
    ensures es == [] ==> Run(st, es) == st
    ensures es != [] ==> Possible(st, es[0]) && Runs(Step(st, es[0]), es[1..]) && Run(st, es) == Run(Step(st, es[0]), es[1..])
  {
    hide Possible, Step;
  }

  lemma {:induction false} BalancedStep(es: seq<Event>, d: nat)
    requires Balanced(es, d)
    ensures es == [] ==> d == 0
    ensures es != [] ==> d + Deeper(es[0]) >= 0 && Balanced(es[1..], d + Deeper(es[0]))
    ensures es != [] && (es[0].Leave? || es[0].Declaring?) ==> d >= 1
  {
  }

  lemma {:induction false} BeneathMeans(a: seq<Level>, b: seq<Level>, stale: Stale, n: nat)
    requires |a| >= 1 && |b| >= 1 && Beneath(a, 0) == Beneath(b, 0)
    ensures LocalMeaning(a, stale, n) == LocalMeaning(b, stale, n)
  {
    assert |Beneath(a, 0)| == |a| - 1 && |Beneath(b, 0)| == |b| - 1;
    if |a| >= 2 {
      assert Beneath(a, 0)[0] == (a[0].names, a[0].shadowed) && Beneath(b, 0)[0] == (b[0].names, b[0].shadowed);
      assert Beneath(a[1..], 0) == Beneath(a, 0)[1..] && Beneath(b[1..], 0) == Beneath(b, 0)[1..];
      BeneathMeans(a[1..], b[1..], stale, n);
    }
  }

  /** Leaving every level entered restores the local meaning a name had, exactly when it had one
      or none of those levels declared it twice where it meant nothing outside. */
  lemma {:induction false} BalancedRestoresIff(st: State, stale: Stale, es: seq<Event>, n: nat)
    requires Cached(st, stale) && Runs(st, es) && Balanced(es, 0)
    ensures Get(Run(st, es).local, n) == Get(st.local, n) <==> n in st.local || NeverDoubled(st, stale, es, n)
  {
    var r, stale' := Run(st, es), StaleAfter(st, stale, es);
    assert CachedAt(st, stale, n);
    RunKeeps(st, stale, es);
    assert CachedAt(r, stale', n);
    RunBeneath(st, es, 0);
    BeneathMeans(st.levels, r.levels, stale', n);
    StaleIff(st, stale, es, n);
    LeftoverStays(st, stale, es, n);
    LocalOrGlobal(st.levels, stale, n);
    LocalOrGlobal(st.levels, stale', n);
  }

  // ----- A leftover -----

  const ONE := Decl(Some(0), 1, false, false, false)
  const TWO := Decl(Some(0), 2, false, false, false)

  /** Two rejected declarations of one name in an inner scope. */
  const REJECTED_TWICE: seq<Event> := [Enter, Declaring(ONE, false), Declaring(TWO, false), Leave(false, false, false), Enter]

  function InScope(local: map<nat, Decl>, level: Level): State {
    State(local, map[], [level, EMPTY_LEVEL], [], [], multiset{}, false, false)
  }

  lemma {:induction false} DeclareBoth()
    ensures Declare(InScope(map[], EMPTY_LEVEL), ONE, false) == InScope(map[0 := ONE], Level([ONE], [], [], false, false))
    ensures Declare(InScope(map[0 := ONE], Level([ONE], [], [], false, false)), TWO, false) ==
      InScope(map[0 := TWO], Level([TWO, ONE], [(0, ONE)], [], false, false))
  {
    var s1 := InScope(map[], EMPTY_LEVEL);
    assert s1.levels[1..] == [EMPTY_LEVEL] && [ONE] + EMPTY_LEVEL.names == [ONE];
    assert Declare(s1, ONE, false).levels == [Level([ONE], [], [], false, false), EMPTY_LEVEL];
    var s2 := InScope(map[0 := ONE], Level([ONE], [], [], false, false));
    assert s2.levels[1..] == [EMPTY_LEVEL] && [TWO] + [ONE] == [TWO, ONE];
    assert [(0, ONE)] + EMPTY_LEVEL.shadowed == [(0, ONE)];
    assert Declare(s2, TWO, false).levels == [Level([TWO, ONE], [(0, ONE)], [], false, false), EMPTY_LEVEL];
    assert Declare(s2, TWO, false).local == map[0 := TWO];
  }

  lemma {:induction false} LeaveBoth()
    ensures var st := InScope(map[0 := TWO], Level([TWO, ONE], [(0, ONE)], [], false, false));
      BlocksInRange(st) && Pop(st, false, false, false) == Initial().(local := map[0 := ONE])
  {
    var level := Level([TWO, ONE], [(0, ONE)], [], false, false);
    var st := InScope(map[0 := TWO], level);
    assert [TWO, ONE][1..] == [ONE] && [ONE][1..] == [] && [(0, ONE)][1..] == [];
    assert map[0 := TWO] - {0} - {0} == map[];
    assert Cleared(map[0 := TWO], [TWO, ONE]) == Cleared(map[0 := TWO] - {0}, [ONE]) == map[];
    assert Restored(map[], [(0, ONE)]) == map[0 := ONE];
    var none: seq<nat> := [];
    assert none + none == none && AddBlocks(EMPTY_LEVEL, none) == EMPTY_LEVEL;
    assert st.levels[2..] == [];
    assert Pop(st, false, false, false).levels == [EMPTY_LEVEL];
  }

  lemma {:induction false} RunStep(st: State, es: seq<Event>, r: State)
    requires es != [] && Possible(st, es[0]) && Step(st, es[0]) == r && Runs(r, es[1..])
    ensures Runs(st, es) && Run(st, es) == Run(r, es[1..])
  {
    hide Step, Possible;
  }

  lemma {:induction false} EnterBoth()
    ensures Push(Initial()) == InScope(map[], EMPTY_LEVEL)
    ensures Push(Initial().(local := map[0 := ONE])) == InScope(map[0 := ONE], EMPTY_LEVEL)
  {
    assert Push(Initial()).levels == [EMPTY_LEVEL, EMPTY_LEVEL];
    assert Push(Initial().(local := map[0 := ONE])).levels == [EMPTY_LEVEL, EMPTY_LEVEL];
  }

  /** After the scope is left the name still means its first declaration there, though no level declares it. */
  lemma {:induction false} LeftoverIsRead()
    ensures Runs(Initial(), REJECTED_TWICE)
    ensures var st := Run(Initial(), REJECTED_TWICE); LookupName(st, 0) == Some(ONE) && Search(st.levels, 0) == None
  {
    var es := REJECTED_TWICE;
    var s1, s2 := InScope(map[], EMPTY_LEVEL), InScope(map[0 := ONE], Level([ONE], [], [], false, false));
    var s3, s4 := InScope(map[0 := TWO], Level([TWO, ONE], [(0, ONE)], [], false, false)), Initial().(local := map[0 := ONE]);
    var s5 := InScope(map[0 := ONE], EMPTY_LEVEL);
    assert s5.levels == [EMPTY_LEVEL, EMPTY_LEVEL] && s5.local == map[0 := ONE];
    assert es == [Enter, Declaring(ONE, false), Declaring(TWO, false), Leave(false, false, false), Enter];
    FirstTwo();
    LastThree();
    NoneDeclared(s5);
    hide *;
    assert es[4..][1..] == [] && es[3..][1..] == es[4..] && es[2..][1..] == es[3..] && es[1..][1..] == es[2..];
    RunDone(s5);
    RunStep(s4, es[4..], s5);
    RunStep(s3, es[3..], s4);
    RunStep(s2, es[2..], s3);
    RunStep(s1, es[1..], s2);
    RunStep(Initial(), es, s1);
    LookupLocal(s5, 0);
  }

  lemma {:induction false} FirstTwo()
    ensures var s0, s1, s2 := Initial(), InScope(map[], EMPTY_LEVEL), InScope(map[0 := ONE], Level([ONE], [], [], false, false));
      && Possible(s0, Enter) && Step(s0, Enter) == s1
      && Possible(s1, Declaring(ONE, false)) && Step(s1, Declaring(ONE, false)) == s2
  {
    EnterBoth();
    DeclareBoth();
    hide Push, Declare;
  }

  lemma {:induction false} LastThree()
    ensures var s2 := InScope(map[0 := ONE], Level([ONE], [], [], false, false));
      var s3 := InScope(map[0 := TWO], Level([TWO, ONE], [(0, ONE)], [], false, false));
      var s4 := Initial().(local := map[0 := ONE]);
      && Possible(s2, Declaring(TWO, false)) && Step(s2, Declaring(TWO, false)) == s3
      && Possible(s3, Leave(false, false, false)) && Step(s3, Leave(false, false, false)) == s4
      && Possible(s4, Enter) && Step(s4, Enter) == InScope(map[0 := ONE], EMPTY_LEVEL)
  {
    EnterBoth();
    DeclareBoth();
    LeaveBoth();
    hide Push, Declare, Pop;
  }

  lemma {:induction false} LookupLocal(st: State, n: nat)
    requires |st.levels| == 2 && n in st.local
    ensures LookupName(st, n) == Some(st.local[n])
  {
  }

  lemma {:induction false} NoneDeclared(st: State)
    requires st.levels == [EMPTY_LEVEL, EMPTY_LEVEL]
    ensures Search(st.levels, 0) == None
  {
    var one := [EMPTY_LEVEL];
    assert st.levels[1..] == one && one[1..] == [];
    assert Search(one, 0) == None;
  }

  lemma {:induction false} RunDone(st: State)
    ensures Runs(st, []) && Run(st, []) == st
  {
  }
}
