/** The rounds of the search for a chain of conversions (bc-optab.c): what they collect, and when
    the recipe is the cheapest there is. */
module ConversionRounds {
  import opened ConversionSearch

  /** The chains pending at the start of each round, in the order the search keeps them. */
  function PendingAt(t: Types, table: seq<Conversion>, from: nat, to: nat, n: nat): seq<Chain> {
    if n == 0 then [Start(from)]
    else var left := Sift(PendingAt(t, table, from, to, n - 1), to).1; ExtendAll(t, table, left, |left|)
  }

  /** The chains set aside before a round. */
  function CollectedBefore(t: Types, table: seq<Conversion>, from: nat, to: nat, n: nat): seq<Chain> {
    if n == 0 then []
    else Backwards(Sift(PendingAt(t, table, from, to, n - 1), to).0) + CollectedBefore(t, table, from, to, n - 1)
  }

  /** All that is collected: there are no more rounds than typecodes. */
  function Collected(t: Types, table: seq<Conversion>, from: nat, to: nat): seq<Chain> {
    CollectedBefore(t, table, from, to, t.count)
  }

  /** A chain from the source to the destination that the table allows. */
  predicate Arrives(t: Types, table: seq<Conversion>, from: nat, to: nat, c: Chain) {
    Admissible(t, table, from, c) && Succeeds(c, to)
  }

  // ----- What is pending in each round -----

  lemma {:induction false} AdmissibleNonempty(t: Types, table: seq<Conversion>, from: nat, c: Chain)
    requires Admissible(t, table, from, c)
    ensures c != []
  {
  }

  /** A chain arrives once only. */
  lemma {:induction false} ArrivesOnce(t: Types, table: seq<Conversion>, from: nat, to: nat, c: Chain)
    requires Arrives(t, table, from, to, c)
    ensures !Occurs(to, c[1..])
  {
    if |c| > 1 {
      var e :| e in table && Follows(t, e, c[1..]) && c == Extended(e, c[1..]);
    }
  }

  lemma {:induction false} Longer(t: Types, table: seq<Conversion>, from: nat, c: Chain, list: Chain)
    requires Admissible(t, table, from, list) && ExtendsBy(t, table, list, c)
    ensures Admissible(t, table, from, c) && |c| == |list| + 1 && c[1..] == list
  {
    AdmissibleNonempty(t, table, from, list);
    var e :| e in table && Follows(t, e, list) && c == Extended(e, list);
    assert c[1..] == list;
  }

  lemma {:induction false} NotBefore(to: nat, list: Chain)
    requires !Occurs(to, list) && list != []
    ensures !Occurs(to, list[1..]) && list[0].to != to && !Succeeds(list, to)
  {
    assert forall k :: 0 <= k < |list| - 1 ==> list[1..][k] == list[k + 1];
  }

  /** What is left of a round, extended, is pending in the next. */
  lemma {:induction false} PendingNext(t: Types, table: seq<Conversion>, from: nat, to: nat, n: nat, c: Chain)
    ensures c in PendingAt(t, table, from, to, n + 1) <==> IsExtension(t, table, Sift(PendingAt(t, table, from, to, n), to).1, c)
  {
    var left := Sift(PendingAt(t, table, from, to, n), to).1;
    ExtendAllIs(t, table, left, |left|, c);
    assert left[..|left|] == left;
    hide ExtendAll, Sift;
  }

  lemma {:induction false} ExtendedFrom(t: Types, table: seq<Conversion>, pending: seq<Chain>, c: Chain) returns (list: Chain)
    requires IsExtension(t, table, pending, c)
    ensures list in pending && ExtendsBy(t, table, list, c)
  {
    hide ExtendsBy;
    list :| list in pending && ExtendsBy(t, table, list, c);
  }

  lemma {:induction false} ExtendedIs(t: Types, table: seq<Conversion>, pending: seq<Chain>, list: Chain, c: Chain)
    requires list in pending && ExtendsBy(t, table, list, c)
    ensures IsExtension(t, table, pending, c)
  {
    hide ExtendsBy;
  }

  lemma {:induction false} LeftPending(pending: seq<Chain>, to: nat, c: Chain)
    requires c in Sift(pending, to).1
    ensures c in pending
  {
    SiftIs(pending, to);
    hide Sift;
  }

  lemma {:induction false} PendingLeft(pending: seq<Chain>, to: nat, c: Chain)
    requires c in pending && !Succeeds(c, to)
    ensures c in Sift(pending, to).1
  {
    SiftIs(pending, to);
    hide Sift;
  }

  /** In each round the chains pending are chains the table allows, all of one length. */
  lemma {:induction false} PendingAllowed(t: Types, table: seq<Conversion>, from: nat, to: nat, n: nat, c: Chain)
    requires c in PendingAt(t, table, from, to, n)
    ensures Admissible(t, table, from, c) && |c| == n + 1
  {
    hide *;
    if n == 0 {
      StartPending(t, table, from, to, c);
    } else {
      var pending := PendingAt(t, table, from, to, n - 1);
      PendingNext(t, table, from, to, n - 1, c);
      var list := ExtendedFrom(t, table, Sift(pending, to).1, c);
      LeftPending(pending, to, list);
      PendingAllowed(t, table, from, to, n - 1, list);
      Longer(t, table, from, c, list);
    }
  }

  lemma {:induction false} StartPending(t: Types, table: seq<Conversion>, from: nat, to: nat, c: Chain)
    ensures c in PendingAt(t, table, from, to, 0) <==> Admissible(t, table, from, c) && |c| == 1
  {
  }

  /** Every such chain that has not met the destination before is pending. */
  lemma {:induction false} AllowedPending(t: Types, table: seq<Conversion>, from: nat, to: nat, n: nat, c: Chain)
    requires Admissible(t, table, from, c) && |c| == n + 1 && !Occurs(to, c[1..])
    ensures c in PendingAt(t, table, from, to, n)
  {
    hide *;
    if n == 0 {
      StartPending(t, table, from, to, c);
    } else {
      var pending, list := PendingAt(t, table, from, to, n - 1), c[1..];
      Shorter(t, table, from, c);
      NotBefore(to, list);
      AllowedPending(t, table, from, to, n - 1, list);
      PendingLeft(pending, to, list);
      ExtendedIs(t, table, Sift(pending, to).1, list, c);
      PendingNext(t, table, from, to, n - 1, c);
    }
  }

  lemma {:induction false} Shorter(t: Types, table: seq<Conversion>, from: nat, c: Chain)
    requires Admissible(t, table, from, c) && |c| > 1
    ensures Admissible(t, table, from, c[1..]) && ExtendsBy(t, table, c[1..], c)
  {
  }

  lemma {:induction false} NonePending(t: Types, table: seq<Conversion>, from: nat, to: nat, n: nat)
    requires InTable(t, table) && from < t.count && n >= t.count
    ensures PendingAt(t, table, from, to, n) == []
  {
    var pending := PendingAt(t, table, from, to, n);
    if pending != [] {
      PendingAllowed(t, table, from, to, n, pending[0]);
      AdmissibleDistinct(t, table, from, pending[0]);
    }
  }

  /** Once nothing is pending nothing more is collected. */
  lemma {:induction false} NothingMore(t: Types, table: seq<Conversion>, from: nat, to: nat, n: nat, m: nat)
    requires n <= m && PendingAt(t, table, from, to, n) == []
    ensures PendingAt(t, table, from, to, m) == [] && CollectedBefore(t, table, from, to, m) == CollectedBefore(t, table, from, to, n)
  {
    hide *;
    if n < m {
      NothingMore(t, table, from, to, n, m - 1);
      NothingNext(t, table, from, to, m - 1);
    }
  }

  lemma {:induction false} NothingNext(t: Types, table: seq<Conversion>, from: nat, to: nat, n: nat)
    requires PendingAt(t, table, from, to, n) == []
    ensures PendingAt(t, table, from, to, n + 1) == [] && CollectedBefore(t, table, from, to, n + 1) == CollectedBefore(t, table, from, to, n)
  {
    assert Sift([], to) == ([], []) && ExtendAll(t, table, [], 0) == [] && Backwards([]) == [];
    hide Sift, ExtendAll, Backwards;
    assert [] + CollectedBefore(t, table, from, to, n) == CollectedBefore(t, table, from, to, n);
  }

  // ----- What is collected -----

  predicate TakenIn(t: Types, table: seq<Conversion>, from: nat, to: nat, k: nat, c: Chain) {
    c in Sift(PendingAt(t, table, from, to, k), to).0
  }

  lemma {:induction false} CollectedNext(t: Types, table: seq<Conversion>, from: nat, to: nat, n: nat, c: Chain)
    ensures c in CollectedBefore(t, table, from, to, n + 1) <==> TakenIn(t, table, from, to, n, c) || c in CollectedBefore(t, table, from, to, n)
  {
    BackwardsSame(Sift(PendingAt(t, table, from, to, n), to).0);
    hide Sift, PendingAt, Backwards;
  }

  lemma {:induction false} CollectedFrom(t: Types, table: seq<Conversion>, from: nat, to: nat, n: nat, c: Chain)
    ensures c in CollectedBefore(t, table, from, to, n) <==> exists k: nat :: k < n && TakenIn(t, table, from, to, k, c)
  {
    hide *;
    if n == 0 {
      FirstRound(t, table, from, to);
    } else {
      CollectedFrom(t, table, from, to, n - 1, c);
      CollectedNext(t, table, from, to, n - 1, c);
      if k: nat :| k < n && TakenIn(t, table, from, to, k, c) {
        assert k < n - 1 || k == n - 1;
      }
    }
  }

  /** Everything collected leads from the source to the destination. */
  lemma {:induction false} CollectedArrives(t: Types, table: seq<Conversion>, from: nat, to: nat, c: Chain)
    requires c in Collected(t, table, from, to)
    ensures Arrives(t, table, from, to, c)
  {
    CollectedFrom(t, table, from, to, t.count, c);
    var k: nat :| k < t.count && TakenIn(t, table, from, to, k, c);
    SiftIs(PendingAt(t, table, from, to, k), to);
    PendingAllowed(t, table, from, to, k, c);
  }

  /** A chain that arrives is pending in the round of its length. */
  lemma {:induction false} ArrivalPending(t: Types, table: seq<Conversion>, from: nat, to: nat, c: Chain)
    requires InTable(t, table) && from < t.count && Arrives(t, table, from, to, c)
    ensures 1 <= |c| <= t.count && c in PendingAt(t, table, from, to, |c| - 1)
  {
    AdmissibleNonempty(t, table, from, c);
    AdmissibleDistinct(t, table, from, c);
    ArrivesOnce(t, table, from, to, c);
    AllowedPending(t, table, from, to, |c| - 1, c);
  }

  /** Something is collected exactly when the destination can be reached. */
  lemma {:induction false} CollectedIff(t: Types, table: seq<Conversion>, from: nat, to: nat)
    requires InTable(t, table) && from < t.count
    ensures Collected(t, table, from, to) != [] <==> exists c :: Arrives(t, table, from, to, c)
  {
    if Collected(t, table, from, to) != [] {
      CollectedArrives(t, table, from, to, Collected(t, table, from, to)[0]);
    }
    if c :| Arrives(t, table, from, to, c) {
      ArrivalPending(t, table, from, to, c);
      var pending := PendingAt(t, table, from, to, |c| - 1);
      SiftIs(pending, to);
      var d := Sift(pending, to).0[0];
      CollectedFrom(t, table, from, to, t.count, d);
      assert TakenIn(t, table, from, to, |c| - 1, d);
    }
  }

  // ----- Whether everything that arrives is collected -----

  /** A success the walk of a round has stepped past. */
  predicate SteppedPast(pending: seq<Chain>, to: nat, c: Chain) {
    c in Sift(pending, to).1 && Succeeds(c, to)
  }

  lemma {:induction false} NothingSteppedPast(pending: seq<Chain>, to: nat, c: Chain)
    requires NoneAdjacent(pending, to)
    ensures !SteppedPast(pending, to, c)
    decreases |pending|
  {
    if |pending| >= 2 {
      NoneAdjacentTail(pending, to);
      if Succeeds(pending[0], to) {
        if |pending| >= 3 {
          NoneAdjacentTail(pending[1..], to);
          assert pending[1..][1..] == pending[2..];
        }
        NothingSteppedPast(pending[2..], to, c);
      } else {
        NothingSteppedPast(pending[1..], to, c);
      }
    } else if |pending| == 1 {
      assert pending[1..] == [];
    }
  }

  predicate Different(s: seq<Chain>) {
    forall j, k :: 0 <= j < k < |s| ==> s[j] != s[k]
  }

  /** Of two successes next to each other one is stepped past and not taken. */
  lemma {:induction false} SomeSteppedPast(pending: seq<Chain>, to: nat) returns (c: Chain)
    requires !NoneAdjacent(pending, to) && Different(pending)
    ensures SteppedPast(pending, to, c) && c in pending && c !in Sift(pending, to).0
    decreases |pending|
  {
    NoneAdjacentTail(pending, to);
    if Succeeds(pending[0], to) {
      if Succeeds(pending[1], to) {
        c := pending[1];
        SiftIs(pending[2..], to);
        assert forall d :: d in pending[2..] ==> d in pending && d != c;
      } else {
        assert pending[1..][1..] == pending[2..];
        if |pending| >= 3 {
          NoneAdjacentTail(pending[1..], to);
        }
        c := SomeSteppedPast(pending[2..], to);
        assert c in pending[2..];
        assert c != pending[0];
      }
    } else {
      c := SomeSteppedPast(pending[1..], to);
      assert c in pending[1..];
    }
  }

  // ----- Pending chains are different -----

  predicate RowsDiffer(table: seq<Conversion>) {
    forall j, k :: 0 <= j < k < |table| ==> table[j] != table[k]
  }

  lemma {:induction false} JoinDifferent(a: seq<Chain>, b: seq<Chain>)
    requires Different(a) && Different(b) && forall c :: c in a ==> c !in b
    ensures Different(a + b)
  {
    forall j, k | 0 <= j < k < |a + b| ensures (a + b)[j] != (a + b)[k] {
      assert j < |a| ==> (a + b)[j] in a;
      assert k >= |a| ==> (a + b)[k] in b;
    }
  }

  lemma {:induction false} NewExtension(t: Types, table: seq<Conversion>, list: Chain, n: nat, e: Conversion)
    requires n <= |table| && Follows(t, e, list) && forall k :: 0 <= k < n ==> table[k] != e
    ensures Extended(e, list) !in Extensions(t, table, list, n)
  {
    if n > 0 {
      NewExtension(t, table, list, n - 1, e);
      assert Follows(t, table[n - 1], list) ==> Extended(table[n - 1], list)[0] != Extended(e, list)[0];
    }
  }

  lemma {:induction false} ExtensionsDiffer(t: Types, table: seq<Conversion>, list: Chain, n: nat)
    requires n <= |table| && RowsDiffer(table)
    ensures Different(Extensions(t, table, list, n))
  {
    if n > 0 {
      ExtensionsDiffer(t, table, list, n - 1);
      if Follows(t, table[n - 1], list) {
        NewExtension(t, table, list, n - 1, table[n - 1]);
        JoinDifferent([Extended(table[n - 1], list)], Extensions(t, table, list, n - 1));
      }
    }
  }

  lemma {:induction false} ExtendAllDiffer(t: Types, table: seq<Conversion>, pending: seq<Chain>, n: nat)
    requires n <= |pending| && RowsDiffer(table) && Different(pending)
    ensures Different(ExtendAll(t, table, pending, n))
  {
    if n > 0 {
      var list := pending[n - 1];
      var a, b := Extensions(t, table, list, |table|), ExtendAll(t, table, pending, n - 1);
      ExtensionsDiffer(t, table, list, |table|);
      ExtendAllDiffer(t, table, pending, n - 1);
      forall c | c in a ensures c !in b {
        ExtendedOnce(t, table, pending, n, c);
      }
      hide Different;
      JoinDifferent(a, b);
    }
  }

  lemma {:induction false} ExtendedOnce(t: Types, table: seq<Conversion>, pending: seq<Chain>, n: nat, c: Chain)
    requires 0 < n <= |pending| && Different(pending) && c in Extensions(t, table, pending[n - 1], |table|)
    ensures c !in ExtendAll(t, table, pending, n - 1)
  {
    hide Extensions, ExtendAll, Follows;
    ExtensionsAre(t, table, pending[n - 1], |table|, c);
    ExtendAllIs(t, table, pending, n - 1, c);
    assert c[1..] == pending[n - 1];
    assert pending[n - 1] !in pending[..n - 1];
  }

  lemma {:induction false} SiftDiffers(pending: seq<Chain>, to: nat)
    requires Different(pending)
    ensures Different(Sift(pending, to).1)
    decreases |pending|
  {
    if pending != [] {
      var k := if Succeeds(pending[0], to) then 1 else 0;
      if k < |pending| {
        SiftDiffers(pending[k + 1..], to);
        SiftIs(pending[k + 1..], to);
        JoinDifferent([pending[k]], Sift(pending[k + 1..], to).1);
      }
    }
  }

  lemma {:induction false} PendingDiffer(t: Types, table: seq<Conversion>, from: nat, to: nat, n: nat)
    requires RowsDiffer(table)
    ensures Different(PendingAt(t, table, from, to, n))
  {
    if n > 0 {
      var pending := PendingAt(t, table, from, to, n - 1);
      hide Different, RowsDiffer, ExtendAll, Sift;
      PendingDiffer(t, table, from, to, n - 1);
      SiftDiffers(pending, to);
      ExtendAllDiffer(t, table, Sift(pending, to).1, |Sift(pending, to).1|);
    }
  }

  /** Every chain from source to destination is collected exactly when in no round two chains that
      have arrived are next to each other. */
  lemma {:induction false} AllCollectedIff(t: Types, table: seq<Conversion>, from: nat, to: nat)
    requires InTable(t, table) && from < t.count && RowsDiffer(table)
    ensures (forall c :: Arrives(t, table, from, to, c) ==> c in Collected(t, table, from, to))
            <==> forall n: nat | n < t.count :: NoneAdjacent(PendingAt(t, table, from, to, n), to)
  {
    if n: nat :| n < t.count && !NoneAdjacent(PendingAt(t, table, from, to, n), to) {
      var c := MissedIn(t, table, from, to, n);
    } else {
      forall c | Arrives(t, table, from, to, c) ensures c in Collected(t, table, from, to) {
        ArrivalPending(t, table, from, to, c);
        TakenOrPassed(t, table, from, to, c);
        NothingSteppedPast(PendingAt(t, table, from, to, |c| - 1), to, c);
      }
    }
  }

  lemma {:induction false} MissedIn(t: Types, table: seq<Conversion>, from: nat, to: nat, n: nat) returns (c: Chain)
    requires RowsDiffer(table) && !NoneAdjacent(PendingAt(t, table, from, to, n), to)
    ensures Arrives(t, table, from, to, c) && c !in Collected(t, table, from, to)
  {
    var pending := PendingAt(t, table, from, to, n);
    PendingDiffer(t, table, from, to, n);
    c := SomeSteppedPast(pending, to);
    PendingAllowed(t, table, from, to, n, c);
    CollectedFrom(t, table, from, to, t.count, c);
    if k: nat :| k < t.count && TakenIn(t, table, from, to, k, c) {
      SiftIs(PendingAt(t, table, from, to, k), to);
      PendingAllowed(t, table, from, to, k, c);
    }
  }

  /** A chain that arrives is collected or stepped past in the round of its length. */
  lemma {:induction false} TakenOrPassed(t: Types, table: seq<Conversion>, from: nat, to: nat, c: Chain)
    requires InTable(t, table) && from < t.count && Arrives(t, table, from, to, c)
    ensures 1 <= |c| <= t.count
    ensures c in Collected(t, table, from, to) || SteppedPast(PendingAt(t, table, from, to, |c| - 1), to, c)
  {
    ArrivalPending(t, table, from, to, c);
    SiftAll(PendingAt(t, table, from, to, |c| - 1), to, c);
    CollectedFrom(t, table, from, to, t.count, c);
    assert TakenIn(t, table, from, to, |c| - 1, c) <==> c in Sift(PendingAt(t, table, from, to, |c| - 1), to).0;
  }

  lemma {:induction false} SiftAll(pending: seq<Chain>, to: nat, c: Chain)
    requires c in pending
    ensures c in Sift(pending, to).0 || c in Sift(pending, to).1
    decreases |pending|
  {
    var k := if Succeeds(pending[0], to) && |pending| > 1 then 2 else 1;
    assert pending == pending[..k] + pending[k..];
    if c in pending[k..] {
      SiftAll(pending[k..], to, c);
    }
  }

  // ----- The recipe -----

  function Cost(list: Chain): nat {
    if list == [] then 0 else list[0].cost + Cost(list[1..])
  }

  /** The opcodes of a chain in the order they are to be emitted. */
  function Opcodes(list: Chain): seq<int> {
    if list == [] then [] else Opcodes(list[1..]) + if list[0].opcode != NO_OPCODE then [list[0].opcode] else []
  }

  datatype Recipe = Recipe(opcodes: seq<int>, cost: nat) | Abort

  // ----- What a recipe does -----

  /** Rows of the table taken one after another, each from the typecode the last one has reached. */
  predicate Path(table: seq<Conversion>, rows: seq<Conversion>, from: nat, to: nat) {
    if rows == [] then from == to
    else rows[0] in table && rows[0].from == from && Path(table, rows[1..], rows[0].to, to)
  }

  /** The opcodes of rows, without those that need no code. */
  function Emitted(rows: seq<Conversion>): seq<int> {
    if rows == [] then [] else (if rows[0].opcode == NO_OPCODE then [] else [rows[0].opcode]) + Emitted(rows[1..])
  }

  function Total(rows: seq<Conversion>): nat {
    if rows == [] then 0 else rows[0].cost + Total(rows[1..])
  }

  /** Emitting the opcodes in order converts the one typecode to the other, at the cost. */
  ghost predicate Performs(table: seq<Conversion>, from: nat, to: nat, opcodes: seq<int>, cost: nat) {
    exists rows: seq<Conversion> :: Path(table, rows, from, to) && opcodes == Emitted(rows) && cost == Total(rows)
  }

  lemma {:induction false} OneRowMore(table: seq<Conversion>, rows: seq<Conversion>, from: nat, e: Conversion)
    requires Path(table, rows, from, e.from) && e in table
    ensures Path(table, rows + [e], from, e.to)
    ensures Emitted(rows + [e]) == Emitted(rows) + if e.opcode == NO_OPCODE then [] else [e.opcode]
    ensures Total(rows + [e]) == Total(rows) + e.cost
  {
    if rows == [] {
      assert rows + [e] == [e] && [e][1..] == [];
      assert Path(table, [], e.to, e.to) && Emitted([]) == [] && Total([]) == 0;
    } else {
      var all, rest := rows + [e], rows[1..] + [e];
      assert all[1..] == rest && all[0] == rows[0];
      OneRowMore(table, rows[1..], rows[0].to, e);
      RowsUnfold(table, rows, from, e.from);
      RowsUnfold(table, all, from, e.to);
      hide Path, Emitted, Total;
    }
  }

  lemma {:induction false} RowsUnfold(table: seq<Conversion>, rows: seq<Conversion>, from: nat, to: nat)
    requires rows != []
    ensures Path(table, rows, from, to) <==> rows[0] in table && rows[0].from == from && Path(table, rows[1..], rows[0].to, to)
    ensures Emitted(rows) == (if rows[0].opcode == NO_OPCODE then [] else [rows[0].opcode]) + Emitted(rows[1..])
    ensures Total(rows) == rows[0].cost + Total(rows[1..])
  {
  }

  /** A chain the table allows is such a path, and its opcodes and cost are those of its rows. */
  lemma {:induction false} ChainPerforms(t: Types, table: seq<Conversion>, from: nat, c: Chain) returns (rows: seq<Conversion>)
    requires Admissible(t, table, from, c)
    ensures c != [] && Path(table, rows, from, c[0].to) && Opcodes(c) == Emitted(rows) && Cost(c) == Total(rows)
  {
    if c == Start(from) {
      rows := [];
      assert c[1..] == [];
    } else {
      var rest := c[1..];
      AdmissibleNonempty(t, table, from, rest);
      rows := ChainPerforms(t, table, from, rest);
      var e :| e in table && Follows(t, e, rest) && c == Extended(e, rest);
      OneRowMore(table, rows, from, e);
      rows := rows + [e];
    }
  }

  lemma {:induction false} RecipePerforms(t: Types, table: seq<Conversion>, from: nat, to: nat, k: nat)
    requires Best(Collected(t, table, from, to), k)
    ensures var c := Collected(t, table, from, to)[k]; Performs(table, from, to, Opcodes(c), Cost(c))
  {
    var c := Collected(t, table, from, to)[k];
    CollectedArrives(t, table, from, to, c);
    var rows := ChainPerforms(t, table, from, c);
    hide Collected, Opcodes, Cost, Best;
  }

  /** The k-th of some chains is the first of the cheapest, and affordable. */
  predicate Best(good: seq<Chain>, k: nat) {
    && k < |good| && Cost(good[k]) < BIG_ARBITRARY_NUMBER
    && (forall j :: 0 <= j < |good| ==> Cost(good[k]) <= Cost(good[j]))
    && forall j :: 0 <= j < k ==> Cost(good[k]) < Cost(good[j])
  }

  /** No chain of the table costs as much as the number taken for infinity. */
  ghost predicate Affordable(t: Types, table: seq<Conversion>, from: nat) {
    forall c :: Admissible(t, table, from, c) ==> Cost(c) < BIG_ARBITRARY_NUMBER
  }

  /** With costs of at most m a chain of n links costs at most n * m. */
  lemma {:induction false} CostBound(t: Types, table: seq<Conversion>, from: nat, m: nat, c: Chain)
    requires Admissible(t, table, from, c) && forall e: Conversion :: e in table ==> e.cost <= m
    ensures Cost(c) <= |c| * m
  {
    if c != Start(from) {
      CostBound(t, table, from, m, c[1..]);
      OneLonger(|c|, m);
    } else {
      assert c[1..] == [];
    }
  }

  lemma {:induction false} OneLonger(n: int, m: int)
    ensures n * m == (n - 1) * m + m
  {
  }

  lemma {:induction false} Scale(a: nat, b: nat, m: nat)
    requires a <= b
    ensures a * m <= b * m
  {
    assert (b - a) * m >= 0;
  }

  lemma {:induction false} BoundedAffordable(t: Types, table: seq<Conversion>, from: nat, m: nat)
    requires InTable(t, table) && from < t.count && (forall e: Conversion :: e in table ==> e.cost <= m) && t.count * m < 100000
    ensures Affordable(t, table, from)
  {
    forall c: Chain | Admissible(t, table, from, c) ensures Cost(c) < BIG_ARBITRARY_NUMBER {
      CostBound(t, table, from, m, c);
      AdmissibleDistinct(t, table, from, c);
      Scale(|c|, t.count, m);
    }
  }

  /** deduce_conversion: the rounds end, and the recipe is that of the first of the cheapest chains
      collected. It aborts when none is collected, or none affordable. */
  method DeduceConversion(t: Types, table: seq<Conversion>, from: nat, to: nat) returns (r: Recipe)
    requires InTable(t, table) && from < t.count
    ensures var good := Collected(t, table, from, to);
      && (r.Abort? <==> forall c :: c in good ==> Cost(c) >= BIG_ARBITRARY_NUMBER)
      && (!r.Abort? ==> exists k: nat :: Best(good, k) && r == Recipe(Opcodes(good[k]), Cost(good[k])))
    ensures !r.Abort? ==> Performs(table, from, to, r.opcodes, r.cost)
  {
    hide PendingAt, CollectedBefore, Admissible, Succeeds, InTable, Sift, ExtendAll;
    var curr, good: seq<Chain> := [Start(from)], [];
    ghost var n := 0;
    FirstRound(t, table, from, to);
    while curr != []
      invariant curr == PendingAt(t, table, from, to, n) && good == CollectedBefore(t, table, from, to, n) && n <= t.count
      decreases t.count - n
    {
      NonePending(t, table, from, to, t.count);
      NextRound(t, table, from, to, n);
      good, curr := SiftSuccesses(curr, to, good);
      curr := Extend(t, table, curr);
      n := n + 1;
    }
    NothingMore(t, table, from, to, n, t.count);
    r := Cheapest(good);
    if !r.Abort? {
      var k: nat :| Best(good, k) && r == Recipe(Opcodes(good[k]), Cost(good[k]));
      hide Collected, Best, Performs, Opcodes, Cost;
      RecipePerforms(t, table, from, to, k);
    }
  }

  lemma {:induction false} FirstRound(t: Types, table: seq<Conversion>, from: nat, to: nat)
    ensures PendingAt(t, table, from, to, 0) == [Start(from)] && CollectedBefore(t, table, from, to, 0) == []
  {
  }

  lemma {:induction false} NextRound(t: Types, table: seq<Conversion>, from: nat, to: nat, n: nat)
    ensures var (taken, left) := Sift(PendingAt(t, table, from, to, n), to);
      && PendingAt(t, table, from, to, n + 1) == ExtendAll(t, table, left, |left|)
      && CollectedBefore(t, table, from, to, n + 1) == Backwards(taken) + CollectedBefore(t, table, from, to, n)
  {
  }

  method Cheapest(good: seq<Chain>) returns (r: Recipe)
    ensures r.Abort? <==> forall c :: c in good ==> Cost(c) >= BIG_ARBITRARY_NUMBER
    ensures !r.Abort? ==> exists k: nat :: Best(good, k) && r == Recipe(Opcodes(good[k]), Cost(good[k]))
  {
    var bestCost: nat, best: Chain := BIG_ARBITRARY_NUMBER, [];
    ghost var at := 0;
    for k := 0 to |good|
      invariant bestCost <= BIG_ARBITRARY_NUMBER && forall j :: 0 <= j < k ==> bestCost <= Cost(good[j])
      invariant bestCost < BIG_ARBITRARY_NUMBER ==>
        at < k && best == good[at] && bestCost == Cost(best) && forall j :: 0 <= j < at ==> bestCost < Cost(good[j])
    {
      var cost := ChainCost(good[k]);
      if cost < bestCost {
        bestCost, best, at := cost, good[k], k;
      }
    }
    if bestCost == BIG_ARBITRARY_NUMBER {
      return Abort;
    }
    var opcodes := ChainOpcodes(best);
    r := Recipe(opcodes, bestCost);
    assert Best(good, at);
  }

  method ChainCost(list: Chain) returns (cost: nat)
    ensures cost == Cost(list)
  {
    cost := 0;
    var conv := list;
    while conv != []
      invariant cost + Cost(conv) == Cost(list)
      decreases |conv|
    {
      cost := cost + conv[0].cost;
      conv := conv[1..];
    }
  }

  /** Filled in from the end. */
  method ChainOpcodes(list: Chain) returns (opcodes: seq<int>)
    ensures opcodes == Opcodes(list)
  {
    opcodes := [];
    var conv := list;
    while conv != []
      invariant Opcodes(conv) + opcodes == Opcodes(list)
      decreases |conv|
    {
      if conv[0].opcode != NO_OPCODE {
        assert Opcodes(conv[1..]) + [conv[0].opcode] + opcodes == Opcodes(conv[1..]) + ([conv[0].opcode] + opcodes);
        opcodes := [conv[0].opcode] + opcodes;
      } else {
        assert Opcodes(conv[1..]) + [] == Opcodes(conv[1..]);
      }
      conv := conv[1..];
    }
  }

  /** With bounded costs the search succeeds exactly when the destination can be reached. */
  lemma {:induction false} SucceedsIffReachable(t: Types, table: seq<Conversion>, from: nat, to: nat)
    requires InTable(t, table) && from < t.count && Affordable(t, table, from)
    ensures (exists c :: c in Collected(t, table, from, to) && Cost(c) < BIG_ARBITRARY_NUMBER) <==> exists c :: Arrives(t, table, from, to, c)
  {
    CollectedIff(t, table, from, to);
    var good := Collected(t, table, from, to);
    if good != [] {
      CollectedArrives(t, table, from, to, good[0]);
      assert good[0] in good;
    }
  }

  /** A chain that arrives costs no less than the recipe, or was stepped past. */
  lemma {:induction false} DearerOrPassed(t: Types, table: seq<Conversion>, from: nat, to: nat, k: nat, c: Chain)
    requires InTable(t, table) && from < t.count && Best(Collected(t, table, from, to), k) && Arrives(t, table, from, to, c)
    ensures 1 <= |c| <= t.count
    ensures Cost(Collected(t, table, from, to)[k]) <= Cost(c) || SteppedPast(PendingAt(t, table, from, to, |c| - 1), to, c)
  {
    TakenOrPassed(t, table, from, to, c);
    var good := Collected(t, table, from, to);
    hide SteppedPast, PendingAt, Collected, Arrives, Cost;
    if c in good {
      var j :| 0 <= j < |good| && good[j] == c;
    }
  }

  lemma {:induction false} PassedArrives(t: Types, table: seq<Conversion>, from: nat, to: nat, n: nat, c: Chain)
    requires SteppedPast(PendingAt(t, table, from, to, n), to, c)
    ensures Arrives(t, table, from, to, c)
  {
    LeftPending(PendingAt(t, table, from, to, n), to, c);
    PendingAllowed(t, table, from, to, n, c);
  }

  /** No chain from source to destination is cheaper. */
  ghost predicate Least(t: Types, table: seq<Conversion>, from: nat, to: nat, cost: nat) {
    forall c :: Arrives(t, table, from, to, c) ==> cost <= Cost(c)
  }

  /** No chain stepped past in some round is cheaper. */
  ghost predicate NoneCheaperPassed(t: Types, table: seq<Conversion>, from: nat, to: nat, cost: nat) {
    forall n: nat, c: Chain | n < t.count && SteppedPast(PendingAt(t, table, from, to, n), to, c) :: cost <= Cost(c)
  }

  /** The recipe is as cheap as any chain exactly when no chain stepped past in some round is cheaper. */
  lemma {:induction false} CheapestIff(t: Types, table: seq<Conversion>, from: nat, to: nat, k: nat)
    requires InTable(t, table) && from < t.count && Best(Collected(t, table, from, to), k)
    ensures var cost := Cost(Collected(t, table, from, to)[k]);
      Least(t, table, from, to, cost) <==> NoneCheaperPassed(t, table, from, to, cost)
  {
    var cost := Cost(Collected(t, table, from, to)[k]);
    hide SteppedPast, PendingAt, Arrives, Cost, Collected, Best;
    if NoneCheaperPassed(t, table, from, to, cost) {
      forall c | Arrives(t, table, from, to, c) ensures cost <= Cost(c) {
        DearerOrPassed(t, table, from, to, k, c);
      }
    }
    if Least(t, table, from, to, cost) {
      forall n: nat, c: Chain | n < t.count && SteppedPast(PendingAt(t, table, from, to, n), to, c) ensures cost <= Cost(c) {
        PassedArrives(t, table, from, to, n, c);
      }
    }
  }

  /** When no two arrived chains are ever next to each other the recipe is as cheap as any chain. */
  lemma {:induction false} CheapestIfNoneAdjacent(t: Types, table: seq<Conversion>, from: nat, to: nat, k: nat)
    requires InTable(t, table) && from < t.count && Best(Collected(t, table, from, to), k)
    requires forall n: nat | n < t.count :: NoneAdjacent(PendingAt(t, table, from, to, n), to)
    ensures Least(t, table, from, to, Cost(Collected(t, table, from, to)[k]))
  {
    var cost := Cost(Collected(t, table, from, to)[k]);
    hide SteppedPast, PendingAt, Arrives, Cost, Collected, Best, NoneAdjacent;
    forall c | Arrives(t, table, from, to, c) ensures cost <= Cost(c) {
      DearerOrPassed(t, table, from, to, k, c);
      NothingSteppedPast(PendingAt(t, table, from, to, |c| - 1), to, c);
    }
  }

  // ----- A dearer recipe -----

  /** Four typecodes of one size, and two ways from the first to the last. */
  const FOUR := Types(4, (k: nat) => false, (k: nat) => false, (k: nat) => false, (k: nat) => false, (k: nat) => 1)
  const TWO_WAYS: seq<Conversion> := [Conversion(1, 0, 1, 1), Conversion(2, 0, 2, 1), Conversion(3, 1, 3, 9), Conversion(4, 2, 3, 1)]
  const FIRST := Link(1, 1, 1)
  const SECOND := Link(2, 2, 1)
  const DEAR: Chain := [Link(3, 3, 9), FIRST, Link(NO_OPCODE, 0, 0)]
  const CHEAP: Chain := [Link(4, 3, 1), SECOND, Link(NO_OPCODE, 0, 0)]

  /** Typecodes of one size with nothing known of them combine as long as none repeats. */
  lemma {:induction false} FourReasonable(c: Conversion, list: Chain)
    ensures Reasonable(FOUR, c, list) <==> !Occurs(c.to, list)
  {
    SizesAt(FOUR, list);
    assert forall kind: StepKind, a: nat, b: nat :: !IsStep(FOUR, kind, a, b);
    hide Occurs, IsStep;
  }

  lemma {:induction false} FourFollows(c: Conversion, list: Chain)
    requires list != []
    ensures Follows(FOUR, c, list) <==> c.from == list[0].to && !Occurs(c.to, list)
  {
    FourReasonable(c, list);
    hide Reasonable;
  }

  /** What each chain of the table is extended to. */
  lemma {:induction false} FourExtensions(list: Chain)
    requires list != []
    ensures list[0].to == 0 && !Occurs(1, list) && !Occurs(2, list) ==>
      Extensions(FOUR, TWO_WAYS, list, 4) == [[SECOND] + list, [FIRST] + list]
    ensures list[0].to == 1 && !Occurs(3, list) ==> Extensions(FOUR, TWO_WAYS, list, 4) == [[Link(3, 3, 9)] + list]
    ensures list[0].to == 2 && !Occurs(3, list) ==> Extensions(FOUR, TWO_WAYS, list, 4) == [[Link(4, 3, 1)] + list]
    ensures list[0].to == 3 ==> Extensions(FOUR, TWO_WAYS, list, 4) == []
  {
    forall c: Conversion ensures Follows(FOUR, c, list) <==> c.from == list[0].to && !Occurs(c.to, list) {
      FourFollows(c, list);
    }
    hide Follows, Occurs;
    var e := [];
    assert Extensions(FOUR, TWO_WAYS, list, 0) == e;
    assert Extensions(FOUR, TWO_WAYS, list, 1) == if Follows(FOUR, TWO_WAYS[0], list) then [[FIRST] + list] else e;
    assert Extensions(FOUR, TWO_WAYS, list, 2) ==
      (if Follows(FOUR, TWO_WAYS[1], list) then [[SECOND] + list] else e) + Extensions(FOUR, TWO_WAYS, list, 1);
    assert Extensions(FOUR, TWO_WAYS, list, 3) ==
      (if Follows(FOUR, TWO_WAYS[2], list) then [[Link(3, 3, 9)] + list] else e) + Extensions(FOUR, TWO_WAYS, list, 2);
  }

  lemma {:induction false} ExtendOne(t: Types, table: seq<Conversion>, a: Chain)
    ensures ExtendAll(t, table, [a], 1) == Extensions(t, table, a, |table|)
  {
    assert ExtendAll(t, table, [a], 0) == [];
    hide Extensions;
  }

  lemma {:induction false} ExtendTwo(t: Types, table: seq<Conversion>, a: Chain, b: Chain)
    ensures ExtendAll(t, table, [a, b], 2) == Extensions(t, table, b, |table|) + Extensions(t, table, a, |table|)
  {
    assert ExtendAll(t, table, [a, b], 0) == [];
    assert ExtendAll(t, table, [a, b], 1) == Extensions(t, table, a, |table|);
    hide Extensions;
  }

  lemma {:induction false} SiftOne(a: Chain, to: nat)
    ensures Sift([a], to) == if Succeeds(a, to) then ([a], []) else ([], [a])
  {
    var none: seq<Chain> := [];
    assert [a][1..] == none && Sift(none, to) == (none, none) && [a] + none == [a];
    hide Succeeds;
  }

  lemma {:induction false} SiftTwo(a: Chain, b: Chain, to: nat)
    ensures !Succeeds(a, to) && !Succeeds(b, to) ==> Sift([a, b], to) == ([], [a, b])
    ensures Succeeds(a, to) ==> Sift([a, b], to) == ([a], [b])
  {
    SiftOne(b, to);
    var none: seq<Chain> := [];
    assert [a, b][1..] == [b] && [a, b][2..] == none && Sift(none, to) == (none, none);
    assert [a] + [b] == [a, b] && [a] + none == [a] && [b] + none == [b];
    hide Succeeds;
  }

  function One(): Chain { [FIRST] + Start(0) }
  function Two(): Chain { [SECOND] + Start(0) }

  lemma {:induction false} RoundOne()
    ensures PendingAt(FOUR, TWO_WAYS, 0, 3, 1) == [Two(), One()]
  {
    FourExtensions(Start(0));
    SiftOne(Start(0), 3);
    ExtendOne(FOUR, TWO_WAYS, Start(0));
    FirstRound(FOUR, TWO_WAYS, 0, 3);
    NextRound(FOUR, TWO_WAYS, 0, 3, 0);
    hide Extensions, ExtendAll, Sift, PendingAt;
  }

  lemma {:induction false} LongerWays()
    ensures Extensions(FOUR, TWO_WAYS, Two(), 4) == [CHEAP] && Extensions(FOUR, TWO_WAYS, One(), 4) == [DEAR]
  {
    FourExtensions(Two());
    FourExtensions(One());
    hide Extensions;
    assert DEAR == [Link(3, 3, 9)] + One() && CHEAP == [Link(4, 3, 1)] + Two();
  }

  lemma {:induction false} NeitherArrived()
    ensures Sift([Two(), One()], 3) == ([], [Two(), One()])
  {
    SiftTwo(Two(), One(), 3);
    hide Sift;
  }

  lemma {:induction false} RoundTwo()
    ensures PendingAt(FOUR, TWO_WAYS, 0, 3, 2) == [DEAR, CHEAP]
  {
    hide Extensions, ExtendAll, Sift, PendingAt, Two, One;
    RoundOne();
    LongerWays();
    NeitherArrived();
    ExtendTwo(FOUR, TWO_WAYS, Two(), One());
    NextRound(FOUR, TWO_WAYS, 0, 3, 1);
    assert |TWO_WAYS| == 4 && |[Two(), One()]| == 2 && [DEAR] + [CHEAP] == [DEAR, CHEAP];
  }

  lemma {:induction false} Rounds()
    ensures PendingAt(FOUR, TWO_WAYS, 0, 3, 1) == [Two(), One()]
    ensures PendingAt(FOUR, TWO_WAYS, 0, 3, 2) == [DEAR, CHEAP]
    ensures PendingAt(FOUR, TWO_WAYS, 0, 3, 3) == []
  {
    RoundOne();
    RoundTwo();
    FourExtensions(CHEAP);
    SiftTwo(DEAR, CHEAP, 3);
    ExtendOne(FOUR, TWO_WAYS, CHEAP);
    NextRound(FOUR, TWO_WAYS, 0, 3, 2);
    hide Extensions, ExtendAll, Sift, PendingAt;
  }

  lemma {:induction false} CollectedOne()
    ensures Collected(FOUR, TWO_WAYS, 0, 3) == [DEAR]
  {
    Rounds();
    SiftOne(Start(0), 3);
    SiftTwo(Two(), One(), 3);
    SiftTwo(DEAR, CHEAP, 3);
    assert PendingAt(FOUR, TWO_WAYS, 0, 3, 0) == [Start(0)];
    assert Sift([], 3) == ([], []) && Backwards([]) == [] && Backwards([DEAR]) == [DEAR];
    hide Sift, PendingAt, Backwards;
    NextRound(FOUR, TWO_WAYS, 0, 3, 0);
    NextRound(FOUR, TWO_WAYS, 0, 3, 1);
    NextRound(FOUR, TWO_WAYS, 0, 3, 2);
    NextRound(FOUR, TWO_WAYS, 0, 3, 3);
    FirstRound(FOUR, TWO_WAYS, 0, 3);
  }

  /** The two ways arrive next to each other, and only the dearer is collected. */
  lemma {:induction false} CheaperMissed()
    ensures PendingAt(FOUR, TWO_WAYS, 0, 3, 2) == [DEAR, CHEAP]
    ensures Collected(FOUR, TWO_WAYS, 0, 3) == [DEAR]
    ensures Arrives(FOUR, TWO_WAYS, 0, 3, CHEAP) && Cost(DEAR) == 10 && Cost(CHEAP) == 2
  {
    Rounds();
    CollectedOne();
    PendingAllowed(FOUR, TWO_WAYS, 0, 3, 2, CHEAP);
    hide PendingAt, Collected, Admissible;
    Costs();
  }

  lemma {:induction false} Costs()
    ensures Cost(DEAR) == 10 && Cost(CHEAP) == 2
  {
    assert DEAR[1..] == [FIRST, Link(NO_OPCODE, 0, 0)] && CHEAP[1..] == [SECOND, Link(NO_OPCODE, 0, 0)];
    assert [FIRST, Link(NO_OPCODE, 0, 0)][1..] == Start(0) == [SECOND, Link(NO_OPCODE, 0, 0)][1..] && Start(0)[1..] == [];
    assert Cost(Start(0)) == 0;
  }
}
