/** Building one bytecoded function (bc-emit.c): labels patched in at the end, external names
    reached through a table of pointers. */
module BytecodeFunctions {
  import opened ObjectSpec
  import opened ObjectSegments

  datatype CodeLabel = CodeLabel(defined: bool, offset: nat)
  datatype LabelRef = LabelRef(target: nat, offset: nat)

  // ----- Backpatching -----

  predicate Inside(refs: seq<LabelRef>, n: nat) {
    forall k :: 0 <= k < |refs| ==> refs[k].offset + INT_SIZE <= n
  }

  /** References come last first and do not overlap. */
  predicate Apart(refs: seq<LabelRef>) {
    forall j, k :: 0 <= j < k < |refs| ==> refs[k].offset + INT_SIZE <= refs[j].offset
  }

  predicate Resolved(labels: seq<CodeLabel>, r: LabelRef) {
    r.target < |labels| && labels[r.target].defined
  }

  function PatchOne(bytes: seq<byte>, r: LabelRef, labels: seq<CodeLabel>): (p: seq<byte>)
    requires r.offset + INT_SIZE <= |bytes|
    ensures |p| == |bytes|
  {
    if Resolved(labels, r) then bytes[..r.offset] + Encode(labels[r.target].offset) + bytes[r.offset + INT_SIZE..] else bytes
  }

  function Patched(bytes: seq<byte>, refs: seq<LabelRef>, labels: seq<CodeLabel>): (p: seq<byte>)
    requires Inside(refs, |bytes|)
    ensures |p| == |bytes|
    decreases |refs|
  {
    if refs == [] then bytes else Patched(PatchOne(bytes, refs[0], labels), refs[1..], labels)
  }

  predicate Covers(r: LabelRef, p: nat) {
    r.offset <= p < r.offset + INT_SIZE
  }

  /** A byte that no resolved reference covers is not changed. */
  lemma {:induction false} PatchedElsewhere(bytes: seq<byte>, refs: seq<LabelRef>, labels: seq<CodeLabel>, p: nat)
    requires Inside(refs, |bytes|) && p < |bytes|
    requires forall k :: 0 <= k < |refs| && Covers(refs[k], p) ==> !Resolved(labels, refs[k])
    ensures Patched(bytes, refs, labels)[p] == bytes[p]
    decreases |refs|
  {
    if refs != [] {
      PatchedElsewhere(PatchOne(bytes, refs[0], labels), refs[1..], labels, p);
      assert Resolved(labels, refs[0]) ==> !Covers(refs[0], p);
    }
  }

  /** A reference to a defined label holds the label's offset. */
  lemma {:induction false} PatchedReference(bytes: seq<byte>, refs: seq<LabelRef>, labels: seq<CodeLabel>, k: nat)
    requires Inside(refs, |bytes|) && Apart(refs) && k < |refs| && Resolved(labels, refs[k])
    ensures Patched(bytes, refs, labels)[refs[k].offset..refs[k].offset + INT_SIZE] == Encode(labels[refs[k].target].offset)
    decreases |refs|
  {
    var next, more := PatchOne(bytes, refs[0], labels), refs[1..];
    if k > 0 {
      assert more[k - 1] == refs[k];
      PatchedReference(next, more, labels, k - 1);
    } else {
      var r := refs[0];
      forall p | r.offset <= p < r.offset + INT_SIZE ensures Patched(next, more, labels)[p] == next[p] {
        forall j | 0 <= j < |more| ensures !Covers(more[j], p) {
          assert more[j] == refs[j + 1];
        }
        PatchedElsewhere(next, more, labels, p);
      }
      assert next[r.offset..r.offset + INT_SIZE] == Encode(labels[r.target].offset);
      assert Patched(next, more, labels)[r.offset..r.offset + INT_SIZE] == next[r.offset..r.offset + INT_SIZE];
    }
  }

  // ----- The pointer table -----

  /** The offset of entry k. */
  function Slot(k: nat): nat {
    INT_SIZE * k
  }

  function Pointers(externals: seq<(Name, int32)>): seq<Item> {
    if externals == [] then [] else [Ref(externals[0].0, externals[0].1)] + Pointers(externals[1..])
  }

  lemma {:induction false} PointersAppend(externals: seq<(Name, int32)>, x: (Name, int32))
    ensures Pointers(externals + [x]) == Pointers(externals) + [Ref(x.0, x.1)]
  {
    if externals == [] {
      assert [x][1..] == [];
    } else {
      assert (externals + [x])[1..] == externals[1..] + [x];
      PointersAppend(externals[1..], x);
    }
  }

  lemma {:induction false} PointersSize(externals: seq<(Name, int32)>, at: nat)
    ensures |Bytes(Pointers(externals))| == Slot(|externals|) && Labels(Pointers(externals), at) == []
    ensures |Relocs(Pointers(externals), at)| == |externals|
  {
    if externals != [] {
      assert Pointers(externals)[1..] == Pointers(externals[1..]);
      PointersSize(externals[1..], at + INT_SIZE);
    }
  }

  lemma {:induction false} PointerRelocAt(externals: seq<(Name, int32)>, at: nat, k: nat)
    requires k < |externals|
    ensures |Relocs(Pointers(externals), at)| == |externals|
    ensures Relocs(Pointers(externals), at)[|externals| - 1 - k] == Reloc(at + Slot(k), externals[k].0)
  {
    assert Pointers(externals)[1..] == Pointers(externals[1..]);
    PointersSize(externals[1..], at + INT_SIZE);
    if k > 0 {
      PointerRelocAt(externals[1..], at + INT_SIZE, k - 1);
    }
  }

  /** The four bytes at an offset. */
  predicate WordAt(bytes: seq<byte>, at: nat, word: seq<byte>) {
    at + INT_SIZE <= |bytes| && bytes[at..at + INT_SIZE] == word
  }

  lemma {:induction false} WordAfter(a: seq<byte>, b: seq<byte>, at: nat, word: seq<byte>)
    requires WordAt(b, at, word)
    ensures WordAt(a + b, |a| + at, word)
  {
  }

  lemma {:induction false} PointerBytesAt(externals: seq<(Name, int32)>, k: nat)
    requires k < |externals|
    ensures WordAt(Bytes(Pointers(externals)), Slot(k), Encode(externals[k].1))
  {
    assert Pointers(externals)[1..] == Pointers(externals[1..]);
    var b := Bytes(Pointers(externals[1..]));
    assert Bytes(Pointers(externals)) == Encode(externals[0].1) + b;
    if k > 0 {
      PointerBytesAt(externals[1..], k - 1);
      WordAfter(Encode(externals[0].1), b, Slot(k - 1), Encode(externals[k].1));
    }
  }

  /** The lists of a stream that ends in a name and the pointer table. */
  lemma {:induction false} PointerLists(before: seq<Item>, lp: Name, externals: seq<(Name, int32)>)
    ensures var n, items := |Bytes(before)|, before + [Label(lp)] + Pointers(externals);
      && Bytes(items) == Bytes(before) + Bytes(Pointers(externals))
      && Labels(items, 0) == [(lp, n)] + Labels(before, 0)
      && Relocs(items, 0) == Relocs(Pointers(externals), n) + Relocs(before, 0)
  {
    var n := |Bytes(before)|;
    Appended(before, [Label(lp)]);
    LabelAlone(lp, n);
    hide Bytes, Labels, Relocs;
    assert Bytes(before) + [] == Bytes(before) && [] + Relocs(before, 0) == Relocs(before, 0);
    Appended(before + [Label(lp)], Pointers(externals));
    PointersSize(externals, n);
    hide Pointers;
    assert [] + ([(lp, n)] + Labels(before, 0)) == [(lp, n)] + Labels(before, 0);
  }

  lemma {:induction false} LabelAlone(lp: Name, n: nat)
    ensures Bytes([Label(lp)]) == [] && Labels([Label(lp)], n) == [(lp, n)] && Relocs([Label(lp)], n) == []
  {
    assert [Label(lp)][1..] == [];
  }

  lemma {:induction false} TableRelocs(before: seq<Item>, lp: Name, externals: seq<(Name, int32)>, relocs: seq<Reloc>, k: nat)
    requires relocs == Relocs(before + [Label(lp)] + Pointers(externals), 0) && k < |externals|
    ensures Reloc(|Bytes(before)| + Slot(k), externals[k].0) in relocs
  {
    var r := Relocs(Pointers(externals), |Bytes(before)|);
    assert relocs == r + Relocs(before, 0) by {
      PointerLists(before, lp, externals);
    }
    PointerRelocAt(externals, |Bytes(before)|, k);
    hide Bytes, Labels, Relocs, Pointers, Encode;
    Prefixed(r, Relocs(before, 0), relocs, |externals| - 1 - k);
  }

  /** In a segment where the pointer table follows its name, the name is the first byte of the table,
      and entry k of the table is the place to be relocated for external name k. */
  lemma {:induction false} PointerTable(seg: Seg, table: map<Name, Symbol>, before: seq<Item>, lp: Name, externals: seq<(Name, int32)>, k: nat)
    requires Represents(seg, table, before + [Label(lp)] + Pointers(externals)) && k < |externals|
    ensures DefinedAt(table, lp, |Bytes(before)|)
    ensures Reloc(|Bytes(before)| + Slot(k), externals[k].0) in seg.relocs
    ensures WordAt(seg.bytes, |Bytes(before)| + Slot(k), Encode(externals[k].1))
  {
    assert seg.bytes == Bytes(before + [Label(lp)] + Pointers(externals)) && seg.relocs == Relocs(before + [Label(lp)] + Pointers(externals), 0);
    hide *;
    PointerLists(before, lp, externals);
    PointerBytesAt(externals, k);
    WordAfter(Bytes(before), Bytes(Pointers(externals)), Slot(k), Encode(externals[k].1));
    TableRelocs(before, lp, externals, seg.relocs, k);
    FirstListed(seg, table, before + [Label(lp)] + Pointers(externals), lp, |Bytes(before)|);
  }

  lemma {:induction false} FirstListed(seg: Seg, table: map<Name, Symbol>, items: seq<Item>, name: Name, n: nat)
    requires Represents(seg, table, items) && Labels(items, 0) != [] && Labels(items, 0)[0] == (name, n)
    ensures DefinedAt(table, name, n)
  {
    hide Bytes, Labels, Relocs;
    assert seg.syms[0] == name;
  }

  lemma {:induction false} Prefixed(r: seq<Reloc>, rest: seq<Reloc>, whole: seq<Reloc>, j: nat)
    requires whole == r + rest && j < |r|
    ensures r[j] in whole
  {
    assert whole[j] == r[j];
  }

  // ----- Indices in the bytecode -----

  predicate Clear(refs: seq<LabelRef>, at: nat) {
    forall j :: 0 <= j < |refs| ==> refs[j].offset + INT_SIZE <= at || at + INT_SIZE <= refs[j].offset
  }

  /** The index of each external name is in the bytecode, out of the way of all labels. */
  predicate Indexed(bytes: seq<byte>, sites: seq<nat>, refs: seq<LabelRef>) {
    forall k :: 0 <= k < |sites| ==> WordAt(bytes, sites[k], Encode(k)) && Clear(refs, sites[k])
  }

  lemma {:induction false} InsideMore(refs: seq<LabelRef>, n: nat, m: nat)
    requires Inside(refs, n) && n <= m
    ensures Inside(refs, m)
  {
  }

  lemma {:induction false} WordBefore(a: seq<byte>, b: seq<byte>, at: nat, word: seq<byte>)
    requires WordAt(a, at, word)
    ensures WordAt(a + b, at, word)
  {
  }

  lemma {:induction false} IndexedAppend(bytes: seq<byte>, more: seq<byte>, sites: seq<nat>, refs: seq<LabelRef>)
    requires Indexed(bytes, sites, refs)
    ensures Indexed(bytes + more, sites, refs)
  {
    hide Encode, Clear;
    forall k | 0 <= k < |sites| ensures WordAt(bytes + more, sites[k], Encode(k)) {
      WordBefore(bytes, more, sites[k], Encode(k));
    }
    hide WordAt;
  }

  lemma {:induction false} IndexedRef(bytes: seq<byte>, sites: seq<nat>, refs: seq<LabelRef>, l: nat)
    requires Indexed(bytes, sites, refs)
    ensures Indexed(bytes, sites, [LabelRef(l, |bytes|)] + refs)
  {
    hide Encode;
    forall k | 0 <= k < |sites| ensures Clear([LabelRef(l, |bytes|)] + refs, sites[k]) {
      assert WordAt(bytes, sites[k], Encode(k));
    }
  }

  lemma {:induction false} IndexedMore(bytes: seq<byte>, sites: seq<nat>, refs: seq<LabelRef>)
    requires Indexed(bytes, sites, refs) && Inside(refs, |bytes|)
    ensures Indexed(bytes + Encode(|sites|), sites + [|bytes|], refs)
  {
    IndexedAppend(bytes, Encode(|sites|), sites, refs);
    hide Encode;
    assert WordAt(bytes + Encode(|sites|), |bytes|, Encode(|sites|)) && Clear(refs, |bytes|);
    hide WordAt, Clear;
  }

  /** Backpatching does not touch them. */
  lemma {:induction false} IndexedPatched(bytes: seq<byte>, sites: seq<nat>, refs: seq<LabelRef>, labels: seq<CodeLabel>)
    requires Indexed(bytes, sites, refs) && Inside(refs, |bytes|)
    ensures Indexed(Patched(bytes, refs, labels), sites, refs)
  {
    hide Encode;
    var p := Patched(bytes, refs, labels);
    forall k | 0 <= k < |sites| ensures WordAt(p, sites[k], Encode(k)) {
      var o := sites[k];
      assert WordAt(bytes, o, Encode(k)) && Clear(refs, o);
      forall i | o <= i < o + INT_SIZE ensures p[i] == bytes[i] {
        assert forall j :: 0 <= j < |refs| ==> !Covers(refs[j], i);
        PatchedElsewhere(bytes, refs, labels, i);
      }
      assert p[o..o + INT_SIZE] == bytes[o..o + INT_SIZE];
    }
  }

  /** Where the bytecode starts in the text. */
  function CodeStart(text: seq<Item>, trampoline: seq<Item>, log: nat): nat {
    |Bytes(Pad(text, log))| + |Bytes(Pad(trampoline, log))|
  }

  lemma {:induction false} CodeBytes(text: seq<Item>, trampoline: seq<Item>, code: seq<byte>, log: nat, at: nat, word: seq<byte>)
    requires WordAt(code, at, word)
    ensures WordAt(Bytes(Pad(text, log) + Pad(Pad(trampoline, log) + AsItems(code), log)), CodeStart(text, trampoline, log) + at, word)
  {
    var t, b := Pad(text, log), Pad(trampoline, log);
    var n := |Bytes(b + AsItems(code))|;
    var rest := Zeros(AlignUp(n, log) - n);
    assert Pad(b + AsItems(code), log) == b + AsItems(code) + rest;
    hide *;
    BytesBetween(t, b, code, rest);
    WordBetween(Bytes(t), Bytes(b), code, Bytes(rest), at, word);
    StartIs(text, trampoline, log);
  }

  lemma {:induction false} StartIs(text: seq<Item>, trampoline: seq<Item>, log: nat)
    ensures CodeStart(text, trampoline, log) == |Bytes(Pad(text, log))| + |Bytes(Pad(trampoline, log))|
  {
  }

  lemma {:induction false} BytesBetween(t: seq<Item>, b: seq<Item>, code: seq<byte>, rest: seq<Item>)
    ensures Bytes(t + (b + AsItems(code) + rest)) == Bytes(t) + (Bytes(b) + code + Bytes(rest))
  {
    AsItemsPlain(code, 0);
    hide *;
    BytesAppend(b, AsItems(code));
    BytesAppend(b + AsItems(code), rest);
    BytesAppend(t, b + AsItems(code) + rest);
  }

  lemma {:induction false} WordBetween(t: seq<byte>, b: seq<byte>, code: seq<byte>, rest: seq<byte>, at: nat, word: seq<byte>)
    requires WordAt(code, at, word)
    ensures WordAt(t + (b + code + rest), |t| + |b| + at, word)
  {
    hide WordAt;
    WordAfter(b, code, at, word);
    WordBefore(b + code, rest, |b| + at, word);
    WordAfter(t, b + code + rest, |b| + at, word);
  }

  /** The word at an offset, times the size of an entry, is the offset in the pointer table `lp` of a
      reference to the name. */
  predicate Selects(seg: Seg, table: map<Name, Symbol>, at: nat, lp: Name, k: nat, name: Name) {
    && at + INT_SIZE <= |seg.bytes| && Decode(seg.bytes[at..at + INT_SIZE]) == k
    && lp in table && Reloc(table[lp].val + Slot(k), name) in seg.relocs
  }

  /** In the text with the function in it, the index in the bytecode selects the place in the pointer
      table that is to be relocated for the external name. */
  lemma {:induction false} IndexSelects(seg: Seg, table: map<Name, Symbol>, text: seq<Item>, trampoline: seq<Item>, code: seq<byte>,
                                        sites: seq<nat>, refs: seq<LabelRef>, lp: Name, externals: seq<(Name, int32)>, log: nat, k: nat)
    requires Represents(seg, table, Pad(text, log) + FunctionItems(trampoline, code, [Label(lp)], Pointers(externals), log))
    requires Indexed(code, sites, refs) && |sites| == |externals| && k < |externals| && k < 0x8000_0000
    ensures Selects(seg, table, CodeStart(text, trampoline, log) + sites[k], lp, k, externals[k].0)
  {
    hide *;
    IndexedAt(code, sites, refs, k);
    CodeBytes(text, trampoline, code, log, sites[k], Encode(k));
    ItemsBeforeName(text, trampoline, code, [Label(lp)], Pointers(externals), log);
    SelectsAt(seg, table, Pad(text, log) + Pad(Pad(trampoline, log) + AsItems(code), log),
              CodeStart(text, trampoline, log) + sites[k], lp, externals, k);
  }

  lemma {:induction false} IndexedAt(code: seq<byte>, sites: seq<nat>, refs: seq<LabelRef>, k: nat)
    requires Indexed(code, sites, refs) && k < |sites|
    ensures WordAt(code, sites[k], Encode(k))
  {
    hide WordAt, Encode;
  }

  lemma {:induction false} ItemsBeforeName(text: seq<Item>, trampoline: seq<Item>, code: seq<byte>, name: seq<Item>, pointers: seq<Item>, log: nat)
    ensures Pad(text, log) + FunctionItems(trampoline, code, name, pointers, log) ==
      Pad(text, log) + Pad(Pad(trampoline, log) + AsItems(code), log) + name + pointers
  {
    hide Pad, AsItems;
  }

  lemma {:induction false} SelectsAt(seg: Seg, table: map<Name, Symbol>, before: seq<Item>, at: nat, lp: Name, externals: seq<(Name, int32)>, k: nat)
    requires Represents(seg, table, before + [Label(lp)] + Pointers(externals))
    requires k < |externals| && k < 0x8000_0000 && WordAt(Bytes(before), at, Encode(k))
    ensures Selects(seg, table, at, lp, k, externals[k].0)
  {
    assert seg.bytes == Bytes(before + [Label(lp)] + Pointers(externals));
    hide *;
    PointerTable(seg, table, before, lp, externals, k);
    PointerLists(before, lp, externals);
    WordBefore(Bytes(before), Bytes(Pointers(externals)), at, Encode(k));
    IndexRead(seg, table, at, lp, k, externals[k].0, |Bytes(before)|);
  }

  lemma {:induction false} IndexRead(seg: Seg, table: map<Name, Symbol>, at: nat, lp: Name, k: nat, name: Name, n: nat)
    requires k < 0x8000_0000 && WordAt(seg.bytes, at, Encode(k)) && DefinedAt(table, lp, n) && Reloc(n + Slot(k), name) in seg.relocs
    ensures Selects(seg, table, at, lp, k, name)
  {
    DecodeEncode(k);
    hide Encode, Decode;
  }

  // ----- A function -----

  /** `text` is the cumulative text segment. `externals` are the names given to the pointer table. */
  class FunctionCode {
    const table: SymbolTable
    const text: Segment
    const trampoline: Segment
    const bytecode: Segment
    const ptrconsts: Segment
    var labels: seq<CodeLabel>
    var labelrefs: seq<LabelRef>
    ghost var externals: seq<(Name, int32)>
    /** Where in the bytecode the index of each external name is. */
    ghost var sites: seq<nat>

    ghost predicate Separate()
      reads text, trampoline, bytecode, ptrconsts
    {
      && text != trampoline && text != bytecode && text != ptrconsts
      && trampoline != bytecode && trampoline != ptrconsts && bytecode != ptrconsts
      && text.data != trampoline.data && text.data != bytecode.data && text.data != ptrconsts.data
      && trampoline.data != bytecode.data && trampoline.data != ptrconsts.data && bytecode.data != ptrconsts.data
    }

    ghost predicate Placed()
      reads this, table, text, trampoline, bytecode, ptrconsts, text.data, trampoline.data, bytecode.data, ptrconsts.data
    {
      && Separate()
      && text.Holds(table.syms) && trampoline.Holds(table.syms) && bytecode.Holds(table.syms) && ptrconsts.Holds(table.syms)
      && forall n :: n in trampoline.syms ==> n !in text.syms
    }

    ghost predicate PointersOk()
      reads this, ptrconsts
    {
      ptrconsts.items == Pointers(externals) && ptrconsts.syms == [] && ptrconsts.size == Slot(|externals|)
    }

    ghost predicate CodeOk(code: seq<byte>)
      reads this, bytecode
    {
      && bytecode.items == AsItems(code) && bytecode.syms == [] && |code| == bytecode.size
      && Inside(labelrefs, |code|) && Apart(labelrefs) && (forall k :: 0 <= k < |labelrefs| ==> labelrefs[k].target < |labels|)
      && |sites| == |externals| && Indexed(code, sites, labelrefs)
    }

    ghost predicate Valid()
      reads this, table, text, trampoline, bytecode, ptrconsts, text.data, trampoline.data, bytecode.data, ptrconsts.data
    {
      Placed() && PointersOk() && CodeOk(bytecode.data[..bytecode.size])
    }

    /** The bytecode so far. */
    ghost function Code(): seq<byte>
      reads this, bytecode, bytecode.data
      requires bytecode.Valid()
    {
      bytecode.data[..bytecode.size]
    }

    /** The bytecode with the offsets of defined labels filled in. */
    ghost function Finished(): seq<byte>
      reads this, bytecode, bytecode.data
      requires bytecode.Valid() && Inside(labelrefs, bytecode.size)
    {
      Patched(Code(), labelrefs, labels)
    }

    /** Begins a function called `name`. */
    constructor (table: SymbolTable, text: Segment, name: Name)
      requires text.Holds(table.syms)
      modifies table
      ensures Valid() && this.table == table && this.text == text && externals == [] && sites == [] && labels == [] && labelrefs == []
      ensures bytecode.size == 0 && fresh(trampoline) && fresh(bytecode) && fresh(ptrconsts)
      ensures fresh(trampoline.data) && fresh(bytecode.data) && fresh(ptrconsts.data)
      ensures trampoline.items == NewLabel(old(table.syms), name)
    {
      hide Represents, Inside, Apart, Indexed, AsItems, Pointers, Encode, NewLabel;
      this.table := table;
      this.text := text;
      var entry := NewTrampoline(table, text, name);
      trampoline := entry;
      bytecode := new Segment();
      ptrconsts := new Segment();
      labels, labelrefs, externals, sites := [], [], [], [];
      NothingYet();
      new;
      assert bytecode.data[..bytecode.size] == [];
      assert CodeOk([]) && PointersOk();
      hide CodeOk, PointersOk;
    }

    static method NewTrampoline(table: SymbolTable, text: Segment, name: Name) returns (entry: Segment)
      requires text.Holds(table.syms)
      modifies table
      ensures fresh(entry) && fresh(entry.data) && entry.Holds(table.syms) && text.Holds(table.syms)
      ensures entry.items == NewLabel(old(table.syms), name) && forall n :: n in entry.syms ==> n !in text.syms
    {
      hide Represents;
      ghost var before := table.syms;
      ListedInTable(text.View(), before, text.items);
      entry := new Segment();
      var ok := entry.SegDefsym(table, name);
      Undisturbed(text.View(), before, table.syms, text.items);
    }

    /** Data inline in the bytecode. */
    method EmitConst(data: seq<byte>)
      requires Valid()
      modifies bytecode, bytecode.data
      ensures Valid() && Code() == old(Code()) + data
    {
      hide Represents, Indexed, AsItems, Pointers, Inside, Apart;
      ghost var was := bytecode.data[..bytecode.size];
      assert CodeOk(was);
      AsItemsAppend(was, data);
      IndexedAppend(was, data, sites, labelrefs);
      InsideMore(labelrefs, |was|, |was| + |data|);
      bytecode.SegData(data);
      assert CodeOk(was + data);
      hide CodeOk, PointersOk;
    }

    method AlignBytecode(log: nat)
      requires Valid()
      modifies bytecode, bytecode.data
      ensures Valid() && Code() == old(Code()) + seq(AlignUp(old(bytecode.size), log) - old(bytecode.size), i => 0)
    {
      hide Represents, Indexed, Pointers, Encode, AlignUp, AsItems, Inside, Apart;
      ghost var was := bytecode.data[..bytecode.size];
      AlignUpIs(bytecode.size, log);
      ZerosAfter(was, AlignUp(bytecode.size, log) - bytecode.size);
      bytecode.SegAlign(log);
      ghost var n := AlignUp(old(bytecode.size), log) - old(bytecode.size);
      ItemsOfPlain(bytecode.View(), table.syms, was, n);
      IndexedAppend(was, seq(n, i => 0), sites, labelrefs);
      InsideMore(labelrefs, |was|, bytecode.size);
    }

    method GetLabel() returns (l: nat)
      requires Valid()
      modifies this`labels
      ensures Valid() && l == |old(labels)| && labels == old(labels) + [CodeLabel(false, 0)]
    {
      l := |labels|;
      labels := labels + [CodeLabel(false, 0)];
    }

    /** Defines a label here, unless it is defined already. */
    method LabelDef(l: nat) returns (ok: bool)
      requires Valid() && l < |labels|
      modifies this`labels
      ensures Valid() && ok == !old(labels)[l].defined
      ensures labels == if ok then old(labels)[l := CodeLabel(true, bytecode.size)] else old(labels)
    {
      if labels[l].defined {
        return false;
      }
      labels := labels[l := CodeLabel(true, bytecode.size)];
      ok := true;
    }

    /** Leaves room for the offset of a label. */
    method EmitLabelRef(l: nat)
      requires Valid() && l < |labels|
      modifies this`labelrefs, bytecode, bytecode.data
      ensures Valid() && labelrefs == [LabelRef(l, old(bytecode.size))] + old(labelrefs)
      ensures Code() == old(Code()) + Encode(0)
    {
      hide Represents, Indexed, AsItems, Pointers;
      ghost var was := bytecode.data[..bytecode.size];
      IndexedRef(was, sites, labelrefs, l);
      labelrefs := [LabelRef(l, bytecode.size)] + labelrefs;
      bytecode.SegData(Encode(0));
      AsItemsAppend(was, Encode(0));
      IndexedAppend(was, Encode(0), sites, labelrefs);
    }

    /** A reference to an external name: its index in the pointer table goes into the bytecode. */
    method EmitCodeLabelRef(name: Name, offset: int32)
      requires Valid()
      modifies this`externals, this`sites, table, bytecode, bytecode.data, ptrconsts, ptrconsts.data
      ensures Valid() && externals == old(externals) + [(name, offset)] && sites == old(sites) + [old(bytecode.size)]
      ensures Code() == old(Code()) + Encode(|old(externals)|)
    {
      hide Represents, Inside, Apart, Indexed, AsItems, Pointers, Encode;
      var ptroff := ptrconsts.size / INT_SIZE;
      EmitConst(Encode(ptroff));
      ghost var before := table.syms;
      ListedInTable(text.View(), before, text.items);
      ListedInTable(trampoline.View(), before, trampoline.items);
      ptrconsts.SegRefsym(table, name, offset);
      Undisturbed(text.View(), before, table.syms, text.items);
      Undisturbed(trampoline.View(), before, table.syms, trampoline.items);
      Undisturbed(bytecode.View(), before, table.syms, bytecode.items);
      PointersAppend(externals, (name, offset));
      IndexedMore(old(bytecode.data[..bytecode.size]), sites, labelrefs);
      externals := externals + [(name, offset)];
      sites := sites + [old(bytecode.size)];
    }

    /** Writes the offsets of the defined labels over the room left for them. */
    method Backpatch()
      requires Valid()
      modifies bytecode`items, bytecode.data
      ensures Valid() && Code() == old(Finished())
    {
      hide Represents, Encode, Indexed, AsItems;
      ghost var was := bytecode.data[..bytecode.size];
      IndexedPatched(was, sites, labelrefs, labels);
      var refs := labelrefs;
      while refs != []
        invariant bytecode.Valid() && Inside(refs, bytecode.size)
        invariant Patched(bytecode.data[..bytecode.size], refs, labels) == Patched(was, labelrefs, labels)
        decreases |refs|
      {
        PatchInPlace(refs[0]);
        refs := refs[1..];
      }
      bytecode.items := AsItems(bytecode.data[..bytecode.size]);
      PlainRepresents(bytecode.View(), table.syms, Seg(was, [], bytecode.relocs));
    }

    method PatchInPlace(r: LabelRef)
      requires bytecode.Valid() && r.offset + INT_SIZE <= bytecode.size
      modifies bytecode.data
      ensures bytecode.data[..bytecode.size] == PatchOne(old(bytecode.data[..bytecode.size]), r, labels)
    {
      if r.target < |labels| && labels[r.target].defined {
        var addr := Encode(labels[r.target].offset);
        forall i | 0 <= i < INT_SIZE {
          bytecode.data[r.offset + i] := addr[i];
        }
      }
    }

    /** The bytecode goes after the trampoline. */
    method JoinCode(log: nat)
      requires Valid()
      modifies table, trampoline, trampoline.data
      ensures Valid() && table.syms == old(table.syms) && (trampoline.data == old(trampoline.data) || fresh(trampoline.data))
      ensures trampoline.syms == old(trampoline.syms)
      ensures trampoline.items == Pad(Pad(old(trampoline.items), log) + bytecode.items, log)
      ensures trampoline.size == AlignUp(trampoline.size, log)
    {
      hide Represents, Inside, Apart, Indexed, AsItems, Pointers, Encode, Bytes, AlignUp;
      SizeIs(trampoline, table);
      trampoline.SegConcat(table, bytecode, log);
      NothingMoved(old(table.syms), AlignUp(old(trampoline.size), log));
      SizeIs(trampoline, table);
      AlignUpIs(trampoline.size, log);
      AlignUpIs(AlignUp(trampoline.size, log), log);
      trampoline.SegAlign(log);
    }

    /** The pointer table is named where it will start. */
    method NamePointers(lp: Name)
      requires Valid()
      modifies table, trampoline`syms, trampoline`items
      ensures Valid()
      ensures trampoline.items == old(trampoline.items) + NewLabel(old(table.syms), lp)
      ensures forall n :: n in trampoline.syms ==> n in old(trampoline.syms) || n == lp
      ensures Unmoved(old(table.syms), table.syms, [lp])
    {
      hide Represents, Inside, Apart, Indexed, AsItems, Pointers, Encode, Bytes, AlignUp;
      ghost var before := table.syms;
      ListedInTable(text.View(), before, text.items);
      ListedInTable(ptrconsts.View(), before, ptrconsts.items);
      var ok := trampoline.SegDefsym(table, lp);
      Undisturbed(text.View(), before, table.syms, text.items);
      Undisturbed(bytecode.View(), before, table.syms, bytecode.items);
      Undisturbed(ptrconsts.View(), before, table.syms, ptrconsts.items);
    }

    /** The pointer table goes after its name, and the whole after the text. */
    method JoinPointers(log: nat)
      requires Valid() && trampoline.size == AlignUp(trampoline.size, log)
      modifies table, trampoline, trampoline.data, text, text.data
      ensures text.Holds(table.syms)
      ensures text.items == Pad(old(text.items), log) + (old(trampoline.items) + old(ptrconsts.items))
      ensures Unmoved(old(table.syms), table.syms, old(trampoline.syms))
    {
      hide Represents, Inside, Apart, Indexed, AsItems, Pointers, Encode, Bytes, AlignUp;
      trampoline.SegConcat(table, ptrconsts, log);
      NothingMoved(old(table.syms), AlignUp(old(trampoline.size), log));
      assert old(trampoline.items) + [] == old(trampoline.items);
      AlignUpIs(text.size, log);
      SizeIs(text, table);
      ghost var before, names := table.syms, trampoline.syms;
      text.SegConcat(table, trampoline, log);
      MovedOthers(before, names, AlignUp(old(text.size), log));
    }

    /** Puts the pieces of the function after the text; `lp` names its pointer table. */
    method Assemble(lp: Name, log: nat)
      requires Valid()
      modifies table, text, text.data, trampoline, trampoline.data
      ensures text.Holds(table.syms)
      ensures text.items == Pad(old(text.items), log) +
        FunctionItems(old(trampoline.items), old(Code()),
                      NewLabel(old(table.syms), lp), Pointers(externals), log)
      ensures Unmoved(old(table.syms), table.syms, [lp] + old(trampoline.syms))
    {
      hide Represents, Inside, Apart, Indexed, AsItems, Pointers, Encode, Bytes, AlignUp, Zeros, Unmoved;
      JoinCode(log);
      NamePointers(lp);
      ghost var named, syms := table.syms, trampoline.syms;
      JoinPointers(log);
      UnmovedTwice(old(table.syms), named, table.syms, lp, old(trampoline.syms), syms);
    }

    /** Finishes the function: labels patched in, everything appended to the text. The indices of the
        external names are still in the bytecode. */
    method EndFunction(lp: Name, log: nat)
      requires Valid()
      modifies this, table, text, text.data, trampoline, trampoline.data, bytecode, bytecode.data
      ensures text.Holds(table.syms) && labels == [] && labelrefs == []
      ensures text.items == Pad(old(text.items), log) +
        FunctionItems(old(trampoline.items), old(Finished()),
                      NewLabel(old(table.syms), lp), old(Pointers(externals)), log)
      ensures Unmoved(old(table.syms), table.syms, [lp] + old(trampoline.syms))
      ensures |old(sites)| == |old(externals)| && Indexed(old(Finished()), old(sites), old(labelrefs))
    {
      IndexedPatched(Code(), sites, labelrefs, labels);
      assert Indexed(Finished(), sites, labelrefs);
      hide *;
      Backpatch();
      Assemble(lp, log);
      labels, labelrefs := [], [];
    }
  }

  lemma {:induction false} NothingYet()
    ensures AsItems([]) == [] && Pointers([]) == [] && Inside([], 0) && Apart([]) && Indexed([], [], [])
  {
  }

  lemma {:induction false} ZerosAfter(was: seq<byte>, n: nat)
    ensures AsItems(was) + Zeros(n) == AsItems(was + seq(n, i => 0))
  {
    ZerosPlain(n);
    AsItemsAppend(was, seq(n, i => 0));
  }

  lemma {:induction false} ItemsOfPlain(seg: Seg, table: map<Name, Symbol>, was: seq<byte>, n: nat)
    requires Represents(seg, table, AsItems(was) + Zeros(n))
    ensures AsItems(was) + Zeros(n) == AsItems(seg.bytes) && seg.bytes == was + seq(n, i => 0)
  {
    ZerosAfter(was, n);
    AsItemsPlain(was + seq(n, i => 0), 0);
  }

  /** Names other than those listed keep their symbols. */
  predicate Unmoved(before: map<Name, Symbol>, after: map<Name, Symbol>, names: seq<Name>) {
    forall n :: n in before && n !in names ==> n in after && after[n] == before[n]
  }

  lemma {:induction false} MovedOthers(table: map<Name, Symbol>, names: seq<Name>, fix: nat)
    ensures Unmoved(table, MoveSyms(table, names, fix), names)
  {
  }

  lemma {:induction false} UnmovedTwice(a: map<Name, Symbol>, b: map<Name, Symbol>, c: map<Name, Symbol>, lp: Name, first: seq<Name>, later: seq<Name>)
    requires Unmoved(a, b, [lp]) && Unmoved(b, c, later) && forall n :: n in later ==> n in first || n == lp
    ensures Unmoved(a, c, [lp] + first)
  {
  }

  lemma {:induction false} SizeIs(seg: Segment, table: SymbolTable)
    requires seg.Holds(table.syms)
    ensures seg.size == |Bytes(seg.items)|
  {
    assert |seg.data[..seg.size]| == seg.size;
    hide Bytes, Listed;
  }

  lemma {:induction false} NothingMoved(table: map<Name, Symbol>, fix: nat)
    ensures MoveSyms(table, [], fix) == table
  {
  }

  /** Bytes may be overwritten in a segment without names and references. */
  lemma {:induction false} PlainRepresents(seg: Seg, table: map<Name, Symbol>, was: Seg)
    requires Represents(was, table, AsItems(was.bytes)) && seg.syms == was.syms == [] && seg.relocs == was.relocs
    ensures Represents(seg, table, AsItems(seg.bytes))
  {
    AsItemsPlain(was.bytes, 0);
    AsItemsPlain(seg.bytes, 0);
    hide Bytes, Labels, Relocs, AsItems;
  }

  /** A name as it is put in a segment. */
  ghost function NewLabel(table: map<Name, Symbol>, name: Name): seq<Item> {
    if Undefined(table, name) then [Label(name)] else []
  }

  function Pad(items: seq<Item>, log: nat): seq<Item> {
    AlignUpIs(|Bytes(items)|, log);
    items + Zeros(AlignUp(|Bytes(items)|, log) - |Bytes(items)|)
  }

  /** The trampoline, the bytecode and the pointer table under its name, each aligned. */
  function FunctionItems(trampoline: seq<Item>, code: seq<byte>, name: seq<Item>, pointers: seq<Item>, log: nat): seq<Item> {
    Pad(Pad(trampoline, log) + AsItems(code), log) + name + pointers
  }

  lemma {:induction false} AsItemsAppend(a: seq<byte>, b: seq<byte>)
    ensures AsItems(a + b) == AsItems(a) + AsItems(b)
  {
    if a == [] {
      assert a + b == b;
    } else {
      assert (a + b)[1..] == a[1..] + b;
      AsItemsAppend(a[1..], b);
    }
  }
}
