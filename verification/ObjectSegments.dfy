/** Segments as bc-emit.c builds and writes them. */
module ObjectSegments {
  import opened ObjectSpec

  /** The symbol table; sym_lookup makes a symbol the first time a name is looked up. */
  class SymbolTable {
    var syms: map<Name, Symbol>

    constructor ()
      ensures syms == map[]
    {
      syms := map[];
    }

    method Lookup(name: Name) returns (s: Symbol)
      modifies this
      ensures name in syms && s == syms[name]
      ensures syms == if name in old(syms) then old(syms) else old(syms)[name := NEW_SYMBOL]
    {
      if name !in syms {
        syms := syms[name := NEW_SYMBOL];
      }
      s := syms[name];
    }
  }

  ghost predicate Undefined(table: map<Name, Symbol>, name: Name) {
    name in table ==> !table[name].defined
  }

  /** `items` is the stream the segment stands for. */
  class Segment {
    var data: array<byte>
    var size: nat
    var syms: seq<Name>
    var relocs: seq<Reloc>
    ghost var items: seq<Item>

    ghost predicate Valid()
      reads this, data
    {
      data.Length >= 1 && size <= data.Length
    }

    ghost function View(): Seg
      reads this, data
      requires Valid()
    {
      Seg(data[..size], syms, relocs)
    }

    ghost predicate Holds(table: map<Name, Symbol>)
      reads this, data
    {
      Valid() && Represents(View(), table, items)
    }

    constructor ()
      ensures Valid() && fresh(data) && items == [] && size == 0 && syms == [] && relocs == []
      ensures forall t: map<Name, Symbol> :: Holds(t)
    {
      data := new byte[256];
      size, syms, relocs, items := 0, [], [], [];
    }

    /** Room for n bytes: the allocation is doubled until they fit. */
    method Grow(n: nat)
      requires Valid()
      modifies this`data
      ensures Valid() && data.Length >= n && data[..size] == old(data[..size]) && (data == old(data) || fresh(data))
    {
      if n > data.Length {
        var alloc := data.Length;
        while n > alloc
          invariant alloc >= 1 && alloc >= data.Length
        {
          alloc := alloc * 2;
        }
        var bigger := new byte[alloc];
        forall i | 0 <= i < size {
          bigger[i] := data[i];
        }
        data := bigger;
      }
    }

    /** Appends bytes that are neither names nor references. */
    method SegData(more: seq<byte>)
      requires Valid()
      modifies this, data
      ensures Valid() && (data == old(data) || fresh(data)) && size == old(size) + |more|
      ensures data[..size] == old(data[..size]) + more
      ensures items == old(items) + AsItems(more) && syms == old(syms) && relocs == old(relocs)
      ensures forall t: map<Name, Symbol> :: old(Holds(t)) ==> Holds(t)
    {
      ghost var before := View();
      Grow(size + |more|);
      ghost var was := data[..size];
      forall i | 0 <= i < |more| {
        data[size + i] := more[i];
      }
      size := size + |more|;
      assert data[..size] == was + more;
      items := items + AsItems(more);
      forall t: map<Name, Symbol> | Represents(before, t, old(items)) ensures Represents(View(), t, items) {
        AppendPlain(before, t, old(items), more);
      }
    }

    method SegSkip(n: nat)
      requires Valid()
      modifies this, data
      ensures Valid() && (data == old(data) || fresh(data)) && size == old(size) + n
      ensures items == old(items) + Zeros(n) && syms == old(syms) && relocs == old(relocs)
      ensures forall t: map<Name, Symbol> :: old(Holds(t)) ==> Holds(t)
    {
      ZerosPlain(n);
      SegData(seq(n, i => 0));
    }

    /** Advances to the next multiple of 2^log, filling with zeros. */
    method SegAlign(log: nat)
      requires Valid()
      modifies this, data
      ensures Valid() && (data == old(data) || fresh(data)) && size == AlignUp(old(size), log)
      ensures items == old(items) + Zeros(AlignUp(old(size), log) - old(size)) && syms == old(syms) && relocs == old(relocs)
      ensures forall t: map<Name, Symbol> :: old(Holds(t)) ==> Holds(t)
    {
      AlignUpIs(size, log);
      SegSkip(AlignUp(size, log) - size);
    }

    /** Defines the name as the current place, unless it is defined already. */
    method SegDefsym(table: SymbolTable, name: Name) returns (ok: bool)
      requires Holds(table.syms)
      modifies this`syms, this`items, table
      ensures Holds(table.syms) && ok == Undefined(old(table.syms), name)
      ensures items == if ok then old(items) + [Label(name)] else old(items)
      ensures syms == if ok then [name] + old(syms) else old(syms)
      ensures var sym := if name in old(table.syms) then old(table.syms)[name] else NEW_SYMBOL;
        table.syms == if ok then old(table.syms)[name := Symbol(true, sym.global, sym.common, size)] else old(table.syms)
    {
      ghost var was, before := table.syms, View();
      var sym := table.Lookup(name);
      if sym.defined {
        return false;
      }
      table.syms := table.syms[name := sym.(defined := true, val := size)];
      syms := [name] + syms;
      items := items + [Label(name)];
      DefineKeeps(before, was, old(items), name, table.syms[name]);
      assert table.syms == was[name := table.syms[name]];
      ok := true;
    }

    /** Appends a reference to the name, with an addend. */
    method SegRefsym(table: SymbolTable, name: Name, addend: int32)
      requires Holds(table.syms)
      modifies this, data, table
      ensures Holds(table.syms) && (data == old(data) || fresh(data)) && size == old(size) + INT_SIZE
      ensures items == old(items) + [Ref(name, addend)] && syms == old(syms)
      ensures name in table.syms && table.syms == if name in old(table.syms) then old(table.syms) else old(table.syms)[name := NEW_SYMBOL]
    {
      ghost var was, before := table.syms, View();
      var sym := table.Lookup(name);
      assert name in syms ==> name in was by { ListedInTable(before, was, items); }
      Undisturbed(before, was, table.syms, items);
      var segreloc := Reloc(size, name);
      SegData(Encode(addend));
      relocs := [segreloc] + relocs;
      items := old(items) + [Ref(name, addend)];
      ReferKeeps(before, table.syms, old(items), name, addend);
    }

    /** Appends another segment, which must not be used afterwards. */
    method SegConcat(table: SymbolTable, seg: Segment, log: nat)
      requires Holds(table.syms) && seg.Holds(table.syms) && seg != this && seg.data != data
      requires forall n :: n in seg.syms ==> n !in syms
      modifies this, data, table
      ensures Holds(table.syms) && (data == old(data) || fresh(data))
      ensures items == old(items) + Zeros(AlignUp(old(size), log) - old(size)) + old(seg.items)
      ensures syms == old(seg.syms) + old(syms)
      ensures size == AlignUp(old(size), log) + old(seg.size)
      ensures table.syms == MoveSyms(old(table.syms), old(seg.syms), AlignUp(old(size), log))
    {
      SegAlign(log);
      var fix := size;
      ghost var before, more := View(), seg.View();
      ghost var was, first := table.syms, items;
      SegData(seg.data[..seg.size]);
      MoveValues(table, seg.syms, fix);
      var segrelocs := MovedReferences(seg.relocs, fix);
      syms := seg.syms + syms;
      relocs := segrelocs + relocs;
      items := first + seg.items;
      ConcatKeeps(before, more, was, first, seg.items);
    }

    /** Adds to the value of each symbol of a list. */
    method MoveValues(table: SymbolTable, names: seq<Name>, fix: nat)
      requires Distinct(names) && forall k :: 0 <= k < |names| ==> names[k] in table.syms
      modifies table
      ensures table.syms == MoveSyms(old(table.syms), names, fix)
    {
      ghost var was := table.syms;
      var k := 0;
      assert MoveSyms(was, names[..0], fix) == was;
      while k < |names|
        invariant k <= |names| && table.syms == MoveSyms(was, names[..k], fix)
      {
        var sym := table.syms[names[k]];
        table.syms := table.syms[names[k] := sym.(val := sym.val + fix)];
        assert names[..k + 1] == names[..k] + [names[k]];
        k := k + 1;
      }
      assert names[..k] == names;
    }

    /** Writes the names whose value is the current offset. */
    method WriteNames(table: SymbolTable, i: nat, names: seq<Name>, ghost refs: seq<Reloc>, ghost rest: seq<Item>)
      returns (out: seq<Item>, left: seq<Name>, ghost after: seq<Item>)
      requires Pending(table.syms, rest, i, names, refs)
      ensures rest == out + after && Bytes(rest) == Bytes(after) && Pending(table.syms, after, i, left, refs)
      ensures !(left != [] && table.syms[left[0]].val == i)
    {
      out, left, after := [], names, rest;
      while left != [] && table.syms[left[0]].val == i
        invariant rest == out + after && Bytes(rest) == Bytes(after) && Pending(table.syms, after, i, left, refs)
        invariant forall k :: 0 <= k < |left| ==> left[k] in table.syms
        decreases |left|
      {
        PassLabel(table.syms, after, i, left, refs);
        out := out + [Label(left[0])];
        assert after == [after[0]] + after[1..];
        left, after := left[1..], after[1..];
      }
    }

    /** Writes the reference or the byte at the current offset. */
    method WriteDatum(table: SymbolTable, i: nat, ghost names: seq<Name>, refs: seq<Reloc>, ghost rest: seq<Item>)
      returns (item: Item, next: nat, left: seq<Reloc>)
      requires Valid() && i < size && data[i..size] == Bytes(rest) && Pending(table.syms, rest, i, names, refs)
      requires !(names != [] && table.syms[names[0]].val == i)
      ensures i < next <= size && rest != [] && item == rest[0] && !item.Label? && data[next..size] == Bytes(rest[1..])
      ensures Pending(table.syms, rest[1..], next, names, left)
    {
      PassData(table.syms, rest, i, names, refs);
      hide Pending, Bytes;
      assert data[i..size] == ItemBytes(rest[0]) + Bytes(rest[1..]);
      next, left := i, refs;
      if refs != [] && refs[0].offset == i {
        assert |ItemBytes(rest[0])| == INT_SIZE;
        assert data[i..i + INT_SIZE] == data[i..size][..INT_SIZE] == ItemBytes(rest[0]);
        assert data[i + INT_SIZE..size] == data[i..size][INT_SIZE..] == Bytes(rest[1..]);
        DecodeEncode(rest[0].addend);
        var offset := Decode(data[i..i + INT_SIZE]);
        next := next + INT_SIZE - 1;
        item := Ref(refs[0].name, offset);
        left := refs[1..];
      } else {
        assert data[i] == data[i..size][0] == ItemBytes(rest[0])[0];
        assert data[i + 1..size] == data[i..size][1..] == Bytes(rest[1..]);
        item := Byte(data[i]);
      }
      next := next + 1;
    }

    /** Writes the segment in one pass. `aborts` when a name or reference was not visited. */
    method SegWrite(table: SymbolTable) returns (out: seq<Item>, aborts: bool)
      requires Holds(table.syms)
      ensures aborts <==> EndsInLabel(items)
      ensures !aborts ==> out == items
    {
      var segsyms := Reverse(syms);
      var segrelocs := Reverse(relocs);
      ghost var rest := items;
      out := [];
      var i := 0;
      StartPending(View(), table.syms, items, segsyms, segrelocs);
      while i < size
        invariant items == out + rest && i <= size && data[i..size] == Bytes(rest)
        invariant Pending(table.syms, rest, i, segsyms, segrelocs)
        invariant !EndsInLabel(out) && Valid() && forall k :: 0 <= k < |segsyms| ==> segsyms[k] in table.syms
        decreases size - i
      {
        var names;
        names, segsyms, rest := WriteNames(table, i, segsyms, segrelocs, rest);
        out := out + names;
        var item;
        item, i, segrelocs := WriteDatum(table, i, segsyms, segrelocs, rest);
        assert rest == [item] + rest[1..];
        out, rest := out + [item], rest[1..];
      }
      AllPassed(table.syms, items, out, rest, i, segsyms, segrelocs);
      aborts := segsyms != [] || segrelocs != [];
    }

    method MovedReferences(rs: seq<Reloc>, fix: nat) returns (moved: seq<Reloc>)
      ensures moved == MoveRelocs(rs, fix)
    {
      moved := [];
      while |moved| < |rs|
        invariant |moved| <= |rs| && moved == MoveRelocs(rs[..|moved|], fix)
      {
        var r := rs[|moved|];
        moved := moved + [Reloc(r.offset + fix, r.name)];
      }
      assert rs[..|moved|] == rs;
    }
  }

  // ----- Writing -----

  predicate EndsInLabel(items: seq<Item>) {
    items != [] && items[|items| - 1].Label?
  }

  method Reverse<T>(s: seq<T>) returns (r: seq<T>)
    ensures |r| == |s| && forall k :: 0 <= k < |s| ==> r[k] == s[|s| - 1 - k]
  {
    r := [];
    var k := 0;
    while k < |s|
      invariant k <= |s| && |r| == k && forall j :: 0 <= j < k ==> r[j] == s[k - 1 - j]
    {
      r := [s[k]] + r;
      k := k + 1;
    }
  }

  /** The names and references of a stream, first ones first. */
  function LabelsUp(items: seq<Item>, at: nat): seq<(Name, nat)> {
    if items == [] then []
    else (if items[0].Label? then [(items[0].name, at)] else []) + LabelsUp(items[1..], at + |ItemBytes(items[0])|)
  }

  function RelocsUp(items: seq<Item>, at: nat): seq<Reloc> {
    if items == [] then []
    else (if items[0].Ref? then [Reloc(at, items[0].name)] else []) + RelocsUp(items[1..], at + |ItemBytes(items[0])|)
  }

  lemma {:induction false} LabelsReversed(items: seq<Item>, at: nat)
    ensures |LabelsUp(items, at)| == |Labels(items, at)|
    ensures forall k :: 0 <= k < |Labels(items, at)| ==> Labels(items, at)[k] == LabelsUp(items, at)[|Labels(items, at)| - 1 - k]
  {
    if items != [] {
      LabelsReversed(items[1..], at + |ItemBytes(items[0])|);
    }
  }

  lemma {:induction false} RelocsReversed(items: seq<Item>, at: nat)
    ensures |RelocsUp(items, at)| == |Relocs(items, at)|
    ensures forall k :: 0 <= k < |Relocs(items, at)| ==> Relocs(items, at)[k] == RelocsUp(items, at)[|Relocs(items, at)| - 1 - k]
  {
    if items != [] {
      RelocsReversed(items[1..], at + |ItemBytes(items[0])|);
    }
  }

  /** The names and references still to be written are those of the rest of the stream. */
  predicate Pending(table: map<Name, Symbol>, rest: seq<Item>, at: nat, names: seq<Name>, refs: seq<Reloc>) {
    Listed(table, names, LabelsUp(rest, at)) && refs == RelocsUp(rest, at)
  }

  lemma {:induction false} StartPending(seg: Seg, table: map<Name, Symbol>, items: seq<Item>, names: seq<Name>, refs: seq<Reloc>)
    requires Represents(seg, table, items)
    requires |names| == |seg.syms| && forall k :: 0 <= k < |names| ==> names[k] == seg.syms[|names| - 1 - k]
    requires |refs| == |seg.relocs| && forall k :: 0 <= k < |refs| ==> refs[k] == seg.relocs[|refs| - 1 - k]
    ensures Pending(table, items, 0, names, refs)
  {
    LabelsReversed(items, 0);
    RelocsReversed(items, 0);
    hide Bytes, Labels, Relocs, LabelsUp, RelocsUp;
    var l, u := Labels(items, 0), LabelsUp(items, 0);
    forall k | 0 <= k < |names| ensures names[k] == u[k].0 && DefinedAt(table, names[k], u[k].1) {
      assert seg.syms[|names| - 1 - k] == l[|names| - 1 - k].0;
    }
  }

  lemma {:induction false} UpFrom(rest: seq<Item>, at: nat)
    ensures LabelsUp(rest, at) != [] ==> LabelsUp(rest, at)[0].1 >= at
    ensures RelocsUp(rest, at) != [] ==> RelocsUp(rest, at)[0].offset >= at
  {
    if rest != [] {
      UpFrom(rest[1..], at + |ItemBytes(rest[0])|);
    }
  }

  lemma {:induction false} HeadsUp(rest: seq<Item>, at: nat)
    ensures rest == [] ==> LabelsUp(rest, at) == [] && RelocsUp(rest, at) == [] && Bytes(rest) == []
    ensures rest != [] ==>
      var next := at + |ItemBytes(rest[0])|;
      && LabelsUp(rest, at) == (if rest[0].Label? then [(rest[0].name, at)] else []) + LabelsUp(rest[1..], next)
      && RelocsUp(rest, at) == (if rest[0].Ref? then [Reloc(at, rest[0].name)] else []) + RelocsUp(rest[1..], next)
      && Bytes(rest) == ItemBytes(rest[0]) + Bytes(rest[1..])
      && (LabelsUp(rest[1..], next) != [] ==> LabelsUp(rest[1..], next)[0].1 >= next)
      && (RelocsUp(rest[1..], next) != [] ==> RelocsUp(rest[1..], next)[0].offset >= next)
  {
    if rest != [] {
      UpFrom(rest[1..], at + |ItemBytes(rest[0])|);
    }
    hide Encode;
  }

  lemma {:induction false} ListedHead(table: map<Name, Symbol>, names: seq<Name>, l: seq<(Name, nat)>)
    requires Listed(table, names, l)
    ensures names == [] <==> l == []
    ensures names != [] ==> names[0] == l[0].0 && names[0] in table && table[names[0]].val == l[0].1 && Listed(table, names[1..], l[1..])
  {
  }

  /** A pending name at the current offset is the next item. */
  lemma {:induction false} PassLabel(table: map<Name, Symbol>, rest: seq<Item>, at: nat, names: seq<Name>, refs: seq<Reloc>)
    requires Pending(table, rest, at, names, refs) && names != [] && table[names[0]].val == at
    ensures rest != [] && rest[0] == Label(names[0]) && Pending(table, rest[1..], at, names[1..], refs)
    ensures Bytes(rest) == Bytes(rest[1..])
  {
    HeadsUp(rest, at);
    hide LabelsUp, RelocsUp, Bytes, Encode;
    ListedHead(table, names, LabelsUp(rest, at));
    hide Listed;
    assert rest != [];
    var more := LabelsUp(rest[1..], at + |ItemBytes(rest[0])|);
    assert rest[0].Label? ==> ([(rest[0].name, at)] + more)[1..] == more;
    assert [] + RelocsUp(rest[1..], at) == RelocsUp(rest[1..], at) && [] + Bytes(rest[1..]) == Bytes(rest[1..]);
  }

  /** When no name is pending at the current offset the next item is a byte, or the pending reference. */
  lemma {:induction false} PassData(table: map<Name, Symbol>, rest: seq<Item>, at: nat, names: seq<Name>, refs: seq<Reloc>)
    requires Pending(table, rest, at, names, refs) && !(names != [] && table[names[0]].val == at) && |Bytes(rest)| > 0
    ensures rest != [] && !rest[0].Label? && Bytes(rest) == ItemBytes(rest[0]) + Bytes(rest[1..])
    ensures rest[0].Ref? <==> refs != [] && refs[0].offset == at
    ensures rest[0].Ref? ==> refs[0].name == rest[0].name
    ensures Pending(table, rest[1..], at + |ItemBytes(rest[0])|, names, if rest[0].Ref? then refs[1..] else refs)
  {
    HeadsUp(rest, at);
    hide LabelsUp, RelocsUp, Bytes, Encode;
    ListedHead(table, names, LabelsUp(rest, at));
    hide Listed;
    var next: nat := at + |ItemBytes(rest[0])|;
    assert [] + LabelsUp(rest[1..], next) == LabelsUp(rest[1..], next);
    var more := RelocsUp(rest[1..], next);
    assert [] + more == more;
    assert rest[0].Ref? ==> ([Reloc(at, rest[0].name)] + more)[1..] == more;
  }

  /** What is left when the bytes are used up is names only. */
  lemma {:induction false} OnlyLabels(rest: seq<Item>, at: nat)
    requires Bytes(rest) == []
    ensures |LabelsUp(rest, at)| == |rest| && RelocsUp(rest, at) == [] && forall k :: 0 <= k < |rest| ==> rest[k].Label?
  {
    if rest != [] {
      OnlyLabels(rest[1..], at);
    }
  }

  lemma {:induction false} AllPassed(table: map<Name, Symbol>, items: seq<Item>, done: seq<Item>, rest: seq<Item>, at: nat, names: seq<Name>, refs: seq<Reloc>)
    requires items == done + rest && !EndsInLabel(done) && Bytes(rest) == [] && Pending(table, rest, at, names, refs)
    ensures refs == [] && (names != [] <==> EndsInLabel(items)) && (names == [] ==> done == items)
  {
    OnlyLabels(rest, at);
    if rest == [] {
      assert items == done;
    } else {
      assert items[|items| - 1] == rest[|rest| - 1];
    }
  }

  lemma {:induction false} ListedInTable(seg: Seg, table: map<Name, Symbol>, items: seq<Item>)
    requires Represents(seg, table, items)
    ensures forall n :: n in seg.syms ==> n in table && table[n].defined
  {
    hide Bytes, Labels, Relocs;
  }
}
