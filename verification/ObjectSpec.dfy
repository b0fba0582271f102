/** Segments of an object file (bc-emit.c): a segment is a stream of bytes, names and references,
    kept as a byte buffer with lists of the offsets of the names and references. */
module ObjectSpec {
  import opened IntegerTypes

  type byte = x: int | 0 <= x < 256
  type int32 = x: int | -0x8000_0000 <= x < 0x8000_0000
  type Name = string

  /** sizeof (int), which is also sizeof (char *). */
  const INT_SIZE := 4

  datatype Symbol = Symbol(defined: bool, global: bool, common: bool, val: nat)
  datatype Reloc = Reloc(offset: nat, name: Name)

  const NEW_SYMBOL := Symbol(false, false, false, 0)

  /** A piece of a segment: a byte, a name for the place, or a reference to a name plus an addend. */
  datatype Item = Byte(b: byte) | Label(name: Name) | Ref(name: Name, addend: int32)

  // ----- Integers in memory -----

  function Encode(x: int): (s: seq<byte>)
    ensures |s| == INT_SIZE
  {
    [x % 256, x / 0x100 % 256, x / 0x1_0000 % 256, x / 0x100_0000 % 256]
  }

  function Decode(s: seq<byte>): int32
    requires |s| == INT_SIZE
  {
    var u: int := (s[0] as int) + 0x100 * (s[1] as int) + 0x1_0000 * (s[2] as int) + 0x100_0000 * (s[3] as int);
    if u < 0x8000_0000 then u else u - 0x1_0000_0000
  }

  lemma {:induction false} DecodeEncode(x: int32)
    ensures Decode(Encode(x)) == x
  {
    var a, b, c := x / 0x100, x / 0x1_0000, x / 0x100_0000;
    assert b == a / 0x100 && c == b / 0x100;
    assert c % 256 == if c < 0 then c + 256 else c;
  }

  // ----- What a stream is in memory -----

  function ItemBytes(i: Item): seq<byte> {
    match i
    case Byte(b) => [b]
    case Label(_) => []
    case Ref(_, addend) => Encode(addend)
  }

  function Bytes(items: seq<Item>): seq<byte> {
    if items == [] then [] else ItemBytes(items[0]) + Bytes(items[1..])
  }

  /** The names in a stream that starts at a given offset, each with its offset, last first. */
  function Labels(items: seq<Item>, at: nat): seq<(Name, nat)> {
    if items == [] then []
    else Labels(items[1..], at + |ItemBytes(items[0])|) + if items[0].Label? then [(items[0].name, at)] else []
  }

  /** The references, last first. */
  function Relocs(items: seq<Item>, at: nat): seq<Reloc> {
    if items == [] then []
    else Relocs(items[1..], at + |ItemBytes(items[0])|) + if items[0].Ref? then [Reloc(at, items[0].name)] else []
  }

  /** A segment: `syms` and `relocs` have the most recent first, the values of symbols are in the table. */
  datatype Seg = Seg(bytes: seq<byte>, syms: seq<Name>, relocs: seq<Reloc>)

  predicate DefinedAt(table: map<Name, Symbol>, name: Name, val: nat) {
    name in table && table[name].defined && table[name].val == val
  }

  predicate Listed(table: map<Name, Symbol>, syms: seq<Name>, labels: seq<(Name, nat)>) {
    |syms| == |labels| && forall k :: 0 <= k < |syms| ==> syms[k] == labels[k].0 && DefinedAt(table, syms[k], labels[k].1)
  }

  predicate Distinct(names: seq<Name>) {
    forall j, k :: 0 <= j < k < |names| ==> names[j] != names[k]
  }

  /** The buffer and lists are those of the stream: every name's value and every reference's offset
      is where the stream has it. */
  predicate Represents(seg: Seg, table: map<Name, Symbol>, items: seq<Item>) {
    && seg.bytes == Bytes(items)
    && Listed(table, seg.syms, Labels(items, 0)) && Distinct(seg.syms)
    && seg.relocs == Relocs(items, 0)
  }

  // ----- Streams put together -----

  lemma {:induction false} BytesAppend(a: seq<Item>, b: seq<Item>)
    ensures Bytes(a + b) == Bytes(a) + Bytes(b)
  {
    if a == [] {
      assert a + b == b;
    } else {
      assert (a + b)[1..] == a[1..] + b;
      BytesAppend(a[1..], b);
    }
  }

  lemma {:induction false} LabelsAppend(a: seq<Item>, b: seq<Item>, at: nat)
    ensures Labels(a + b, at) == Labels(b, at + |Bytes(a)|) + Labels(a, at)
  {
    if a == [] {
      assert a + b == b;
    } else {
      assert (a + b)[1..] == a[1..] + b;
      LabelsAppend(a[1..], b, at + |ItemBytes(a[0])|);
    }
  }

  lemma {:induction false} RelocsAppend(a: seq<Item>, b: seq<Item>, at: nat)
    ensures Relocs(a + b, at) == Relocs(b, at + |Bytes(a)|) + Relocs(a, at)
  {
    if a == [] {
      assert a + b == b;
    } else {
      assert (a + b)[1..] == a[1..] + b;
      RelocsAppend(a[1..], b, at + |ItemBytes(a[0])|);
    }
  }

  lemma {:induction false} Appended(a: seq<Item>, b: seq<Item>)
    ensures Bytes(a + b) == Bytes(a) + Bytes(b)
    ensures Labels(a + b, 0) == Labels(b, |Bytes(a)|) + Labels(a, 0)
    ensures Relocs(a + b, 0) == Relocs(b, |Bytes(a)|) + Relocs(a, 0)
  {
    BytesAppend(a, b);
    LabelsAppend(a, b, 0);
    RelocsAppend(a, b, 0);
  }

  function MoveLabels(labels: seq<(Name, nat)>, fix: nat): seq<(Name, nat)> {
    seq(|labels|, k requires 0 <= k < |labels| => (labels[k].0, labels[k].1 + fix))
  }

  function MoveRelocs(relocs: seq<Reloc>, fix: nat): seq<Reloc> {
    seq(|relocs|, k requires 0 <= k < |relocs| => Reloc(relocs[k].offset + fix, relocs[k].name))
  }

  lemma {:induction false} MovedLabels(items: seq<Item>, at: nat, fix: nat)
    ensures Labels(items, at + fix) == MoveLabels(Labels(items, at), fix)
  {
    if items != [] {
      var next: nat := at + |ItemBytes(items[0])|;
      assert at + fix + |ItemBytes(items[0])| == next + fix;
      MovedLabels(items[1..], next, fix);
    }
  }

  lemma {:induction false} MovedRelocs(items: seq<Item>, at: nat, fix: nat)
    ensures Relocs(items, at + fix) == MoveRelocs(Relocs(items, at), fix)
  {
    if items != [] {
      var next: nat := at + |ItemBytes(items[0])|;
      assert at + fix + |ItemBytes(items[0])| == next + fix;
      MovedRelocs(items[1..], next, fix);
    }
  }

  /** A stream further on has its names and references that much further on. */
  lemma {:induction false} Moved(items: seq<Item>, at: nat, fix: nat)
    ensures Labels(items, at + fix) == MoveLabels(Labels(items, at), fix)
    ensures Relocs(items, at + fix) == MoveRelocs(Relocs(items, at), fix)
  {
    MovedLabels(items, at, fix);
    MovedRelocs(items, at, fix);
  }

  // ----- Alignment -----

  /** size + (1 << log) - 1 & ~((1 << log) - 1) */
  function AlignUp(size: nat, log: nat): (n: nat)
    ensures n >= size
  {
    size + Pow2(log) - 1 - (size + Pow2(log) - 1) % Pow2(log)
  }

  /** The next multiple of the alignment. */
  lemma {:induction false} AlignUpIs(size: nat, log: nat)
    ensures AlignUp(size, log) % Pow2(log) == 0 && size <= AlignUp(size, log) < size + Pow2(log)
    ensures size % Pow2(log) == 0 ==> AlignUp(size, log) == size
  {
    var m := Pow2(log);
    var x := size + m - 1;
    assert x == (x / m) * m + x % m;
    ModUnique((x / m) * m, m, x / m, 0);
    if size % m == 0 {
      assert size == (size / m) * m;
      ModUnique(x, m, size / m, m - 1);
    }
  }

  function Zeros(n: nat): seq<Item> {
    if n == 0 then [] else [Byte(0)] + Zeros(n - 1)
  }

  function AsItems(data: seq<byte>): seq<Item> {
    if data == [] then [] else [Byte(data[0])] + AsItems(data[1..])
  }

  lemma {:induction false} AsItemsPlain(data: seq<byte>, at: nat)
    ensures Bytes(AsItems(data)) == data && Labels(AsItems(data), at) == [] && Relocs(AsItems(data), at) == []
    ensures |AsItems(data)| == |data|
  {
    if data != [] {
      assert AsItems(data)[1..] == AsItems(data[1..]);
      AsItemsPlain(data[1..], at + 1);
    }
  }

  lemma {:induction false} ZerosPlain(n: nat)
    ensures Zeros(n) == AsItems(seq(n, i => 0))
  {
    if n > 0 {
      var z: seq<byte> := seq(n, i => 0);
      assert z[1..] == seq(n - 1, i => 0);
      ZerosPlain(n - 1);
    }
  }

  // ----- What each operation does to the lists -----

  lemma {:induction false} AppendPlain(seg: Seg, table: map<Name, Symbol>, items: seq<Item>, data: seq<byte>)
    requires Represents(seg, table, items)
    ensures Represents(seg.(bytes := seg.bytes + data), table, items + AsItems(data))
  {
    AsItemsPlain(data, |Bytes(items)|);
    Appended(items, AsItems(data));
    hide Bytes, Labels, Relocs, AsItems, Listed, Distinct;
    assert [] + Labels(items, 0) == Labels(items, 0) && [] + Relocs(items, 0) == Relocs(items, 0);
  }

  lemma {:induction false} ListedMore(table: map<Name, Symbol>, syms: seq<Name>, labels: seq<(Name, nat)>, name: Name, s: Symbol)
    requires Listed(table, syms, labels) && Distinct(syms) && name !in syms && s.defined
    ensures Listed(table[name := s], [name] + syms, [(name, s.val)] + labels) && Distinct([name] + syms)
  {
  }

  lemma {:induction false} UndefinedUnlisted(table: map<Name, Symbol>, syms: seq<Name>, labels: seq<(Name, nat)>, name: Name)
    requires Listed(table, syms, labels) && (name in table ==> !table[name].defined)
    ensures name !in syms
  {
  }

  lemma {:induction false} DefineKeeps(seg: Seg, table: map<Name, Symbol>, items: seq<Item>, name: Name, s: Symbol)
    requires Represents(seg, table, items) && (name in table ==> !table[name].defined)
    requires s.defined && s.val == |seg.bytes|
    ensures Represents(seg.(syms := [name] + seg.syms), table[name := s], items + [Label(name)])
  {
    Appended(items, [Label(name)]);
    assert [Label(name)][1..] == [];
    assert Bytes([Label(name)]) == [] && Labels([Label(name)], s.val) == [(name, s.val)] && Relocs([Label(name)], s.val) == [];
    hide Bytes, Labels, Relocs;
    UndefinedUnlisted(table, seg.syms, Labels(items, 0), name);
    ListedMore(table, seg.syms, Labels(items, 0), name, s);
    hide Listed, Distinct, DefinedAt;
    assert [] + Relocs(items, 0) == Relocs(items, 0) && Bytes(items) + [] == Bytes(items);
  }

  /** Symbols a segment does not define may change. */
  lemma {:induction false} Undisturbed(seg: Seg, table: map<Name, Symbol>, table': map<Name, Symbol>, items: seq<Item>)
    requires Represents(seg, table, items)
    requires forall n :: n in seg.syms && n in table ==> n in table' && table'[n] == table[n]
    ensures Represents(seg, table', items)
  {
    hide Bytes, Labels, Relocs;
  }

  lemma {:induction false} ReferKeeps(seg: Seg, table: map<Name, Symbol>, items: seq<Item>, name: Name, addend: int32)
    requires Represents(seg, table, items)
    ensures Represents(Seg(seg.bytes + Encode(addend), seg.syms, [Reloc(|seg.bytes|, name)] + seg.relocs), table, items + [Ref(name, addend)])
  {
    var more, n := [Ref(name, addend)], |seg.bytes|;
    Appended(items, more);
    assert more[1..] == [];
    assert Bytes(more) == Encode(addend) && Labels(more, n) == [] && Relocs(more, n) == [Reloc(n, name)];
    hide Bytes, Labels, Relocs, Listed, Distinct;
    assert [] + Labels(items, 0) == Labels(items, 0);
  }

  /** The table after every symbol of a list has been moved. */
  function MoveSyms(table: map<Name, Symbol>, syms: seq<Name>, fix: nat): map<Name, Symbol> {
    map n | n in table :: if n in syms then table[n].(val := table[n].val + fix) else table[n]
  }

  lemma {:induction false} ListedMoved(table: map<Name, Symbol>, syms: seq<Name>, labels: seq<(Name, nat)>, fix: nat)
    requires Listed(table, syms, labels)
    ensures Listed(MoveSyms(table, syms, fix), syms, MoveLabels(labels, fix))
  {
  }

  lemma {:induction false} ListedBoth(table: map<Name, Symbol>, s: seq<Name>, l: seq<(Name, nat)>, s': seq<Name>, l': seq<(Name, nat)>)
    requires Listed(table, s, l) && Listed(table, s', l') && Distinct(s) && Distinct(s') && forall n :: n in s ==> n !in s'
    ensures Listed(table, s + s', l + l') && Distinct(s + s')
  {
    forall j, k | 0 <= j < k < |s + s'| ensures (s + s')[j] != (s + s')[k] {
      assert j < |s| ==> (s + s')[j] in s;
      assert k >= |s| ==> (s + s')[k] in s';
    }
  }

  /** Appending a segment moves its names and references by the size of what is before. */
  lemma {:induction false} ConcatKeeps(a: Seg, b: Seg, table: map<Name, Symbol>, items: seq<Item>, more: seq<Item>)
    requires Represents(a, table, items) && Represents(b, table, more) && forall n :: n in b.syms ==> n !in a.syms
    ensures var fix := |a.bytes|;
      Represents(Seg(a.bytes + b.bytes, b.syms + a.syms, MoveRelocs(b.relocs, fix) + a.relocs), MoveSyms(table, b.syms, fix), items + more)
  {
    var fix := |a.bytes|;
    Appended(items, more);
    Moved(more, 0, fix);
    hide Bytes, Labels, Relocs;
    Undisturbed(a, table, MoveSyms(table, b.syms, fix), items);
    ListedMoved(table, b.syms, Labels(more, 0), fix);
    ListedBoth(MoveSyms(table, b.syms, fix), b.syms, MoveLabels(Labels(more, 0), fix), a.syms, Labels(items, 0));
    hide Listed, Distinct, MoveSyms, MoveLabels, MoveRelocs;
  }

  // ----- What is always so -----

  predicate LabelsDescend(l: seq<(Name, nat)>, lo: nat, hi: nat) {
    (forall k :: 0 <= k < |l| ==> lo <= l[k].1 <= hi) && forall j, k :: 0 <= j < k < |l| ==> l[j].1 >= l[k].1
  }

  predicate RelocsDescend(r: seq<Reloc>, lo: nat, hi: nat) {
    (forall k :: 0 <= k < |r| ==> lo <= r[k].offset && r[k].offset + INT_SIZE <= hi) &&
    forall j, k :: 0 <= j < k < |r| ==> r[j].offset >= r[k].offset + INT_SIZE
  }

  predicate Outside(l: (Name, nat), r: Reloc) {
    l.1 <= r.offset || l.1 >= r.offset + INT_SIZE
  }

  lemma {:induction false} LabelsOrdered(items: seq<Item>, at: nat)
    ensures LabelsDescend(Labels(items, at), at, at + |Bytes(items)|)
  {
    if items != [] {
      var next: nat := at + |ItemBytes(items[0])|;
      var hi := next + |Bytes(items[1..])|;
      assert hi == at + |Bytes(items)|;
      LabelsOrdered(items[1..], next);
      LabelsDescendMore(Labels(items[1..], next), next, hi, at, items[0]);
      hide LabelsDescend;
    }
  }

  lemma {:induction false} LabelsDescendMore(l: seq<(Name, nat)>, lo: nat, hi: nat, at: nat, i: Item)
    requires LabelsDescend(l, lo, hi) && at + |ItemBytes(i)| == lo <= hi
    ensures LabelsDescend(l + if i.Label? then [(i.name, at)] else [], at, hi)
  {
  }

  lemma {:induction false} RelocsOrdered(items: seq<Item>, at: nat)
    ensures RelocsDescend(Relocs(items, at), at, at + |Bytes(items)|)
  {
    if items != [] {
      var next: nat := at + |ItemBytes(items[0])|;
      var hi := next + |Bytes(items[1..])|;
      assert hi == at + |Bytes(items)|;
      RelocsOrdered(items[1..], next);
      RelocsDescendMore(Relocs(items[1..], next), next, hi, at, items[0]);
      hide RelocsDescend;
    }
  }

  lemma {:induction false} RelocsDescendMore(r: seq<Reloc>, lo: nat, hi: nat, at: nat, i: Item)
    requires RelocsDescend(r, lo, hi) && at + |ItemBytes(i)| == lo <= hi
    ensures RelocsDescend(r + if i.Ref? then [Reloc(at, i.name)] else [], at, hi)
  {
  }

  lemma {:induction false} LabelsOutside(items: seq<Item>, at: nat, j: nat, k: nat)
    requires j < |Labels(items, at)| && k < |Relocs(items, at)|
    ensures Outside(Labels(items, at)[j], Relocs(items, at)[k])
  {
    var next: nat := at + |ItemBytes(items[0])|;
    LabelsOrdered(items[1..], next);
    RelocsOrdered(items[1..], next);
    if j < |Labels(items[1..], next)| && k < |Relocs(items[1..], next)| {
      LabelsOutside(items[1..], next, j, k);
    }
  }

  /** In every segment built, names and references come in descending order of offset, references do
      not overlap, and no name is inside one. */
  lemma {:induction false} SegmentOrdered(seg: Seg, table: map<Name, Symbol>, items: seq<Item>, j: nat, k: nat)
    requires Represents(seg, table, items) && j < |seg.syms| && k < |seg.relocs|
    ensures RelocsDescend(seg.relocs, 0, |seg.bytes|)
    ensures table[seg.syms[j]].val <= |seg.bytes| && forall i :: j <= i < |seg.syms| ==> table[seg.syms[j]].val >= table[seg.syms[i]].val
    ensures Outside((seg.syms[j], table[seg.syms[j]].val), seg.relocs[k])
  {
    hide Bytes, Labels, Relocs;
    LabelsOrdered(items, 0);
    RelocsOrdered(items, 0);
    LabelsOutside(items, 0, j, k);
  }
}
