/**
  The second half of bp_cpio_pack: sorting, writing, verifying. What it puts in
  place depends on the source alone, and extracting it gives the source back.
*/
module Packer {
  import opened CStrings
  import opened Archive
  import opened FileTree
  import opened Packing
  import Newc
  import Sorting
  import SourceCheck
  import Verifier

  // ----- Sorting

  /** The paths behind a sorted list of items. */
  ghost function PathsOf(items: seq<Verifier.PathItem>): (paths: seq<Path>)
    ensures |paths| == |items|
  {
    seq(|items|, i requires 0 <= i < |items| => RouteOf(items[i].path).path)
  }

  lemma {:induction false} ItemHasPath(s: Source, kept: seq<Path>, item: Verifier.PathItem) returns (q: Path)
    requires Valid(s) && item in ItemsAt(s, kept) && forall q :: q in kept ==> q in s.nodes && q != []
    ensures q in kept && item == ItemAt(s, q) && RouteOf(item.path) == Route(q, false)
  {
    ItemsAtIndex(s, kept);
    var i :| 0 <= i < |kept| && ItemsAt(s, kept)[i] == item;
    q := kept[i];
    NodesHaveFileNames(s, q);
    RouteOfName(q);
  }

  /** The list that the writer goes through: the items of the canonical paths. */
  ghost predicate Sorted(s: Source, items: seq<Verifier.PathItem>, paths: seq<Path>) {
    Canonical(s, paths) && items == ItemsAt(s, paths)
  }

  lemma {:induction false} SortedAreKept(s: Source, kept: seq<Path>, sorted: seq<Verifier.PathItem>)
    requires Valid(s) && forall q :: q in kept ==> q in s.nodes && q != []
    requires forall x :: x in sorted ==> x in ItemsAt(s, kept)
    ensures forall i :: 0 <= i < |sorted| ==> PathsOf(sorted)[i] in kept && sorted[i] == ItemAt(s, PathsOf(sorted)[i])
    ensures sorted == ItemsAt(s, PathsOf(sorted))
  {
    var paths := PathsOf(sorted);
    forall i | 0 <= i < |sorted| ensures paths[i] in kept && sorted[i] == ItemAt(s, paths[i]) {
      assert sorted[i] in sorted;
      var q := ItemHasPath(s, kept, sorted[i]);
    }
    ItemsAtIndex(s, paths);
  }

  lemma {:induction false} NamesIncrease(s: Source, sorted: seq<Verifier.PathItem>)
    requires Sorting.Ordered(sorted, Verifier.PathOf()) && Sorting.DistinctKeys(sorted, Verifier.PathOf())
    requires forall i :: 0 <= i < |sorted| ==> sorted[i] == ItemAt(s, PathsOf(sorted)[i])
    ensures Increasing(PathsOf(sorted))
  {
    var paths := PathsOf(sorted);
    forall i, j | 0 <= i < j < |paths| ensures Less(NameOf(paths[i]), NameOf(paths[j])) {
      Sorting.StrictlyOrdered(sorted, Verifier.PathOf(), i, j);
    }
  }

  lemma {:induction false} SortedPaths(s: Source, kept: seq<Path>, sorted: seq<Verifier.PathItem>)
    requires Valid(s) && NoDuplicates(kept) && forall q :: q in kept ==> q in s.nodes && q != []
    requires Sorting.Ordered(sorted, Verifier.PathOf()) && multiset(sorted) == multiset(ItemsAt(s, kept))
    ensures sorted == ItemsAt(s, PathsOf(sorted)) && Increasing(PathsOf(sorted))
    ensures forall i :: 0 <= i < |sorted| ==> PathsOf(sorted)[i] in kept
    ensures forall q :: q in kept ==> q in PathsOf(sorted)
  {
    DistinctItemNames(s, kept);
    Sorting.SameMembers(sorted, ItemsAt(s, kept));
    Sorting.DistinctAfterSort(ItemsAt(s, kept), sorted, Verifier.PathOf());
    SortedAreKept(s, kept, sorted);
    NamesIncrease(s, sorted);
    forall q | q in kept ensures q in PathsOf(sorted) {
      ListedIsSorted(s, kept, sorted, q);
    }
  }

  lemma {:induction false} SortedIsCanonical(s: Source, list: seq<Verifier.PathItem>, sorted: seq<Verifier.PathItem>)
    requires Valid(s) && list == ItemsAt(s, Kept(s, Met(s, [], 0)))
    requires Sorting.Ordered(sorted, Verifier.PathOf()) && multiset(sorted) == multiset(list)
    ensures Sorted(s, sorted, PathsOf(sorted))
  {
    KeptIsPacked(s);
    SortedPaths(s, Kept(s, Met(s, [], 0)), sorted);
  }

  lemma {:induction false} ListedIsSorted(s: Source, kept: seq<Path>, sorted: seq<Verifier.PathItem>, q: Path)
    requires Valid(s) && q in kept && forall q :: q in kept ==> q in s.nodes && q != []
    requires forall x :: x in sorted <==> x in ItemsAt(s, kept)
    ensures q in PathsOf(sorted)
  {
    ItemsAtIndex(s, kept);
    var i :| 0 <= i < |kept| && kept[i] == q;
    assert ItemsAt(s, kept)[i] in sorted;
    var j :| 0 <= j < |sorted| && sorted[j] == ItemsAt(s, kept)[i];
    NodesHaveFileNames(s, q);
    RouteOfName(q);
    assert PathsOf(sorted)[j] == q;
  }

  /** The same tree, listed by the kernel in any order, is written in one order. */
  lemma {:induction false} CanonicalIsUnique(s: Source, t: Source, p: seq<Path>, q: seq<Path>)
    requires Valid(s) && Valid(t) && s.nodes == t.nodes && Canonical(s, p) && Canonical(t, q)
    ensures p == q
  {
    forall x ensures x in p <==> x in q {
      assert Packed(s, x) <==> Packed(t, x);
    }
    assert Increasing(p) && Increasing(q);
    StrictOrderIsUnique(p, q);
  }

  ghost predicate Increasing(p: seq<Path>) {
    forall i, j :: 0 <= i < j < |p| ==> Less(NameOf(p[i]), NameOf(p[j]))
  }

  lemma {:induction false} StrictOrderIsUnique(p: seq<Path>, q: seq<Path>)
    requires Increasing(p) && Increasing(q) && forall x :: x in p <==> x in q
    ensures p == q
    decreases |p|
  {
    assert |q| > 0 ==> q[0] in q;
    if p != [] {
      assert p[|p| - 1] in q && q[|q| - 1] in p;
      var i :| 0 <= i < |q| && q[i] == p[|p| - 1];
      var j :| 0 <= j < |p| && p[j] == q[|q| - 1];
      CompareAntisymmetric(NameOf(p[|p| - 1]), NameOf(q[|q| - 1]));
      assert p[|p| - 1] == q[|q| - 1];
      WithoutLast(p);
      WithoutLast(q);
      var p', q' := p[..|p| - 1], q[..|q| - 1];
      forall x ensures x in p' <==> x in q' {
        assert x in p <==> x in q;
      }
      StrictOrderIsUnique(p', q');
      assert p == p' + [p[|p| - 1]] && q == q' + [q[|q| - 1]];
    }
  }

  lemma {:induction false} WithoutLast(p: seq<Path>)
    requires p != [] && Increasing(p)
    ensures Increasing(p[..|p| - 1])
    ensures forall x :: x in p[..|p| - 1] <==> x in p && x != p[|p| - 1]
  {
    CompareAntisymmetric(NameOf(p[|p| - 1]), NameOf(p[|p| - 1]));
    assert p == p[..|p| - 1] + [p[|p| - 1]];
  }

  // ----- Writing

  const Uint32Size: nat := 0x1_0000_0000

  function DataOf(n: SourceNode): string {
    match n
    case RegularFile(_, data) => data
    case SymbolicLink(_, target) => target
    case _ => ""
  }

  /** The entry a source node is written as. */
  function EntryFor(s: Source, q: Path): Entry {
    var n := NodeAt(s, q);
    Entry(ModeOf(n), n.meta.uid, n.meta.gid, NameOf(q), DataOf(n))
  }

  /** The modification time in its 32-bit field; times before 1970 become 0. */
  function Stamp(mtime: int): nat { if mtime < 0 then 0 else mtime % Uint32Size }

  /** A time that fits its field is written as it is. */
  lemma {:induction false} StampIs(mtime: int)
    ensures 0 <= mtime < 0x1_0000_0000 ==> Stamp(mtime) == mtime
    ensures mtime < 0 ==> Stamp(mtime) == 0
    ensures Stamp(mtime) < 0x1_0000_0000 && (mtime >= 0 ==> (mtime - Stamp(mtime)) % 0x1_0000_0000 == 0)
  {
  }

  function ItemFor(s: Source, q: Path): Item { Item(EntryFor(s, q), Stamp(NodeAt(s, q).meta.mtime)) }

  function ItemsFor(s: Source, paths: seq<Path>): (items: seq<Item>)
    ensures |items| == |paths|
  {
    seq(|paths|, i requires 0 <= i < |paths| => ItemFor(s, paths[i]))
  }

  /** The data fits the size field, and a target fits the buffer it is read into. */
  predicate Storable(n: SourceNode) {
    |DataOf(n)| <= if n.SymbolicLink? then NameLimit else Uint32Max
  }

  predicate AllStorable(s: Source, paths: seq<Path>) {
    forall q :: q in paths ==> Storable(NodeAt(s, q))
  }

  /** copy_file_data: in pieces of at most 64 KiB. */
  method CopyData(output: string, data: string) returns (r: string)
    ensures r == output + data
  {
    r := output;
    var copied := 0;
    while copied < |data|
      invariant 0 <= copied <= |data| && r == output + data[..copied]
    {
      var wanted := if |data| - copied > 65536 then 65536 else |data| - copied;
      assert data[..copied + wanted] == data[..copied] + data[copied..copied + wanted];
      r := r + data[copied..copied + wanted];
      copied := copied + wanted;
    }
    assert data[..copied] == data;
  }

  method WriteEntry(output: string, item: Item, index: nat) returns (r: string)
    ensures r == output + Newc.Record(item, index)
  {
    var e := item.entry;
    var header := Newc.HeaderText(index + 1, EntryHeader(e), item.mtime);
    r := output + header;
    r := r + (e.name + [NUL]);
    r := r + Zeros(Padding(HeaderSize + |e.name| + 1));
    r := CopyData(r, e.data);
    r := r + Zeros(Padding(|e.data|));
    FivePieces(output, header, e.name + [NUL], Zeros(Padding(HeaderSize + |e.name| + 1)), e.data,
               Zeros(Padding(|e.data|)));
  }

  lemma {:induction false} FivePieces(o: string, a: string, b: string, c: string, d: string, e: string)
    ensures o + a + b + c + d + e == o + (a + (b + c) + (d + e))
  {
  }

  lemma {:induction false} NextRecord(layout: Layout, s: Source, paths: seq<Path>, k: nat)
    requires k < |paths|
    ensures Records(layout, ItemsFor(s, paths[..k + 1]))
            == Records(layout, ItemsFor(s, paths[..k])) + layout(ItemFor(s, paths[k]), k)
  {
    var items := ItemsFor(s, paths[..k + 1]);
    assert items[..k] == ItemsFor(s, paths[..k]);
    assert items[k] == ItemFor(s, paths[k]);
  }

  /** layout is Newc.Record, seen as any layout. */
  ghost predicate LaysOutRecords(layout: Layout) {
    forall item, index: nat {:trigger Newc.Record(item, index)} :: layout(item, index) == Newc.Record(item, index)
  }

  lemma {:induction false} NextStorable(s: Source, paths: seq<Path>, k: nat)
    requires k < |paths|
    ensures AllStorable(s, paths[..k + 1]) <==> AllStorable(s, paths[..k]) && Storable(NodeAt(s, paths[k]))
    ensures AllStorable(s, paths) ==> Storable(NodeAt(s, paths[k]))
  {
    assert paths[..k + 1] == paths[..k] + [paths[k]];
    assert paths[k] in paths;
  }

  /** The loop of write_archive. */
  method WriteItems(s: Source, items: seq<Verifier.PathItem>, ghost paths: seq<Path>, ghost layout: Layout)
    returns (r: Option<string>)
    requires Valid(s) && Sorted(s, items, paths) && LaysOutRecords(layout)
    ensures r == if AllStorable(s, paths) then Some(Records(layout, ItemsFor(s, paths))) else None
  {
    var output := "";
    ItemsAtIndex(s, paths);
    for index := 0 to |items|
      invariant output == Records(layout, ItemsFor(s, paths[..index])) && AllStorable(s, paths[..index])
    {
      r := WriteItem(s, items[index], output, index, paths[index], layout);
      NextStorable(s, paths, index);
      if r.None? {
        return;
      }
      output := r.value;
      NextRecord(layout, s, paths, index);
    }
    assert paths[..|items|] == paths;
    r := Some(output);
  }

  /** lstat, the size check, and the entry. */
  method WriteItem(s: Source, item: Verifier.PathItem, output: string, index: nat, ghost q: Path, ghost layout: Layout)
    returns (r: Option<string>)
    requires Valid(s) && Packed(s, q) && item == ItemAt(s, q) && LaysOutRecords(layout)
    ensures r == if Storable(NodeAt(s, q)) then Some(output + layout(ItemFor(s, q), index)) else None
  {
    NodesHaveFileNames(s, q);
    RouteOfName(q);
    var status := NodeAt(s, RouteOf(item.path).path);
    if status.RegularFile? && |status.data| > Uint32Max {
      return None;
    }
    if status.SymbolicLink? && |status.target| > NameLimit {
      return None;
    }
    var e := Entry(ModeOf(status), status.meta.uid, status.meta.gid, item.path, DataOf(status));
    var text := WriteEntry(output, Item(e, Stamp(status.meta.mtime)), index);
    r := Some(text);
  }

  /** write_archive: all items, and the trailer behind them. */
  method WriteArchive(s: Source, items: seq<Verifier.PathItem>, ghost paths: seq<Path>) returns (r: Option<string>)
    requires Valid(s) && Sorted(s, items, paths)
    ensures r == if AllStorable(s, paths) then Some(Newc.ArchiveText(ItemsFor(s, paths))) else None
  {
    r := WriteItems(s, items, paths, Newc.Record);
    if r.Some? {
      r := Some(r.value + Newc.TrailerText());
    }
  }

  // ----- The whole of it

  /** The walk succeeds, and the data it finds can be written. */
  ghost predicate Archivable(s: Source, paths: seq<Path>)
    requires Valid(s)
  {
    && Canonical(s, paths) && AllCollectable(s, Met(s, [], 0)) && |paths| <= Verifier.EntryLimit
    && AllStorable(s, paths)
  }

  /** The archive of a source, whose paths these are. */
  ghost function ArchiveOf(s: Source, paths: seq<Path>): string { Newc.ArchiveText(ItemsFor(s, paths)) }

  /** What bp_cpio_pack needs to succeed: it accepts the source, and its own archive. */
  ghost predicate Packable(s: Source, paths: seq<Path>)
    requires Valid(s)
  {
    && SourceCheck.SourceVerified(Verifier.Standard(true), s) && Archivable(s, paths)
    && Verifier.Verified(Verifier.Standard(true), Newc.PrefixOf, ArchiveOf(s, paths)).Some?
  }

  lemma {:induction false} CountKept(s: Source, paths: seq<Path>)
    requires Valid(s) && Canonical(s, paths)
    ensures |paths| == |Kept(s, Met(s, [], 0))|
  {
    var kept := Kept(s, Met(s, [], 0));
    KeptIsPacked(s);
    assert NoDuplicates(paths) by {
      forall i, j | 0 <= i < j < |paths| ensures paths[i] != paths[j] {
        CompareAntisymmetric(NameOf(paths[i]), NameOf(paths[j]));
      }
    }
    forall q ensures q in paths <==> q in kept {
      assert q in kept <==> Packed(s, q);
    }
    SameSize(paths, kept);
  }

  lemma {:induction false} SameSize(a: seq<Path>, b: seq<Path>)
    requires NoDuplicates(a) && NoDuplicates(b) && forall q :: q in a <==> q in b
    ensures |a| == |b|
  {
    AsSet(a);
    AsSet(b);
    assert (set q | q in a) == (set q | q in b);
  }

  lemma {:induction false} AsSet(a: seq<Path>)
    requires NoDuplicates(a)
    ensures |(set q | q in a)| == |a|
  {
    if a != [] {
      AsSet(a[1..]);
      assert a == [a[0]] + a[1..];
      assert (set q | q in a) == {a[0]} + (set q | q in a[1..]);
      assert a[0] !in (set q | q in a[1..]);
    }
  }

  /** Collects and sorts; the ghost result is what the items stand for. */
  method CollectSorted(s: Source) returns (r: Option<seq<Verifier.PathItem>>, ghost paths: seq<Path>)
    requires Valid(s)
    ensures r.Some? <==> AllCollectable(s, Met(s, [], 0)) && |Kept(s, Met(s, [], 0))| <= Verifier.EntryLimit
    ensures r.Some? ==> Sorted(s, r.value, paths)
  {
    r := CollectDirectory(s, [], "", []);
    ExtendedMeans(s, [], Met(s, [], 0));
    paths := [];
    if r.Some? {
      assert [] + ItemsAt(s, Kept(s, Met(s, [], 0))) == ItemsAt(s, Kept(s, Met(s, [], 0)));
      var sorted := Sorting.Qsort(r.value, Verifier.PathOf());
      SortedIsCanonical(s, r.value, sorted);
      r, paths := Some(sorted), PathsOf(sorted);
    }
  }

  method WriteSource(s: Source) returns (r: Option<string>, ghost paths: seq<Path>)
    requires Valid(s)
    ensures r.Some? ==> Archivable(s, paths) && r.value == ArchiveOf(s, paths)
    ensures r.None? ==> forall paths' :: !Archivable(s, paths')
  {
    var items;
    items, paths := CollectSorted(s);
    r := None;
    if items.Some? {
      CountKept(s, paths);
      r := WriteArchive(s, items.value, paths);
    }
    if r.None? {
      forall paths' ensures !Archivable(s, paths') {
        if Canonical(s, paths') {
          CountKept(s, paths');
          if items.Some? {
            CanonicalIsUnique(s, s, paths, paths');
          }
        }
      }
    }
  }

  lemma {:induction false} OnlyOneCandidate(s: Source, paths: seq<Path>, paths': seq<Path>)
    requires Valid(s) && Archivable(s, paths)
    requires Verifier.Verified(Verifier.Standard(true), Newc.PrefixOf, ArchiveOf(s, paths)).None?
    ensures !Packable(s, paths')
  {
    if Packable(s, paths') {
      CanonicalIsUnique(s, s, paths, paths');
    }
  }

  /** bp_cpio_pack: the archive that is put in place, if any is. */
  method Pack(s: Source) returns (r: Option<string>, ghost paths: seq<Path>)
    requires Valid(s)
    ensures r.Some? ==> Packable(s, paths) && r.value == ArchiveOf(s, paths)
    ensures r.None? ==> forall paths' :: !Packable(s, paths')
  {
    SourceCheck.StandardIsUsable(true);
    var ok := SourceCheck.VerifySource(Verifier.Standard(true), s);
    if !ok {
      return None, [];
    }
    r, paths := WriteSource(s);
    if r.None? {
      return;
    }
    var info := Verifier.VerifyArchive(Verifier.Standard(true), r.value);
    if info.None? {
      forall paths' ensures !Packable(s, paths') {
        OnlyOneCandidate(s, paths, paths');
      }
      r := None;
    }
  }
}
