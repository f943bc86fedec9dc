/**
  bp_cpio_pack: a source directory is walked in the order in which the kernel
  lists it, sorted, written, and verified before it is put in place.
*/
module Packing {
  import opened CStrings
  import opened Archive
  import opened FileTree
  import opened Verifier
  import Config
  import Sorting

  datatype Meta = Meta(perm: nat, uid: nat, gid: nat, mtime: int)

  /** What lstat and the contents show of a source node. A mount point is a
      directory on another device. */
  datatype SourceNode =
    | RegularFile(meta: Meta, data: string)
    | SymbolicLink(meta: Meta, target: string)
    | Folder(meta: Meta)
    | MountPoint(meta: Meta)
    | Special(meta: Meta)

  /** An unchanging tree; names gives what readdir lists, in its order. */
  datatype Source = Source(nodes: map<Path, SourceNode>, names: Path -> seq<string>, rootLength: nat)

  predicate FileName(c: string) {
    IsName(c) && '/' !in c && NUL !in c
  }

  predicate InRange(n: SourceNode) {
    && n.meta.perm < 0x1000 && n.meta.uid < Uint32Max && n.meta.gid < Uint32Max
    && (n.SymbolicLink? ==> n.target != "" && NUL !in n.target)
  }

  /** The node hangs in a directory, under a file name. */
  predicate Hangs(nodes: map<Path, SourceNode>, p: Path)
    requires p in nodes
  {
    && InRange(nodes[p])
    && (p == [] || (FileName(p[|p| - 1]) && p[..|p| - 1] in nodes
                    && (nodes[p[..|p| - 1]].Folder? || nodes[p[..|p| - 1]].MountPoint?)))
  }

  /** readdir lists every name in a directory once. */
  ghost predicate Lists(s: Source, p: Path) {
    && (forall i, j :: 0 <= i < j < |s.names(p)| ==> s.names(p)[i] != s.names(p)[j])
    && (forall c: string :: c in s.names(p) <==> p + [c] in s.nodes)
  }

  ghost predicate Valid(s: Source) {
    && [] in s.nodes && s.nodes[[]].Folder?
    && (forall p {:trigger Hangs(s.nodes, p)} :: p in s.nodes ==> Hangs(s.nodes, p))
    && (forall p {:trigger s.names(p)} :: p in s.nodes && s.nodes[p].Folder? ==> Lists(s, p))
  }

  // ----- The walk

  ghost function Below(s: Source, p: Path): set<Path> {
    set q | q in s.nodes && p <= q
  }

  lemma {:induction false} ChildIsBelow(s: Source, p: Path, c: string)
    requires p in s.nodes
    ensures Below(s, p + [c]) < Below(s, p)
  {
    assert p in Below(s, p) && p !in Below(s, p + [c]);
  }

  /** The paths that the walk of p meets from its name number k on, in its order. */
  ghost function Met(s: Source, p: Path, k: nat): seq<Path>
    requires Valid(s) && p in s.nodes && s.nodes[p].Folder? && k <= |s.names(p)|
    decreases Below(s, p), |s.names(p)| - k
  {
    if k == |s.names(p)| then []
    else
      var q := p + [s.names(p)[k]];
      assert s.names(p)[k] in s.names(p);
      ChildIsBelow(s, p, s.names(p)[k]);
      [q] + (if s.nodes[q].Folder? then Met(s, q, 0) else []) + Met(s, p, k + 1)
  }

  /** What the walk meets below a path. */
  ghost function Inside(s: Source, q: Path): seq<Path>
    requires Valid(s) && q in s.nodes
  {
    if s.nodes[q].Folder? then Met(s, q, 0) else []
  }

  /** lstat of a path; what is not there looks like nothing that is packed. */
  function NodeAt(s: Source, q: Path): SourceNode {
    if q in s.nodes then s.nodes[q] else Special(Meta(0, 0, 0, 0))
  }

  function NameOf(p: Path): string { if p == [] then "" else Join(p, '/') }

  /** The path fits the program's buffers and its type is one that is packed. */
  predicate Collectable(s: Source, q: Path) {
    q in s.nodes && s.rootLength + 1 + |NameOf(q)| < Config.PathCapacity && !s.nodes[q].Special?
  }

  function TypeBits(n: SourceNode): nat {
    match n
    case RegularFile(_, _) => 0x8000
    case SymbolicLink(_, _) => 0xa000
    case Special(_) => 0x1000
    case _ => 0x4000
  }

  /** st_mode */
  function ModeOf(n: SourceNode): nat { TypeBits(n) + n.meta.perm }

  function ItemAt(s: Source, q: Path): PathItem {
    var n := NodeAt(s, q);
    PathItem(NameOf(q), ModeOf(n), n.meta.uid, n.meta.gid)
  }

  /** Directories on another device are met but not kept. */
  function Kept(s: Source, met: seq<Path>): seq<Path> {
    if met == [] then []
    else if NodeAt(s, met[0]).MountPoint? then Kept(s, met[1..])
    else [met[0]] + Kept(s, met[1..])
  }

  /** The list after these paths were met, or None if the walk gives up. */
  function Extended(s: Source, list: seq<PathItem>, met: seq<Path>): Option<seq<PathItem>>
    decreases |met|
  {
    if met == [] then Some(list)
    else if !Collectable(s, met[0]) then None
    else if NodeAt(s, met[0]).MountPoint? then Extended(s, list, met[1..])
    else if |list| >= EntryLimit then None
    else Extended(s, list + [ItemAt(s, met[0])], met[1..])
  }

  lemma {:induction false} ExtendedTwice(s: Source, list: seq<PathItem>, a: seq<Path>, b: seq<Path>)
    ensures Extended(s, list, a + b)
            == match Extended(s, list, a) case None => None case Some(l) => Extended(s, l, b)
    decreases |a|
  {
    if a == [] {
      assert a + b == b;
    } else {
      assert (a + b)[0] == a[0] && (a + b)[1..] == a[1..] + b;
      ExtendedTwice(s, list, a[1..], b);
      ExtendedTwice(s, list + [ItemAt(s, a[0])], a[1..], b);
    }
  }

  lemma {:induction false} MetAreNodes(s: Source, p: Path, k: nat)
    requires Valid(s) && p in s.nodes && s.nodes[p].Folder? && k <= |s.names(p)|
    ensures forall q :: q in Met(s, p, k) ==> q in s.nodes && p < q
    decreases Below(s, p), |s.names(p)| - k
  {
    if k < |s.names(p)| {
      var q := p + [s.names(p)[k]];
      assert s.names(p)[k] in s.names(p);
      ChildIsBelow(s, p, s.names(p)[k]);
      MetAreNodes(s, p, k + 1);
      if s.nodes[q].Folder? {
        MetAreNodes(s, q, 0);
      }
    }
  }

  lemma {:induction false} NameOfChild(s: Source, p: Path, c: string)
    ensures NameOf(p + [c]) == if p == [] then c else NameOf(p) + ['/'] + c
  {
    if p == [] {
      assert p + [c] == [c];
    } else {
      JoinSnoc(p, c, '/');
    }
  }

  /** Looks at one child: its name, its size in the buffers, its type; lists it. */
  method CollectChild(s: Source, p: Path, relative: string, c: string, list: seq<PathItem>)
    returns (r: Option<seq<PathItem>>)
    requires relative == NameOf(p) && (relative == "" <==> p == []) && p + [c] in s.nodes
    ensures r == Extended(s, list, [p + [c]])
  {
    var q := p + [c];
    NameOfChild(s, p, c);
    assert [q][1..] == [];
    var name := if relative == "" then c else relative + ['/'] + c;
    if |name| >= Config.PathCapacity || s.rootLength + 1 + |name| >= Config.PathCapacity {
      return None;
    }
    var status := s.nodes[q];
    if status.MountPoint? {
      return Some(list);
    }
    if status.Special? || |list| >= EntryLimit {
      return None;
    }
    return Some(list + [PathItem(name, ModeOf(status), status.meta.uid, status.meta.gid)]);
  }

  /** collect_directory */
  method CollectDirectory(s: Source, p: Path, relative: string, list: seq<PathItem>) returns (r: Option<seq<PathItem>>)
    requires Valid(s) && p in s.nodes && s.nodes[p].Folder? && relative == NameOf(p)
    ensures r == Extended(s, list, Met(s, p, 0))
    decreases Below(s, p)
  {
    var names := s.names(p);
    var l := list;
    for k := 0 to |names|
      invariant Extended(s, list, Met(s, p, 0)) == Extended(s, l, Met(s, p, k))
    {
      assert names[k] in names;
      r := CollectNext(s, p, relative, k, l);
      if r.None? {
        return;
      }
      l := r.value;
    }
    return Some(l);
  }

  lemma {:induction false} OnlyRootIsNameless(s: Source, p: Path)
    requires Valid(s) && p in s.nodes
    ensures NameOf(p) == "" <==> p == []
    decreases |p|
  {
    if p != [] {
      assert Hangs(s.nodes, p);
      NameOfChild(s, p[..|p| - 1], p[|p| - 1]);
      assert p == p[..|p| - 1] + [p[|p| - 1]];
    }
  }

  lemma {:induction false} MetStep(s: Source, p: Path, k: nat, list: seq<PathItem>)
    requires Valid(s) && p in s.nodes && s.nodes[p].Folder? && k < |s.names(p)|
    requires p + [s.names(p)[k]] in s.nodes
    ensures var q := p + [s.names(p)[k]];
            Extended(s, list, Met(s, p, k))
            == match Extended(s, list, [q])
               case None => None
               case Some(l) =>
                 match Extended(s, l, Inside(s, q)) case None => None case Some(l') => Extended(s, l', Met(s, p, k + 1))
  {
    var q := p + [s.names(p)[k]];
    var rest := Met(s, p, k + 1);
    assert Met(s, p, k) == [q] + (Inside(s, q) + rest);
    ExtendedTwice(s, list, [q], Inside(s, q) + rest);
    if Extended(s, list, [q]).Some? {
      ExtendedTwice(s, Extended(s, list, [q]).value, Inside(s, q), rest);
    }
  }

  /** One turn of the readdir loop, with the directory below the name if it is one. */
  method CollectNext(s: Source, p: Path, relative: string, k: nat, list: seq<PathItem>)
    returns (r: Option<seq<PathItem>>)
    requires Valid(s) && p in s.nodes && s.nodes[p].Folder? && relative == NameOf(p) && k < |s.names(p)|
    ensures Extended(s, list, Met(s, p, k))
            == match r case None => None case Some(l) => Extended(s, l, Met(s, p, k + 1))
    decreases Below(s, p), 0
  {
    var c := s.names(p)[k];
    assert c in s.names(p);
    var q := p + [c];
    ChildIsBelow(s, p, c);
    NameOfChild(s, p, c);
    OnlyRootIsNameless(s, p);
    MetStep(s, p, k, list);
    r := CollectChild(s, p, relative, c, list);
    if r.Some? && s.nodes[q].Folder? {
      r := CollectDirectory(s, q, if relative == "" then c else relative + ['/'] + c, r.value);
    }
  }

  // ----- What the walk meets

  /** q is p or below it, and the walk of p gets there: through folders only. */
  ghost predicate Reaches(s: Source, p: Path, q: Path) {
    p <= q && q in s.nodes && forall r :: p <= r < q ==> r in s.nodes && s.nodes[r].Folder?
  }

  /** The first step of a walk that gets further. */
  lemma {:induction false} FirstStep(s: Source, p: Path, q: Path)
    requires Valid(s) && p in s.nodes && s.nodes[p].Folder? && p < q
    ensures Reaches(s, p, q) <==>
            exists i :: 0 <= i < |s.names(p)| && Reaches(s, p + [s.names(p)[i]], q)
  {
    if Reaches(s, p, q) {
      var c := q[|p|];
      assert p + [c] == q[..|p| + 1];
      assert p + [c] in s.nodes by {
        if p + [c] < q {
          assert p <= p + [c] < q;
        } else {
          assert p + [c] == q;
        }
      }
      assert Lists(s, p);
      assert c in s.names(p);
      var i :| 0 <= i < |s.names(p)| && s.names(p)[i] == c;
      assert Reaches(s, p + [s.names(p)[i]], q);
    }
    if exists i :: 0 <= i < |s.names(p)| && Reaches(s, p + [s.names(p)[i]], q) {
      var i :| 0 <= i < |s.names(p)| && Reaches(s, p + [s.names(p)[i]], q);
      var child := p + [s.names(p)[i]];
      forall r | p <= r < q ensures r in s.nodes && s.nodes[r].Folder? {
        if r != p {
          assert child <= r by {
            assert r[|p|] == q[|p|] == child[|p|];
          }
        }
      }
    }
  }

  lemma {:induction false} MetIff(s: Source, p: Path, k: nat, q: Path)
    requires Valid(s) && p in s.nodes && s.nodes[p].Folder? && k <= |s.names(p)|
    ensures q in Met(s, p, k) <==> exists i :: k <= i < |s.names(p)| && Reaches(s, p + [s.names(p)[i]], q)
    decreases Below(s, p), |s.names(p)| - k
  {
    if k < |s.names(p)| {
      var child := p + [s.names(p)[k]];
      assert s.names(p)[k] in s.names(p);
      ChildIsBelow(s, p, s.names(p)[k]);
      MetIff(s, p, k + 1, q);
      InsideIff(s, child, q);
      assert q in Met(s, p, k) <==> q == child || q in Inside(s, child) || q in Met(s, p, k + 1);
    }
  }

  lemma {:induction false} InsideIff(s: Source, child: Path, q: Path)
    requires Valid(s) && child in s.nodes
    ensures q == child || q in Inside(s, child) <==> Reaches(s, child, q)
    decreases Below(s, child)
  {
    if s.nodes[child].Folder? {
      MetIff(s, child, 0, q);
      if child < q {
        FirstStep(s, child, q);
      } else {
        MetAreNodes(s, child, 0);
      }
    } else {
      assert child < q ==> child <= child < q;
    }
  }

  predicate NoDuplicates(paths: seq<Path>) {
    forall i, j :: 0 <= i < j < |paths| ==> paths[i] != paths[j]
  }

  lemma {:induction false} NoDuplicatesAppend(a: seq<Path>, b: seq<Path>)
    requires NoDuplicates(a) && NoDuplicates(b) && forall q :: q in a ==> q !in b
    ensures NoDuplicates(a + b)
  {
    forall i, j | 0 <= i < j < |a + b| ensures (a + b)[i] != (a + b)[j] {
      if i < |a| && |a| <= j {
        assert a[i] in a && b[j - |a|] in b;
      }
    }
  }

  /** The walk meets no path twice. */
  lemma {:induction false} MetOnce(s: Source, p: Path, k: nat)
    requires Valid(s) && p in s.nodes && s.nodes[p].Folder? && k <= |s.names(p)|
    ensures NoDuplicates(Met(s, p, k))
    decreases Below(s, p), |s.names(p)| - k
  {
    if k < |s.names(p)| {
      var child := p + [s.names(p)[k]];
      assert s.names(p)[k] in s.names(p);
      ChildIsBelow(s, p, s.names(p)[k]);
      MetOnce(s, p, k + 1);
      if s.nodes[child].Folder? {
        MetOnce(s, child, 0);
        MetAreNodes(s, child, 0);
      }
      NoDuplicatesAppend([child], Inside(s, child));
      forall q | q in [child] + Inside(s, child) ensures q !in Met(s, p, k + 1) {
        NotMetLater(s, p, k, q);
      }
      NoDuplicatesAppend([child] + Inside(s, child), Met(s, p, k + 1));
    }
  }

  lemma {:induction false} NotMetLater(s: Source, p: Path, k: nat, q: Path)
    requires Valid(s) && p in s.nodes && s.nodes[p].Folder? && k < |s.names(p)| && p + [s.names(p)[k]] <= q
    ensures q !in Met(s, p, k + 1)
  {
    MetIff(s, p, k + 1, q);
    assert Lists(s, p);
    forall i | k < i < |s.names(p)| ensures !(p + [s.names(p)[i]] <= q) {
      assert (p + [s.names(p)[k]])[|p|] == q[|p|] == s.names(p)[k];
      assert (p + [s.names(p)[i]])[|p|] == s.names(p)[i];
    }
  }

  // ----- What is listed

  /** What the archive is to hold: everything that can be reached through folders of
      the same device, without the mount points themselves. */
  ghost predicate Packed(s: Source, q: Path) {
    q != [] && Reaches(s, [], q) && !s.nodes[q].MountPoint?
  }

  function ItemsAt(s: Source, paths: seq<Path>): (items: seq<PathItem>) {
    if paths == [] then [] else [ItemAt(s, paths[0])] + ItemsAt(s, paths[1..])
  }

  lemma {:induction false} KeptIff(s: Source, met: seq<Path>)
    ensures forall q :: q in Kept(s, met) <==> q in met && !NodeAt(s, q).MountPoint?
    ensures NoDuplicates(met) ==> NoDuplicates(Kept(s, met))
  {
    if met != [] {
      var first, rest := met[0], met[1..];
      KeptIff(s, rest);
      assert met == [first] + rest;
      if NoDuplicates(met) {
        assert forall q :: q in rest ==> q != first;
        if !NodeAt(s, first).MountPoint? {
          NoDuplicatesAppend([first], Kept(s, rest));
        }
      }
    }
  }

  predicate AllCollectable(s: Source, met: seq<Path>) {
    forall q :: q in met ==> Collectable(s, q)
  }

  lemma {:induction false} ExtendedMeans(s: Source, list: seq<PathItem>, met: seq<Path>)
    requires |list| <= EntryLimit
    ensures Extended(s, list, met).Some? <==> AllCollectable(s, met) && |list| + |Kept(s, met)| <= EntryLimit
    ensures Extended(s, list, met).Some? ==> Extended(s, list, met).value == list + ItemsAt(s, Kept(s, met))
    decreases |met|
  {
    if met == [] {
      assert list + [] == list;
    } else {
      var first, rest := met[0], met[1..];
      assert met == [first] + rest;
      assert AllCollectable(s, met) <==> Collectable(s, first) && AllCollectable(s, rest);
      if NodeAt(s, first).MountPoint? {
        ExtendedMeans(s, list, rest);
      } else if |list| < EntryLimit {
        ExtendedMeans(s, list + [ItemAt(s, first)], rest);
        assert list + [ItemAt(s, first)] + ItemsAt(s, Kept(s, rest))
            == list + ([ItemAt(s, first)] + ItemsAt(s, Kept(s, rest)));
      }
    }
  }

  // ----- Names of paths

  predicate FileNames(p: Path) {
    forall i :: 0 <= i < |p| ==> FileName(p[i])
  }

  lemma {:induction false} NodesHaveFileNames(s: Source, p: Path)
    requires Valid(s) && p in s.nodes
    ensures FileNames(p)
    decreases |p|
  {
    if p != [] {
      assert Hangs(s.nodes, p);
      NodesHaveFileNames(s, p[..|p| - 1]);
    }
  }

  /** The name of a path, taken apart, is the path again. */
  lemma {:induction false} RouteOfName(p: Path)
    requires FileNames(p) && p != []
    ensures RouteOf(NameOf(p)) == Route(p, false)
  {
    assert forall c :: c in p ==> '/' !in c && c != "";
    SplitOfJoin(p, '/');
    NonEmptyOfNonEmpty(p);
    JoinEnds(p);
  }

  lemma {:induction false} JoinEnds(p: Path)
    requires FileNames(p) && p != []
    ensures Join(p, '/') != "" && Join(p, '/')[|Join(p, '/')| - 1] != '/' && NUL !in Join(p, '/')
  {
    var first := p[0];
    assert FileName(first);
    if |p| > 1 {
      JoinEnds(p[1..]);
    } else {
      assert first[|first| - 1] in first;
    }
  }

  lemma {:induction false} NamesDiffer(p: Path, q: Path)
    requires FileNames(p) && FileNames(q) && p != [] && q != [] && p != q
    ensures NameOf(p) != NameOf(q)
  {
    RouteOfName(p);
    RouteOfName(q);
  }

  /** A directory comes before all that is in it. */
  lemma {:induction false} AncestorIsLess(p: Path, q: Path)
    requires p < q && p != []
    ensures Less(NameOf(p), NameOf(q))
  {
    assert q == p + q[|p|..];
    JoinAppend(p, q[|p|..], '/');
    assert NameOf(p) < NameOf(q);
    PrefixIsLess(NameOf(p), NameOf(q));
  }

  // ----- The packed paths in their only order

  /** All packed paths, strictly ordered by name. */
  ghost predicate Canonical(s: Source, paths: seq<Path>) {
    && (forall i :: 0 <= i < |paths| ==> Packed(s, paths[i]))
    && (forall q :: Packed(s, q) ==> q in paths)
    && (forall i, j :: 0 <= i < j < |paths| ==> Less(NameOf(paths[i]), NameOf(paths[j])))
  }

  lemma {:induction false} KeptIsPacked(s: Source)
    requires Valid(s)
    ensures forall q :: q in Kept(s, Met(s, [], 0)) <==> Packed(s, q)
    ensures NoDuplicates(Kept(s, Met(s, [], 0)))
  {
    KeptIff(s, Met(s, [], 0));
    MetOnce(s, [], 0);
    forall q ensures q in Met(s, [], 0) <==> q != [] && Reaches(s, [], q) {
      MetIff(s, [], 0, q);
      MetAreNodes(s, [], 0);
      if q != [] {
        FirstStep(s, [], q);
      }
    }
  }

  lemma {:induction false} ItemsAtIndex(s: Source, paths: seq<Path>)
    ensures |ItemsAt(s, paths)| == |paths|
    ensures forall i :: 0 <= i < |paths| ==> ItemsAt(s, paths)[i] == ItemAt(s, paths[i])
  {
    if paths != [] {
      ItemsAtIndex(s, paths[1..]);
    }
  }

  lemma {:induction false} DistinctItemNames(s: Source, paths: seq<Path>)
    requires Valid(s) && NoDuplicates(paths) && forall q :: q in paths ==> q in s.nodes && q != []
    ensures Sorting.DistinctKeys(ItemsAt(s, paths), Verifier.PathOf())
  {
    ItemsAtIndex(s, paths);
    var items := ItemsAt(s, paths);
    forall i, j | 0 <= i < j < |items| ensures items[i].path != items[j].path {
      NodesHaveFileNames(s, paths[i]);
      NodesHaveFileNames(s, paths[j]);
      NamesDiffer(paths[i], paths[j]);
    }
  }
}
