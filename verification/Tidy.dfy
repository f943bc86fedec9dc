/**
  Archives as the packer makes them: distinct paths, and every entry behind the
  directories it is in. Extracting such an archive needs no implied parents, every
  step succeeds, and the tree holds each entry and nothing else.
*/
module Tidy {
  import opened CStrings
  import opened Archive
  import opened FileTree
  import opened Extraction
  import opened ExtractionMeaning

  /** Where an entry goes, and whether it is a directory. */
  datatype Placement = Placement(path: Path, dir: bool)

  function Placements(es: seq<Entry>): (ps: seq<Placement>)
    ensures |ps| == |es|
  {
    seq(|es|, i requires 0 <= i < |es| => Placement(PathOf(es[i]), IsDirectory(es[i].mode)))
  }

  /** The directory right above number i is listed before it. */
  predicate ParentListed(ps: seq<Placement>, i: nat)
    requires i < |ps|
  {
    |ps[i].path| <= 1 || exists j :: 0 <= j < i && ps[j] == Placement(Parent(ps[i].path), true)
  }

  predicate InOrder(ps: seq<Placement>) {
    && (forall i, j :: 0 <= i < j < |ps| ==> ps[i].path != ps[j].path)
    && (forall i :: 0 <= i < |ps| ==> ParentListed(ps, i))
  }

  predicate IsTidy(es: seq<Entry>) {
    && Safe(es) && InOrder(Placements(es))
    && forall i :: 0 <= i < |es| ==> !RouteOf(es[i].name).slash && (IsLink(es[i].mode) ==> es[i].data != "")
  }

  lemma {:induction false} InOrderPrefix(ps: seq<Placement>, k: nat)
    requires InOrder(ps) && k <= |ps|
    ensures InOrder(ps[..k])
  {
    forall i | 0 <= i < k ensures ParentListed(ps[..k], i) {
      assert ParentListed(ps, i);
      if |ps[i].path| > 1 {
        var j :| 0 <= j < i && ps[j] == Placement(Parent(ps[i].path), true);
        assert ps[..k][j] == ps[j];
      }
    }
  }

  lemma {:induction false} TidyPrefix(es: seq<Entry>, k: nat)
    requires IsTidy(es) && k <= |es|
    ensures IsTidy(es[..k])
  {
    assert Placements(es[..k]) == Placements(es)[..k];
    SafePrefix(es, k);
    InOrderPrefix(Placements(es), k);
  }

  /** Everything above number i is a directory listed before it. */
  lemma {:induction false} Ancestor(ps: seq<Placement>, i: nat, p: Path) returns (j: nat)
    requires InOrder(ps) && i < |ps| && p < ps[i].path && p != []
    ensures j < i && ps[j] == Placement(p, true)
    decreases i
  {
    assert ParentListed(ps, i);
    var k :| 0 <= k < i && ps[k] == Placement(Parent(ps[i].path), true);
    if p == ps[k].path {
      j := k;
    } else {
      j := Ancestor(ps, k, p);
    }
  }

  // ----- The first phase

  lemma {:induction false} NothingToMake(env: Env, nodes: Nodes, p: Path)
    requires Rooted(nodes) && p in nodes && nodes[p].Directory?
    ensures env.MakeDirectories(nodes, p) == Some(nodes)
    decreases |p|
  {
    if p != [] {
      assert Held(nodes, p);
      NothingToMake(env, nodes, Parent(p));
    }
  }

  /** Whatever an entry accounts for, some entry up to it has that path. */
  lemma {:induction false} AccountedIsListed(env: Env, es: seq<Entry>, p: Path, n: Node) returns (j: nat)
    requires IsTidy(es) && Accounted(env, es, p, n)
    ensures j < |es| && PathOf(es[j]) == p && !IsLink(es[j].mode)
  {
    var i: nat :| i < |es| && AccountedBy(env, es[i], p, n);
    var ps := Placements(es);
    assert ps[i].path == PathOf(es[i]);
    if p < PathOf(es[i]) && p != [] {
      j := Ancestor(ps, i, p);
      assert ps[j].dir == IsDirectory(es[j].mode);
    } else {
      j := i;
    }
  }

  ghost predicate Empty(start: Nodes) {
    start.Keys == {[]} && start[[]].Directory?
  }

  /** An empty directory; in it and in those made by mkdir names can be made. */
  ghost predicate Fresh(env: Env, start: Nodes) {
    Empty(start) && env.Usable(start[[]]) && env.Usable(env.NewDirectory())
  }

  lemma {:induction false} EmptyIsRooted(start: Nodes)
    requires Empty(start)
    ensures Rooted(start)
  {
  }

  lemma {:induction false} PathsDiffer(es: seq<Entry>, k: nat)
    requires IsTidy(es) && k < |es|
    ensures forall i :: 0 <= i < |es| && i != k ==> PathOf(es[i]) != PathOf(es[k])
  {
    var ps := Placements(es);
    forall i | 0 <= i < |es| && i != k ensures PathOf(es[i]) != PathOf(es[k]) {
      assert ps[i].path == PathOf(es[i]) && ps[k].path == PathOf(es[k]);
    }
  }

  lemma {:induction false} NotYetThere(env: Env, start: Nodes, n: Nodes, es: seq<Entry>, k: nat)
    requires IsTidy(es) && k < |es| && Empty(start) && Shows(env, start, n, es[..k])
    ensures PathOf(es[k]) != [] && PathOf(es[k]) !in n
  {
    var p := PathOf(es[k]);
    SafeAt(es, k);
    ValidNameRoute(es[k].name);
    TidyPrefix(es, k);
    PathsDiffer(es, k);
    if p in n {
      var j := AccountedIsListed(env, es[..k], p, n[p]);
    }
  }

  /** The directory an entry goes to is there, from an entry before it. */
  lemma {:induction false} ParentIsThere(env: Env, start: Nodes, n: Nodes, es: seq<Entry>, k: nat)
    requires IsTidy(es) && k < |es| && Empty(start) && Shows(env, start, n, es[..k])
    ensures PathOf(es[k]) != [] && Parent(PathOf(es[k])) in n && n[Parent(PathOf(es[k]))].Directory?
  {
    SafeAt(es, k);
    ValidNameRoute(es[k].name);
    var ps := Placements(es);
    assert ParentListed(ps, k) && ps[k].path == PathOf(es[k]);
    if |ps[k].path| > 1 {
      var j :| 0 <= j < k && ps[j] == Placement(Parent(ps[k].path), true);
      assert Shown(env, n, es[..k][j]);
    } else {
      assert Parent(ps[k].path) == [];
    }
  }

  lemma {:induction false} TidyIsPlaced(env: Env, start: Nodes, es: seq<Entry>)
    requires IsTidy(es) && Empty(start)
    ensures env.PlaceEntries(start, es).Some?
  {
    if es != [] {
      var k := |es| - 1;
      TidyPrefix(es, k);
      TidyIsPlaced(env, start, es[..k]);
      var n := env.PlaceEntries(start, es[..k]).value;
      EmptyIsRooted(start);
      AllPlaced(env, start, es[..k]);
      PlacedMeans(env, start, es[..k]);
      NextIsPlaced(env, start, n, es, k);
    }
  }

  lemma {:induction false} NextIsPlaced(env: Env, start: Nodes, n: Nodes, es: seq<Entry>, k: nat)
    requires IsTidy(es) && k < |es| && Empty(start) && Rooted(n) && Shows(env, start, n, es[..k])
    ensures env.PlaceEntry(n, es[k]).Some?
  {
    ParentIsThere(env, start, n, es, k);
    NotYetThere(env, start, n, es, k);
    NothingToMake(env, n, Parent(PathOf(es[k])));
  }

  // ----- The second phase

  lemma {:induction false} LinkNotYetThere(env: Env, start: Nodes, placed: Nodes, n: Nodes, es: seq<Entry>, k: nat)
    requires IsTidy(es) && k < |es| && IsLink(es[k].mode) && Empty(start) && Shows(env, start, placed, es)
    requires HoldsLinks(placed, n, es[..k])
    ensures PathOf(es[k]) !in n
  {
    var p := PathOf(es[k]);
    SafeAt(es, k);
    ValidNameRoute(es[k].name);
    PathsDiffer(es, k);
    if p in n && p in placed {
      var j := AccountedIsListed(env, es, p, placed[p]);
    }
  }

  lemma {:induction false} LastLink(env: Env, nodes: Nodes, links: seq<Entry>, e: Entry)
    ensures env.PlaceLinks(nodes, links + [e])
            == match env.PlaceLinks(nodes, links) case None => None case Some(n) => env.PlaceLink(n, e)
  {
    assert (links + [e])[..|links|] == links;
  }

  lemma {:induction false} NextIsLinked(env: Env, start: Nodes, placed: Nodes, es: seq<Entry>, k: nat, init: seq<Entry>)
    requires IsTidy(es) && k < |es| && IsLink(es[k].mode) && Empty(start) && Shows(env, start, placed, es)
    requires init == es[..k] && env.PlaceLinks(placed, Links(init)).Some?
    ensures env.PlaceLinks(placed, Links(init) + [Entry(es[k].mode, 0, 0, es[k].name, es[k].data)]).Some?
  {
    LinkedMeans(env, placed, init);
    LinkNotYetThere(env, start, placed, env.PlaceLinks(placed, Links(init)).value, es, k);
    LastLink(env, placed, Links(init), Entry(es[k].mode, 0, 0, es[k].name, es[k].data));
  }

  lemma {:induction false} TidyIsLinked(env: Env, start: Nodes, placed: Nodes, es: seq<Entry>, k: nat)
    requires IsTidy(es) && k <= |es| && Empty(start) && Shows(env, start, placed, es)
    ensures env.PlaceLinks(placed, Links(es[..k])).Some?
  {
    if k > 0 {
      TidyIsLinked(env, start, placed, es, k - 1);
      assert es[..k][..k - 1] == es[..k - 1];
      if IsLink(es[k - 1].mode) {
        NextIsLinked(env, start, placed, es, k - 1, es[..k - 1]);
      } else {
        assert Links(es[..k - 1]) + [] == Links(es[..k - 1]);
      }
    }
  }

  // ----- The third phase

  lemma {:induction false} WalkDown(env: Env, nodes: Nodes, p: Path)
    requires forall q :: q <= p && q != [] ==>
               q in nodes && env.Enterable(nodes[q]) && IsName(q[|q| - 1])
    ensures env.Walk(nodes, p) == Inside
    decreases |p|
  {
    if p != [] {
      assert p <= p;
      WalkDown(env, nodes, Parent(p));
    }
  }

  /** The directories among these entries are there and can be entered. */
  ghost predicate StillNew(env: Env, nodes: Nodes, es: seq<Entry>) {
    forall i :: 0 <= i < |es| && IsDirectory(es[i].mode) ==>
      PathOf(es[i]) in nodes && env.Enterable(nodes[PathOf(es[i])])
  }

  /** Above a directory whose turn it is, nothing has been changed yet. */
  lemma {:induction false} StampReaches(env: Env, nodes: Nodes, es: seq<Entry>, k: nat)
    requires IsTidy(es) && k < |es| && IsDirectory(es[k].mode) && StillNew(env, nodes, es[..k + 1])
    ensures env.StampDirectory(nodes, es[k]).Some?
  {
    var p := PathOf(es[k]);
    SafeAt(es, k);
    ValidNameRoute(es[k].name);
    forall q | q <= Parent(p) && q != []
      ensures q in nodes && env.Enterable(nodes[q]) && IsName(q[|q| - 1]) {
      var j := Ancestor(Placements(es), k, q);
      assert PathOf(es[..k + 1][j]) == q && IsDirectory(es[..k + 1][j].mode);
      assert q[|q| - 1] == p[|q| - 1];
    }
    assert es[..k + 1][k] == es[k];
    WalkDown(env, nodes, Parent(p));
  }

  lemma {:induction false} StillNewPrefix(env: Env, before: Nodes, after: Nodes, es: seq<Entry>, k: nat, p: Path)
    requires 0 < k <= |es| && StillNew(env, before, es[..k])
    requires forall q {:trigger q in after} :: q != p && q in before ==> q in after && after[q] == before[q]
    requires forall i :: 0 <= i < k - 1 ==> PathOf(es[i]) != p
    ensures StillNew(env, after, es[..k - 1])
  {
    var init := es[..k - 1];
    forall i | 0 <= i < |init| && IsDirectory(init[i].mode)
      ensures PathOf(init[i]) in after && env.Enterable(after[PathOf(init[i])]) {
      assert es[..k][i] == init[i] == es[i];
    }
  }

  lemma {:induction false} TidyIsStamped(env: Env, nodes: Nodes, es: seq<Entry>, k: nat)
    requires IsTidy(es) && k <= |es| && StillNew(env, nodes, es[..k])
    ensures env.StampDirectories(nodes, Directories(es[..k])).Some?
  {
    if k > 0 {
      var init, e := es[..k - 1], es[k - 1];
      assert es[..k][..k - 1] == init;
      PathsDiffer(es, k - 1);
      if IsDirectory(e.mode) {
        StampReaches(env, nodes, es, k - 1);
        var kept := Entry(e.mode, e.uid, e.gid, e.name, "");
        var n := env.StampDirectory(nodes, kept).value;
        StillNewPrefix(env, nodes, n, es, k, PathOf(e));
        TidyIsStamped(env, n, es, k - 1);
        LastStamp(env, nodes, Directories(init), kept);
      } else {
        assert Directories(init) + [] == Directories(init);
        StillNewPrefix(env, nodes, nodes, es, k, PathOf(e));
        TidyIsStamped(env, nodes, es, k - 1);
      }
    }
  }

  lemma {:induction false} LastStamp(env: Env, nodes: Nodes, dirs: seq<Entry>, e: Entry)
    ensures env.StampDirectories(nodes, dirs + [e])
            == match env.StampDirectory(nodes, e) case None => None case Some(n) => env.StampDirectories(n, dirs)
  {
    assert (dirs + [e])[..|dirs|] == dirs;
  }

  // ----- All three

  lemma {:induction false} PlacedIsNew(env: Env, start: Nodes, n: Nodes, es: seq<Entry>)
    requires Safe(es) && Fresh(env, start) && Shows(env, start, n, es)
    ensures StillNew(env, n, es)
  {
    forall i | 0 <= i < |es| && IsDirectory(es[i].mode)
      ensures PathOf(es[i]) in n && env.Enterable(n[PathOf(es[i])]) {
      assert Shown(env, n, es[i]);
      SafeAt(es, i);
      ValidNameRoute(es[i].name);
      var j :| 0 <= j < |es| && AccountedBy(env, es[j], PathOf(es[i]), n[PathOf(es[i])]);
    }
  }

  /** Extraction of a tidy archive does not fail. */
  lemma {:induction false} TidyIsExtracted(env: Env, start: Nodes, es: seq<Entry>)
    requires IsTidy(es) && Fresh(env, start)
    ensures env.Extracted(start, es).Some?
  {
    assert es[..|es|] == es;
    TidyIsPlaced(env, start, es);
    var placed := env.PlaceEntries(start, es).value;
    PlacedMeans(env, start, es);
    PlacedIsNew(env, start, placed, es);
    TidyIsLinked(env, start, placed, es, |es|);
    var linked := env.PlaceLinks(placed, Links(es)).value;
    LinkedMeans(env, placed, es);
    StillNewAfter(env, placed, linked, es);
    TidyIsStamped(env, linked, es, |es|);
  }

  lemma {:induction false} StillNewAfter(env: Env, before: Nodes, after: Nodes, es: seq<Entry>)
    requires StillNew(env, before, es) && Extends(before, after)
    ensures StillNew(env, after, es)
  {
  }

  lemma {:induction false} FirstIs(at: string -> bool, es: seq<Entry>, i: nat)
    requires i < |es| && IsDirectory(es[i].mode) && at(es[i].name)
    requires forall j :: 0 <= j < |es| && j != i ==> !at(es[j].name)
    ensures First(at, es) == Some(es[i])
    decreases |es|
  {
    var k := |es| - 1;
    if i < k {
      FirstIs(at, es[..k], i);
    } else {
      NoneBefore(at, es[..k]);
    }
  }

  lemma {:induction false} NoneBefore(at: string -> bool, es: seq<Entry>)
    requires forall j :: 0 <= j < |es| ==> !at(es[j].name)
    ensures First(at, es) == None
  {
    if es != [] {
      NoneBefore(at, es[..|es| - 1]);
    }
  }

  /** The node an entry becomes, where only root sets owners. */
  predicate Becomes(env: Env, e: Entry, n: Node) {
    && (IsDirectory(e.mode) ==> Carries(env, env.caller, n, e))
    && (IsRegular(e.mode) ==> n == env.FileOf(e))
    && (IsLink(e.mode) ==> n == Link(e.data))
  }

  /** The tree is the entries, each at its path, and nothing else. */
  ghost predicate Represents(env: Env, es: seq<Entry>, n: Nodes) {
    && (forall i :: 0 <= i < |es| ==>
          PathOf(es[i]) in n && PathOf(es[i]) != [] && Becomes(env, es[i], n[PathOf(es[i])]))
    && (forall p :: p in n && p != [] ==> exists i :: 0 <= i < |es| && PathOf(es[i]) == p)
  }

  lemma {:induction false} EntryBecomes(env: Env, es: seq<Entry>, n: Nodes, i: nat)
    requires IsTidy(es) && i < |es| && Kept(env, n, es[i], PathOf(es[i]))
    requires Explained(env, es, PathOf(es[i]), n[PathOf(es[i])])
    ensures Becomes(env, es[i], n[PathOf(es[i])])
  {
    if IsDirectory(es[i].mode) {
      PathsDiffer(es, i);
      FirstIs(At(PathOf(es[i])), es, i);
    }
  }

  lemma {:induction false} ParentIsListed(es: seq<Entry>, i: nat, p: Path) returns (j: nat)
    requires IsTidy(es) && i < |es| && p <= PathOf(es[i]) && p != []
    ensures j < |es| && PathOf(es[j]) == p
  {
    assert Placements(es)[i].path == PathOf(es[i]);
    if p == PathOf(es[i]) {
      j := i;
    } else {
      j := Ancestor(Placements(es), i, p);
    }
  }

  lemma {:induction false} DirectoryIsListed(env: Env, es: seq<Entry>, p: Path, n: Node) returns (j: nat)
    requires IsTidy(es) && p != [] && Explained(env, es, p, n) && n.Directory?
    ensures j < |es| && PathOf(es[j]) == p
  {
    if First(At(p), es).None? {
      var i: nat :| i < |es| && p <= PathOf(es[i]);
      j := ParentIsListed(es, i, p);
    } else {
      j := FirstIsListed(At(p), es);
    }
  }

  lemma {:induction false} NodeIsListed(env: Env, es: seq<Entry>, p: Path, n: Node) returns (j: nat)
    requires IsTidy(es) && p != [] && Explained(env, es, p, n)
    ensures j < |es| && PathOf(es[j]) == p
  {
    if n.Directory? {
      j := DirectoryIsListed(env, es, p, n);
    } else {
      j :| j < |es| && PathOf(es[j]) == p;
    }
  }

  lemma {:induction false} FirstIsListed(at: string -> bool, es: seq<Entry>) returns (j: nat)
    requires First(at, es).Some?
    ensures j < |es| && at(es[j].name)
  {
    if First(at, es[..|es| - 1]).Some? {
      j := FirstIsListed(at, es[..|es| - 1]);
    } else {
      j := |es| - 1;
    }
  }

  /** Extracting a tidy archive gives exactly the tree of its entries. */
  lemma {:induction false} TidyMeans(env: Env, start: Nodes, es: seq<Entry>)
    requires IsTidy(es) && Fresh(env, start)
    ensures env.Extracted(start, es).Some? && Represents(env, es, env.Extracted(start, es).value)
  {
    TidyIsExtracted(env, start, es);
    ExtractedMeans(env, start, es);
    var n := env.Extracted(start, es).value;
    forall i | 0 <= i < |es|
      ensures PathOf(es[i]) in n && PathOf(es[i]) != [] && Becomes(env, es[i], n[PathOf(es[i])]) {
      SafeAt(es, i);
      ValidNameRoute(es[i].name);
      assert Kept(env, n, es[i], PathOf(es[i]));
      EntryBecomes(env, es, n, i);
    }
    forall p | p in n && p != [] ensures exists i :: 0 <= i < |es| && PathOf(es[i]) == p {
      var j := NodeIsListed(env, es, p, n[p]);
    }
  }
}
