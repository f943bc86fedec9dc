/**
  What extraction leaves behind, said about paths and entries: every file and link
  of the archive, every directory with the metadata of its first entry, and
  otherwise only the parents that these need.
*/
module ExtractionMeaning {
  import opened CStrings
  import opened Archive
  import opened FileTree
  import opened Extraction

  function PathOf(e: Entry): Path { RouteOf(e.name).path }

  /** p is a directory because of this entry: a parent of it, or its own path. */
  predicate Implies(e: Entry, p: Path) {
    p != [] && (p < PathOf(e) || (p == PathOf(e) && (IsDirectory(e.mode) || RouteOf(e.name).slash)))
  }

  // ----- The first phase

  /** n is at p because of this entry: as a new directory, or as its file. */
  predicate AccountedBy(env: Env, e: Entry, p: Path, n: Node) {
    (n == env.NewDirectory() && Implies(e, p)) || (IsRegular(e.mode) && PathOf(e) == p && n == env.FileOf(e))
  }

  predicate Accounted(env: Env, es: seq<Entry>, p: Path, n: Node) {
    exists i :: 0 <= i < |es| && AccountedBy(env, es[i], p, n)
  }

  /** What the placed tree holds for an entry. */
  predicate Shown(env: Env, nodes: Nodes, e: Entry) {
    && (IsDirectory(e.mode) ==> PathOf(e) in nodes && nodes[PathOf(e)].Directory?)
    && (IsRegular(e.mode) ==> PathOf(e) in nodes && nodes[PathOf(e)] == env.FileOf(e))
  }

  lemma {:induction false} EntryMeans(env: Env, nodes: Nodes, e: Entry)
    requires env.PlaceEntry(nodes, e).Some? && RouteOf(e.name).path != []
    ensures var n := env.PlaceEntry(nodes, e).value;
            Extends(nodes, n) && Shown(env, n, e) && forall p :: p in n && p !in nodes ==> AccountedBy(env, e, p, n[p])
  {
    MadeDirectories(env, nodes, env.ParentOf(RouteOf(e.name)));
    assert env.ParentOf(RouteOf(e.name)) <= PathOf(e);
  }

  lemma {:induction false} AccountedStays(env: Env, es: seq<Entry>, e: Entry, p: Path, n: Node)
    requires Accounted(env, es, p, n) || AccountedBy(env, e, p, n)
    ensures Accounted(env, es + [e], p, n)
  {
    var all := es + [e];
    assert all[|es|] == e && forall i :: 0 <= i < |es| ==> all[i] == es[i];
  }

  lemma {:induction false} ShownStays(env: Env, before: Nodes, after: Nodes, e: Entry)
    requires Shown(env, before, e) && Extends(before, after)
    ensures Shown(env, after, e)
  {
  }

  /** The placed tree shows all entries and has nothing else that is new. */
  ghost predicate Shows(env: Env, start: Nodes, n: Nodes, es: seq<Entry>) {
    && Extends(start, n)
    && (forall i :: 0 <= i < |es| ==> Shown(env, n, es[i]))
    && (forall p :: p in n && p !in start ==> Accounted(env, es, p, n[p]))
  }

  lemma {:induction false} ShowsStep(env: Env, start: Nodes, before: Nodes, n: Nodes, es: seq<Entry>, e: Entry)
    requires Shows(env, start, before, es) && Extends(before, n) && Shown(env, n, e)
    requires forall p :: p in n && p !in before ==> AccountedBy(env, e, p, n[p])
    ensures Shows(env, start, n, es + [e])
  {
    forall i | 0 <= i < |es| ensures Shown(env, n, es[i]) {
      ShownStays(env, before, n, es[i]);
    }
    forall p | p in n && p !in start ensures Accounted(env, es + [e], p, n[p]) {
      AccountedStays(env, es, e, p, n[p]);
    }
  }

  lemma {:induction false} PlacedMeans(env: Env, start: Nodes, es: seq<Entry>)
    requires env.PlaceEntries(start, es).Some? && Safe(es)
    ensures Shows(env, start, env.PlaceEntries(start, es).value, es)
  {
    if es != [] {
      var init, e := es[..|es| - 1], es[|es| - 1];
      PlacedMeans(env, start, init);
      ValidNameRoute(e.name);
      var before := env.PlaceEntries(start, init).value;
      EntryMeans(env, before, e);
      ShowsStep(env, start, before, env.PlaceEntry(before, e).value, init, e);
      assert es == init + [e];
    }
  }

  // ----- The second phase

  predicate HoldsLink(nodes: Nodes, n: Nodes, p: Path, target: string) {
    p in n && n[p] == Link(target) && p !in nodes
  }

  predicate IsLinkAt(e: Entry, p: Path) { IsLink(e.mode) && PathOf(e) == p }

  /** What the linked tree holds for these entries, and nothing else that is new. */
  ghost predicate HoldsLinks(nodes: Nodes, n: Nodes, es: seq<Entry>) {
    && (forall i :: 0 <= i < |es| && IsLink(es[i].mode) ==> HoldsLink(nodes, n, PathOf(es[i]), es[i].data))
    && (forall p :: p in n && p !in nodes ==> exists i :: 0 <= i < |es| && IsLinkAt(es[i], p))
  }

  lemma {:induction false} LinkedMeans(env: Env, nodes: Nodes, es: seq<Entry>)
    requires env.PlaceLinks(nodes, Links(es)).Some?
    ensures Extends(nodes, env.PlaceLinks(nodes, Links(es)).value)
    ensures HoldsLinks(nodes, env.PlaceLinks(nodes, Links(es)).value, es)
  {
    if es != [] {
      var init, e := es[..|es| - 1], es[|es| - 1];
      assert es == init + [e];
      if IsLink(e.mode) {
        var kept := Entry(e.mode, 0, 0, e.name, e.data);
        assert (Links(init) + [kept])[..|Links(init)|] == Links(init);
        LinkedMeans(env, nodes, init);
        var before := env.PlaceLinks(nodes, Links(init)).value;
        LinkHeld(nodes, before, before[PathOf(e) := Link(e.data)], init, e, PathOf(e));
      } else {
        assert Links(init) + [] == Links(init);
        LinkedMeans(env, nodes, init);
        OtherHeld(nodes, env.PlaceLinks(nodes, Links(es)).value, init, e);
      }
    }
  }

  lemma {:induction false} LinkHeld(nodes: Nodes, before: Nodes, n: Nodes, es: seq<Entry>, e: Entry, p: Path)
    requires HoldsLinks(nodes, before, es) && Extends(nodes, before) && IsLink(e.mode)
    requires p == PathOf(e) && p !in before && n == before[p := Link(e.data)]
    ensures HoldsLinks(nodes, n, es + [e]) && Extends(nodes, n)
  {
    var all := es + [e];
    forall i | 0 <= i < |all| && IsLink(all[i].mode) ensures HoldsLink(nodes, n, PathOf(all[i]), all[i].data) {
      if i < |es| {
        assert HoldsLink(nodes, before, PathOf(es[i]), es[i].data);
      }
    }
    forall q | q in n && q !in nodes ensures exists i :: 0 <= i < |all| && IsLinkAt(all[i], q) {
      if q in before {
        var i :| 0 <= i < |es| && IsLinkAt(es[i], q);
        assert IsLinkAt(all[i], q);
      } else {
        assert IsLinkAt(all[|es|], q);
      }
    }
  }

  lemma {:induction false} OtherHeld(nodes: Nodes, n: Nodes, es: seq<Entry>, e: Entry)
    requires HoldsLinks(nodes, n, es) && !IsLink(e.mode)
    ensures HoldsLinks(nodes, n, es + [e])
  {
    var all := es + [e];
    assert forall i :: 0 <= i < |es| ==> all[i] == es[i];
    forall q | q in n && q !in nodes ensures exists i :: 0 <= i < |all| && IsLinkAt(all[i], q) {
      var i :| 0 <= i < |es| && IsLinkAt(es[i], q);
      assert IsLinkAt(all[i], q);
    }
  }

  // ----- The third phase

  /** The first directory entry whose name passes a test. */
  function First(at: string -> bool, es: seq<Entry>): Option<Entry> {
    if es == [] then None else FirstOr(First(at, es[..|es| - 1]), at, es[|es| - 1])
  }

  function FirstOr(before: Option<Entry>, at: string -> bool, e: Entry): Option<Entry> {
    if before.None? && IsDirectory(e.mode) && at(e.name) then Some(e) else before
  }

  function At(p: Path): string -> bool { name => RouteOf(name).path == p }

  predicate SameMetadata(a: Option<Entry>, b: Option<Entry>) {
    (a.Some? <==> b.Some?)
    && (a.Some? ==> a.value.mode == b.value.mode && a.value.uid == b.value.uid && a.value.gid == b.value.gid)
  }

  lemma {:induction false} FirstSnoc(at: string -> bool, es: seq<Entry>, e: Entry)
    ensures First(at, es + [e]) == FirstOr(First(at, es), at, e)
  {
    assert (es + [e])[..|es|] == es;
  }

  lemma {:induction false} FirstOfDirectories(at: string -> bool, es: seq<Entry>)
    ensures SameMetadata(First(at, Directories(es)), First(at, es))
  {
    if es != [] {
      var init, e := es[..|es| - 1], es[|es| - 1];
      FirstOfDirectories(at, init);
      if IsDirectory(e.mode) {
        FirstSnoc(at, Directories(init), Entry(e.mode, e.uid, e.gid, e.name, ""));
      } else {
        assert Directories(init) + [] == Directories(init);
      }
    }
  }

  /** A directory with the permissions of an entry, and, for root, with its owner. */
  predicate Carries(env: Env, before: Owner, n: Node, e: Entry) {
    && n.Directory? && n.perm == Permissions(e.mode)
    && (!env.privileged ==> n.owner == before)
    && (env.privileged && e.uid != Uint32Max ==> n.owner.uid == e.uid)
    && (env.privileged && e.gid != Uint32Max ==> n.owner.gid == e.gid)
  }

  /** What setting the metadata makes of a node, given the first directory there. */
  predicate Finished(env: Env, before: Node, after: Node, first: Option<Entry>) {
    if first.None? then after == before else before.Directory? && Carries(env, before.owner, after, first.value)
  }

  lemma {:induction false} StampedMeans(env: Env, nodes: Nodes, dirs: seq<Entry>, at: string -> bool, p: Path)
    requires env.StampDirectories(nodes, dirs).Some?
    requires forall i :: 0 <= i < |dirs| ==> IsDirectory(dirs[i].mode)
    requires forall name {:trigger RouteOf(name)} :: at(name) <==> RouteOf(name).path == p
    ensures var n := env.StampDirectories(nodes, dirs).value;
            SameShape(nodes, n) && (p in n ==> Finished(env, nodes[p], n[p], First(at, dirs)))
  {
    if dirs != [] {
      var init, e := dirs[..|dirs| - 1], dirs[|dirs| - 1];
      assert at(e.name) <==> RouteOf(e.name).path == p;
      StampedMeans(env, env.StampDirectory(nodes, e).value, init, at, p);
    }
  }

  // ----- All three

  /** What the finished tree holds for an entry. */
  predicate Kept(env: Env, n: Nodes, e: Entry, p: Path) {
    p in n
    && (IsDirectory(e.mode) ==> n[p].Directory?)
    && (IsRegular(e.mode) ==> n[p] == env.FileOf(e))
    && (IsLink(e.mode) ==> n[p] == Link(e.data))
  }

  /** Why a node is there: it is a file or link of the archive, a directory that
      carries the metadata of the first entry with its path, or, without such an
      entry, a new directory that some entry needs as a parent. */
  predicate Explained(env: Env, es: seq<Entry>, p: Path, n: Node) {
    match n
    case File(_, _, _) =>
      exists i :: 0 <= i < |es| && PathOf(es[i]) == p && IsRegular(es[i].mode) && n == env.FileOf(es[i])
    case Link(_) => exists i :: 0 <= i < |es| && PathOf(es[i]) == p && IsLink(es[i].mode) && n == Link(es[i].data)
    case Directory(_, _) =>
      var first := First(At(p), es);
      if first.Some? then Carries(env, env.caller, n, first.value)
      else n == env.NewDirectory() && exists i :: 0 <= i < |es| && p <= PathOf(es[i])
  }

  lemma {:induction false} LinkIsExplained(env: Env, es: seq<Entry>, nodes: Nodes, n: Nodes, p: Path)
    requires HoldsLinks(nodes, n, es) && p in n && p !in nodes
    ensures n[p].Link? && Explained(env, es, p, n[p])
  {
    var i :| 0 <= i < |es| && IsLinkAt(es[i], p);
    assert HoldsLink(nodes, n, PathOf(es[i]), es[i].data);
  }

  lemma {:induction false} DirectoriesAreDirectories(es: seq<Entry>)
    ensures forall i :: 0 <= i < |Directories(es)| ==> IsDirectory(Directories(es)[i].mode)
  {
    DeferredHold((name, directory) => true, es);
  }

  /** What the last phase does to one node. */
  lemma {:induction false} FinishedAt(env: Env, linked: Nodes, es: seq<Entry>, p: Path)
    requires env.StampDirectories(linked, Directories(es)).Some?
    ensures var n := env.StampDirectories(linked, Directories(es)).value;
            SameShape(linked, n) && (p in n ==> Finished(env, linked[p], n[p], First(At(p), es)))
  {
    DirectoriesAreDirectories(es);
    StampedMeans(env, linked, Directories(es), At(p), p);
    FirstOfDirectories(At(p), es);
  }

  lemma {:induction false} ExtractedMeans(env: Env, start: Nodes, es: seq<Entry>)
    requires start.Keys == {[]} && Safe(es) && env.Extracted(start, es).Some?
    ensures var n := env.Extracted(start, es).value;
            && (forall i :: 0 <= i < |es| ==> Kept(env, n, es[i], PathOf(es[i])))
            && (forall p :: p in n && p != [] ==> Explained(env, es, p, n[p]))
  {
    var placed := env.PlaceEntries(start, es).value;
    var linked := env.PlaceLinks(placed, Links(es)).value;
    var n := env.Extracted(start, es).value;
    PlacedMeans(env, start, es);
    LinkedMeans(env, placed, es);
    forall i | 0 <= i < |es| ensures Kept(env, n, es[i], PathOf(es[i])) {
      SafeAt(es, i);
      KeptAtEnd(env, start, es, placed, linked, i);
    }
    forall p | p in n && p != [] ensures Explained(env, es, p, n[p]) {
      ExplainedAtEnd(env, start, es, placed, linked, p);
    }
  }

  lemma {:induction false} KeptAtEnd(env: Env, start: Nodes, es: seq<Entry>, placed: Nodes, linked: Nodes, i: nat)
    requires i < |es| && Shown(env, placed, es[i])
    requires Extends(placed, linked) && HoldsLinks(placed, linked, es)
    requires env.StampDirectories(linked, Directories(es)).Some? && AllowedType(es[i].mode)
    ensures Kept(env, env.StampDirectories(linked, Directories(es)).value, es[i], PathOf(es[i]))
  {
    FinishedAt(env, linked, es, PathOf(es[i]));
    if IsLink(es[i].mode) {
      assert HoldsLink(placed, linked, PathOf(es[i]), es[i].data);
    }
  }

  lemma {:induction false} PlacedIsExplained(env: Env, es: seq<Entry>, p: Path, before: Node, after: Node,
      first: Option<Entry>)
    requires Accounted(env, es, p, before) && Finished(env, before, after, first) && first == First(At(p), es)
    ensures Explained(env, es, p, after)
  {
    var i :| 0 <= i < |es| && AccountedBy(env, es[i], p, before);
    assert p <= PathOf(es[i]);
  }

  lemma {:induction false} ExplainedAtEnd(env: Env, start: Nodes, es: seq<Entry>, placed: Nodes, linked: Nodes, p: Path)
    requires start.Keys == {[]} && p != [] && Extends(placed, linked) && HoldsLinks(placed, linked, es)
    requires p in placed && p !in start ==> Accounted(env, es, p, placed[p])
    requires env.StampDirectories(linked, Directories(es)).Some?
    requires p in env.StampDirectories(linked, Directories(es)).value
    ensures Explained(env, es, p, env.StampDirectories(linked, Directories(es)).value[p])
  {
    FinishedAt(env, linked, es, p);
    if p in placed {
      PlacedIsExplained(env, es, p, placed[p], env.StampDirectories(linked, Directories(es)).value[p],
                        First(At(p), es));
    } else {
      LinkIsExplained(env, es, placed, linked, p);
    }
  }
}
