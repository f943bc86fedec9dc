/**
  A directory tree, the way the kernel walks a path in it, and what extraction
  makes of a list of archive entries: first the files and directories with the
  parents they need, then the symbolic links, and at the end, from the last
  directory to the first, owners and permissions of the directories.
*/
module FileTree {
  import opened CStrings
  import opened Archive

  /** The components of a path below the destination; [] is the destination. */
  type Path = seq<string>

  datatype Owner = Owner(uid: nat, gid: nat)

  datatype Node =
    | Directory(perm: nat, owner: Owner)
    | File(perm: nat, owner: Owner, data: string)
    | Link(target: string)

  type Nodes = map<Path, Node>

  /** What something in a directory can be called: . and .. are the directory itself
      and the one above it. */
  predicate IsName(c: string) { c != "" && c != "." && c != ".." }

  /** A path as a system call gets it: its components, and whether it ends with a slash. */
  datatype Route = Route(path: Path, slash: bool)
  {
    /** Calls that make a name do not look through what is there. */
    function Bare(): Route { Route(path, false) }
  }

  function RouteOf(name: string): Route {
    Route(Tokens(name, '/'), name != "" && name[|name| - 1] == '/')
  }

  /** A way to place an entry in a tree, if it can be. */
  type Placer = (Nodes, Entry) -> Option<Nodes>

  /** The entries one after the other, until one cannot be placed. */
  function Fold(place: Placer, nodes: Nodes, es: seq<Entry>): Option<Nodes> {
    if es == [] then Some(nodes)
    else
      match Fold(place, nodes, es[..|es| - 1])
      case None => None
      case Some(n) => place(n, es[|es| - 1])
  }

  /** Who extracts: root or not, the owner of what is created, and what the umask
      leaves of a mode. */
  datatype Env = Env(privileged: bool, caller: Owner, mask: nat -> nat)
  {
    const DirectoryMode: nat := 0x1ed

    /** A directory as mkdir(path, 0755) makes it. */
    function NewDirectory(): Node { Directory(mask(DirectoryMode), caller) }

    /** Octal 0755, less what the umask takes. */
    lemma {:induction false} NewDirectoryMode()
      ensures NewDirectory() == Directory(mask(7 * 64 + 5 * 8 + 5), caller)
    {
    }

    /** The owner may pass through, or nobody stops the caller. */
    predicate Passable(perm: nat) { privileged || perm / 0x40 % 2 == 1 }

    predicate Enterable(n: Node) { n.Directory? && Passable(n.perm) }

    /** Names can be made in it: that takes writing as well as passing through. */
    predicate Usable(n: Node) { Enterable(n) && (privileged || n.perm / 0x80 % 2 == 1) }

    /** The bits of the owner: reading, writing and passing through. */
    lemma {:induction false} OwnerBits(r: nat, w: nat, x: nat, others: nat, owner: Owner)
      requires r < 2 && w < 2 && x < 2 && others < 64
      ensures var perm := (4 * r + 2 * w + x) * 64 + others;
              && (Passable(perm) <==> privileged || x == 1)
              && (Usable(Directory(perm, owner)) <==> privileged || (w == 1 && x == 1))
    {
      var perm := (4 * r + 2 * w + x) * 64 + others;
      assert perm / 0x40 == 4 * r + 2 * w + x;
      assert perm / 0x80 == 2 * r + w;
    }

    /** chown, where an all-ones identifier leaves what there is. */
    function Chowned(o: Owner, uid: nat, gid: nat): Owner {
      if !privileged then o
      else Owner(if uid == Uint32Max then o.uid else uid, if gid == Uint32Max then o.gid else gid)
    }

    /** Only root changes owners, and an identifier of 32 ones changes nothing. */
    lemma {:induction false} ChownedIs(o: Owner, uid: nat, gid: nat)
      ensures !privileged ==> Chowned(o, uid, gid) == o
      ensures privileged ==> Chowned(o, 0xffff_ffff, gid).uid == o.uid && Chowned(o, uid, 0xffff_ffff).gid == o.gid
      ensures privileged && uid < 0xffff_ffff && gid < 0xffff_ffff ==> Chowned(o, uid, gid) == Owner(uid, gid)
    {
    }

    /** The file an entry ends up as. */
    function FileOf(e: Entry): Node { File(Permissions(e.mode), Chowned(caller, e.uid, e.gid), e.data) }

    // ----- Walking a path

    /** Where a walk along all components of a path ends up: in a directory of the
        tree, nowhere, or, by a symbolic link or a dot component, out of the tree. */
    function Walk(nodes: Nodes, p: Path): Place {
      if p == [] then Inside
      else
        var k := |p| - 1;
        var before := Walk(nodes, p[..k]);
        if before != Inside then before
        else if !IsName(p[k]) then Outside
        else if p !in nodes then Nowhere
        else if nodes[p].Link? then Outside
        else if Enterable(nodes[p]) then Inside
        else Nowhere
    }

    /** The walk gets through component k to a directory of the tree. */
    predicate Through(nodes: Nodes, p: Path, k: nat)
      requires k < |p|
    {
      && p[k] != "" && p[k] != "." && p[k] != ".."
      && p[..k + 1] in nodes && nodes[p[..k + 1]].Directory? && Passable(nodes[p[..k + 1]].perm)
    }

    /** Component k leads out of the tree. */
    predicate LeadsOut(nodes: Nodes, p: Path, k: nat)
      requires k < |p|
    {
      p[k] == "" || p[k] == "." || p[k] == ".." || (p[..k + 1] in nodes && nodes[p[..k + 1]].Link?)
    }

    lemma {:induction false} ThroughPrefix(nodes: Nodes, p: Path, n: nat, k: nat)
      requires k < n <= |p|
      ensures Through(nodes, p[..n], k) <==> Through(nodes, p, k)
      ensures LeadsOut(nodes, p[..n], k) <==> LeadsOut(nodes, p, k)
    {
      assert p[..n][..k + 1] == p[..k + 1];
    }

    /** The first component that the walk does not get through leads out. */
    predicate LeavesAt(nodes: Nodes, p: Path, k: nat) {
      k < |p| && LeadsOut(nodes, p, k) && forall j :: 0 <= j < k ==> Through(nodes, p, j)
    }

    lemma {:induction false} LeavesAtPrefix(nodes: Nodes, p: Path, n: nat, k: nat)
      requires k < n <= |p|
      ensures LeavesAt(nodes, p[..n], k) <==> LeavesAt(nodes, p, k)
    {
      forall j | 0 <= j <= k
        ensures Through(nodes, p[..n], j) <==> Through(nodes, p, j)
        ensures LeadsOut(nodes, p[..n], j) <==> LeadsOut(nodes, p, j)
      {
        ThroughPrefix(nodes, p, n, j);
      }
    }

    lemma {:induction false} WalkStep(nodes: Nodes, p: Path)
      requires p != []
      ensures var n := |p| - 1;
              var before := Walk(nodes, p[..n]);
              && (Walk(nodes, p) == Inside <==> before == Inside && Through(nodes, p, n))
              && (Walk(nodes, p) == Outside <==> before == Outside || (before == Inside && LeadsOut(nodes, p, n)))
    {
      assert p[..|p| - 1 + 1] == p;
    }

    /** A walk stays inside exactly if it gets through every component, and leaves the
        tree exactly by the first component that it does not get through. */
    lemma {:induction false} WalkIff(nodes: Nodes, p: Path)
      ensures Walk(nodes, p) == Inside <==> forall k :: 0 <= k < |p| ==> Through(nodes, p, k)
      ensures Walk(nodes, p) == Outside <==> exists k: nat :: LeavesAt(nodes, p, k)
    {
      if p != [] {
        var n := |p| - 1;
        WalkIff(nodes, p[..n]);
        WalkStep(nodes, p);
        forall k | 0 <= k < n ensures Through(nodes, p[..n], k) <==> Through(nodes, p, k) {
          ThroughPrefix(nodes, p, n, k);
        }
        assert Walk(nodes, p[..n]) == Inside ==> forall k :: 0 <= k < n ==> Through(nodes, p, k);
        if forall k :: 0 <= k < n ==> Through(nodes, p, k) {
          assert forall k :: 0 <= k < n ==> Through(nodes, p[..n], k);
        }
        LeavesStep(nodes, p);
      }
    }

    lemma {:induction false} LeavesStep(nodes: Nodes, p: Path)
      requires p != []
      ensures var n := |p| - 1;
              (exists k: nat :: LeavesAt(nodes, p, k))
              <==> || (exists k: nat :: LeavesAt(nodes, p[..n], k))
                   || (LeadsOut(nodes, p, n) && forall k :: 0 <= k < n ==> Through(nodes, p, k))
    {
      var n := |p| - 1;
      forall k: nat | k < n ensures LeavesAt(nodes, p[..n], k) <==> LeavesAt(nodes, p, k) {
        LeavesAtPrefix(nodes, p, n, k);
      }
      if exists k: nat :: LeavesAt(nodes, p, k) {
        var k: nat :| LeavesAt(nodes, p, k);
        assert k < n ==> LeavesAt(nodes, p[..n], k);
      }
      if exists k: nat :: LeavesAt(nodes, p[..n], k) {
        var k: nat :| LeavesAt(nodes, p[..n], k);
        assert LeavesAt(nodes, p, k);
      }
      if LeadsOut(nodes, p, n) && forall k :: 0 <= k < n ==> Through(nodes, p, k) {
        assert LeavesAt(nodes, p, n);
      }
    }

    /** Where a call finds the last component; calls that follow links, and a slash
        at the end, look through a link there. */
    function Locate(nodes: Nodes, r: Route, follow: bool): Place
      requires r.path != []
    {
      var k := |r.path| - 1;
      var before := Walk(nodes, r.path[..k]);
      if before != Inside then before
      else if !IsName(r.path[k]) then Outside
      else if r.path in nodes && nodes[r.path].Link? && (follow || r.slash) then Outside
      else Inside
    }

    /** A call leaves the tree by a directory before the last component, by a dot, or by
        a link that it looks through. */
    lemma {:induction false} LocateLeaves(nodes: Nodes, r: Route, follow: bool)
      requires r.path != []
      ensures var k := |r.path| - 1;
              Locate(nodes, r, follow) == Outside
              <==> || Walk(nodes, r.path[..k]) == Outside
                   || (&& Walk(nodes, r.path[..k]) == Inside && LeadsOut(nodes, r.path, k)
                       && (IsName(r.path[k]) ==> follow || r.slash))
    {
      assert r.path[..|r.path| - 1 + 1] == r.path;
    }

    /** Where a call that makes a name finds room for it. */
    function LocateNew(nodes: Nodes, r: Route): Place
      requires r.path != []
    {
      var parent := r.path[..|r.path| - 1];
      var place := Locate(nodes, r.Bare(), false);
      if place == Inside && !(parent in nodes && Usable(nodes[parent])) then Nowhere else place
    }

    // ----- Placing one entry

    /** ensure_safe_parent: the directories along a path, made where they are missing. */
    function MakeDirectories(nodes: Nodes, p: Path): Option<Nodes> {
      if p == [] then Some(nodes)
      else
        match MakeDirectories(nodes, p[..|p| - 1])
        case None => None
        case Some(n) =>
          if p !in n then Some(n[p := NewDirectory()])
          else if n[p].Directory? then Some(n) else None
    }

    /** What has to be a directory before the entry can be placed: the components
        before the last slash. */
    function ParentOf(r: Route): Path {
      if r.slash || r.path == [] then r.path else r.path[..|r.path| - 1]
    }

    function PlaceEntry(nodes: Nodes, e: Entry): Option<Nodes> {
      var r := RouteOf(e.name);
      match MakeDirectories(nodes, ParentOf(r))
      case None => None
      case Some(n) => PlaceLeaf(n, e)
    }

    /** What is placed in the parent. */
    function PlaceLeaf(n: Nodes, e: Entry): Option<Nodes> {
      var r := RouteOf(e.name);
      if IsDirectory(e.mode) then
        if r.path !in n then Some(n[r.path := NewDirectory()])
        else if n[r.path].Directory? then Some(n) else None
      else if IsRegular(e.mode) then
        if r.slash || r.path in n then None else Some(n[r.path := FileOf(e)])
      else Some(n)
    }

    function Placing(): Placer { (n: Nodes, e: Entry) => PlaceEntry(n, e) }

    function PlaceEntries(nodes: Nodes, es: seq<Entry>): Option<Nodes> { Fold(Placing(), nodes, es) }

    // ----- Links and directory metadata

    /** symlink, which refuses an empty target. */
    function PlaceLink(nodes: Nodes, e: Entry): Option<Nodes> {
      var r := RouteOf(e.name);
      if r.slash || e.data == "" || r.path in nodes then None else Some(nodes[r.path := Link(e.data)])
    }

    function PlaceLinks(nodes: Nodes, links: seq<Entry>): Option<Nodes> {
      if links == [] then Some(nodes)
      else
        match PlaceLinks(nodes, links[..|links| - 1])
        case None => None
        case Some(n) => PlaceLink(n, links[|links| - 1])
    }

    /** chown, for root, and chmod of one directory. */
    function StampDirectory(nodes: Nodes, e: Entry): Option<Nodes> {
      var p := RouteOf(e.name).path;
      if p == [] || Walk(nodes, p[..|p| - 1]) != Inside || p !in nodes || !nodes[p].Directory? then None
      else Some(nodes[p := Directory(Permissions(e.mode), Chowned(nodes[p].owner, e.uid, e.gid))])
    }

    /** From the last directory to the first. */
    function StampDirectories(nodes: Nodes, dirs: seq<Entry>): Option<Nodes> {
      if dirs == [] then Some(nodes)
      else
        match StampDirectory(nodes, dirs[|dirs| - 1])
        case None => None
        case Some(n) => StampDirectories(n, dirs[..|dirs| - 1])
    }

    /** The tree that extraction leaves in an empty destination when every system
        call does what it is asked to, or None if one of them has to fail. */
    function Extracted(start: Nodes, es: seq<Entry>): Option<Nodes> {
      match PlaceEntries(start, es)
      case None => None
      case Some(placed) =>
        match PlaceLinks(placed, Links(es))
        case None => None
        case Some(linked) => StampDirectories(linked, Directories(es))
    }
  }

  datatype Place = Inside | Nowhere | Outside

  /** The links that extraction keeps for later, as it keeps them. */
  function Links(es: seq<Entry>): seq<Entry> {
    if es == [] then []
    else
      var last := es[|es| - 1];
      Links(es[..|es| - 1]) + if IsLink(last.mode) then [Entry(last.mode, 0, 0, last.name, last.data)] else []
  }

  /** The directories whose metadata is set at the end. */
  function Directories(es: seq<Entry>): seq<Entry> {
    if es == [] then []
    else
      var last := es[|es| - 1];
      Directories(es[..|es| - 1])
      + if IsDirectory(last.mode) then [Entry(last.mode, last.uid, last.gid, last.name, "")] else []
  }
}
